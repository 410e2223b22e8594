/** The two writers and the reader of a request, called in any order: they perform the runs of `Session`. */
module Calls {
  import opened Bytes
  import opened Records
  import opened Demux
  import opened WriterSpec
  import opened Writer
  import opened Replies
  import opened Session
  import R = Reader

  ghost predicate Pair(out: Writer, err: Writer)
    reads out, err, out.conn, err.conn, out.req, err.req
  {
    && out != err && out.mBuff != err.mBuff && out.conn == err.conn && out.req == err.req
    && out.Valid() && err.Valid()
  }

  /** The streams of one request. */
  ghost predicate Trio(out: Writer, err: Writer, input: R.Reader)
    reads out, err, input, out.conn, err.conn, input.conn, out.req, err.req
  {
    && Pair(out, err) && input.conn == out.conn && input.req == out.req
    && input.mBuff != out.mBuff && input.mBuff != err.mBuff
    && input.Valid() && input.Ungettable() && out.req.isBeginProcessed
  }

  /** The streams stand as `s` says, with what it says sent behind `prefix`. */
  ghost predicate Shows(out: Writer, err: Writer, input: R.Reader, prefix: seq<byte>, s: State)
    reads out, err, out.mBuff, err.mBuff, out.conn, err.conn, out.req, err.req
    reads input, input.mBuff, input.conn, input.req
  {
    && Trio(out, err, input) && Sane(s)
    && out.Abs() == s.out && err.Abs() == s.err && Quiet(input.Abs()) == s.input
    && out.wasFCloseCalled == s.out.closed && err.wasFCloseCalled == s.err.closed
    && out.req.nWriters == s.nWriters && out.req.appStatus == s.appStatus
    && out.conn.wire == prefix + EncodeAll(s.sent)
  }

  /** A reader does not notice what its connection sends. */
  twostate lemma ReaderRests(input: R.Reader)
    requires old(input.Valid()) && input.Valid() && unchanged(input) && unchanged(input.mBuff)
    requires unchanged(input.conn`inbound) && input.req.Info() == old(input.req.Info())
    ensures Quiet(input.Abs()) == Quiet(old(input.Abs()))
  {
  }

  lemma InView(out: Writer, err: Writer, input: R.Reader)
    requires out.Valid() && err.Valid() && input.Valid()
    ensures out.Abs().closed == out.isClosed && err.Abs().closed == err.isClosed
    ensures input.Abs().closed == input.isClosed && input.Abs().typ == input.typ
    ensures input.Abs().req.role == input.req.role && input.Abs().wire == input.conn.wire
  {
  }

  /** A writer does not notice what its connection does. */
  twostate lemma WriterRests(w: Writer)
    requires old(w.Valid()) && w.Valid() && unchanged(w) && unchanged(w.mBuff)
    requires w.req.requestId == old(w.req.requestId)
    ensures w.Abs() == old(w.Abs())
  {
  }

  /** A call on a writer that is closed, if at all, by the application. */
  method PerformAct(w: Writer, act: Act)
    requires w.Valid()
    modifies w, w.mBuff, w.req`nWriters, w.conn`wire, w.conn`failures, w.conn`errors, w.conn`errno
    ensures w.Valid() && w.conn.failures >= old(w.conn.failures)
    ensures w.conn.failures == old(w.conn.failures) && old(w.wasFCloseCalled == w.isClosed) ==>
              var (t, rs) := Write(old(w.Abs()), act, old(w.req.nWriters), w.req.appStatus);
              && w.Abs() == t && w.wasFCloseCalled == t.closed && w.conn.wire == old(w.conn.wire) + EncodeAll(rs)
              && w.req.nWriters == old(w.req.nWriters) - Closing(old(w.Abs()), act)
  {
    hide EncodeAll, PutBytes, FlushRecords, CloseRecords;
    WireUnchanged(w.conn.wire);
    match act {
      case Put(bs) => var r := w.PutStr(bs);
      case FlushNow => var r := w.FFlush();
      case CloseNow => var r := w.FClose();
    }
  }

  /** A call on one of the writers. */
  method PerformWrite(out: Writer, err: Writer, input: R.Reader, op: Op, ghost prefix: seq<byte>, ghost s: State)
    requires op.Out? || op.Err?
    requires Trio(out, err, input) && Sane(s)
    modifies out, err, out.mBuff, err.mBuff, out.req`nWriters
    modifies out.conn`wire, out.conn`failures, out.conn`errors, out.conn`errno
    ensures Trio(out, err, input) && out.conn.failures >= old(out.conn.failures)
    ensures out.conn.failures == old(out.conn.failures) && old(Shows(out, err, input, prefix, s)) ==>
              Shows(out, err, input, prefix, Step(s, op))
  {
    hide EncodeAll, Write, Closing, Writer.Abs, R.Reader.Abs, Quiet;
    InView(out, err, input);
    if op.Out? {
      WireGrows(prefix, s.sent, Write(s.out, op.act, s.nWriters, s.appStatus).1);
      PerformAct(out, op.act);
      WriterRests(err);
    } else {
      WireGrows(prefix, s.sent, Write(s.err, op.act, s.nWriters, s.appStatus).1);
      PerformAct(err, op.act);
      WriterRests(out);
    }
    ReaderRests(input);
  }

  /** A read seen without what was sent before and what a closed reader has left. */
  lemma QuietRead(a: Rd, n: nat)
    ensures Quiet(Take(a, n).1) == Quiet(Take(Quiet(a), n).1)
    ensures Take(a, n).1.wire == a.wire + EncodeAll(Sends(Quiet(a), n))
  {
    hide Take, EncodeAll;
    if a.closed {
      ClosedSends(a, n);
    } else {
      ReadSends(a, n);
      assert a.(wire := []) == Quiet(a) && Quiet(a).(wire := []) == Quiet(a);
      assert Sends(a, n) == Sends(Quiet(a), n);
    }
  }

  lemma ClosedSends(a: Rd, n: nat)
    requires a.closed
    ensures Take(a, n) == ([], a) && Take(Quiet(a), n) == ([], Quiet(a))
    ensures Sends(Quiet(a), n) == [] && a.wire + EncodeAll([]) == a.wire
  {
  }

  /** A call on a reader: it reads on and sends the replies that come up. */
  method PerformRead(input: R.Reader, op: Op)
    requires op.Get? || op.StartData?
    requires input.Valid() && input.Ungettable() && input.req.isBeginProcessed
    modifies input, input.mBuff, input.conn`inbound
    modifies input.conn`wire, input.conn`failures, input.conn`errors, input.conn`errno
    modifies input.req`requestId, input.req`role, input.req`keepConnection, input.req`isBeginProcessed
    ensures input.Valid() && input.Ungettable() && input.conn.failures >= old(input.conn.failures)
    ensures input.req.Info() == old(input.req.Info())
    ensures input.conn.failures == old(input.conn.failures) ==>
              && Quiet(input.Abs()) == Read(Quiet(old(input.Abs())), op)
              && input.conn.wire == old(input.conn.wire) + EncodeAll(Replied(Quiet(old(input.Abs())), op))
  {
    hide EncodeAll, Take, Sends;
    ghost var a := input.Abs();
    WireUnchanged(input.conn.wire);
    if op.Get? {
      QuietRead(a, Max(op.n, 0));
      var single: bool := *;
      if single && op.n == 1 {
        var c := input.GetChar();
      } else {
        var str := input.GetStr(op.n);
      }
    } else {
      var r := input.StartFilterData();
    }
  }

  /** A call on the input stream. */
  method PerformIn(out: Writer, err: Writer, input: R.Reader, op: Op, ghost prefix: seq<byte>, ghost s: State)
    requires op.Get? || op.StartData?
    requires Trio(out, err, input) && Sane(s)
    modifies input, input.mBuff, out.conn`inbound, out.conn`wire, out.conn`failures, out.conn`errors, out.conn`errno
    modifies out.req`requestId, out.req`role, out.req`keepConnection, out.req`isBeginProcessed
    ensures Trio(out, err, input) && out.conn.failures >= old(out.conn.failures)
    ensures out.conn.failures == old(out.conn.failures) && old(Shows(out, err, input, prefix, s)) ==>
              Shows(out, err, input, prefix, Step(s, op))
  {
    hide EncodeAll, Replied, Read, Writer.Abs, R.Reader.Abs, Quiet;
    WireGrows(prefix, s.sent, Replied(s.input, op));
    PerformRead(input, op);
    WriterRests(out);
    WriterRests(err);
  }

  /** Any call. */
  method Perform(out: Writer, err: Writer, input: R.Reader, op: Op, ghost prefix: seq<byte>, ghost s: State)
    requires Trio(out, err, input) && Sane(s)
    modifies out, err, input, out.mBuff, err.mBuff, input.mBuff, out.req
    modifies out.conn`inbound, out.conn`wire, out.conn`failures, out.conn`errors, out.conn`errno
    ensures Trio(out, err, input) && out.conn.failures >= old(out.conn.failures)
    ensures out.conn.failures == old(out.conn.failures) && old(Shows(out, err, input, prefix, s)) ==>
              Shows(out, err, input, prefix, Step(s, op))
  {
    hide EncodeAll, Write, Closing, Read, Replied;
    if op.SetStatus? {
      out.req.appStatus := op.status;
    } else if op.Out? || op.Err? {
      PerformWrite(out, err, input, op, prefix, s);
    } else {
      PerformIn(out, err, input, op, prefix, s);
    }
  }

  /** Any sequence of calls on the three streams, over any chunking of what the peer sends, does exactly what `Run`
      says, record by record. */
  method PerformAll(out: Writer, err: Writer, input: R.Reader, ops: seq<Op>, ghost prefix: seq<byte>, ghost s0: State)
    requires Trio(out, err, input) && Sane(s0) && Shows(out, err, input, prefix, s0)
    modifies out, err, input, out.mBuff, err.mBuff, input.mBuff, out.req
    modifies out.conn`inbound, out.conn`wire, out.conn`failures, out.conn`errors, out.conn`errno
    ensures Trio(out, err, input) && out.conn.failures >= old(out.conn.failures)
    ensures out.conn.failures == old(out.conn.failures) ==> Shows(out, err, input, prefix, Run(s0, ops))
  {
    hide Step, Shows;
    assert ops[..0] == [];
    for i := 0 to |ops|
      invariant Trio(out, err, input) && out.conn.failures >= old(out.conn.failures)
      invariant out.conn.failures == old(out.conn.failures) ==> Shows(out, err, input, prefix, Run(s0, ops[..i]))
    {
      assert ops[..i + 1][..i] == ops[..i];
      Perform(out, err, input, ops[i], prefix, Run(s0, ops[..i]));
    }
    assert ops[..|ops|] == ops;
  }
}

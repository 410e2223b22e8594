/** The two halves together: what a writer sends, a reader of the same stream reads back. */
module RoundTrip {
  import opened Bytes
  import opened Records
  import opened Demux
  import opened DemuxLemmas
  import opened Streams
  import opened WriterSpec
  import opened Connection
  import R = Reader
  import W = Writer

  // ---------------------------------------------------------------- one writer

  datatype Op = Put(bs: seq<byte>) | FlushNow

  function PutBy(ops: seq<Op>): seq<byte> {
    if ops == [] then []
    else (match ops[0] case Put(bs) => bs case FlushNow => []) + PutBy(ops[1..])
  }

  function Step(w: Wr, op: Op): (r: (Wr, seq<Record>))
    requires w.Valid()
    ensures r.0.Valid() && AllValid(r.1) && r.0.typ == w.typ && r.0.id == w.id
  {
    match op
    case Put(bs) => PutBytes(w, bs)
    case FlushNow => (Flush(w), FlushRecords(w))
  }

  function Run(w: Wr, ops: seq<Op>): (r: (Wr, seq<Record>))
    requires w.Valid()
    ensures r.0.Valid() && AllValid(r.1) && r.0.typ == w.typ && r.0.id == w.id
    decreases |ops|
  {
    if ops == [] then (w, [])
    else
      var (w1, rs1) := Step(w, ops[0]);
      var (w2, rs2) := Run(w1, ops[1..]);
      (w2, rs1 + rs2)
  }

  /** Data records of one stream, framed to a whole number of eight byte units. */
  predicate Framed(rs: seq<Record>, typ: byte, id: nat) {
    && AllValid(rs)
    && forall r | r in rs :: IsData(r, typ, id) && (HEADER_LEN + |r.content| + |r.padding|) % 8 == 0 && |r.padding| < 8
  }

  lemma FlushFramed(w: Wr)
    requires w.Valid()
    ensures Framed(FlushRecords(w), w.typ, w.id) && Payload(FlushRecords(w), w.typ, w.id) == w.pending
  {
    if w.pending != [] {
      AlignInt8Least(|w.pending|, 0);
      var r := StreamRecord(w.typ, w.id, w.pending);
      assert [r][1..] == [];
      assert w.pending + [] == w.pending;
    }
  }

  /** What was pending and what is put are carried by the records sent and by what is still pending. */
  predicate Carries(w: Wr, bs: seq<byte>, w1: Wr, rs: seq<Record>) {
    && Framed(rs, w.typ, w.id) && w1.typ == w.typ && w1.id == w.id
    && Payload(rs, w.typ, w.id) + w1.pending == w.pending + bs
  }

  lemma CarriesThen(w: Wr, a: seq<byte>, w1: Wr, rs1: seq<Record>, b: seq<byte>, w2: Wr, rs2: seq<Record>)
    requires Carries(w, a, w1, rs1) && Carries(w1, b, w2, rs2)
    ensures Carries(w, a + b, w2, rs1 + rs2)
  {
    hide Payload;
    PayloadAppend(rs1, rs2, w.typ, w.id);
    assert Payload(rs1, w.typ, w.id) + Payload(rs2, w.typ, w.id) + w2.pending
        == Payload(rs1, w.typ, w.id) + (w1.pending + b);
    assert Payload(rs1, w.typ, w.id) + (w1.pending + b) == w.pending + a + b;
    assert w.pending + a + b == w.pending + (a + b);
  }

  lemma PutByteCarries(w: Wr, c: byte)
    requires w.Valid()
    ensures Carries(w, [c], PutByte(w, c).0, PutByte(w, c).1)
  {
    hide FlushRecords;
    if |w.pending| == w.cap {
      FlushFramed(w);
    } else {
      assert Payload([], w.typ, w.id) + (w.pending + [c]) == w.pending + [c];
    }
  }

  lemma {:induction false} PutBytesCarries(w: Wr, bs: seq<byte>)
    requires w.Valid()
    ensures Carries(w, bs, PutBytes(w, bs).0, PutBytes(w, bs).1)
    decreases |bs|
  {
    if bs == [] {
      assert Payload([], w.typ, w.id) + w.pending == w.pending + [];
    } else {
      hide Carries, PutByte;
      var (w1, rs1) := PutByte(w, bs[0]);
      PutByteCarries(w, bs[0]);
      PutBytesCarries(w1, bs[1..]);
      CarriesThen(w, [bs[0]], w1, rs1, bs[1..], PutBytes(w1, bs[1..]).0, PutBytes(w1, bs[1..]).1);
      assert [bs[0]] + bs[1..] == bs;
    }
  }

  lemma StepCarries(w: Wr, op: Op)
    requires w.Valid()
    ensures Carries(w, match op case Put(bs) => bs case FlushNow => [], Step(w, op).0, Step(w, op).1)
  {
    match op
    case Put(bs) => PutBytesCarries(w, bs);
    case FlushNow =>
      FlushFramed(w);
      assert Payload(FlushRecords(w), w.typ, w.id) + [] == w.pending + [];
  }

  lemma {:induction false} RunCarries(w: Wr, ops: seq<Op>)
    requires w.Valid()
    ensures Carries(w, PutBy(ops), Run(w, ops).0, Run(w, ops).1)
    decreases |ops|
  {
    if ops == [] {
      assert Payload([], w.typ, w.id) + w.pending == w.pending + [];
    } else {
      hide Carries, Step;
      var (w1, rs1) := Step(w, ops[0]);
      StepCarries(w, ops[0]);
      RunCarries(w1, ops[1..]);
      CarriesThen(w, match ops[0] case Put(bs) => bs case FlushNow => [], w1, rs1,
                  PutBy(ops[1..]), Run(w1, ops[1..]).0, Run(w1, ops[1..]).1);
    }
  }

  function Fresh(typ: byte, id: nat, cap: nat): Wr {
    Wr(typ, id, cap, [], false, false)
  }

  /** Everything a writer sends from its creation to its close. */
  function Sent(w: Wr, ops: seq<Op>, nWriters: int, appStatus: int): (rs: seq<Record>)
    requires w.Valid()
    ensures AllValid(rs)
  {
    Run(w, ops).1 + CloseRecords(Run(w, ops).0, nWriters, appStatus)
  }

  lemma {:induction false} AnythingSent(w: Wr, ops: seq<Op>)
    requires w.Valid()
    ensures Run(w, ops).0.anything <==> w.anything || Run(w, ops).1 != []
    decreases |ops|
  {
    if ops != [] {
      var (w1, rs1) := Step(w, ops[0]);
      if ops[0].Put? {
        AnythingPut(w, ops[0].bs);
      }
      AnythingSent(w1, ops[1..]);
    }
  }

  lemma {:induction false} AnythingPut(w: Wr, bs: seq<byte>)
    requires w.Valid()
    ensures PutBytes(w, bs).0.anything <==> w.anything || PutBytes(w, bs).1 != []
    decreases |bs|
  {
    if bs != [] {
      AnythingPut(PutByte(w, bs[0]).0, bs[1..]);
    }
  }

  lemma {:induction false} FramedContent(rs: seq<Record>, typ: byte, id: nat)
    requires Framed(rs, typ, id)
    ensures Payload(rs, typ, id) == [] <==> rs == []
  {
    if rs != [] {
      assert rs[0] in rs;
    }
  }

  /** Writer refinement: from creation to close, the wire is data records of the stream, none empty, all aligned,
      whose contents are exactly the bytes put; then one empty record, except for an error stream that carried
      nothing; then, from the last writer, the end of the request. */
  lemma WriterRefines(typ: byte, id: nat, cap: nat, ops: seq<Op>, nWriters: int, appStatus: int)
    requires id <= 0xffff && 0 < cap <= MAX_LENGTH
    ensures var sent := Sent(Fresh(typ, id, cap), ops, nWriters, appStatus);
            && ParseAll(EncodeAll(sent)) == Some(sent)
            && exists data: seq<Record> ::
                 && Framed(data, typ, id) && Payload(data, typ, id) == PutBy(ops)
                 && sent == data
                          + (if typ == STDERR && PutBy(ops) == [] then [] else [EndRecord(typ, id, [])])
                          + EndOfRequest(id, nWriters, appStatus)
  {
    var w0 := Fresh(typ, id, cap);
    var (w, rs) := Run(w0, ops);
    var sent := Sent(w0, ops, nWriters, appStatus);
    ParseEncodeAll(sent);
    var data := DataOf(w0, ops);
    DataSent(typ, id, cap, ops, nWriters, appStatus);
  }

  /** The data records among those sent. */
  function DataOf(w: Wr, ops: seq<Op>): (rs: seq<Record>)
    requires w.Valid()
    ensures AllValid(rs)
  {
    Run(w, ops).1 + FlushRecords(Run(w, ops).0)
  }

  lemma DataSent(typ: byte, id: nat, cap: nat, ops: seq<Op>, nWriters: int, appStatus: int)
    requires id <= 0xffff && 0 < cap <= MAX_LENGTH
    ensures var data := DataOf(Fresh(typ, id, cap), ops);
            && Framed(data, typ, id) && Payload(data, typ, id) == PutBy(ops)
            && Sent(Fresh(typ, id, cap), ops, nWriters, appStatus)
            == data
             + (if typ == STDERR && PutBy(ops) == [] then [] else [EndRecord(typ, id, [])])
             + EndOfRequest(id, nWriters, appStatus)
  {
    hide Run, FlushRecords, Payload, EndRequestRecord, PutBy;
    var w0 := Fresh(typ, id, cap);
    var (w, rs) := Run(w0, ops);
    RunCarries(w0, ops);
    FlushFramed(w);
    PayloadAppend(rs, FlushRecords(w), typ, id);
    assert [] + PutBy(ops) == PutBy(ops);
    AnythingSent(w0, ops);
    FramedContent(rs, typ, id);
    assert PutBy(ops) == [] <==> rs == [] && w.pending == [];
    var end := EndOfRequest(id, nWriters, appStatus);
    assert rs + (FlushRecords(w) + EndRecords(w) + end) == rs + FlushRecords(w) + EndRecords(w) + end;
  }

  // ---------------------------------------------------------------- writer to reader

  /** Round trip: whatever the buffer size, the cut into puts and the flushes, a reader of the same type and id reads
      back exactly the bytes put and ends without an error, with all that follows the stream still unread. */
  lemma RoundTrip(s: Rd, cap: nat, ops: seq<Op>, nWriters: int, appStatus: int, tail: seq<byte>)
    requires Ready(s) && s.req.id <= 0xffff && 0 < cap <= MAX_LENGTH
    requires s.typ == STDERR ==> PutBy(ops) != []
    requires s.unread == EncodeAll(Sent(Fresh(s.typ, s.req.id, cap), ops, nWriters, appStatus)) + tail
    ensures Drain(s) == (PutBy(ops),
                         s.(unread := EncodeAll(EndOfRequest(s.req.id, nWriters, appStatus)) + tail,
                            padding := 0, closed := true))
  {
    hide Drain, Sent, Encode, EndRequestRecord, Payload, DataOf, PutBy, Answers;
    var typ, id := s.typ, s.req.id;
    DataSent(typ, id, cap, ops, nWriters, appStatus);
    var data := DataOf(Fresh(typ, id, cap), ops);
    var end, last := [EndRecord(typ, id, [])], EndOfRequest(id, nWriters, appStatus);
    EncodeAllAppend(data + end, last);
    EncodeAllAppend(data, end);
    EncodeAllOne(EndRecord(typ, id, []));
    var rest := EncodeAll(last) + tail;
    assert s.unread == EncodeAll(data) + (Encode(EndRecord(typ, id, [])) + rest);
    StreamDelivered(s, data, [], rest);
    NoAnswers(data, typ, id);
    assert s.wire + EncodeAll([]) == s.wire;
    assert [] + rest == rest;
  }

  lemma {:induction false} NoAnswers(data: seq<Record>, typ: byte, id: nat)
    requires Framed(data, typ, id) && StreamType(typ) && id != NULL_REQUEST_ID
    ensures Answers(data) == []
  {
    if data != [] {
      assert IsData(data[0], typ, id);
      NoAnswers(data[1..], typ, id);
    }
  }

  // ---------------------------------------------------------------- with real buffers

  /** Reads a stream to its end with any mix of single bytes and strings: the bytes are those of `Drain`, however the
      connection cuts them up. */
  method ReadToEnd(reader: R.Reader) returns (bytes: seq<byte>)
    requires reader.Valid() && reader.Ungettable() && reader.req.isBeginProcessed
    modifies reader, reader.mBuff, reader.conn`inbound
    modifies reader.conn`wire, reader.conn`failures, reader.conn`errors, reader.conn`errno
    modifies reader.req`requestId, reader.req`role, reader.req`keepConnection, reader.req`isBeginProcessed
    ensures reader.Valid() && reader.isClosed
    ensures reader.conn.failures == old(reader.conn.failures) ==> (bytes, reader.Abs()) == Drain(old(reader.Abs()))
  {
    hide Drain, Take;
    bytes := [];
    ghost var whole := Drain(reader.Abs());
    R.JoinStart(whole);
    while !reader.isClosed
      invariant reader.Valid() && reader.Ungettable() && reader.req.isBeginProcessed
      invariant reader.conn.failures != old(reader.conn.failures) ==> reader.isClosed
      invariant reader.conn.failures == old(reader.conn.failures) ==>
                  R.Joined(whole, bytes, Drain(reader.Abs()))
      decreases !reader.isClosed, |reader.Unread()|
    {
      ghost var rest := Drain(reader.Abs());
      if * {
        var c := reader.GetNext();
        if c != EOF {
          assert [c] + Drain(reader.Abs()).0 == R.Left(c, reader.Abs()).0;
          R.JoinStep(whole, bytes, rest, [c], Drain(reader.Abs()));
          bytes := bytes + [c];
        } else {
          DrainClosed(reader.Abs());
        }
      } else {
        var n :| n > 0;
        TakeDrain(reader.Abs(), n);
        var str := reader.GetStr(n);
        if reader.conn.failures == old(reader.conn.failures) {
          R.JoinStep(whole, bytes, rest, str, Drain(reader.Abs()));
        }
        bytes := bytes + str;
      }
    }
    DrainClosed(reader.Abs());
    R.JoinEnd(whole, bytes, ([], reader.Abs()));
  }

  /** Of the calls `all` on `w0`, `rest` are still to be made on `w`, and `sent` went out so far. */
  ghost predicate UnderWay(w0: Wr, all: seq<Op>, w: Wr, rest: seq<Op>, sent: seq<Record>)
    requires w0.Valid() && w.Valid()
  {
    Run(w0, all) == (Run(w, rest).0, sent + Run(w, rest).1)
  }

  lemma UnderWayStart(w: Wr, all: seq<Op>)
    requires w.Valid()
    ensures UnderWay(w, all, w, all[0..], [])
  {
    hide Run;
    assert all[0..] == all && [] + Run(w, all).1 == Run(w, all).1;
  }

  lemma UnderWayStep(w0: Wr, all: seq<Op>, w: Wr, i: nat, sent: seq<Record>)
    requires w0.Valid() && w.Valid() && i < |all| && UnderWay(w0, all, w, all[i..], sent)
    ensures UnderWay(w0, all, Step(w, all[i]).0, all[i + 1..], sent + Step(w, all[i]).1)
  {
    hide Step;
    var (w1, rs) := Step(w, all[i]);
    assert all[i..][0] == all[i] && all[i..][1..] == all[i + 1..];
    assert sent + (rs + Run(w1, all[i + 1..]).1) == sent + rs + Run(w1, all[i + 1..]).1;
  }

  lemma UnderWayEnd(w0: Wr, all: seq<Op>, w: Wr, sent: seq<Record>)
    requires w0.Valid() && w.Valid()
    ensures UnderWay(w0, all, w, all[|all|..], sent) ==> Run(w0, all) == (w, sent)
  {
    assert all[|all|..] == [] && sent + [] == sent;
  }

  /** Writes with any calls, closes. */
  method WriteAll(writer: W.Writer, ops: seq<Op>)
    requires writer.Valid() && !writer.isClosed
    modifies writer, writer.mBuff
    modifies writer.conn`wire, writer.conn`failures, writer.conn`errors, writer.conn`errno, writer.req`nWriters
    ensures writer.Valid() && writer.conn.failures >= old(writer.conn.failures)
    ensures writer.conn.failures == old(writer.conn.failures) ==>
              writer.conn.wire == old(writer.conn.wire) +
                EncodeAll(Sent(old(writer.Abs()), ops, old(writer.req.nWriters), writer.req.appStatus))
  {
    hide EncodeAll, PutBytes, FlushRecords, CloseRecords, Run, UnderWay;
    ghost var w0, wire, sent, nWriters := writer.Abs(), writer.conn.wire, [], writer.req.nWriters;
    W.WireUnchanged(wire);
    UnderWayStart(w0, ops);
    for i := 0 to |ops|
      invariant writer.Valid() && writer.conn.failures >= old(writer.conn.failures) && AllValid(sent)
      invariant writer.req.nWriters == nWriters
      invariant writer.conn.failures == old(writer.conn.failures) ==>
                  && !writer.isClosed && writer.conn.wire == wire + EncodeAll(sent)
                  && UnderWay(w0, ops, writer.Abs(), ops[i..], sent)
    {
      ghost var w := writer.Abs();
      ghost var rs := Step(w, ops[i]).1;
      W.WireGrows(wire, sent, rs);
      if writer.conn.failures == old(writer.conn.failures) {
        UnderWayStep(w0, ops, w, i, sent);
      }
      match ops[i] {
        case Put(bs) =>
          var r := writer.PutStr(bs);
        case FlushNow =>
          var r := writer.FFlush();
      }
      sent := sent + rs;
    }
    ghost var w := writer.Abs();
    UnderWayEnd(w0, ops, w, sent);
    W.WireGrows(wire, sent, CloseRecords(w, nWriters, writer.req.appStatus));
    var r := writer.FClose();
  }

  /** A sender with a buffer of any size and place. */
  method Send(id: nat, typ: byte, ops: seq<Op>, bufflen: int, address: nat)
    returns (sender: Connection, ghost cap: nat, ghost appStatus: int)
    requires 0 < id <= 0xffff
    ensures fresh(sender) && 0 < cap <= MAX_LENGTH
    ensures sender.failures == 0 ==> sender.wire == EncodeAll(Sent(Fresh(typ, id, cap), ops, 2, appStatus))
  {
    hide Sent, EncodeAll;
    sender := new Connection([], 0);
    var req := new RequestState();
    req.requestId, req.nWriters := id, 2;
    var writer := new W.Writer(req, sender, bufflen, typ, address);
    cap, appStatus := writer.bufflen - HEADER_LEN, req.appStatus;
    WriteAll(writer, ops);
  }

  /** A receiver with a buffer of any size and place, on a connection that cuts the bytes up in any way. */
  method Receive(id: nat, typ: byte, wire: seq<byte>, bufflen: int, address: nat)
    returns (got: seq<byte>, error: int, receiver: Connection, ghost start: Rd)
    requires 0 < id <= 0xffff && StreamType(typ)
    ensures Ready(start) && start.typ == typ && start.req.id == id && start.unread == wire
    ensures receiver.failures == 0 ==> got == Drain(start).0 && error == Drain(start).1.errno
  {
    hide Drain;
    receiver := new Connection(wire, 0);
    var req := new RequestState();
    req.requestId, req.isBeginProcessed := id, true;
    var reader := new R.Reader(req, receiver, bufflen, typ, address);
    start := reader.Abs();
    got := ReadToEnd(reader);
    error := reader.errno;
  }

  /** Both halves together: unless a write fails, what was put is what is got, and the stream ends without an error. */
  method SendAndReceive(id: nat, typ: byte, ops: seq<Op>, sendLen: int, sendAt: nat, readLen: int, readAt: nat)
    returns (got: seq<byte>, error: int, ok: bool)
    requires 0 < id <= 0xffff && StreamType(typ) && (typ == STDERR ==> PutBy(ops) != [])
    ensures ok ==> got == PutBy(ops) && error == 0
  {
    hide Drain, Sent, EncodeAll, PutBy;
    var sender, cap, appStatus := Send(id, typ, ops, sendLen, sendAt);
    var bytes, code, receiver, start := Receive(id, typ, sender.wire, readLen, readAt);
    got, error := bytes, code;
    ok := sender.failures == 0 && receiver.failures == 0;
    if ok {
      assert start.unread == EncodeAll(Sent(Fresh(typ, id, cap), ops, 2, appStatus)) + [];
      RoundTrip(start, cap, ops, 2, appStatus, []);
    }
  }
}

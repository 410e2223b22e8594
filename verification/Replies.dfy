/** What a reader sends on its own account, whatever bytes arrive. */
module Replies {
  import opened Bytes
  import opened Pairs
  import opened Records
  import opened Demux

  /** The replies of the library: to a management record, or the refusal of a further request. */
  predicate IsReply(r: Record) {
    && r.Valid()
    && (|| ((r.typ == GET_VALUES_RESULT || r.typ == UNKNOWN_TYPE) && r.id == NULL_REQUEST_ID)
        || (r.typ == END_REQUEST && r.id != NULL_REQUEST_ID && |r.content| == 8 && r.content[4] == CANT_MPX_CONN))
  }

  predicate AllReplies(rs: seq<Record>) {
    AllValid(rs) && forall r | r in rs :: IsReply(r)
  }

  // ---------------------------------------------------------------- nothing depends on what was sent before

  /** The same reader on a connection on which `w` was sent first. */
  function Shift(w: seq<byte>, s: Rd): Rd {
    s.(wire := w + s.wire)
  }

  lemma ShiftMore(w: seq<byte>, s: Rd, more: seq<byte>)
    ensures Shift(w, s.(wire := s.wire + more)) == s.(wire := (w + s.wire) + more)
  {
    assert w + (s.wire + more) == w + s.wire + more;
  }

  lemma ShiftAdvance(w: seq<byte>, s: Rd)
    requires !s.closed
    ensures Advance(Shift(w, s)) == Shift(w, Advance(s))
  {
  }

  lemma ShiftRecordEnd(w: seq<byte>, s: Rd)
    requires !s.closed
    ensures AtRecordEnd(Shift(w, s)) == Shift(w, AtRecordEnd(s)) && Body(Shift(w, s)) == Body(s)
  {
    hide Advance;
    var k := |Body(s)|;
    ShiftAdvance(w, s.(unread := s.unread[k..], content := s.content - k));
  }

  lemma ShiftManagement(w: seq<byte>, s: Rd, typ: byte)
    requires !s.closed
    ensures var (p, status) := ProcessManagement(s, typ);
            ProcessManagement(Shift(w, s), typ) == (Shift(w, p), status)
  {
    hide Encode, ParsePairs, ValuesPayload, AtRecordEnd, Body;
    ShiftRecordEnd(w, s);
    if typ == GET_VALUES {
      var payload := ValuesPayload(Entries(ParsePairs(Body(s)).pairs));
      if payload.Some? {
        ShiftMore(w, s, Encode(ValuesReply(payload.value)));
      }
    } else {
      ShiftMore(w, s, Encode(UnknownTypeRecord(typ)));
    }
  }

  lemma ShiftBegin(w: seq<byte>, s: Rd, id: u16)
    requires !s.closed
    ensures var (p, status) := ProcessBegin(s, id);
            ProcessBegin(Shift(w, s), id) == (Shift(w, p), status)
  {
    hide Encode, EndRequestRecord, U16;
    ShiftMore(w, s, Encode(EndRequestRecord(id, 0, CANT_MPX_CONN)));
  }

  lemma ShiftProcess(w: seq<byte>, s: Rd, header: seq<byte>)
    requires !s.closed && |header| == HEADER_LEN
    ensures var (p, status) := Process(s, header);
            Process(Shift(w, s), header) == (Shift(w, p), status)
  {
    hide ProcessManagement, ProcessBegin;
    var h := ReadHeader(header);
    var t := s.(content := h.contentLen, padding := h.paddingLen);
    ShiftManagement(w, t, h.typ);
    ShiftBegin(w, t, h.id);
  }

  lemma {:induction false} ShiftFill(w: seq<byte>, s: Rd)
    requires !s.closed
    ensures Fill(Shift(w, s)) == Shift(w, Fill(s))
    decreases |s.unread|, 1
  {
    hide Process, Advance, Dispatch;
    ShiftAdvance(w, s);
    var a := Advance(s);
    if s.unread != [] && (s.content == 0 || s.skip) && !a.closed && !a.eorStop && |a.unread| >= HEADER_LEN {
      var b, header := a.(unread := a.unread[HEADER_LEN..]), a.unread[..HEADER_LEN];
      ShiftProcess(w, b, header);
      var (p, status) := Process(b, header);
      ShiftDispatch(w, p.(closed := false), status);
    }
  }

  lemma {:induction false} ShiftDispatch(w: seq<byte>, p: Rd, status: Status)
    requires !p.closed && (status.IsBegin? ==> p.req.begun && p.content == 0 && !p.skip)
    ensures Dispatch(Shift(w, p), status) == Shift(w, Dispatch(p, status))
    decreases |p.unread|, 2
  {
    hide Fill;
    ShiftFill(w, p);
    ShiftFill(w, p.(skip := true));
  }

  lemma {:induction false} ShiftTake(w: seq<byte>, s: Rd, n: nat)
    ensures Take(Shift(w, s), n) == (Take(s, n).0, Shift(w, Take(s, n).1))
    decreases n
  {
    hide Fill;
    if n > 0 && !s.closed {
      ShiftFill(w, s);
      var f := Fill(s);
      if !f.closed && f.content != 0 {
        ShiftTake(w, Pop(f), n - 1);
      }
    }
  }

  lemma {:induction false} ShiftDrain(w: seq<byte>, s: Rd)
    ensures Drain(Shift(w, s)) == (Drain(s).0, Shift(w, Drain(s).1))
    decreases |s.unread|
  {
    hide Fill;
    if !s.closed {
      ShiftFill(w, s);
      var f := Fill(s);
      if !f.closed && f.content != 0 {
        ShiftDrain(w, Pop(f));
      }
    }
  }

  // ---------------------------------------------------------------- only whole replies are sent

  /** A number of replies. */
  ghost predicate Whole(w: seq<byte>) {
    exists rs :: AllReplies(rs) && w == EncodeAll(rs)
  }

  lemma WholeStart()
    ensures Whole([])
  {
    assert AllReplies([]) && EncodeAll([]) == [];
  }

  lemma WholeMore(w: seq<byte>, r: Record)
    requires Whole(w) && IsReply(r)
    ensures Whole(w + Encode(r))
  {
    var rs :| AllReplies(rs) && w == EncodeAll(rs);
    EncodeAllOne(r);
    EncodeAllAppend(rs, [r]);
    assert AllReplies(rs + [r]);
  }

  lemma ManagementWhole(s: Rd, typ: byte)
    requires !s.closed && Whole(s.wire)
    ensures Whole(ProcessManagement(s, typ).0.wire)
  {
    hide Encode, ParsePairs, ValuesPayload, Whole;
    if typ == GET_VALUES {
      var payload := ValuesPayload(Entries(ParsePairs(Body(s)).pairs));
      if payload.Some? {
        WholeMore(s.wire, ValuesReply(payload.value));
      }
    } else {
      WholeMore(s.wire, UnknownTypeRecord(typ));
    }
  }

  lemma ProcessWhole(s: Rd, header: seq<byte>)
    requires !s.closed && |header| == HEADER_LEN && Whole(s.wire)
    ensures Whole(Process(s, header).0.wire)
  {
    hide ProcessManagement, Encode, Whole;
    var h := ReadHeader(header);
    var t := s.(content := h.contentLen, padding := h.paddingLen);
    ManagementWhole(t, h.typ);
    if h.id != 0 {
      WholeMore(s.wire, EndRequestRecord(h.id, 0, CANT_MPX_CONN));
    }
  }

  lemma {:induction false} FillWhole(s: Rd)
    requires !s.closed && Whole(s.wire)
    ensures Whole(Fill(s).wire)
    decreases |s.unread|, 1
  {
    hide Process, Whole, Dispatch;
    var a := Advance(s);
    if s.unread != [] && (s.content == 0 || s.skip) && !a.closed && !a.eorStop && |a.unread| >= HEADER_LEN {
      var b, header := a.(unread := a.unread[HEADER_LEN..]), a.unread[..HEADER_LEN];
      ProcessWhole(b, header);
      var (p, status) := Process(b, header);
      DispatchWhole(p.(closed := false), status);
    }
  }

  lemma {:induction false} DispatchWhole(p: Rd, status: Status)
    requires !p.closed && (status.IsBegin? ==> p.req.begun && p.content == 0 && !p.skip) && Whole(p.wire)
    ensures Whole(Dispatch(p, status).wire)
    decreases |p.unread|, 2
  {
    hide Fill, Whole;
    FillWhole(p);
    FillWhole(p.(skip := true));
  }

  lemma {:induction false} TakeWhole(s: Rd, n: nat)
    requires Whole(s.wire)
    ensures Whole(Take(s, n).1.wire)
    decreases n
  {
    hide Fill, Whole;
    if n > 0 && !s.closed {
      FillWhole(s);
      var f := Fill(s);
      if !f.closed && f.content != 0 {
        TakeWhole(Pop(f), n - 1);
      }
    }
  }

  lemma {:induction false} DrainWhole(s: Rd)
    requires Whole(s.wire)
    ensures Whole(Drain(s).1.wire)
    decreases |s.unread|
  {
    hide Fill, Whole;
    if !s.closed {
      FillWhole(s);
      var f := Fill(s);
      if !f.closed && f.content != 0 {
        DrainWhole(Pop(f));
      }
    }
  }

  // ---------------------------------------------------------------- the replies of a read

  /** Whatever bytes arrive, a fill sends a whole number of replies. */
  lemma FillSends(s: Rd)
    requires !s.closed
    ensures exists rs :: AllReplies(rs) && Fill(s).wire == s.wire + EncodeAll(rs)
  {
    hide Fill;
    var s0 := s.(wire := []);
    WholeStart();
    FillWhole(s0);
    ShiftFill(s.wire, s0);
    assert s.wire + [] == s.wire;
  }

  /** So does reading a stream to its end. */
  lemma DrainSends(s: Rd)
    ensures exists rs :: AllReplies(rs) && Drain(s).1.wire == s.wire + EncodeAll(rs)
  {
    hide Drain;
    var s0 := s.(wire := []);
    WholeStart();
    DrainWhole(s0);
    ShiftDrain(s.wire, s0);
    assert s.wire + [] == s.wire;
  }

  /** The records that reading at most `n` bytes sends. */
  function Sends(s: Rd, n: nat): (rs: seq<Record>)
    ensures AllValid(rs)
  {
    match ParseAll(Take(s.(wire := []), n).1.wire)
    case Some(rs) => rs
    case None => []
  }

  /** Whatever bytes arrive, a read sends a whole number of replies, behind what was sent before and independent
      of it. */
  lemma ReadSends(s: Rd, n: nat)
    ensures AllReplies(Sends(s, n))
    ensures var (bs, t) := Take(s.(wire := []), n);
            Take(s, n) == (bs, t.(wire := s.wire + EncodeAll(Sends(s, n))))
  {
    hide Take, IsReply, EncodeAll;
    var s0 := s.(wire := []);
    WholeStart();
    TakeWhole(s0, n);
    var rs :| AllReplies(rs) && Take(s0, n).1.wire == EncodeAll(rs);
    ParseEncodeAll(rs);
    ShiftTake(s.wire, s0, n);
    assert s.wire + [] == s.wire;
    assert Shift(s.wire, s0) == s;
  }
}

/** Laws of `Demux`: why the way bytes arrive never matters, and how bounded and unbounded reads relate. */
module DemuxLemmas {
  import opened Bytes
  import opened Pairs
  import opened Records
  import opened Demux

  // ---------------------------------------------------------------- passing over a record in pieces

  /** `k` content bytes have been passed over. */
  function DropContent(s: Rd, k: nat): Rd
    requires k <= |s.unread| && k <= s.content
  {
    s.(unread := s.unread[k..], content := s.content - k)
  }

  function DropPadding(s: Rd, k: nat): Rd
    requires k <= |s.unread| && k <= s.padding
  {
    s.(unread := s.unread[k..], padding := s.padding - k)
  }

  /** `FillTail` depends only on where passing over the record leads. */
  lemma FillTailBy(s: Rd, t: Rd)
    requires !s.closed && (s.content == 0 || s.skip) && !t.closed && (t.content == 0 || t.skip)
    requires Advance(s) == Advance(t)
    ensures FillTail(s) == FillTail(t)
  {
    hide Process, Dispatch, Advance;
  }

  lemma FillStep(s: Rd)
    requires !s.closed && s.unread != []
    ensures s.content == 0 || s.skip ==> Fill(s) == FillTail(s)
  {
    hide FillTail;
  }

  /** A record that the bytes at hand do not finish ends in the error of the connection. */
  lemma FillCut(s: Rd)
    requires !s.closed && (s.content == 0 || s.skip) && Advance(s).closed
    ensures FillTail(s) == Advance(s)
  {
    hide Process, Dispatch, Advance;
  }

  /** Skipping part of the content and starting over comes to the same as skipping it at once. */
  lemma SkipPart(s: Rd, k: nat)
    requires !s.closed && s.skip && k < s.content && k <= |s.unread|
    ensures Fill(DropContent(s, k)) == FillTail(s)
  {
    hide FillTail, Advance;
    var t := DropContent(s, k);
    AdvanceSkipPart(s, k);
    FillTailBy(s, t);
    if t.unread == [] {
      FillCut(s);
    }
  }

  lemma AdvanceSkipPart(s: Rd, k: nat)
    requires !s.closed && s.skip && k < s.content && k <= |s.unread|
    ensures Advance(DropContent(s, k)) == Advance(s)
    ensures |s.unread| == k ==> Advance(s) == DropContent(s, k).Fail(s.EndError())
  {
    var t := DropContent(s, k);
    if |s.unread| >= s.content {
      assert t.unread[t.content..] == s.unread[s.content..];
    }
  }

  lemma SkipAll(s: Rd)
    requires !s.closed && s.skip && 0 < s.content <= |s.unread|
    ensures FillTail(DropContent(s, s.content).(skip := false)) == FillTail(s)
  {
    hide FillTail;
    var t := DropContent(s, s.content).(skip := false);
    assert t.unread[0..] == t.unread;
    FillTailBy(s, t);
  }

  lemma PadPart(s: Rd, k: nat)
    requires !s.closed && s.content == 0 && k < s.padding && k <= |s.unread|
    ensures Fill(DropPadding(s, k)) == FillTail(s)
  {
    hide FillTail, Advance;
    var t := DropPadding(s, k);
    AdvancePadPart(s, k);
    FillTailBy(s, t);
    if t.unread == [] {
      FillCut(s);
    }
  }

  lemma AdvancePadPart(s: Rd, k: nat)
    requires !s.closed && s.content == 0 && k < s.padding && k <= |s.unread|
    ensures Advance(DropPadding(s, k)) == Advance(s)
    ensures |s.unread| == k ==> Advance(s) == DropPadding(s, k).Fail(s.EndError())
  {
    var t := DropPadding(s, k);
    if |s.unread| >= s.padding {
      assert t.unread[t.padding..] == s.unread[s.padding..];
    }
  }

  lemma PadAll(s: Rd)
    requires !s.closed && s.content == 0 && s.padding <= |s.unread|
    ensures FillTail(DropPadding(s, s.padding)) == FillTail(s)
  {
    hide Process, Dispatch;
    assert Advance(DropPadding(s, s.padding)) == Advance(s);
  }

  /** Between records, `Fill` and `FillTail` agree, also when no byte is left. */
  lemma FillAtBoundary(s: Rd)
    requires !s.closed && !s.eorStop && s.content == 0 && s.padding == 0
    ensures Fill(s) == FillTail(s)
    ensures |s.unread| < HEADER_LEN ==> Fill(s) == s.(unread := []).Fail(s.EndError())
    ensures |s.unread| >= HEADER_LEN ==>
      var (p, status) := Process(s.(unread := s.unread[HEADER_LEN..]), s.unread[..HEADER_LEN]);
      Fill(s) == Dispatch(p.(closed := false), status)
  {
    hide Process, Dispatch;
    assert Advance(s) == s;
  }

  /** The state before the first bytes of a header were set aside. */
  function PutBack(s: Rd, header: seq<byte>): Rd {
    s.(unread := header + s.unread)
  }

  lemma FillExhausted(s: Rd, header: seq<byte>)
    requires !s.closed && s.unread == [] && |header| < HEADER_LEN
    requires header != [] ==> s.content == 0 && s.padding == 0 && !s.eorStop
    ensures Fill(PutBack(s, header)) == s.Fail(s.EndError())
  {
    if header != [] {
      FillAtBoundary(PutBack(s, header));
    } else {
      assert PutBack(s, header) == s;
    }
  }

  lemma AtRecordEndAnyMode(s: Rd)
    requires !s.closed
    ensures AtRecordEnd(s.(eorStop := true)) == AtRecordEnd(s).(eorStop := true)
    ensures Body(s.(eorStop := true)) == Body(s)
  {
    hide Advance;
    var k := |Body(s)|;
    AdvanceAnyMode(s.(unread := s.unread[k..], content := s.content - k));
  }

  lemma AdvanceAnyMode(s: Rd)
    requires !s.closed
    ensures Advance(s.(eorStop := true)) == Advance(s).(eorStop := true)
  {
  }

  /** Interpreting a header does not depend on how far reads may go. */
  lemma ProcessAnyMode(s: Rd, header: seq<byte>)
    requires !s.closed && |header| == HEADER_LEN && !s.eorStop
    ensures var (p, status) := Process(s, header);
            Process(s.(eorStop := true), header) == (p.(eorStop := true), status)
  {
    hide AtRecordEnd, Body, ParsePairs, ValuesPayload, Encode, ValuesReply, UnknownTypeRecord, EndRequestRecord, U16;
    var h := ReadHeader(header);
    var t := s.(content := h.contentLen, padding := h.paddingLen);
    AtRecordEndAnyMode(t);
    AtRecordEndAnyMode(t.(req := t.req.(id := h.id)));
  }

  lemma ProcessAtBoundary(s: Rd, header: seq<byte>)
    requires s.Between() && |header| == HEADER_LEN
    ensures var (p, status) := Process(s, header);
            Fill(PutBack(s, header)) == Dispatch(p.(closed := false), status)
  {
    hide Process, Dispatch, Fill;
    var t := PutBack(s, header);
    FillAtBoundary(t);
    assert t.unread[..HEADER_LEN] == header && t.unread[HEADER_LEN..] == s.unread;
    assert t.(unread := t.unread[HEADER_LEN..]) == s;
  }

  /** A whole header between records, interpreted with reads bounded by its record. */
  lemma InterpretAtBoundary(s: Rd, header: seq<byte>)
    requires !s.closed && !s.eorStop && s.content == 0 && s.padding == 0 && |header| == HEADER_LEN
    ensures var (p, status) := Process(s.(eorStop := true), header);
            FillTail(PutBack(s, header)) == Dispatch(p.(closed := false, eorStop := false), status)
  {
    hide Process, Dispatch;
    var t := PutBack(s, header);
    FillAtBoundary(t);
    assert t.unread[..HEADER_LEN] == header && t.unread[HEADER_LEN..] == s.unread;
    assert t.(unread := t.unread[HEADER_LEN..]) == s;
    ProcessAnyMode(s, header);
  }

  /** A bounded reader closes at the end of its record. */
  lemma FillTailStops(s: Rd)
    requires !s.closed && s.eorStop && s.content == 0 && s.padding == 0
    ensures FillTail(s) == s.(closed := true)
  {
    assert Advance(s) == s;
  }

  lemma FillHeaderCut(s: Rd)
    requires !s.closed && !s.eorStop && s.content == 0 && s.padding == 0
    ensures Fill(s) == FillTail(s)
  {
    FillAtBoundary(s);
  }

  // ---------------------------------------------------------------- reading

  lemma FillDelivers(s: Rd)
    requires !s.closed && s.content > 0 && !s.skip && s.unread != []
    ensures Fill(s) == s
  {
  }

  lemma TakeNone(s: Rd)
    ensures Take(s, 0) == ([], s)
  {
  }

  lemma TakeClosed(s: Rd, n: nat)
    ensures s.closed ==> Take(s, n) == ([], s)
  {
  }

  lemma DrainClosed(s: Rd)
    ensures s.closed ==> Drain(s) == ([], s)
  {
  }

  lemma TakeUnfolds(s: Rd, n: nat)
    requires !s.closed && n > 0
    ensures var f := Fill(s);
            if f.closed || f.content == 0 then Take(s, n) == ([], f)
            else Take(s, n) == ([f.unread[0]] + Take(Pop(f), n - 1).0, Take(Pop(f), n - 1).1)
  {
    hide Fill;
  }

  lemma DrainUnfolds(s: Rd)
    requires !s.closed
    ensures var f := Fill(s);
            if f.closed || f.content == 0 then Drain(s) == ([], f)
            else Drain(s) == ([f.unread[0]] + Drain(Pop(f)).0, Drain(Pop(f)).1)
  {
    hide Fill;
  }

  lemma NothingInFront(bs: seq<byte>)
    ensures [] + bs == bs
  {
  }

  /** Reading is compositional: reading n and then m bytes is reading n + m bytes. */
  lemma {:induction false} TakeAdd(s: Rd, n: nat, m: nat)
    ensures var (a, t) := Take(s, n);
            var (b, u) := Take(t, m);
            |a| == n ==> Take(s, n + m) == (a + b, u)
    decreases n
  {
    hide Fill, Take;
    TakeNone(s);
    TakeClosed(s, n);
    NothingInFront(Take(s, m).0);
    if n > 0 && !s.closed {
      TakeUnfolds(s, n);
      TakeUnfolds(s, n + m);
      var f := Fill(s);
      if !f.closed && f.content != 0 {
        TakeAdd(Pop(f), n - 1, m);
        var (a, t) := Take(Pop(f), n - 1);
        Regroup([f.unread[0]], a, Take(t, m).0);
      }
    }
  }

  /** A short read ends at the end of the stream. */
  lemma {:induction false} TakeShort(s: Rd, n: nat)
    requires s.req.begun || s.eorStop
    ensures |Take(s, n).0| < n ==> Take(s, n).1.closed
    decreases n
  {
    hide Fill;
    if n > 0 && !s.closed {
      var f := Fill(s);
      if !f.closed && f.content != 0 {
        TakeShort(Pop(f), n - 1);
      }
    }
  }

  /** What a read leaves is the rest of what was to be read. */
  lemma TakeDrain(s: Rd, n: nat)
    requires s.req.begun || s.eorStop
    ensures var (a, t) := Take(s, n);
            Drain(s) == (a + Drain(t).0, Drain(t).1)
    ensures Take(s, n).0 == Drain(s).0[..Min(n, |Drain(s).0|)]
    ensures Drain(Take(s, n).1).0 == Drain(s).0[|Take(s, n).0|..]
  {
    TakeThenDrain(s, n);
    TakeShort(s, n);
    DrainClosed(Take(s, n).1);
    PrefixOf(Drain(s).0, Take(s, n).0, Drain(Take(s, n).1).0);
  }

  lemma PrefixOf(whole: seq<byte>, a: seq<byte>, b: seq<byte>)
    requires whole == a + b
    ensures a == whole[..|a|] && b == whole[|a|..]
  {
  }

  lemma {:induction false} TakeThenDrain(s: Rd, n: nat)
    requires s.req.begun || s.eorStop
    ensures var (a, t) := Take(s, n);
            Drain(s) == (a + Drain(t).0, Drain(t).1)
    decreases n
  {
    hide Fill, Take, Drain;
    TakeNone(s);
    TakeClosed(s, n);
    NothingInFront(Drain(s).0);
    if n > 0 && !s.closed {
      TakeUnfolds(s, n);
      DrainUnfolds(s);
      var f := Fill(s);
      DrainClosed(f);
      if !f.closed && f.content != 0 {
        TakeThenDrain(Pop(f), n - 1);
        var (a, t) := Take(Pop(f), n - 1);
        Regroup([f.unread[0]], a, Drain(t).0);
      }
    }
  }

  /** A read either gets all it asks for, or all there is and the stream's end. */
  lemma TakeSplits(s: Rd, n: nat)
    requires s.req.begun || s.eorStop
    ensures var (bs, end) := Drain(s);
            if |bs| < n then Take(s, n) == (bs, end)
            else Take(s, n).0 == bs[..n] && Drain(Take(s, n).1) == (bs[n..], end)
  {
    hide Take, Drain;
    TakeDrain(s, n);
    TakeShort(s, n);
    var (a, t) := Take(s, n);
    DrainClosed(t);
    assert a + [] == a;
    if |Drain(s).0| < n {
      assert a == Drain(s).0 && t.closed;
    }
  }

  lemma BulkStep(s: Rd, k: nat)
    requires 0 < k <= s.content && k <= |s.unread|
    ensures DropContent(Pop(s), k - 1) == DropContent(s, k)
    ensures [s.unread[0]] + Pop(s).unread[..k - 1] == s.unread[..k]
  {
  }

  /** Content that is at hand can be taken in one piece. */
  lemma {:induction false} TakeBulk(s: Rd, n: nat, k: nat)
    requires !s.closed && !s.skip && k <= n && k <= s.content && k <= |s.unread|
    ensures var (b, u) := Take(DropContent(s, k), n - k);
            Take(s, n) == (s.unread[..k] + b, u)
    decreases k
  {
    hide Fill, Take;
    if k == 0 {
      assert DropContent(s, 0) == s;
      assert s.unread[..0] + Take(s, n).0 == Take(s, n).0;
    } else {
      var t := Pop(s);
      FillDelivers(s);
      TakeUnfolds(s, n);
      TakeBulk(t, n - 1, k - 1);
      BulkStep(s, k);
      Regroup([s.unread[0]], t.unread[..k - 1], Take(DropContent(s, k), n - k).0);
    }
  }

  lemma TakeAtHand(s: Rd, n: nat)
    requires !s.closed && !s.skip && n <= s.content && n <= |s.unread|
    ensures Take(s, n) == (s.unread[..n], DropContent(s, n))
  {
    hide Fill;
    TakeBulk(s, n, n);
    assert s.unread[..n] + [] == s.unread[..n];
  }

  lemma TakeOne(s: Rd)
    requires !s.closed && !s.skip && s.content > 0 && s.unread != []
    ensures Take(s, 1) == ([s.unread[0]], DropContent(s, 1))
  {
    hide Fill;
    TakeBulk(s, 1, 1);
    assert s.unread[..1] + [] == [s.unread[0]];
  }

  /** With nothing deliverable at hand, a read starts by filling. */
  lemma TakeFill(s: Rd, n: nat)
    requires !s.closed && n > 0 && (s.req.begun || s.eorStop)
    ensures Fill(s).closed ==> Take(s, n) == ([], Fill(s))
    ensures !Fill(s).closed ==> Take(s, n) == Take(Fill(s), n)
  {
    hide Fill;
    if !Fill(s).closed {
      FillDelivers(Fill(s));
    }
  }

  // ---------------------------------------------------------------- reads bounded by a record

  /** A bounded reader delivers the content of its record and closes at its end. */
  lemma {:induction false} DrainRecord(s: Rd)
    requires !s.closed && s.eorStop
    ensures Drain(s) == (Body(s), AtRecordEnd(s))
    decreases s.content
  {
    hide Fill, Drain, AtRecordEnd, Body;
    DrainUnfolds(s);
    if s.unread != [] && s.content > 0 && !s.skip {
      FillDelivers(s);
      DrainRecord(Pop(s));
      BodyPops(s);
    } else {
      FillStops(s);
    }
  }

  lemma BodyPops(s: Rd)
    requires !s.closed && s.content > 0 && !s.skip && s.unread != []
    ensures Body(s) == [s.unread[0]] + Body(Pop(s)) && AtRecordEnd(s) == AtRecordEnd(Pop(s))
  {
    hide Advance;
    var t := Pop(s);
    assert [s.unread[0]] + Body(t) == Body(s);
    var k := |Body(t)|;
    assert t.unread[k..] == s.unread[k + 1..];
  }

  /** A bounded fill with nothing to deliver is the end of the record. */
  lemma FillStops(s: Rd)
    requires !s.closed && s.eorStop && (s.unread == [] || s.content == 0 || s.skip)
    ensures Fill(s).closed && Body(s) == [] && AtRecordEnd(s) == Fill(s)
  {
    hide FillTail, Advance, AtRecordEnd;
    RecordEndHere(s);
    if s.unread != [] {
      hide Fill;
      FillStep(s);
      FillTailBounded(s);
    }
  }

  lemma RecordEndHere(s: Rd)
    requires !s.closed && Body(s) == []
    ensures AtRecordEnd(s) == if s.unread == [] then s.Fail(s.EndError()) else Advance(s).(closed := true)
  {
    hide Advance, Body;
    assert s.unread[0..] == s.unread;
    assert s.(unread := s.unread[0..], content := s.content - 0) == s;
  }

  lemma FillTailBounded(s: Rd)
    requires !s.closed && s.eorStop && (s.content == 0 || s.skip)
    ensures FillTail(s) == Advance(s).(closed := true)
  {
    hide Advance;
  }

  /** A bounded read of all the content stops short of the end of the record. */
  lemma TakeRecord(s: Rd, n: nat)
    requires !s.closed && s.eorStop && s.content == n
    ensures |Body(s)| == n ==> Take(s, n) == (Body(s), s.(unread := s.unread[n..], content := 0))
    ensures |Body(s)| < n ==> Take(s, n) == (Body(s), AtRecordEnd(s))
  {
    hide Fill, AtRecordEnd;
    if |Body(s)| == n {
      if n > 0 {
        TakeBulk(s, n, n);
        assert s.unread[..n] + [] == Body(s);
      }
    } else {
      DrainRecord(s);
      TakeDrain(s, n);
      TakeShort(s, n);
      var (a, t) := Take(s, n);
      assert a == Body(s);
      assert Drain(t) == ([], t);
    }
  }
}

/** Connections that end anywhere inside the records of a stream. */
module Breaks {
  import opened Bytes
  import opened Pairs
  import opened Records
  import opened Demux
  import opened DemuxLemmas
  import opened Streams

  /** The end that a broken connection gives to a stream read from `s`. */
  predicate Broken(end: Rd, s: Rd) {
    && end.closed && end.unread == [] && end.req == s.req
    && end.errno == if s.readEnd == 0 then -3 else s.readEnd
  }

  /** What the first `m` bytes of a record deliver; `skip` says whether skipping is pending when it arrives. */
  function Part(r: Record, typ: byte, id: nat, skip: bool, m: nat): seq<byte> {
    if Delivers(r, typ, id, skip) then r.content[..Min(Max(m - HEADER_LEN, 0), |r.content|)] else []
  }

  predicate Delivers(r: Record, typ: byte, id: nat, skip: bool) {
    !skip && r.content != [] && (IsData(r, typ, id) || IsUnknownManagement(r))
  }

  /** What the first `m` bytes of the records deliver. */
  function Arrived(rs: seq<Record>, typ: byte, id: nat, skip: bool, m: nat): seq<byte>
    requires AllValid(rs)
  {
    if rs == [] then []
    else if m < |Encode(rs[0])| then Part(rs[0], typ, id, skip, m)
    else Heard(rs[0], typ, id, skip) + Arrived(rs[1..], typ, id, StillSkips(rs[0], id, skip), m - |Encode(rs[0])|)
  }

  /** Inside a record that is passed over. */
  lemma ShortOf(q: Rd)
    requires !q.closed && !q.eorStop && q.errno == 0 && (q.content == 0 || q.skip)
    requires |q.unread| < q.content + q.padding
    ensures Broken(Fill(q), q)
  {
    hide FillTail;
    if q.unread != [] {
      FillStep(q);
      FillCut(q);
    }
  }

  /** Inside a record whose content is delivered. */
  lemma ShortDelivery(q: Rd)
    requires !q.closed && !q.eorStop && q.errno == 0 && !q.skip && q.req.begun
    requires |q.unread| < q.content + q.padding
    ensures Drain(q).0 == q.unread[..Min(q.content, |q.unread|)] && Broken(Drain(q).1, q)
  {
    hide Fill, Take;
    var k := Min(q.content, |q.unread|);
    var t := DropContent(q, k);
    TakeDrain(q, k);
    TakeAtHand(q, k);
    NothingLeft(t);
    if t.unread != [] {
      ShortOf(t);
    }
  }

  lemma NothingLeft(t: Rd)
    requires !t.closed
    ensures t.unread == [] ==> Fill(t) == t.Fail(t.EndError())
    ensures Fill(t).closed ==> Drain(t) == ([], Fill(t))
  {
  }

  /** A bounded reader whose record breaks off has the connection's error. */
  lemma ShortBody(q: Rd)
    requires !q.closed && q.errno == 0
    requires |q.unread| < q.content + q.padding || (|q.unread| == q.content && (!q.skip || q.content == 0))
    ensures Broken(AtRecordEnd(q), q)
  {
    hide Advance;
    var k := |Body(q)|;
    var t := q.(unread := q.unread[k..], content := q.content - k);
    assert t.unread != [] ==> |t.unread| < t.content + t.padding;
    if t.unread != [] {
      ShortAdvance(t);
    }
  }

  lemma ShortAdvance(t: Rd)
    requires !t.closed && t.errno == 0 && |t.unread| < t.content + t.padding
    ensures Broken(Advance(t), t)
  {
  }

  lemma HeaderCut(s: Rd, r: Record, m: nat)
    requires s.Between() && r.Valid() && HEADER_LEN <= m <= |Encode(r)| && s.unread == Encode(r)[..m]
    ensures var (p, status) := Process(s.(unread := (r.content + r.padding)[..m - HEADER_LEN]),
                                       MakeHeader(r.typ, r.id, |r.content|, |r.padding|));
            Fill(s) == Dispatch(p.(closed := false), status)
    ensures ReadHeader(MakeHeader(r.typ, r.id, |r.content|, |r.padding|))
         == Header(VERSION_1, r.typ, r.id, |r.content|, |r.padding|)
  {
    hide Process, Dispatch, Fill, MakeHeader, ReadHeader;
    HeaderRoundTrip(r.typ, r.id, |r.content|, |r.padding|);
    var h, body := MakeHeader(r.typ, r.id, |r.content|, |r.padding|), r.content + r.padding;
    assert Encode(r) == h + body;
    assert Encode(r)[..m] == h + body[..m - HEADER_LEN];
    ProcessAtBoundary(s.(unread := body[..m - HEADER_LEN]), h);
  }

  /** Where a record, of which `m` bytes have come, ends the stream because nothing follows. */
  predicate StopsAt(r: Record, skip: bool, m: nat)
    requires r.Valid()
  {
    m < |Encode(r)| || (m == |Encode(r)| && !GetsPast(r, skip, []))
  }

  /** A record that delivers nothing and breaks off, or a request for values with nothing behind it. */
  lemma PassedCut(s: Rd, r: Record, m: nat)
    requires s.Between() && s.errno == 0 && r.Valid() && StopsAt(r, s.skip, m) && s.unread == Encode(r)[..m]
    requires || IsForeign(r, s.req.id) || (IsOtherBegin(r) && s.req.begun) || IsGetValues(r)
             || (IsUnknownManagement(r) && (s.skip || r.content == []))
             || (s.skip && Reading(s) && IsData(r, s.typ, s.req.id))
    ensures Broken(Fill(s), s)
  {
    hide Fill, Encode, MakeHeader, ReadHeader;
    if IsGetValues(r) {
      GetValuesCut(s, r, m);
    } else if m < HEADER_LEN {
      FillAtBoundary(s);
    } else {
      HeaderCut(s, r, m);
      var body := (r.content + r.padding)[..m - HEADER_LEN];
      var p := s.(unread := body, content := |r.content|, padding := |r.padding|);
      if IsForeign(r, s.req.id) {
        ShortOf(p.(skip := true));
      } else if IsOtherBegin(r) {
        ShortOf(p.(skip := true, wire := s.wire + Encode(EndRequestRecord(r.id, 0, CANT_MPX_CONN))));
      } else if IsUnknownManagement(r) {
        ShortOf(p.(wire := s.wire + Encode(UnknownTypeRecord(r.typ))));
      } else {
        ShortOf(p);
      }
    }
  }

  lemma GetValuesCut(s: Rd, r: Record, m: nat)
    requires s.Between() && s.errno == 0 && r.Valid() && StopsAt(r, s.skip, m) && s.unread == Encode(r)[..m]
    requires IsGetValues(r)
    ensures Broken(Fill(s), s)
  {
    hide Fill, Encode, MakeHeader, ReadHeader, ParsePairs, ValuesPayload, AtRecordEnd, Body;
    if m < HEADER_LEN {
      FillAtBoundary(s);
    } else {
      HeaderCut(s, r, m);
      ShortBody(s.(unread := (r.content + r.padding)[..m - HEADER_LEN],
                   content := |r.content|, padding := |r.padding|));
    }
  }

  /** A record that breaks off while it is delivered. */
  lemma DeliveredCut(s: Rd, r: Record, m: nat)
    requires Ready(s) && r.Valid() && Delivers(r, s.typ, s.req.id, false)
    requires m < |Encode(r)| && s.unread == Encode(r)[..m]
    ensures Drain(s).0 == Part(r, s.typ, s.req.id, false, m) && Broken(Drain(s).1, s)
  {
    hide Fill, Drain, Encode, MakeHeader, ReadHeader;
    if m < HEADER_LEN {
      FillAtBoundary(s);
      NothingLeft(s);
    } else {
      HeaderCut(s, r, m);
      var body := (r.content + r.padding)[..m - HEADER_LEN];
      var p := s.(unread := body, content := |r.content|, padding := |r.padding|);
      if IsUnknownManagement(r) {
        p := p.(wire := s.wire + Encode(UnknownTypeRecord(r.typ)));
      }
      DrainByFill(s, p);
      ShortDelivery(p);
      assert body[..Min(|r.content|, |body|)] == r.content[..Min(|r.content|, |body|)];
    }
  }

  /** Any record that breaks off, or a request for values with nothing behind it. */
  lemma RecordCut(s: Rd, r: Record, m: nat)
    requires Reading(s) && Understood(r, s.typ, s.req.id) && StopsAt(r, s.skip, m) && s.unread == Encode(r)[..m]
    ensures Drain(s).0 == Part(r, s.typ, s.req.id, s.skip, m) && Broken(Drain(s).1, s)
  {
    hide Fill, Drain, Encode;
    if Delivers(r, s.typ, s.req.id, s.skip) {
      DeliveredCut(s, r, m);
    } else {
      PassedCut(s, r, m);
      NothingLeft(s);
    }
  }

  /** A stream whose connection ends anywhere in front of its end delivers exactly what has arrived of it. */
  lemma {:induction false} DrainCut(s: Rd, rs: seq<Record>, m: nat)
    requires Reading(s) && s.req.id <= 0xffff && AllUnderstood(rs, s.typ, s.req.id) && AllValid(rs)
    requires m < |EncodeAll(rs)| + HEADER_LEN
    requires s.unread == (EncodeAll(rs) + Encode(EndRecord(s.typ, s.req.id, [])))[..m]
    ensures Drain(s).0 == Arrived(rs, s.typ, s.req.id, s.skip, m) && Broken(Drain(s).1, s)
    decreases |rs|
  {
    hide Drain, Fill, Understood, Encode, Part, Said, Heard, StillSkips, GetsPast;
    if rs == [] {
      FillAtBoundary(s);
      NothingLeft(s);
    } else {
      var r, end := rs[0], Encode(EndRecord(s.typ, s.req.id, []));
      var size, later := |Encode(r)|, EncodeAll(rs[1..]) + end;
      assert EncodeAll(rs) + end == Encode(r) + later;
      assert r in rs;
      CutConcat(Encode(r), later, m);
      if StopsAt(r, s.skip, m) {
        assert m == size ==> Encode(r)[..m] == Encode(r) && later[..0] == [] && Encode(r) + [] == Encode(r);
        RecordCut(s, r, m);
        LastGetValues(rs, s.typ, s.req.id, s.skip, m);
      } else {
        var rest := later[..m - size];
        PastThere(r, s.skip, rest);
        RecordStep(s, r, rest);
        DrainCut(AfterRecord(s, r, rest), rs[1..], m - size);
      }
    }
  }

  lemma PastThere(r: Record, skip: bool, rest: seq<byte>)
    requires r.Valid() && !StopsAt(r, skip, |Encode(r)| + |rest|)
    ensures GetsPast(r, skip, rest)
  {
    assert rest == [] ==> r.padding + rest == r.padding;
  }

  lemma LastGetValues(rs: seq<Record>, typ: byte, id: nat, skip: bool, m: nat)
    requires rs != [] && AllValid(rs) && StopsAt(rs[0], skip, m) && id != NULL_REQUEST_ID
    ensures Arrived(rs, typ, id, skip, m) == Part(rs[0], typ, id, skip, m)
  {
    if m == |Encode(rs[0])| {
      NothingArrived(rs[1..], typ, id, StillSkips(rs[0], id, skip));
    }
  }

  lemma NothingArrived(rs: seq<Record>, typ: byte, id: nat, skip: bool)
    requires AllValid(rs)
    ensures Arrived(rs, typ, id, skip, 0) == []
  {
  }

  /** Once every record has arrived, that is all they deliver; what arrives earlier is a prefix of it. */
  lemma {:induction false} ArrivedPrefix(rs: seq<Record>, typ: byte, id: nat, skip: bool, m: nat)
    requires AllValid(rs)
    ensures Arrived(rs, typ, id, skip, m) <= HeardAll(rs, typ, id, skip)
    ensures m >= |EncodeAll(rs)| ==> Arrived(rs, typ, id, skip, m) == HeardAll(rs, typ, id, skip)
  {
    hide Encode, StillSkips;
    if rs != [] {
      assert Part(rs[0], typ, id, skip, m) <= Heard(rs[0], typ, id, skip);
      if m >= |Encode(rs[0])| {
        ArrivedPrefix(rs[1..], typ, id, StillSkips(rs[0], id, skip), m - |Encode(rs[0])|);
      }
    }
  }
}

/** What the reader delivers, record by record, when the bytes are a sequence of records: the meaning that
    section 3.3 of the FastCGI Specification gives them, and exactly where the reader departs from it. */
module Streams {
  import opened Bytes
  import opened Pairs
  import opened Records
  import opened Demux
  import opened DemuxLemmas

  // ---------------------------------------------------------------- kinds of records

  /** A type that a reader can be set to. */
  predicate StreamType(typ: byte) {
    typ == PARAMS || typ == STDIN || typ == DATA || typ == STDOUT || typ == STDERR
  }

  predicate IsData(r: Record, typ: byte, id: nat) {
    r.typ == typ && r.id == id && r.content != []
  }

  predicate IsForeign(r: Record, id: nat) {
    r.id != NULL_REQUEST_ID && r.id != id && r.typ != BEGIN_REQUEST
  }

  predicate IsOtherBegin(r: Record) {
    r.typ == BEGIN_REQUEST && r.id != NULL_REQUEST_ID && |r.content| == 8
  }

  predicate IsGetValues(r: Record) {
    r.typ == GET_VALUES && r.id == NULL_REQUEST_ID
  }

  predicate IsUnknownManagement(r: Record) {
    r.id == NULL_REQUEST_ID && r.typ != GET_VALUES && r.typ != BEGIN_REQUEST
  }

  predicate Answerable(r: Record) {
    ParsePairs(r.content).complete && ValuesPayload(Entries(ParsePairs(r.content).pairs)).Some?
  }

  /** The records that the reader of stream `typ` of request `id` treats as the specification demands. */
  predicate Served(r: Record, typ: byte, id: nat) {
    && r.Valid()
    && (|| IsData(r, typ, id)
        || (IsForeign(r, id) && r.content != [])
        || IsOtherBegin(r)
        || (IsGetValues(r) && Answerable(r))
        || (IsUnknownManagement(r) && r.content == []))
  }

  predicate AllServed(rs: seq<Record>, typ: byte, id: nat) {
    forall r | r in rs :: Served(r, typ, id)
  }

  /** The content of the stream: that of its own records, in order. */
  function Payload(rs: seq<Record>, typ: byte, id: nat): seq<byte> {
    if rs == [] then []
    else (if IsData(rs[0], typ, id) then rs[0].content else []) + Payload(rs[1..], typ, id)
  }

  lemma {:induction false} PayloadAppend(a: seq<Record>, b: seq<Record>, typ: byte, id: nat)
    ensures Payload(a + b, typ, id) == Payload(a, typ, id) + Payload(b, typ, id)
  {
    if a == [] {
      assert a + b == b;
    } else {
      assert (a + b)[1..] == a[1..] + b;
      PayloadAppend(a[1..], b, typ, id);
    }
  }

  /** What is sent in answer to one record. */
  function Answer(r: Record): (a: seq<Record>)
    ensures AllValid(a)
  {
    if IsGetValues(r) && Answerable(r) then
      [ValuesReply(ValuesPayload(Entries(ParsePairs(r.content).pairs)).value)]
    else if IsUnknownManagement(r) then [UnknownTypeRecord(r.typ)]
    else if IsOtherBegin(r) && r.id <= 0xffff then [EndRequestRecord(r.id, 0, CANT_MPX_CONN)]
    else []
  }

  function Answers(rs: seq<Record>): (a: seq<Record>)
    ensures AllValid(a)
  {
    if rs == [] then [] else Answer(rs[0]) + Answers(rs[1..])
  }

  // ---------------------------------------------------------------- what the code makes of the records

  /** The records that leave the reader on the track of the following ones. */
  predicate Understood(r: Record, typ: byte, id: nat) {
    && r.Valid()
    && (|| IsData(r, typ, id) || IsForeign(r, id) || IsOtherBegin(r)
        || (IsGetValues(r) && Answerable(r)) || IsUnknownManagement(r))
  }

  predicate AllUnderstood(rs: seq<Record>, typ: byte, id: nat) {
    forall r | r in rs :: Understood(r, typ, id)
  }

  /** The bytes delivered from one record; `skip` says whether skipping is pending when it arrives. */
  function Heard(r: Record, typ: byte, id: nat, skip: bool): seq<byte> {
    if !skip && (IsData(r, typ, id) || IsUnknownManagement(r)) then r.content else []
  }

  /** Skipping stays pending until some content has been skipped. */
  predicate StillSkips(r: Record, id: nat, skip: bool) {
    r.content == [] && (skip || IsForeign(r, id))
  }

  /** The answer; a request for values whose content is skipped asks for nothing. */
  function Said(r: Record, skip: bool): (a: seq<Record>)
    ensures AllValid(a)
  {
    if skip && IsGetValues(r) then [ValuesReply([])] else Answer(r)
  }

  function HeardAll(rs: seq<Record>, typ: byte, id: nat, skip: bool): seq<byte> {
    if rs == [] then []
    else Heard(rs[0], typ, id, skip) + HeardAll(rs[1..], typ, id, StillSkips(rs[0], id, skip))
  }

  function SaidAll(rs: seq<Record>, id: nat, skip: bool): (a: seq<Record>)
    ensures AllValid(a)
  {
    if rs == [] then [] else Said(rs[0], skip) + SaidAll(rs[1..], id, StillSkips(rs[0], id, skip))
  }

  predicate SkipsAfter(rs: seq<Record>, id: nat, skip: bool) {
    if rs == [] then skip else SkipsAfter(rs[1..], id, StillSkips(rs[0], id, skip))
  }

  // ---------------------------------------------------------------- one record

  /** A reader of stream `typ` of a request, between records, without an error so far. */
  predicate Reading(s: Rd) {
    s.Between() && s.req.begun && s.errno == 0 && s.req.id != NULL_REQUEST_ID && StreamType(s.typ)
  }

  /** Moreover no skipping is pending. */
  predicate Ready(s: Rd) {
    Reading(s) && !s.skip
  }

  lemma DrainByFill(s: Rd, t: Rd)
    requires !s.closed && !t.closed && Fill(s) == Fill(t)
    ensures Drain(s) == Drain(t)
  {
    hide Fill;
  }

  /** After its content, a record's padding is passed over. */
  lemma FillPastPadding(s: Rd, t: Rd, padding: seq<byte>)
    requires !s.closed && !s.eorStop && s.content == 0 && s.padding == |padding| && s.unread == padding + t.unread
    requires t == s.(unread := t.unread, padding := 0)
    ensures Fill(s) == Fill(t)
  {
    hide FillTail, Process, Dispatch;
    assert Advance(s) == t;
    assert Advance(t) == t;
    FillTailBy(s, t);
    FillAtBoundary(t);
    if padding == [] {
      assert s == t;
    } else {
      FillStep(s);
    }
  }

  /** A skipped record with content is passed over and leaves no trace. */
  lemma FillPastSkipped(s: Rd, t: Rd, content: seq<byte>, padding: seq<byte>)
    requires !s.closed && !s.eorStop && s.skip && content != []
    requires s.content == |content| && s.padding == |padding| && s.unread == content + padding + t.unread
    requires t == s.(unread := t.unread, content := 0, padding := 0, skip := false)
    ensures Fill(s) == Fill(t)
  {
    hide FillTail, Process, Dispatch;
    assert s.unread[|content|..] == padding + t.unread;
    assert Advance(s) == t;
    assert Advance(t) == t;
    FillTailBy(s, t);
    FillAtBoundary(t);
    FillStep(s);
  }

  /** The state after a record's header. */
  function AfterHeader(s: Rd, r: Record, rest: seq<byte>): Rd {
    s.(unread := r.content + r.padding + rest, content := |r.content|, padding := |r.padding|)
  }

  lemma FillHeader(s: Rd, r: Record, rest: seq<byte>)
    requires s.Between() && r.Valid() && s.unread == Encode(r) + rest
    ensures var (p, status) := Process(s.(unread := r.content + r.padding + rest),
                                       MakeHeader(r.typ, r.id, |r.content|, |r.padding|));
            Fill(s) == Dispatch(p.(closed := false), status)
    ensures ReadHeader(MakeHeader(r.typ, r.id, |r.content|, |r.padding|))
         == Header(VERSION_1, r.typ, r.id, |r.content|, |r.padding|)
  {
    hide Process, Dispatch, Fill, MakeHeader, ReadHeader, Encode;
    HeaderRoundTrip(r.typ, r.id, |r.content|, |r.padding|);
    EncodeSplit(r, rest);
    var h, body := MakeHeader(r.typ, r.id, |r.content|, |r.padding|), r.content + r.padding + rest;
    ProcessAtBoundary(s.(unread := body), h);
  }

  lemma EncodeSplit(r: Record, rest: seq<byte>)
    requires r.Valid()
    ensures Encode(r) + rest
         == MakeHeader(r.typ, r.id, |r.content|, |r.padding|) + (r.content + r.padding + rest)
  {
    hide MakeHeader;
  }

  /** The state after a record. */
  function AfterRecord(s: Rd, r: Record, rest: seq<byte>): Rd {
    s.(unread := rest, skip := StillSkips(r, s.req.id, s.skip), wire := s.wire + EncodeAll(Said(r, s.skip)))
  }

  /** Content is delivered when it is the stream's, or that of an unknown management record, and is not skipped. */
  lemma DeliverStep(s: Rd, r: Record, rest: seq<byte>)
    requires Ready(s) && r.Valid() && s.unread == Encode(r) + rest && r.content != []
    requires IsData(r, s.typ, s.req.id) || IsUnknownManagement(r)
    ensures var t := AfterRecord(s, r, rest);
            Drain(s) == (r.content + Drain(t).0, Drain(t).1)
  {
    hide Fill, Drain, Take, EncodeAll;
    var t := AfterRecord(s, r, rest);
    var p := AfterHeader(t, r, rest);
    DeliverHeader(s, r, rest);
    DrainByFill(s, p);
    TakeDrain(p, |r.content|);
    TakeAtHand(p, |r.content|);
    assert p.unread[..|r.content|] == r.content;
    assert p.unread[|r.content|..] == r.padding + rest;
    var q := DropContent(p, |r.content|);
    FillPastPadding(q, t, r.padding);
    DrainByFill(q, t);
  }

  lemma DeliverHeader(s: Rd, r: Record, rest: seq<byte>)
    requires Ready(s) && r.Valid() && s.unread == Encode(r) + rest && r.content != []
    requires IsData(r, s.typ, s.req.id) || IsUnknownManagement(r)
    ensures var p := AfterHeader(AfterRecord(s, r, rest), r, rest);
            Fill(s) == p && Fill(p) == p
  {
    hide FillTail, Encode, MakeHeader, ReadHeader;
    FillHeader(s, r, rest);
    if IsUnknownManagement(r) {
      EncodeAllOne(UnknownTypeRecord(r.typ));
    } else {
      assert s.wire + [] == s.wire;
    }
    FillDelivers(AfterHeader(AfterRecord(s, r, rest), r, rest));
  }

  /** A record with content is skipped when it belongs to another request, begins one, or skipping is pending. */
  lemma SkipStep(s: Rd, r: Record, rest: seq<byte>)
    requires s.Between() && r.Valid() && s.unread == Encode(r) + rest && r.content != []
    requires || IsForeign(r, s.req.id)
             || (IsOtherBegin(r) && s.req.begun)
             || (s.skip && (IsUnknownManagement(r) || (IsData(r, s.typ, s.req.id) && Reading(s))))
    ensures Fill(s) == Fill(AfterRecord(s, r, rest))
  {
    hide Fill, Encode, MakeHeader, ReadHeader;
    FillHeader(s, r, rest);
    var t := AfterRecord(s, r, rest);
    if IsOtherBegin(r) {
      EncodeAllOne(EndRequestRecord(r.id, 0, CANT_MPX_CONN));
    } else if IsUnknownManagement(r) {
      EncodeAllOne(UnknownTypeRecord(r.typ));
    } else {
      assert s.wire + [] == s.wire;
    }
    FillPastSkipped(AfterHeader(t, r, rest).(skip := true), t, r.content, r.padding);
  }

  /** A record without content that carries nothing of the stream leaves its padding to be passed over. */
  lemma EmptyStep(s: Rd, r: Record, rest: seq<byte>)
    requires s.Between() && r.Valid() && s.unread == Encode(r) + rest && r.content == []
    requires IsForeign(r, s.req.id) || IsUnknownManagement(r)
    ensures Fill(s) == Fill(AfterRecord(s, r, rest))
  {
    hide Fill, Encode, MakeHeader, ReadHeader;
    FillHeader(s, r, rest);
    var t := AfterRecord(s, r, rest);
    if IsUnknownManagement(r) {
      EncodeAllOne(UnknownTypeRecord(r.typ));
    } else {
      assert s.wire + [] == s.wire;
    }
    var p := AfterHeader(t, r, rest);
    assert p.unread == r.padding + rest;
    FillPastPadding(p, t, r.padding);
  }

  lemma AtEndOf(s: Rd, r: Record, rest: seq<byte>)
    requires s.Between() && (r.padding + rest != [] || (s.skip && r.content != []))
    ensures Body(AfterHeader(s, r, rest)) == if s.skip then [] else r.content
    ensures AtRecordEnd(AfterHeader(s, r, rest))
         == s.(unread := rest, closed := true, skip := s.skip && r.content == [])
  {
    var p := AfterHeader(s, r, rest);
    assert p.unread[|r.content|..] == r.padding + rest;
    assert (r.padding + rest)[|r.padding|..] == rest;
    assert p.unread[0..] == p.unread && p.unread != [];
  }

  /** The reader gets past a request for values only once a byte beyond the content it reads is there. */
  predicate GetsPast(r: Record, skip: bool, rest: seq<byte>) {
    IsGetValues(r) ==> r.padding + rest != [] || (skip && r.content != [])
  }

  lemma GetValuesStep(s: Rd, r: Record, rest: seq<byte>)
    requires s.Between() && s.errno == 0 && r.Valid() && s.unread == Encode(r) + rest
    requires IsGetValues(r) && Answerable(r) && GetsPast(r, s.skip, rest)
    ensures Fill(s) == Fill(AfterRecord(s, r, rest))
  {
    hide Fill, Encode, ParsePairs, ValuesPayload, MakeHeader, ReadHeader, AtRecordEnd, Body;
    FillHeader(s, r, rest);
    AtEndOf(s, r, rest);
    NothingAsked();
    EncodeAllOne(Said(r, s.skip)[0]);
  }

  lemma NothingAsked()
    ensures ParsePairs([]) == Parsed([], true) && ValuesPayload(Entries([])) == Some([])
  {
  }

  /** The meaning of one record. */
  lemma RecordStep(s: Rd, r: Record, rest: seq<byte>)
    requires Reading(s) && Understood(r, s.typ, s.req.id) && s.unread == Encode(r) + rest
    requires GetsPast(r, s.skip, rest)
    ensures var t := AfterRecord(s, r, rest);
            Drain(s) == (Heard(r, s.typ, s.req.id, s.skip) + Drain(t).0, Drain(t).1)
  {
    hide Fill, Drain, Encode, EncodeAll, ValuesPayload, ParsePairs;
    var t := AfterRecord(s, r, rest);
    if Heard(r, s.typ, s.req.id, s.skip) != [] {
      DeliverStep(s, r, rest);
    } else {
      if IsGetValues(r) {
        GetValuesStep(s, r, rest);
      } else if r.content == [] {
        EmptyStep(s, r, rest);
      } else {
        SkipStep(s, r, rest);
      }
      DrainByFill(s, t);
      assert [] + Drain(t).0 == Drain(t).0;
    }
  }

  // ---------------------------------------------------------------- a whole stream

  /** The state after a list of records. */
  function AfterAll(s: Rd, rs: seq<Record>, rest: seq<byte>): Rd {
    s.(unread := rest, skip := SkipsAfter(rs, s.req.id, s.skip),
       wire := s.wire + EncodeAll(SaidAll(rs, s.req.id, s.skip)))
  }

  lemma AfterNone(s: Rd, bs: seq<byte>)
    ensures AfterAll(s, [], s.unread) == s && [] + bs == bs
  {
    assert s.wire + [] == s.wire;
  }

  lemma AfterMore(s: Rd, r: Record, rs: seq<Record>, rest1: seq<byte>, rest: seq<byte>)
    ensures AfterAll(AfterRecord(s, r, rest1), rs, rest) == AfterAll(s, [r] + rs, rest)
    ensures HeardAll([r] + rs, s.typ, s.req.id, s.skip)
         == Heard(r, s.typ, s.req.id, s.skip) + HeardAll(rs, s.typ, s.req.id, StillSkips(r, s.req.id, s.skip))
  {
    hide Said, Heard, StillSkips, EncodeAll;
    var first, more := Said(r, s.skip), SaidAll(rs, s.req.id, StillSkips(r, s.req.id, s.skip));
    HeadAndTail(r, rs);
    EncodeAllAppend(first, more);
    Regroup(s.wire, EncodeAll(first), EncodeAll(more));
  }

  lemma HeadAndTail(r: Record, rs: seq<Record>)
    ensures ([r] + rs)[0] == r && ([r] + rs)[1..] == rs
  {
  }

  /** What any list of records delivers and says, whatever follows. */
  lemma {:induction false} RecordsHeard(s: Rd, rs: seq<Record>, rest: seq<byte>)
    requires Reading(s) && AllUnderstood(rs, s.typ, s.req.id) && AllValid(rs)
    requires s.unread == EncodeAll(rs) + rest && rest != []
    ensures var t := AfterAll(s, rs, rest);
            Drain(s) == (HeardAll(rs, s.typ, s.req.id, s.skip) + Drain(t).0, Drain(t).1)
    decreases |rs|
  {
    hide Drain, Encode, Said, Understood, Heard, StillSkips, HeardAll, SaidAll, SkipsAfter, AfterAll;
    if rs == [] {
      assert [] + rest == rest;
      AfterNone(s, Drain(s).0);
      NothingHeard(s.typ, s.req.id, s.skip);
    } else {
      var r, rest1 := rs[0], EncodeAll(rs[1..]) + rest;
      var t := AfterRecord(s, r, rest1);
      assert s.unread == Encode(r) + rest1 && [r] + rs[1..] == rs;
      RecordStep(s, r, rest1);
      RecordsHeard(t, rs[1..], rest);
      AfterMore(s, r, rs[1..], rest1, rest);
      Regroup(Heard(r, s.typ, s.req.id, s.skip), HeardAll(rs[1..], s.typ, s.req.id, t.skip),
              Drain(AfterAll(s, rs, rest)).0);
    }
  }

  lemma NothingHeard(typ: byte, id: nat, skip: bool)
    ensures HeardAll([], typ, id, skip) == []
  {
  }

  function EndRecord(typ: byte, id: nat, padding: seq<byte>): Record {
    Record(typ, id, [], padding)
  }

  /** The empty record ends the stream without an error, its padding still unread. */
  lemma DrainEnd(s: Rd, padding: seq<byte>, tail: seq<byte>)
    requires Reading(s) && |padding| <= 0xff && s.req.id <= 0xffff
    requires s.unread == Encode(EndRecord(s.typ, s.req.id, padding)) + tail
    ensures Drain(s) == ([], s.(unread := padding + tail, padding := |padding|, closed := true))
  {
    hide Fill, FillTail, Encode, MakeHeader, ReadHeader;
    FillHeader(s, EndRecord(s.typ, s.req.id, padding), tail);
    assert [] + padding + tail == padding + tail;
  }

  /** The meaning of a whole stream, whatever records are mixed into it. */
  lemma StreamHeard(s: Rd, rs: seq<Record>, padding: seq<byte>, tail: seq<byte>)
    requires Reading(s) && AllUnderstood(rs, s.typ, s.req.id) && AllValid(rs)
    requires |padding| <= 0xff && s.req.id <= 0xffff
    requires s.unread == EncodeAll(rs) + (Encode(EndRecord(s.typ, s.req.id, padding)) + tail)
    ensures Drain(s) == (HeardAll(rs, s.typ, s.req.id, s.skip),
                         AfterAll(s, rs, padding + tail).(padding := |padding|, closed := true))
  {
    hide Drain, Understood, Encode, HeardAll, SaidAll, SkipsAfter;
    var rest := Encode(EndRecord(s.typ, s.req.id, padding)) + tail;
    RecordsHeard(s, rs, rest);
    DrainEnd(AfterAll(s, rs, rest), padding, tail);
    assert HeardAll(rs, s.typ, s.req.id, s.skip) + [] == HeardAll(rs, s.typ, s.req.id, s.skip);
  }

  /** A record that the reader takes for an error: a malformed begin record, or a record of the request itself that is
      not of the type being read, as the abortion of the request always is. */
  predicate Foul(r: Record, typ: byte, id: nat) {
    && r.Valid()
    && if r.typ == BEGIN_REQUEST then r.id == NULL_REQUEST_ID || |r.content| != 8 else r.id == id && r.typ != typ
  }

  /** The meaning of a stream in front of the first such record: it delivers and answers what comes before, and ends
      in an error behind the header of the record. */
  lemma StreamSpoilt(s: Rd, rs: seq<Record>, r: Record, rest: seq<byte>)
    requires Reading(s) && AllUnderstood(rs, s.typ, s.req.id) && AllValid(rs) && Foul(r, s.typ, s.req.id)
    requires s.unread == EncodeAll(rs) + (Encode(r) + rest)
    ensures Drain(s) == (HeardAll(rs, s.typ, s.req.id, s.skip),
                         AfterHeader(AfterAll(s, rs, []), r, rest).Fail(PROTOCOL_ERROR))
  {
    hide Drain, Understood, Encode, HeardAll, SaidAll, SkipsAfter;
    RecordsHeard(s, rs, Encode(r) + rest);
    RecordSpoils(AfterAll(s, rs, Encode(r) + rest), r, rest);
    assert HeardAll(rs, s.typ, s.req.id, s.skip) + [] == HeardAll(rs, s.typ, s.req.id, s.skip);
  }

  lemma RecordSpoils(s: Rd, r: Record, rest: seq<byte>)
    requires Reading(s) && Foul(r, s.typ, s.req.id) && s.unread == Encode(r) + rest
    ensures Drain(s) == ([], AfterHeader(s, r, rest).Fail(PROTOCOL_ERROR))
  {
    hide Fill, FillTail, Encode, MakeHeader, ReadHeader;
    FillHeader(s, r, rest);
  }

  /** A record of another version spoils the stream behind its header. */
  lemma WrongVersionSpoils(s: Rd)
    requires s.Between() && s.errno == 0 && |s.unread| >= 8 && s.unread[0] != 1
    ensures Drain(s) == ([], s.(unread := s.unread[8..], closed := true, errno := -2))
  {
    FillAtBoundary(s);
    assert s.unread[..8][0] == s.unread[0];
  }

  /** A request for values whose pairs are cut short ends the stream in an error too. */
  lemma CutQuestionSpoils(s: Rd, r: Record, rest: seq<byte>)
    requires Ready(s) && r.Valid() && IsGetValues(r) && !ParsePairs(r.content).complete
    requires s.unread == Encode(r) + rest && r.padding + rest != []
    ensures Drain(s) == ([], s.(unread := rest).Fail(PARAMS_ERROR))
  {
    hide Fill, FillTail, Encode, MakeHeader, ReadHeader, ParsePairs, AtRecordEnd, Body;
    FillHeader(s, r, rest);
    AtEndOf(s, r, rest);
  }

  /** Nothing else can come: every record is understood, ends the stream, spoils it, or is a request for values that
      cannot be answered. */
  lemma EveryRecord(r: Record, typ: byte, id: nat)
    requires r.Valid() && StreamType(typ) && id != NULL_REQUEST_ID
    ensures || Understood(r, typ, id) || Foul(r, typ, id) || (IsGetValues(r) && !Answerable(r))
            || r == EndRecord(typ, id, r.padding)
  {
    hide Answerable;
  }

  /** Where every record is treated as the specification demands, that is its content and its answers. */
  lemma {:induction false} ServedHeard(rs: seq<Record>, typ: byte, id: nat)
    requires AllServed(rs, typ, id) && StreamType(typ) && id != NULL_REQUEST_ID
    ensures AllUnderstood(rs, typ, id)
    ensures HeardAll(rs, typ, id, false) == Payload(rs, typ, id)
    ensures SaidAll(rs, id, false) == Answers(rs) && !SkipsAfter(rs, id, false)
  {
    hide Answer;
    if rs != [] {
      ServedHeard(rs[1..], typ, id);
      assert rs[0] in rs;
    }
  }

  /** A whole stream: the reader delivers exactly the content of its own records, answers the others as the
      specification asks, and ends cleanly. */
  lemma StreamDelivered(s: Rd, rs: seq<Record>, padding: seq<byte>, tail: seq<byte>)
    requires Ready(s) && AllServed(rs, s.typ, s.req.id) && AllValid(rs) && |padding| <= 0xff && s.req.id <= 0xffff
    requires s.unread == EncodeAll(rs) + (Encode(EndRecord(s.typ, s.req.id, padding)) + tail)
    ensures Drain(s) == (Payload(rs, s.typ, s.req.id),
                         s.(unread := padding + tail, padding := |padding|, closed := true,
                            wire := s.wire + EncodeAll(Answers(rs))))
  {
    hide Drain, AllServed, AllUnderstood, Encode, HeardAll, SaidAll, SkipsAfter, Payload, Answers;
    ServedHeard(rs, s.typ, s.req.id);
    StreamHeard(s, rs, padding, tail);
  }

  /** Skipping is pending when some data record arrives. */
  predicate Swallows(rs: seq<Record>, typ: byte, id: nat, skip: bool) {
    && rs != []
    && ((skip && IsData(rs[0], typ, id)) || Swallows(rs[1..], typ, id, StillSkips(rs[0], id, skip)))
  }

  /** When no unknown management record has content, the stream is delivered as sent exactly when nothing of it
      arrives while skipping is pending. */
  lemma {:induction false} TransparentIff(rs: seq<Record>, typ: byte, id: nat, skip: bool)
    requires StreamType(typ) && id != NULL_REQUEST_ID
    requires forall r | r in rs :: IsUnknownManagement(r) ==> r.content == []
    ensures |HeardAll(rs, typ, id, skip)| <= |Payload(rs, typ, id)|
    ensures HeardAll(rs, typ, id, skip) == Payload(rs, typ, id) <==> !Swallows(rs, typ, id, skip)
  {
    if rs != [] {
      var t := StillSkips(rs[0], id, skip);
      TransparentIff(rs[1..], typ, id, t);
      assert rs[0] in rs;
      var own := if IsData(rs[0], typ, id) then rs[0].content else [];
      var heard := Heard(rs[0], typ, id, skip);
      assert heard == own || (heard == [] && own != []);
      if heard == own {
        SamePrefix(own, HeardAll(rs[1..], typ, id, t), Payload(rs[1..], typ, id));
      }
    }
  }

  lemma SamePrefix(a: seq<byte>, b: seq<byte>, c: seq<byte>)
    ensures a + b == a + c <==> b == c
  {
    assert (a + b)[|a|..] == b && (a + c)[|a|..] == c;
  }
}

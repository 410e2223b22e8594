/** What accepting a request from a connection comes to, as a function of the bytes of the connection. */
module Accepting {
  import opened Bytes
  import opened Pairs
  import opened Params
  import opened Records
  import opened Demux
  import opened DemuxLemmas
  import opened Streams
  import opened Departures
  import opened Breaks

  /** A new reader on a connection; the request fields are those the previous request left behind. */
  function Start(inbound: seq<byte>, readEnd: nat, stale: Request, wire: seq<byte>): Rd {
    Rd(inbound, readEnd, 0, false, false, 0, 0, false, 0, stale.(begun := false), wire)
  }

  function RoleEntry(role: nat): Option<seq<byte>> {
    if role == RESPONDER then Some(Ascii("FCGI_ROLE=RESPONDER"))
    else if role == AUTHORIZER then Some(Ascii("FCGI_ROLE=AUTHORIZER"))
    else if role == FILTER then Some(Ascii("FCGI_ROLE=FILTER"))
    else None
  }

  /** Either the environment of a request and its reader, set to standard input, or a connection given up. */
  datatype Outcome = Accepted(entries: seq<seq<byte>>, reader: Rd) | GivenUp

  /** One turn of the loop of `FCGX_Accept_r`. */
  function Accept(s: Rd): Outcome
    requires !s.closed
  {
    var begin := Fill(s);
    if !begin.req.begun then GivenUp
    else
      match RoleEntry(begin.req.role)
      case None => GivenUp
      case Some(role) =>
        var (bs, end) := Drain(SetType(begin, PARAMS));
        var parsed := ParsePairs(bs);
        if parsed.complete then Accepted([role] + Entries(parsed.pairs), SetType(end, STDIN))
        else GivenUp
  }

  /** The role as the value of an environment variable: RESPONDER, AUTHORIZER or FILTER. */
  function RoleName(role: nat): seq<byte> {
    if role == 1 then [82, 69, 83, 80, 79, 78, 68, 69, 82]
    else if role == 2 then [65, 85, 84, 72, 79, 82, 73, 90, 69, 82]
    else [70, 73, 76, 84, 69, 82]
  }

  /** FCGI_ROLE. */
  const ROLE: seq<byte> := [70, 67, 71, 73, 95, 82, 79, 76, 69]

  /** The roles 1, 2 and 3 have an entry, no other has. */
  lemma RoleIsEntry(role: nat)
    ensures 1 <= role <= 3 ==>
              && RoleEntry(role) == Some(ROLE + [61] + RoleName(role))
              && RoleEntry(role) == Some(Entry(Pair(ROLE, RoleName(role))))
              && Reread(Pair(ROLE, RoleName(role))) == Pair(ROLE, RoleName(role))
    ensures role < 1 || role > 3 ==> RoleEntry(role) == None
  {
    RoleTexts();
    hide Ascii;
  }

  lemma RoleTexts()
    ensures Ascii("FCGI_ROLE=RESPONDER") == ROLE + [61] + RoleName(1)
    ensures Ascii("FCGI_ROLE=AUTHORIZER") == ROLE + [61] + RoleName(2)
    ensures Ascii("FCGI_ROLE=FILTER") == ROLE + [61] + RoleName(3)
  {
    ResponderText();
    AuthorizerText();
    FilterText();
    hide Ascii, ROLE, RoleName;
  }

  lemma ResponderText()
    ensures Ascii("FCGI_ROLE=RESPONDER") == ROLE + [61] + RoleName(1)
  {
  }

  lemma AuthorizerText()
    ensures Ascii("FCGI_ROLE=AUTHORIZER") == ROLE + [61] + RoleName(2)
  {
  }

  lemma FilterText()
    ensures Ascii("FCGI_ROLE=FILTER") == ROLE + [61] + RoleName(3)
  {
  }

  lemma EntriesBehind(p: Pair, ps: seq<Pair>)
    requires Reread(p) == p
    ensures Entries([p] + ps) == [Entry(p)] + Entries(ps) && RereadAll([p] + ps) == [p] + RereadAll(ps)
  {
    hide Entry, Reread;
  }

  /** A lookup in the environment of an accepted request finds the first binding among the role and the pairs
      received, each cut at the first `=` of its entry. */
  lemma EnvironmentLookup(role: nat, ps: seq<Pair>, name: seq<byte>)
    requires 1 <= role <= 3 && EQUALS !in name
    ensures RoleEntry(role).Some?
    ensures Lookup([RoleEntry(role).value] + Entries(ps), name)
         == Binding([Pair(ROLE, RoleName(role))] + RereadAll(ps), name)
  {
    var p := Pair(ROLE, RoleName(role));
    RoleIsEntry(role);
    EntriesBehind(p, ps);
    hide Ascii, Reread, RoleEntry, RoleName, Entry, Entries, RereadAll, Lookup, Binding;
    LookupRereads([p] + ps, name);
  }

  // ---------------------------------------------------------------- well-formed requests

  /** A begin record, whatever its five reserved bytes hold. */
  function BeginRecord(id: nat, role: nat, flags: byte, reserved: seq<byte>, padding: seq<byte>): (r: Record)
    ensures |reserved| == 5 ==> |r.content| == 8
  {
    Record(BEGIN_REQUEST, id, [role / 0x100 % 0x100, role % 0x100, flags] + reserved, padding)
  }

  predicate FreshReader(s: Rd) {
    s.Between() && !s.skip && !s.req.begun && s.errno == 0
  }

  /** The records that are passed over while a request is awaited: management records and records of requests other
      than the one before. */
  predicate Early(r: Record, last: nat) {
    && r.Valid()
    && (|| (IsForeign(r, last) && r.content != [])
        || (IsGetValues(r) && Answerable(r))
        || (IsUnknownManagement(r) && r.content == []))
  }

  predicate AllEarly(rs: seq<Record>, last: nat) {
    forall r | r in rs :: Early(r, last)
  }

  /** Early records are answered and leave no trace in what is accepted. */
  lemma {:induction false} EarlyPassed(s: Rd, rs: seq<Record>, rest: seq<byte>)
    requires FreshReader(s) && AllEarly(rs, s.req.id) && AllValid(rs) && rest != []
    requires s.unread == EncodeAll(rs) + rest
    ensures var t := s.(unread := rest, wire := s.wire + EncodeAll(Answers(rs)));
            Fill(s) == Fill(t) && Accept(s) == Accept(t)
    decreases |rs|
  {
    hide Fill, Encode, ParsePairs, ValuesPayload, Answer;
    if rs == [] {
      assert [] + rest == rest && s.wire + [] == s.wire;
    } else {
      var r, rest1 := rs[0], EncodeAll(rs[1..]) + rest;
      assert r in rs && s.unread == Encode(r) + rest1;
      EarlyStep(s, r, rest1);
      var t := s.(unread := rest1, wire := s.wire + EncodeAll(Answer(r)));
      EarlyPassed(t, rs[1..], rest);
      EncodeAllAppend(Answer(r), Answers(rs[1..]));
      assert s.wire + EncodeAll(Answer(r)) + EncodeAll(Answers(rs[1..]))
          == s.wire + (EncodeAll(Answer(r)) + EncodeAll(Answers(rs[1..])));
    }
  }

  lemma EarlyStep(s: Rd, r: Record, rest: seq<byte>)
    requires FreshReader(s) && Early(r, s.req.id) && GetsPast(r, false, rest) && s.unread == Encode(r) + rest
    ensures Fill(s) == Fill(s.(unread := rest, wire := s.wire + EncodeAll(Answer(r))))
  {
    hide Fill, Encode, EncodeAll, ParsePairs, ValuesPayload;
    if IsGetValues(r) {
      GetValuesStep(s, r, rest);
    } else if r.content == [] {
      EmptyStep(s, r, rest);
    } else {
      SkipStep(s, r, rest);
    }
  }

  /** A begin record starts the request; its padding, if any, stays unread. */
  lemma BeginStarts(s: Rd, id: nat, role: nat, flags: byte, reserved: seq<byte>, padding: seq<byte>,
                    tail: seq<byte>)
    requires FreshReader(s) && |reserved| == 5 && 0 < id <= 0xffff && role <= 0xffff && |padding| <= 0xff
    requires s.unread == Encode(BeginRecord(id, role, flags, reserved, padding)) + tail
    ensures Fill(s) == s.(unread := padding + tail, padding := |padding|,
                          req := Request(id, role, flags % 2 == 1, true))
  {
    hide Encode, MakeHeader, ReadHeader, FillTail;
    var r := BeginRecord(id, role, flags, reserved, padding);
    FillHeader(s, r, tail);
    var t := AfterHeader(s, r, tail).(req := s.req.(id := id));
    assert t.unread[..8] == r.content;
    assert t.unread[8..] == padding + tail;
    U16Split(role);
  }

  /** The state in which the parameters are read. */
  function AtParams(s: Rd, id: u16, role: nat, flags: byte, tail: seq<byte>): Rd {
    SetType(s.(unread := tail, req := Request(id, role, flags % 2 == 1, true)), PARAMS)
  }

  /** The same for a request that comes at once. */
  lemma AcceptsParameters(s: Rd, id: nat, role: nat, flags: byte, reserved: seq<byte>, ps: seq<Pair>, fs: seq<Form>,
                          rs: seq<Record>, tail: seq<byte>)
    requires FreshReader(s) && |reserved| == 5 && 0 < id <= 0xffff && RESPONDER <= role <= FILTER
    requires |fs| == |ps| && AllEncodable(ps)
    requires AllValid(rs) && AllServed(rs, PARAMS, id) && Payload(rs, PARAMS, id) == EncodePairs(ps, fs)
    requires s.unread == Encode(BeginRecord(id, role, flags, reserved, [])) +
                         (EncodeAll(rs) + (Encode(EndRecord(PARAMS, id, [])) + tail))
    ensures Accept(s) == Accepted([RoleEntry(role).value] + Entries(ps),
                                  s.(unread := tail, typ := STDIN, req := Request(id, role, flags % 2 == 1, true),
                                     wire := s.wire + EncodeAll(Answers(rs))))
  {
    hide Fill, Drain, Encode, Served, ParsePairs, Answers, Payload, EncodePairs;
    var params := EncodeAll(rs) + (Encode(EndRecord(PARAMS, id, [])) + tail);
    BeginStarts(s, id, role, flags, reserved, [], params);
    assert [] + params == params;
    StreamDelivered(AtParams(s, id, role, flags, params), rs, [], tail);
    assert [] + tail == tail;
    ParseEncodePairs(ps, fs);
  }

  /** End to end: for every list of pairs, every choice of length forms and every cut of their encoding into records,
      padded or not and mixed with records of other requests and management records, the environment is the role
      followed by `name=value` for each pair in order, and standard input starts right behind the parameters. */
  lemma AcceptsEnvironment(s: Rd, early: seq<Record>, id: nat, role: nat, flags: byte, reserved: seq<byte>,
                           ps: seq<Pair>, fs: seq<Form>, rs: seq<Record>, tail: seq<byte>)
    requires FreshReader(s) && |reserved| == 5 && 0 < id <= 0xffff && RESPONDER <= role <= FILTER
    requires |fs| == |ps| && AllEncodable(ps)
    requires AllEarly(early, s.req.id) && AllValid(early)
    requires AllValid(rs) && AllServed(rs, PARAMS, id) && Payload(rs, PARAMS, id) == EncodePairs(ps, fs)
    requires s.unread == EncodeAll(early) +
                         (Encode(BeginRecord(id, role, flags, reserved, [])) +
                          (EncodeAll(rs) + (Encode(EndRecord(PARAMS, id, [])) + tail)))
    ensures Accept(s) == Accepted([RoleEntry(role).value] + Entries(ps),
                                  s.(unread := tail, typ := STDIN, req := Request(id, role, flags % 2 == 1, true),
                                     wire := s.wire + EncodeAll(Answers(early)) + EncodeAll(Answers(rs))))
  {
    hide Fill, Accept, Encode, AllServed, Answers, AllEarly, Payload, EncodePairs, EncodeAll, RoleEntry, Entries;
    var params := EncodeAll(rs) + (Encode(EndRecord(PARAMS, id, [])) + tail);
    var rest := Encode(BeginRecord(id, role, flags, reserved, [])) + params;
    EarlyPassed(s, early, rest);
    AcceptsParameters(s.(unread := rest, wire := s.wire + EncodeAll(Answers(early))),
                      id, role, flags, reserved, ps, fs, rs, tail);
  }

  /** A request for any other role is given up. */
  lemma OtherRoleGivesUp(s: Rd, id: nat, role: nat, flags: byte, reserved: seq<byte>, tail: seq<byte>)
    requires FreshReader(s) && |reserved| == 5 && 0 < id <= 0xffff && role <= 0xffff && (role < 1 || role > 3)
    requires s.unread == Encode(BeginRecord(id, role, flags, reserved, [])) + tail
    ensures Accept(s) == GivenUp
  {
    hide Fill, Drain, Encode, RoleEntry;
    BeginStarts(s, id, role, flags, reserved, [], tail);
    RoleIsEntry(role);
  }

  /** An environment: the role, and then `name=value` for each pair. */
  predicate EntriesRead(entries: seq<seq<byte>>, role: seq<byte>, ps: seq<Pair>) {
    && |entries| == 1 + |ps| && entries[0] == role
    && forall i | 0 <= i < |ps| :: entries[i + 1] == ps[i].name + [61] + ps[i].value
  }

  lemma EntriesAre(role: seq<byte>, ps: seq<Pair>)
    ensures EntriesRead([role] + Entries(ps), role, ps)
  {
    assert forall i | 0 <= i < |ps| :: ([role] + Entries(ps))[i + 1] == Entries(ps)[i];
  }

  /** The bytes of a begin record, and of the end of the parameters. */
  function BeginBytes(id: u16, role: nat, flags: byte, reserved: seq<byte>): seq<byte>
    requires role <= 0xffff
  {
    [1, 1, id / 256, id % 256, 0, 8, 0, 0, role / 256, role % 256, flags] + reserved
  }

  function EndBytes(id: u16): seq<byte> {
    [1, 4, id / 256, id % 256, 0, 0, 0, 0]
  }

  lemma BytesOfRecords(id: u16, role: nat, flags: byte, reserved: seq<byte>)
    requires 0 < id && |reserved| == 5 && role <= 0xffff
    ensures Encode(BeginRecord(id, role, flags, reserved, [])) == BeginBytes(id, role, flags, reserved)
    ensures Encode(EndRecord(PARAMS, id, [])) == EndBytes(id)
  {
    var r := BeginRecord(id, role, flags, reserved, []);
    assert MakeHeader(1, id, 8, 0) == [1, 1, id / 256, id % 256, 0, 8, 0, 0];
  }

  /** The same in bytes: the roles 1, 2 and 3 are accepted as responder, authorizer and filter, any other costs the
      connection; the entries behind the role are `name=value`. */
  lemma AcceptedByBytes(s: Rd, id: u16, role: nat, flags: byte, reserved: seq<byte>,
                        ps: seq<Pair>, fs: seq<Form>, rs: seq<Record>, tail: seq<byte>)
    requires FreshReader(s) && |reserved| == 5 && 0 < id && role <= 0xffff
    requires |fs| == |ps| && AllEncodable(ps)
    requires AllValid(rs) && AllServed(rs, 4, id) && Payload(rs, 4, id) == EncodePairs(ps, fs)
    requires s.unread == BeginBytes(id, role, flags, reserved) + (EncodeAll(rs) + (EndBytes(id) + tail))
    ensures Accept(s).Accepted? <==> 1 <= role <= 3
    ensures Accept(s).Accepted? ==>
              && EntriesRead(Accept(s).entries, ROLE + [61] + RoleName(role), ps)
              && Accept(s).reader.req == Request(id, role, flags % 2 == 1, true)
              && Accept(s).reader.typ == 5 && Accept(s).reader.unread == tail
  {
    hide Accept, Fill, Encode, EncodePairs, EncodeAll, Payload, Answers, AllServed, RoleEntry, ROLE, RoleName;
    hide Entries, EntriesRead, EndRecord, BeginRecord, BeginBytes, EndBytes;
    BytesOfRecords(id, role, flags, reserved);
    RoleIsEntry(role);
    if 1 <= role <= 3 {
      AcceptsParameters(s, id, role, flags, reserved, ps, fs, rs, tail);
      EntriesAre(ROLE + [61] + RoleName(role), ps);
    } else {
      OtherRoleGivesUp(s, id, role, flags, reserved, EncodeAll(rs) + (EndBytes(id) + tail));
    }
  }

  /** When the parameter stream carries only the first `k` bytes of the pairs, the request is accepted exactly when
      the cut is between two pairs, and then with the pairs in front of it. */
  lemma AcceptsCutIff(s: Rd, id: nat, role: nat, flags: byte, reserved: seq<byte>, ps: seq<Pair>, fs: seq<Form>, k: nat,
                      rs: seq<Record>, tail: seq<byte>)
    requires FreshReader(s) && |reserved| == 5 && 0 < id <= 0xffff && RESPONDER <= role <= FILTER
    requires |fs| == |ps| && AllEncodable(ps) && k <= |EncodePairs(ps, fs)|
    requires AllValid(rs) && AllServed(rs, PARAMS, id) && Payload(rs, PARAMS, id) == EncodePairs(ps, fs)[..k]
    requires s.unread == Encode(BeginRecord(id, role, flags, reserved, [])) +
                         (EncodeAll(rs) + (Encode(EndRecord(PARAMS, id, [])) + tail))
    ensures Accept(s).Accepted? <==> IsBoundary(ps, fs, k)
    ensures forall j | 0 <= j <= |ps| && Boundary(ps, fs, j) == k ::
              Accept(s).Accepted? && Accept(s).entries == [RoleEntry(role).value] + Entries(ps[..j])
  {
    hide Fill, Drain, Encode, Served, ParsePairs, Answers, IsBoundary, Boundary;
    var params := EncodeAll(rs) + (Encode(EndRecord(PARAMS, id, [])) + tail);
    BeginStarts(s, id, role, flags, reserved, [], params);
    assert [] + params == params;
    StreamDelivered(AtParams(s, id, role, flags, params), rs, [], tail);
    ParseCutPairs(ps, fs, k);
    forall j | 0 <= j <= |ps| && Boundary(ps, fs, j) == k
      ensures ParsePairs(EncodePairs(ps, fs)[..k]) == Parsed(ps[..j], true)
    {
      ParseAtBoundary(ps, fs, j);
    }
  }

  /** A padded begin record spoils the parameters: the padding is taken for a header, the stream ends in an error at
      once, and the request is accepted all the same, with an empty environment. The environment is the one sent
      exactly when the begin record is not padded or nothing was sent. */
  lemma PaddedBeginIff(s: Rd, id: nat, role: nat, flags: byte, reserved: seq<byte>, left: seq<byte>,
                       ps: seq<Pair>, fs: seq<Form>, rs: seq<Record>, tail: seq<byte>)
    requires FreshReader(s) && |reserved| == 5 && 0 < id <= 0xffff && RESPONDER <= role <= FILTER
    requires |left| <= 0xff && NoHeader(left)
    requires |fs| == |ps| && AllEncodable(ps)
    requires AllValid(rs) && AllServed(rs, PARAMS, id) && Payload(rs, PARAMS, id) == EncodePairs(ps, fs)
    requires s.unread == Encode(BeginRecord(id, role, flags, reserved, left)) +
                         (EncodeAll(rs) + (Encode(EndRecord(PARAMS, id, [])) + tail))
    ensures Accept(s).Accepted?
    ensures Accept(s).entries == [RoleEntry(role).value] + Entries(ps) <==> left == [] || ps == []
    ensures Accept(s).reader.errno == 0 <==> left == []
  {
    hide Fill, Drain, Encode, Served, Answers, EncodePairs, Payload, EncodeAll, ParsePairs, Entries;
    var params := EncodeAll(rs) + (Encode(EndRecord(PARAMS, id, [])) + tail);
    BeginStarts(s, id, role, flags, reserved, left, params);
    LeftoverPaddingIff(Fill(s), PARAMS, left, rs, tail);
    ParseEncodePairs(ps, fs);
    ParseNothing();
    EntriesByLength(RoleEntry(role).value, ps);
  }

  lemma ParseNothing()
    ensures ParsePairs([]) == Parsed([], true)
  {
  }

  lemma EntriesByLength(role: seq<byte>, ps: seq<Pair>)
    ensures [role] + Entries([]) == [role] + Entries(ps) <==> ps == []
  {
    assert |[role] + Entries(ps)| == 1 + |ps|;
  }

  /** An empty record of another request in front of the begin record leaves skipping pending, so the begin record
      itself is skipped and the connection given up. */
  lemma EmptyEarlySpoils(s: Rd, f: Record, id: nat, role: nat, flags: byte, reserved: seq<byte>, tail: seq<byte>)
    requires FreshReader(s) && |reserved| == 5 && 0 < id <= 0xffff
    requires f.Valid() && IsForeign(f, s.req.id) && f.content == []
    requires s.unread == Encode(f) + (Encode(BeginRecord(id, role, flags, reserved, [])) + tail)
    ensures Accept(s) == GivenUp
  {
    hide FillTail, MakeHeader, ReadHeader, Encode;
    var b := BeginRecord(id, role, flags, reserved, []);
    EmptyStep(s, f, Encode(b) + tail);
    FillHeader(AfterRecord(s, f, Encode(b) + tail), b, tail);
  }

  // ---------------------------------------------------------------- broken connections

  /** Everything up to the end of the parameters. */
  function ParamsWire(id: nat, role: nat, flags: byte, reserved: seq<byte>, rs: seq<Record>): seq<byte>
    requires 0 < id <= 0xffff && |reserved| == 5 && AllValid(rs)
  {
    Encode(BeginRecord(id, role, flags, reserved, [])) + (EncodeAll(rs) + Encode(EndRecord(PARAMS, id, [])))
  }

  const BEGIN_LEN := 16

  lemma BeginLength(id: nat, role: nat, flags: byte, reserved: seq<byte>)
    requires 0 < id <= 0xffff && |reserved| == 5
    ensures |Encode(BeginRecord(id, role, flags, reserved, []))| == BEGIN_LEN
  {
  }

  /** A connection that ends in the records in front of the begin record. */
  lemma {:induction false} EarlyCut(s: Rd, early: seq<Record>, m: nat)
    requires FreshReader(s) && AllEarly(early, s.req.id) && AllValid(early)
    requires m <= |EncodeAll(early)| && s.unread == EncodeAll(early)[..m]
    ensures Broken(Fill(s), s)
    decreases |early|
  {
    hide Fill, Encode, ParsePairs, ValuesPayload, Answer;
    if early == [] {
      FillAtBoundary(s);
    } else {
      var r, later := early[0], EncodeAll(early[1..]);
      var size := |Encode(r)|;
      assert r in early;
      CutConcat(Encode(r), later, m);
      if StopsAt(r, false, m) {
        assert m == size ==> Encode(r)[..m] == Encode(r) && later[..0] == [] && Encode(r) + [] == Encode(r);
        PassedCut(s, r, m);
      } else {
        var rest := later[..m - size];
        PastThere(r, false, rest);
        EarlyStep(s, r, rest);
        EarlyCut(s.(unread := rest, wire := s.wire + EncodeAll(Answer(r))), early[1..], m - size);
      }
    }
  }

  /** A connection that ends inside the begin record. */
  lemma BeginCut(s: Rd, id: nat, role: nat, flags: byte, reserved: seq<byte>, m: nat)
    requires FreshReader(s) && 0 < id <= 0xffff && |reserved| == 5 && m < BEGIN_LEN
    requires m <= |Encode(BeginRecord(id, role, flags, reserved, []))|
    requires s.unread == Encode(BeginRecord(id, role, flags, reserved, []))[..m]
    ensures Accept(s) == GivenUp
  {
    hide FillTail, MakeHeader, ReadHeader, Encode;
    if m < HEADER_LEN {
      FillAtBoundary(s);
    } else {
      HeaderCut(s, BeginRecord(id, role, flags, reserved, []), m);
    }
  }

  /** What is accepted of a connection that ends after `m` bytes of its begin record and parameters. */
  ghost predicate AcceptedUpTo(s: Rd, role: nat, ps: seq<Pair>, fs: seq<Form>, rs: seq<Record>, id: nat, m: int)
    requires !s.closed && RESPONDER <= role <= FILTER && |fs| == |ps| && AllEncodable(ps) && AllValid(rs)
  {
    var k := |Arrived(rs, PARAMS, id, false, Max(m - BEGIN_LEN, 0))|;
    && (Accept(s).Accepted? <==> m >= BEGIN_LEN && IsBoundary(ps, fs, k))
    && (Accept(s).Accepted? ==> Accept(s).reader.errno == if s.readEnd == 0 then -3 else s.readEnd)
    && (forall j | m >= BEGIN_LEN && 0 <= j <= |ps| && Boundary(ps, fs, j) == k ::
          Accept(s).Accepted? && Accept(s).entries == [RoleEntry(role).value] + Entries(ps[..j]))
  }

  /** A connection that ends anywhere in front of the end of the parameters, be it inside a header, a content or a
      padding: the request is accepted exactly when the begin record is complete and the parameters that have arrived
      stop between two pairs, and then with the pairs in front; only the reader's error tells. */
  lemma BrokenConnectionIff(s: Rd, early: seq<Record>, id: nat, role: nat, flags: byte, reserved: seq<byte>,
                            ps: seq<Pair>, fs: seq<Form>, rs: seq<Record>, m: nat)
    requires FreshReader(s) && |reserved| == 5 && 0 < id <= 0xffff && RESPONDER <= role <= FILTER
    requires |fs| == |ps| && AllEncodable(ps)
    requires AllEarly(early, s.req.id) && AllValid(early)
    requires AllValid(rs) && AllUnderstood(rs, PARAMS, id) && HeardAll(rs, PARAMS, id, false) == EncodePairs(ps, fs)
    requires m < |EncodeAll(early)| + |ParamsWire(id, role, flags, reserved, rs)|
    requires s.unread == (EncodeAll(early) + ParamsWire(id, role, flags, reserved, rs))[..m]
    ensures AcceptedUpTo(s, role, ps, fs, rs, id, m - |EncodeAll(early)|)
  {
    hide Fill, Accept, AcceptedUpTo, ParamsWire, AllUnderstood, AllEarly, HeardAll, EncodePairs, EncodeAll;
    hide AllEncodable;
    var first, params := EncodeAll(early), ParamsWire(id, role, flags, reserved, rs);
    CutConcat(first, params, m);
    if m <= |first| {
      WholeCut(first, params);
      EarlyCut(s, early, m);
      NotBegun(s);
      GivenUpEarly(s, role, ps, fs, rs, id, m - |first|);
    } else {
      var n := m - |first|;
      var t := s.(unread := params[..n], wire := s.wire + EncodeAll(Answers(early)));
      EarlyPassed(s, early, params[..n]);
      ParamsCut(t, id, role, flags, reserved, ps, fs, rs, n);
      SameOutcome(s, t, role, ps, fs, rs, id, n);
    }
  }

  lemma WholeCut(a: seq<byte>, b: seq<byte>)
    ensures a[..|a|] == a && a + b[..0] == a
  {
  }

  lemma GivenUpEarly(s: Rd, role: nat, ps: seq<Pair>, fs: seq<Form>, rs: seq<Record>, id: nat, m: int)
    requires !s.closed && RESPONDER <= role <= FILTER && |fs| == |ps| && AllEncodable(ps) && AllValid(rs)
    requires Accept(s) == GivenUp && m < BEGIN_LEN
    ensures AcceptedUpTo(s, role, ps, fs, rs, id, m)
  {
    hide Accept;
  }

  lemma SameOutcome(s: Rd, t: Rd, role: nat, ps: seq<Pair>, fs: seq<Form>, rs: seq<Record>, id: nat, m: int)
    requires !s.closed && !t.closed && Accept(s) == Accept(t) && s.readEnd == t.readEnd
    requires RESPONDER <= role <= FILTER && |fs| == |ps| && AllEncodable(ps) && AllValid(rs)
    requires AcceptedUpTo(t, role, ps, fs, rs, id, m)
    ensures AcceptedUpTo(s, role, ps, fs, rs, id, m)
  {
    hide Accept;
  }

  lemma NotBegun(s: Rd)
    requires !s.closed && !s.req.begun && Broken(Fill(s), s)
    ensures Accept(s) == GivenUp
  {
  }

  /** The same for a request that comes at once. */
  lemma ParamsCut(s: Rd, id: nat, role: nat, flags: byte, reserved: seq<byte>, ps: seq<Pair>, fs: seq<Form>,
                  rs: seq<Record>, m: nat)
    requires FreshReader(s) && |reserved| == 5 && 0 < id <= 0xffff && RESPONDER <= role <= FILTER
    requires |fs| == |ps| && AllEncodable(ps)
    requires AllValid(rs) && AllUnderstood(rs, PARAMS, id) && HeardAll(rs, PARAMS, id, false) == EncodePairs(ps, fs)
    requires m < |ParamsWire(id, role, flags, reserved, rs)|
    requires s.unread == ParamsWire(id, role, flags, reserved, rs)[..m]
    ensures AcceptedUpTo(s, role, ps, fs, rs, id, m)
  {
    hide Accept, AcceptedUpTo, Encode, EncodeAll, AllUnderstood, HeardAll, EncodePairs, AllEncodable;
    var begin := Encode(BeginRecord(id, role, flags, reserved, []));
    var later := EncodeAll(rs) + Encode(EndRecord(PARAMS, id, []));
    BeginLength(id, role, flags, reserved);
    CutConcat(begin, later, m);
    if m < BEGIN_LEN {
      BeginCut(s, id, role, flags, reserved, m);
      GivenUpEarly(s, role, ps, fs, rs, id, m);
    } else {
      WholeCut(begin, later);
      BegunCut(s, id, role, flags, reserved, ps, fs, rs, m - BEGIN_LEN);
    }
  }

  /** The same behind the begin record. */
  lemma BegunCut(s: Rd, id: nat, role: nat, flags: byte, reserved: seq<byte>, ps: seq<Pair>, fs: seq<Form>,
                 rs: seq<Record>, n: nat)
    requires FreshReader(s) && |reserved| == 5 && 0 < id <= 0xffff && RESPONDER <= role <= FILTER
    requires |fs| == |ps| && AllEncodable(ps)
    requires AllValid(rs) && AllUnderstood(rs, PARAMS, id) && HeardAll(rs, PARAMS, id, false) == EncodePairs(ps, fs)
    requires n < |EncodeAll(rs)| + |Encode(EndRecord(PARAMS, id, []))|
    requires s.unread == Encode(BeginRecord(id, role, flags, reserved, [])) +
                         (EncodeAll(rs) + Encode(EndRecord(PARAMS, id, [])))[..n]
    ensures AcceptedUpTo(s, role, ps, fs, rs, id, n + BEGIN_LEN)
  {
    hide Fill, Drain, Accept, AcceptedUpTo, Encode, EncodeAll, AllUnderstood, ParsePairs, HeardAll, EncodePairs;
    hide Entries, RoleEntry, ParsedAt, Arrived, AllEncodable;
    var rest := (EncodeAll(rs) + Encode(EndRecord(PARAMS, id, [])))[..n];
    EndLength(id);
    BeginStarts(s, id, role, flags, reserved, [], rest);
    NothingInFront(rest);
    var t := AtParams(s, id, role, flags, rest);
    AcceptBegun(s, role);
    ArrivedParams(t, ps, fs, rs, n);
    OutcomeOf(s, role, ps, fs, rs, id, n + BEGIN_LEN, Drain(t).0, Drain(t).1);
  }

  /** Accepting once a request has begun. */
  lemma AcceptBegun(s: Rd, role: nat)
    requires !s.closed && Fill(s).req.begun && Fill(s).req.role == role && RESPONDER <= role <= FILTER
    ensures var (bs, end) := Drain(SetType(Fill(s), PARAMS));
            Accept(s) == if ParsePairs(bs).complete
                         then Accepted([RoleEntry(role).value] + Entries(ParsePairs(bs).pairs), SetType(end, STDIN))
                         else GivenUp
  {
    hide Fill, Drain, ParsePairs, Entries, Ascii;
  }

  /** What has arrived of the parameters, and what the parser makes of it. */
  lemma ArrivedParams(t: Rd, ps: seq<Pair>, fs: seq<Form>, rs: seq<Record>, n: nat)
    requires Ready(t) && t.typ == PARAMS && t.req.id <= 0xffff && |fs| == |ps| && AllEncodable(ps)
    requires AllValid(rs) && AllUnderstood(rs, PARAMS, t.req.id)
    requires HeardAll(rs, PARAMS, t.req.id, false) == EncodePairs(ps, fs)
    requires n < |EncodeAll(rs)| + HEADER_LEN
    requires t.unread == (EncodeAll(rs) + Encode(EndRecord(PARAMS, t.req.id, [])))[..n]
    ensures var (bs, end) := Drain(t);
            && bs == Arrived(rs, PARAMS, t.req.id, false, n) && end.errno == (if t.readEnd == 0 then -3 else t.readEnd)
            && ParsedAt(ps, fs, bs)
  {
    hide Drain, Encode, AllUnderstood, ParsedAt, HeardAll, Arrived, EncodePairs, EncodeAll, AllEncodable;
    DrainCut(t, rs, n);
    ArrivedPrefix(rs, PARAMS, t.req.id, false, n);
    ParseArrived(ps, fs, Drain(t).0);
  }

  lemma OutcomeOf(s: Rd, role: nat, ps: seq<Pair>, fs: seq<Form>, rs: seq<Record>, id: nat, m: nat,
                  bs: seq<byte>, end: Rd)
    requires !s.closed && RESPONDER <= role <= FILTER && |fs| == |ps| && AllEncodable(ps) && m >= BEGIN_LEN
    requires AllValid(rs) && bs == Arrived(rs, PARAMS, id, false, m - BEGIN_LEN)
    requires end.errno == if s.readEnd == 0 then -3 else s.readEnd
    requires ParsedAt(ps, fs, bs)
    requires Accept(s) == if ParsePairs(bs).complete
                          then Accepted([RoleEntry(role).value] + Entries(ParsePairs(bs).pairs), SetType(end, STDIN))
                          else GivenUp
    ensures AcceptedUpTo(s, role, ps, fs, rs, id, m)
  {
    hide Accept, ParsePairs, IsBoundary, Boundary, Arrived, RoleEntry, Entries, AllEncodable, AllValid;
  }

  lemma EndLength(id: nat)
    requires 0 < id <= 0xffff
    ensures |Encode(EndRecord(PARAMS, id, []))| == HEADER_LEN
  {
  }

  /** What the parser makes of a prefix of the encoding: it is complete exactly when it stops between two pairs, and
      then the pairs in front are found. */
  ghost predicate ParsedAt(ps: seq<Pair>, fs: seq<Form>, bs: seq<byte>)
    requires |fs| == |ps| && AllEncodable(ps)
  {
    && (ParsePairs(bs).complete <==> IsBoundary(ps, fs, |bs|))
    && (forall j | 0 <= j <= |ps| && Boundary(ps, fs, j) == |bs| :: ParsePairs(bs) == Parsed(ps[..j], true))
  }

  lemma ParseArrived(ps: seq<Pair>, fs: seq<Form>, bs: seq<byte>)
    requires |fs| == |ps| && AllEncodable(ps) && bs <= EncodePairs(ps, fs)
    ensures ParsedAt(ps, fs, bs)
  {
    hide ParsePairs, IsBoundary, Boundary, EncodePairs;
    assert bs == EncodePairs(ps, fs)[..|bs|];
    ParseCutPairs(ps, fs, |bs|);
    forall j | 0 <= j <= |ps| && Boundary(ps, fs, j) == |bs|
      ensures ParsePairs(bs) == Parsed(ps[..j], true)
    {
      ParseAtBoundary(ps, fs, j);
    }
  }
}

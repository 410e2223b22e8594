/** The reply to a request for values (section 4.1 of the FastCGI Specification). */
module Management {
  import opened Bytes
  import opened Pairs
  import opened Demux

  /** The answer to one entry: its name with the library's value, when the name is known. */
  function AnswerTo(entry: seq<byte>): seq<Pair> {
    match Key(entry)
    case None => []
    case Some(name) =>
      match KnownValue(name)
      case None => []
      case Some(v) => [Pair(name, [v])]
  }

  /** The known names asked for, in the order asked, each with its value. */
  function Known(entries: seq<seq<byte>>): seq<Pair> {
    if entries == [] then []
    else Known(entries[..|entries| - 1]) + AnswerTo(entries[|entries| - 1])
  }

  predicate AllKeyed(entries: seq<seq<byte>>) {
    forall i | 0 <= i < |entries| :: Key(entries[i]).Some?
  }

  /** The bytes the known names take in the reply. */
  function ReplySize(ps: seq<Pair>): nat {
    if ps == [] then 0 else |ps[0].name| + |ps[0].value| + 2 + ReplySize(ps[1..])
  }

  lemma {:induction false} ReplySizeAppend(ps: seq<Pair>, p: Pair)
    ensures ReplySize(ps + [p]) == ReplySize(ps) + |p.name| + |p.value| + 2
  {
    if ps == [] {
      assert [p][1..] == [];
    } else {
      assert (ps + [p])[1..] == ps[1..] + [p];
      ReplySizeAppend(ps[1..], p);
    }
  }

  function ShortForms(n: nat): (fs: seq<Form>)
    ensures |fs| == n
  {
    seq(n, i => Form(false, false))
  }

  lemma {:induction false} EncodePairsAppend(ps: seq<Pair>, p: Pair)
    requires AllEncodable(ps) && Encodable(p)
    ensures AllEncodable(ps + [p])
    ensures EncodePairs(ps + [p], ShortForms(|ps| + 1))
         == EncodePairs(ps, ShortForms(|ps|)) + EncodePair(p, Form(false, false))
  {
    hide EncodePair;
    if ps == [] {
      assert [p][1..] == [];
    } else {
      assert (ps + [p])[1..] == ps[1..] + [p];
      assert ShortForms(|ps| + 1)[1..] == ShortForms(|ps[1..]| + 1);
      assert ShortForms(|ps|)[1..] == ShortForms(|ps[1..]|);
      EncodePairsAppend(ps[1..], p);
      assert EncodePairs(ps + [p], ShortForms(|ps| + 1))
          == EncodePair(ps[0], Form(false, false)) + EncodePairs(ps[1..] + [p], ShortForms(|ps[1..]| + 1));
    }
  }

  lemma KnownShort(name: seq<byte>)
    ensures KnownValue(name).Some? ==> 13 <= |name| <= 15
  {
  }

  /** The reply is defined exactly when every name can be cut out and the known ones fit the buffer; it is then
      the encoding of section 3.4 of the FastCGI Specification of the known names with their values. */
  lemma {:induction false} PayloadMeaning(entries: seq<seq<byte>>)
    ensures ValuesPayload(entries).Some? <==> AllKeyed(entries) && ReplySize(Known(entries)) < REPLY_ROOM
    ensures AllEncodable(Known(entries))
    ensures ValuesPayload(entries).Some? ==>
              ValuesPayload(entries).value == EncodePairs(Known(entries), ShortForms(|Known(entries)|))
              && |ValuesPayload(entries).value| == ReplySize(Known(entries))
  {
    hide EncodePairs, EncodePair, Key, KnownValue, ReplySize, Encodable;
    if entries == [] {
      EmptyReply();
    } else {
      var init, last := entries[..|entries| - 1], entries[|entries| - 1];
      PayloadMeaning(init);
      assert AllKeyed(entries) <==> AllKeyed(init) && Key(last).Some?;
      if AnswerTo(last) == [] {
        assert Known(init) + [] == Known(init);
      } else {
        var p := AnswerTo(last)[0];
        assert AnswerTo(last) == [p];
        KnownGrows(Known(init), p);
        PayloadGrows(EncodePairs(Known(init), ShortForms(|Known(init)|)), p);
      }
    }
  }

  lemma EmptyReply()
    ensures ReplySize([]) == 0 && EncodePairs([], ShortForms(0)) == []
  {
  }

  lemma KnownGrows(ps: seq<Pair>, p: Pair)
    requires AllEncodable(ps) && KnownValue(p.name).Some? && |p.value| == 1
    ensures 13 <= |p.name| <= 15 && AllEncodable(ps + [p])
    ensures ReplySize(ps + [p]) == ReplySize(ps) + |p.name| + 3
    ensures EncodePairs(ps + [p], ShortForms(|ps| + 1))
         == EncodePairs(ps, ShortForms(|ps|)) + ([|p.name|, 1] + p.name + p.value)
  {
    hide EncodePairs, EncodePair, KnownValue, ReplySize;
    KnownShort(p.name);
    EncodePairsAppend(ps, p);
    ReplySizeAppend(ps, p);
    EncodeShortPair(p);
  }

  lemma EncodeShortPair(p: Pair)
    requires |p.name| < 0x80 && |p.value| == 1
    ensures EncodePair(p, Form(false, false)) == [|p.name|, 1] + p.name + p.value
  {
    assert EncodeLen(|p.name|, false) + EncodeLen(|p.value|, false) == [|p.name|, 1];
  }

  lemma PayloadGrows(bs: seq<byte>, p: Pair)
    requires |p.name| < 256
    ensures bs + ([|p.name|, 1] + p.name + p.value) == bs + [|p.name|, 1] + p.name + p.value
  {
  }

  /** The reply decodes to the known names asked for, in order, each with its value. */
  lemma ReplyDecodes(entries: seq<seq<byte>>)
    requires ValuesPayload(entries).Some?
    ensures ParsePairs(ValuesPayload(entries).value) == Parsed(Known(entries), true)
  {
    PayloadMeaning(entries);
    ParseEncodePairs(Known(entries), ShortForms(|Known(entries)|));
  }

  /** FCGI_MAX_CONNS, FCGI_MAX_REQS and FCGI_MPXS_CONNS. */
  const CONNS: seq<byte> := [70, 67, 71, 73, 95, 77, 65, 88, 95, 67, 79, 78, 78, 83]
  const REQS: seq<byte> := [70, 67, 71, 73, 95, 77, 65, 88, 95, 82, 69, 81, 83]
  const MPXS: seq<byte> := [70, 67, 71, 73, 95, 77, 80, 88, 83, 95, 67, 79, 78, 78, 83]

  /** The answer to a name: one connection, one request, no multiplexing; nothing for any other name. */
  function Answer(name: seq<byte>): seq<Pair> {
    if name == CONNS then [Pair(CONNS, [49])]
    else if name == REQS then [Pair(REQS, [49])]
    else if name == MPXS then [Pair(MPXS, [48])]
    else []
  }

  function Answered(asked: seq<Pair>): seq<Pair> {
    if asked == [] then [] else Answered(asked[..|asked| - 1]) + Answer(asked[|asked| - 1].name)
  }

  lemma ConnsSpelled()
    ensures MAX_CONNS == CONNS
  {
  }

  lemma ReqsSpelled()
    ensures MAX_REQS == REQS
  {
  }

  lemma MpxsSpelled()
    ensures MPXS_CONNS == MPXS
  {
  }

  /** A name as it is asked for, without the characters that cut it. */
  predicate Askable(p: Pair) {
    61 !in p.name && 0 !in p.name
  }

  lemma AnswerByName(p: Pair)
    requires Askable(p)
    ensures AnswerTo(Entry(p)) == Answer(p.name) && Key(Entry(p)).Some?
  {
    KeyOfEntry(p);
    ConnsSpelled();
    ReqsSpelled();
    MpxsSpelled();
    hide Key, Entry, MAX_CONNS, MAX_REQS, MPXS_CONNS;
  }

  lemma {:induction false} KnownByName(asked: seq<Pair>)
    requires forall p | p in asked :: Askable(p)
    ensures Known(Entries(asked)) == Answered(asked) && AllKeyed(Entries(asked))
  {
    hide AnswerTo, Entry, Answer, Key;
    if asked != [] {
      var init, last := asked[..|asked| - 1], asked[|asked| - 1];
      assert forall p | p in init :: p in asked;
      KnownByName(init);
      assert last in asked;
      AnswerByName(last);
      assert Entries(asked)[..|init|] == Entries(init);
      assert Entries(asked)[|init|] == Entry(last);
      assert forall i | 0 <= i < |init| :: Entries(asked)[i] == Entries(init)[i];
    }
  }

  /** The reply to a list of names: the known ones among them, in order, with the values 1, 1 and 0. */
  lemma ReplyByName(asked: seq<Pair>)
    requires (forall p | p in asked :: Askable(p)) && ValuesPayload(Entries(asked)).Some?
    ensures ParsePairs(ValuesPayload(Entries(asked)).value) == Parsed(Answered(asked), true)
  {
    hide ValuesPayload, ParsePairs;
    KnownByName(asked);
    ReplyDecodes(Entries(asked));
  }

  /** The record that carries it: of type 10 for no request, padded with zeros to a whole number of eight byte units. */
  lemma ReplyRecord(payload: seq<byte>)
    ensures var r := ValuesReply(payload);
            && r.typ == 10 && r.id == 0 && r.content == payload
            && (|payload| + |r.padding|) % 8 == 0 && |r.padding| < 8 && forall c | c in r.padding :: c == 0
  {
  }

  function Count(ps: seq<Pair>, name: seq<byte>): nat {
    if ps == [] then 0 else (if ps[0].name == name then 1 else 0) + Count(ps[1..], name)
  }

  lemma {:induction false} CountAppend(ps: seq<Pair>, p: Pair, name: seq<byte>)
    ensures Count(ps + [p], name) == Count(ps, name) + if p.name == name then 1 else 0
  {
    if ps == [] {
      assert [p][1..] == [];
    } else {
      assert (ps + [p])[1..] == ps[1..] + [p];
      CountAppend(ps[1..], p, name);
    }
  }

  lemma {:induction false} SizeByCounts(entries: seq<seq<byte>>)
    ensures var ps := Known(entries);
            ReplySize(ps) == 17 * Count(ps, MAX_CONNS) + 16 * Count(ps, MAX_REQS) + 18 * Count(ps, MPXS_CONNS)
  {
    if entries != [] {
      var init, last := entries[..|entries| - 1], entries[|entries| - 1];
      SizeByCounts(init);
      if AnswerTo(last) == [] {
        assert Known(init) + [] == Known(init);
      } else {
        var p := AnswerTo(last)[0];
        assert AnswerTo(last) == [p];
        ReplySizeAppend(Known(init), p);
        CountAppend(Known(init), p, MAX_CONNS);
        CountAppend(Known(init), p, MAX_REQS);
        CountAppend(Known(init), p, MPXS_CONNS);
        assert MAX_CONNS != MAX_REQS && MAX_CONNS != MPXS_CONNS && MAX_REQS != MPXS_CONNS;
      }
    }
  }

  /** With each known name asked for at most once, the reply fits the 64-byte buffer. */
  lemma EachOnceFits(entries: seq<seq<byte>>)
    requires AllKeyed(entries)
    requires forall name :: Count(Known(entries), name) <= 1
    ensures ValuesPayload(entries).Some? && HEADER_LEN + AlignInt8(|ValuesPayload(entries).value|) <= 64
  {
    SizeByCounts(entries);
    PayloadMeaning(entries);
    assert Count(Known(entries), MAX_CONNS) <= 1;
  }

  /** In general the reply is defined exactly when every name can be cut out and the known ones do not occur too
      often. */
  lemma FitsByCounts(entries: seq<seq<byte>>)
    ensures var ps := Known(entries);
            ValuesPayload(entries).Some? <==>
              && AllKeyed(entries)
              && 17 * Count(ps, MAX_CONNS) + 16 * Count(ps, MAX_REQS) + 18 * Count(ps, MPXS_CONNS) < 56
  {
    SizeByCounts(entries);
    PayloadMeaning(entries);
  }

  /** Asked for the same name four times, the reply does not fit. */
  lemma FourTimesOverflows(value: seq<byte>)
    ensures var e := Entry(Pair(MAX_CONNS, value));
            ValuesPayload([e] + [e] + [e] + [e]) == None
  {
    var p, a := Pair(MAX_CONNS, value), Pair(MAX_CONNS, [49]);
    var e := Entry(p);
    hide AnswerTo, ValuesPayload, Entry, Known, Count, MAX_CONNS, AllKeyed;
    ConnsAnswered(value);
    NothingKnown();
    assert [] + [e] == [e];
    KnownSnoc([], e, a);
    KnownSnoc([e], e, a);
    KnownSnoc([e] + [e], e, a);
    KnownSnoc([e] + [e] + [e], e, a);
    OftenOverflows([e] + [e] + [e] + [e]);
  }

  lemma OftenOverflows(entries: seq<seq<byte>>)
    ensures Count(Known(entries), MAX_CONNS) >= 4 ==> ValuesPayload(entries) == None
  {
    hide ValuesPayload, Known, Count, MAX_CONNS, AllKeyed, MAX_REQS, MPXS_CONNS;
    FitsByCounts(entries);
  }

  lemma ConnsAnswered(value: seq<byte>)
    ensures AnswerTo(Entry(Pair(MAX_CONNS, value))) == [Pair(MAX_CONNS, [49])]
  {
    assert forall i | 0 <= i < |MAX_CONNS| :: MAX_CONNS[i] != EQUALS && MAX_CONNS[i] != 0;
    KeyOfEntry(Pair(MAX_CONNS, value));
    hide Key, Entry, MAX_CONNS;
  }

  lemma NothingKnown()
    ensures Count(Known([]), MAX_CONNS) == 0
  {
  }

  lemma KnownSnoc(entries: seq<seq<byte>>, e: seq<byte>, a: Pair)
    requires AnswerTo(e) == [a] && a.name == MAX_CONNS
    ensures Count(Known(entries + [e]), MAX_CONNS) == Count(Known(entries), MAX_CONNS) + 1
  {
    assert (entries + [e])[..|entries|] == entries;
    CountAppend(Known(entries), a, MAX_CONNS);
  }

  /** What is cut out of an entry is what stands in front of its first `=`, provided no NUL comes before. */
  lemma {:induction false} KeyMeaning(entry: seq<byte>)
    ensures match Key(entry)
            case Some(k) =>
              |k| < |entry| && entry[..|k|] == k && entry[|k|] == 61 && 61 !in k && 0 !in k
            case None => forall i | 0 <= i < |entry| && entry[i] == 61 :: 0 in entry[..i]
  {
    if entry != [] && entry[0] != 0 && entry[0] != 61 {
      KeyMeaning(entry[1..]);
      match Key(entry[1..])
      case Some(k) =>
        assert entry[..|k| + 1] == [entry[0]] + entry[1..][..|k|];
      case None =>
        forall i | 0 <= i < |entry| && entry[i] == 61
          ensures 0 in entry[..i]
        {
          assert entry[1..][i - 1] == 61;
          assert entry[..i] == [entry[0]] + entry[1..][..i - 1];
        }
    } else if entry != [] && entry[0] == 0 {
      assert forall i | 0 < i < |entry| :: entry[..i][0] == 0;
    }
  }

  /** A name without `=` and NUL is cut out of its entry whole. */
  lemma {:induction false} KeyOfEntry(p: Pair)
    ensures (forall i | 0 <= i < |p.name| :: p.name[i] != EQUALS && p.name[i] != 0) ==> Key(Entry(p)) == Some(p.name)
    decreases |p.name|
  {
    if p.name != [] {
      var q := Pair(p.name[1..], p.value);
      assert Entry(p)[1..] == Entry(q);
      KeyOfEntry(q);
      assert [p.name[0]] + q.name == p.name;
    }
  }
}

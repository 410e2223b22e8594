/** Where the reader departs from section 3.3 of the FastCGI Specification, each with the exact condition. */
module Departures {
  import opened Bytes
  import opened Pairs
  import opened Records
  import opened Demux
  import opened DemuxLemmas
  import opened Streams

  /** A skipped record without content leaves `skip` set, so the content of the next data record is lost too. */
  lemma SkippedEmptySwallows(s: Rd, f: Record, d: Record, rest: seq<byte>)
    requires Ready(s) && f.Valid() && d.Valid() && IsForeign(f, s.req.id) && f.content == []
    requires IsData(d, s.typ, s.req.id) && s.unread == Encode(f) + (Encode(d) + rest)
    ensures Drain(s) == Drain(s.(unread := rest))
  {
    hide Drain, Encode;
    var t := AfterRecord(s, f, Encode(d) + rest);
    RecordStep(s, f, Encode(d) + rest);
    RecordStep(t, d, rest);
    var u := s.(unread := rest);
    assert s.wire + [] == s.wire;
    assert AfterRecord(t, d, rest) == u;
    assert [] + Drain(u).0 == Drain(u).0;
  }

  /** A record of another request in front of a data record is transparent exactly when it has content. */
  lemma SkippedTransparentIff(s: Rd, f: Record, d: Record, rest: seq<byte>)
    requires Ready(s) && f.Valid() && d.Valid() && IsForeign(f, s.req.id)
    requires IsData(d, s.typ, s.req.id) && s.unread == Encode(f) + (Encode(d) + rest)
    ensures Drain(s).0 == d.content + Drain(s.(unread := rest)).0 <==> f.content != []
  {
    hide Drain, Encode;
    if f.content == [] {
      SkippedEmptySwallows(s, f, d, rest);
    } else {
      var t := s.(unread := Encode(d) + rest);
      RecordStep(s, f, t.unread);
      assert s.wire + [] == s.wire;
      assert AfterRecord(s, f, t.unread) == t;
      RecordStep(t, d, rest);
      assert AfterRecord(t, d, rest) == s.(unread := rest);
    }
  }

  /** The content of a management record that the library does not know is delivered as stream content: the record
      is transparent exactly when it has none. */
  lemma UnknownTransparentIff(s: Rd, r: Record, rest: seq<byte>)
    requires Ready(s) && r.Valid() && IsUnknownManagement(r) && s.unread == Encode(r) + rest
    ensures Drain(s).0 == r.content + Drain(AfterRecord(s, r, rest)).0
    ensures Drain(s).0 == Drain(AfterRecord(s, r, rest)).0 <==> r.content == []
  {
    hide Drain, Encode, AfterRecord;
    RecordStep(s, r, rest);
  }

  /** A request for values that is the last thing to arrive is answered exactly when it is padded: without padding
      the reader waits for a byte that never comes. */
  lemma LastGetValuesIff(s: Rd, r: Record)
    requires Ready(s) && r.Valid() && IsGetValues(r) && Answerable(r) && s.unread == Encode(r) + []
    ensures Drain(s).1.wire == s.wire + EncodeAll(Answer(r)) <==> r.padding != []
  {
    hide Encode, ParsePairs, ValuesPayload, MakeHeader, ReadHeader, FillTail, Advance;
    if r.padding != [] {
      GetValuesStep(s, r, []);
      DrainByFill(s, AfterRecord(s, r, []));
    } else {
      FillHeader(s, r, []);
      var p := AfterHeader(s, r, []);
      assert p.unread == r.content;
      assert Body(p) == r.content;
      assert p.unread[|r.content|..] == [];
      assert Drain(s).1.wire == s.wire;
      EncodeAllOne(Answer(r)[0]);
    }
  }

  /** Bytes that cannot be the start of a record of this version. */
  predicate NoHeader(left: seq<byte>) {
    left == [] || left[0] != VERSION_1
  }

  /** Padding left over by a begin record or by an empty stream record is taken for a header by the next stream. When
      it does not start like a header, as the zeros of usual senders do not, that stream is read without an error
      exactly when nothing was left over. */
  lemma LeftoverPaddingIff(s: Rd, typ: byte, left: seq<byte>, rs: seq<Record>, tail: seq<byte>)
    requires s.req.begun && s.errno == 0 && 0 < s.req.id <= 0xffff && StreamType(typ) && NoHeader(left)
    requires AllServed(rs, typ, s.req.id) && AllValid(rs)
    requires s.unread == left + (EncodeAll(rs) + (Encode(EndRecord(typ, s.req.id, [])) + tail))
    ensures Drain(SetType(s, typ)).1.errno == 0 <==> left == []
    ensures left == [] ==> Drain(SetType(s, typ)).0 == Payload(rs, typ, s.req.id)
    ensures left != [] ==> Drain(SetType(s, typ)).0 == [] && Drain(SetType(s, typ)).1.errno == UNSUPPORTED_VERSION
  {
    hide Encode, Served;
    var t := SetType(s, typ);
    if left == [] {
      assert t.unread == EncodeAll(rs) + (Encode(EndRecord(typ, s.req.id, [])) + tail);
      StreamDelivered(t, rs, [], tail);
    } else {
      FillAtBoundary(t);
      assert t.unread[..HEADER_LEN][0] == left[0];
    }
  }

  /** Padding may happen to spell a record. The eight bytes of an empty record of an unknown management type do no harm
      but for the answer they get, so nothing less than the first byte of the padding decides. */
  lemma LeftoverRecord(s: Rd, typ: byte, rs: seq<Record>, tail: seq<byte>)
    requires s.req.begun && s.errno == 0 && 0 < s.req.id <= 0xffff && StreamType(typ)
    requires AllServed(rs, typ, s.req.id) && AllValid(rs)
    requires s.unread == [1, UNKNOWN_TYPE, 0, 0, 0, 0, 0, 0]
                         + (EncodeAll(rs) + (Encode(EndRecord(typ, s.req.id, [])) + tail))
    ensures Drain(SetType(s, typ)).0 == Payload(rs, typ, s.req.id) && Drain(SetType(s, typ)).1.errno == 0
    ensures Drain(SetType(s, typ)).1.wire
         == s.wire + EncodeAll([UnknownTypeRecord(UNKNOWN_TYPE)]) + EncodeAll(Answers(rs))
  {
    var r, t := Record(UNKNOWN_TYPE, NULL_REQUEST_ID, [], []), SetType(s, typ);
    var rest := EncodeAll(rs) + (Encode(EndRecord(typ, s.req.id, [])) + tail);
    assert Encode(r) == [1, UNKNOWN_TYPE, 0, 0, 0, 0, 0, 0];
    hide Encode, Drain, EncodeAll, Served, Payload, Answers, UnknownTypeRecord;
    RecordStep(t, r, rest);
    StreamDelivered(AfterRecord(t, r, rest), rs, [], tail);
    assert [] + Payload(rs, typ, s.req.id) == Payload(rs, typ, s.req.id);
  }
}

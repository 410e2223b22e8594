/** FastCGI records (section 3.3 of the FastCGI Specification): headers, framing, and the wire as a list of records. */
module Records {
  import opened Bytes

  datatype Header = Header(version: byte, typ: byte, id: u16, contentLen: u16, paddingLen: byte)

  datatype Record = Record(typ: byte, id: nat, content: seq<byte>, padding: seq<byte>) {
    predicate Valid() {
      id <= 0xffff && |content| <= MAX_LENGTH && |padding| <= 0xff
    }
  }

  /** `MakeHeader`. */
  function MakeHeader(typ: byte, id: nat, contentLen: nat, paddingLen: nat): (h: seq<byte>)
    requires contentLen <= MAX_LENGTH && paddingLen <= 0xff
    ensures |h| == HEADER_LEN
  {
    [VERSION_1, typ, id / 0x100 % 0x100, id % 0x100, contentLen / 0x100 % 0x100, contentLen % 0x100, paddingLen, 0]
  }

  /** The header fields as `ProcessHeader` reads them. */
  function ReadHeader(h: seq<byte>): Header
    requires |h| == HEADER_LEN
  {
    Header(h[0], h[1], U16(h[2], h[3]), U16(h[4], h[5]), h[6])
  }

  /** Every field of a header survives being written and read back; an id only when it fits 16 bits. */
  lemma HeaderRoundTrip(typ: byte, id: nat, contentLen: nat, paddingLen: nat)
    requires contentLen <= MAX_LENGTH && paddingLen <= 0xff
    ensures ReadHeader(MakeHeader(typ, id, contentLen, paddingLen))
         == Header(VERSION_1, typ, id % 0x10000, contentLen, paddingLen)
    ensures ReadHeader(MakeHeader(typ, id, contentLen, paddingLen)).id == id <==> id <= 0xffff
  {
    U16Split(id);
    U16Split(contentLen);
  }

  function Encode(r: Record): (w: seq<byte>)
    requires r.Valid()
    ensures |w| == HEADER_LEN + |r.content| + |r.padding|
  {
    MakeHeader(r.typ, r.id, |r.content|, |r.padding|) + r.content + r.padding
  }

  predicate AllValid(rs: seq<Record>) {
    forall r | r in rs :: r.Valid()
  }

  function EncodeAll(rs: seq<Record>): seq<byte>
    requires AllValid(rs)
  {
    if rs == [] then [] else Encode(rs[0]) + EncodeAll(rs[1..])
  }

  lemma {:induction false} EncodeAllAppend(a: seq<Record>, b: seq<Record>)
    requires AllValid(a) && AllValid(b)
    ensures EncodeAll(a + b) == EncodeAll(a) + EncodeAll(b)
  {
    if a == [] {
      assert a + b == b;
    } else {
      assert (a + b)[1..] == a[1..] + b;
      EncodeAllAppend(a[1..], b);
    }
  }

  lemma EncodeAllOne(r: Record)
    requires r.Valid()
    ensures EncodeAll([r]) == Encode(r)
  {
    assert [r][1..] == [];
  }

  /** Cuts a wire into records; None when it is not a whole number of version 1 records. */
  function ParseAll(w: seq<byte>): (rs: Option<seq<Record>>)
    ensures rs.Some? ==> AllValid(rs.value)
  {
    if w == [] then Some([])
    else if |w| < HEADER_LEN then None
    else
      var h := ReadHeader(w[..HEADER_LEN]);
      var size := HEADER_LEN + h.contentLen + h.paddingLen;
      if h.version != VERSION_1 || |w| < size then None
      else
        match ParseAll(w[size..])
        case None => None
        case Some(tail) =>
          var r := Record(h.typ, h.id, w[HEADER_LEN..][..h.contentLen], w[HEADER_LEN + h.contentLen..size]);
          assert r.Valid();
          Some([r] + tail)
  }

  /** Whatever list of records was written, the wire parses back to exactly that list. */
  lemma {:induction false} ParseEncodeAll(rs: seq<Record>)
    requires AllValid(rs)
    ensures ParseAll(EncodeAll(rs)) == Some(rs)
  {
    if rs != [] {
      var r, w := rs[0], EncodeAll(rs);
      assert r.Valid();
      var size := HEADER_LEN + |r.content| + |r.padding|;
      HeaderRoundTrip(r.typ, r.id, |r.content|, |r.padding|);
      assert w[..HEADER_LEN] == MakeHeader(r.typ, r.id, |r.content|, |r.padding|);
      assert w[HEADER_LEN..][..|r.content|] == r.content;
      assert w[HEADER_LEN + |r.content|..size] == r.padding;
      assert w[size..] == EncodeAll(rs[1..]);
      ParseEncodeAll(rs[1..]);
      assert [r] + rs[1..] == rs;
    }
  }

  /** `MakeEndRequestBody` for a status of any sign. */
  function EndRequestBody(appStatus: int, protocolStatus: byte): (b: seq<byte>)
    ensures |b| == 8
  {
    [appStatus / 0x1000000 % 256, appStatus / 0x10000 % 256, appStatus / 0x100 % 256, appStatus % 256,
     protocolStatus, 0, 0, 0]
  }

  /** The body of an end of a request carries the status as four bytes, the highest first, and the protocol status. */
  lemma EndRequestDecodes(appStatus: int, protocolStatus: byte)
    ensures var b := EndRequestBody(appStatus, protocolStatus);
            && b[0] as int * 0x1000000 + b[1] as int * 0x10000 + b[2] as int * 0x100 + b[3] as int
               == appStatus % 0x100000000
            && b[4] == protocolStatus && b[5..] == [0, 0, 0]
  {
    var q1 := appStatus / 0x100;
    var q2 := q1 / 0x100;
    var q3 := q2 / 0x100;
    Quotients(appStatus);
    var low := appStatus % 256 + 0x100 * (q1 % 256) + 0x10000 * (q2 % 256) + 0x1000000 * (q3 % 256);
    assert appStatus == 0x100000000 * (q3 / 256) + low;
    Remainder32(appStatus, q3 / 256, low);
  }

  lemma Quotients(n: int)
    ensures n / 0x10000 == n / 0x100 / 0x100 && n / 0x1000000 == n / 0x100 / 0x100 / 0x100
  {
  }

  lemma Remainder32(n: int, k: int, r: nat)
    requires n == 0x100000000 * k + r && r < 0x100000000
    ensures n % 0x100000000 == r
  {
  }

  function EndRequestRecord(id: nat, appStatus: int, protocolStatus: byte): (r: Record)
    ensures id <= 0xffff ==> r.Valid()
  {
    Record(END_REQUEST, id, EndRequestBody(appStatus, protocolStatus), [])
  }

  function UnknownTypeRecord(typ: byte): Record {
    Record(UNKNOWN_TYPE, NULL_REQUEST_ID, [typ] + Zeros(7), [])
  }

  /** A stream record as the writer frames it: content padded with zeros to a multiple of eight. */
  function StreamRecord(typ: byte, id: nat, content: seq<byte>): Record {
    Record(typ, id, content, Zeros(AlignInt8(|content|) - |content|))
  }

  // ---------------------------------------------------------------- byte for byte

  /** Where the parts of a record stand on the wire (section 3.3 of the FastCGI Specification). */
  lemma WireLayout(r: Record)
    requires r.Valid()
    ensures var w, n := Encode(r), |r.content|;
            && w[0] == 1 && w[1] == r.typ
            && w[2] as int * 256 + w[3] as int == r.id && w[4] as int * 256 + w[5] as int == n
            && w[6] == |r.padding| && w[7] == 0
            && w[8..8 + n] == r.content && w[8 + n..] == r.padding
  {
    U16Split(r.id);
    U16Split(|r.content|);
    var w := Encode(r);
    assert w[..8] == MakeHeader(r.typ, r.id, |r.content|, |r.padding|);
    assert forall i | 0 <= i < 8 :: w[i] == w[..8][i];
  }

  /** The ends of a request, byte for byte: a refusal and a completion. */
  lemma EndOfRequestBytes(id: nat)
    requires id <= 0xffff
    ensures var hi, lo := id / 256, id % 256;
            && Encode(EndRequestRecord(id, 0, CANT_MPX_CONN)) == [1, 3, hi, lo, 0, 8, 0, 0, 0, 0, 0, 0, 1, 0, 0, 0]
            && Encode(EndRequestRecord(id, 5, REQUEST_COMPLETE)) == [1, 3, hi, lo, 0, 8, 0, 0, 0, 0, 0, 5, 0, 0, 0, 0]
  {
  }

  /** The reply to a management record of an unknown type, byte for byte. */
  lemma UnknownTypeBytes(typ: byte)
    ensures Encode(UnknownTypeRecord(typ)) == [1, 11, 0, 0, 0, 8, 0, 0, typ, 0, 0, 0, 0, 0, 0, 0]
  {
  }

  /** A short record of a stream and its end, byte for byte. */
  lemma StreamBytes(id: nat, a: byte, b: byte)
    requires id <= 0xffff
    ensures var hi, lo := id / 256, id % 256;
            && Encode(StreamRecord(STDOUT, id, [a, b])) == [1, 6, hi, lo, 0, 2, 6, 0, a, b, 0, 0, 0, 0, 0, 0]
            && Encode(Record(STDERR, id, [], [])) == [1, 7, hi, lo, 0, 0, 0, 0]
  {
  }
}

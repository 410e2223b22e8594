/** Name-value pairs (section 3.4 of the FastCGI Specification): the parser of `ReadParams` and its inverse. */
module Pairs {
  import opened Bytes

  const EQUALS: byte := 61

  datatype Pair = Pair(name: seq<byte>, value: seq<byte>)

  /** The environment entry `ReadParams` builds, without its terminator. */
  function Entry(p: Pair): seq<byte> {
    p.name + [EQUALS] + p.value
  }

  function Entries(ps: seq<Pair>): (es: seq<seq<byte>>)
    ensures |es| == |ps| && forall i | 0 <= i < |ps| :: es[i] == Entry(ps[i])
  {
    seq(|ps|, i requires 0 <= i < |ps| => Entry(ps[i]))
  }

  /** One length field: one byte below 128, otherwise four bytes with the top bit set. */
  function ParseLen(bs: seq<byte>): (r: Option<(nat, seq<byte>)>)
    ensures r.Some? ==> |r.value.1| < |bs|
  {
    if bs == [] then None
    else if bs[0] < 0x80 then Some((bs[0], bs[1..]))
    else if |bs| < 4 then None
    else Some((U32(bs[0], bs[1], bs[2], bs[3]) - 0x80000000, bs[4..]))
  }

  function SplitPair(nameLen: nat, valueLen: nat, bs: seq<byte>): (r: Option<(Pair, seq<byte>)>)
    ensures r.Some? ==> |r.value.1| <= |bs|
  {
    if |bs| < nameLen + valueLen then None
    else Some((Pair(bs[..nameLen], bs[nameLen..][..valueLen]), bs[nameLen..][valueLen..]))
  }

  function ParsePair(bs: seq<byte>): (r: Option<(Pair, seq<byte>)>)
    ensures r.Some? ==> |r.value.1| < |bs|
  {
    match ParseLen(bs)
    case None => None
    case Some((nameLen, afterName)) =>
      match ParseLen(afterName)
      case None => None
      case Some((valueLen, rest)) =>
        SplitPair(nameLen, valueLen, rest)
  }

  datatype Parsed = Parsed(pairs: seq<Pair>, complete: bool)

  /** All pairs up to the end of the bytes; `complete` is false when the bytes stop inside a pair. */
  function ParsePairs(bs: seq<byte>): Parsed
    decreases |bs|
  {
    if bs == [] then Parsed([], true)
    else
      match ParsePair(bs)
      case None => Parsed([], false)
      case Some((p, rest)) =>
        var tail := ParsePairs(rest);
        Parsed([p] + tail.pairs, tail.complete)
  }

  /** Which of the two length forms the sender chose for each length of a pair. */
  datatype Form = Form(longName: bool, longValue: bool)

  function EncodeLen(n: nat, long: bool): (bs: seq<byte>)
    requires n < 0x80000000
    ensures |bs| > 0
  {
    if long || n >= 0x80 then
      [0x80 + n / 0x1000000, n / 0x10000 % 256, n / 0x100 % 256, n % 256]
    else [n]
  }

  predicate Encodable(p: Pair) {
    |p.name| < 0x80000000 && |p.value| < 0x80000000
  }

  function EncodePair(p: Pair, f: Form): (bs: seq<byte>)
    requires Encodable(p)
    ensures |bs| > 0
  {
    EncodeLen(|p.name|, f.longName) + EncodeLen(|p.value|, f.longValue) + p.name + p.value
  }

  predicate AllEncodable(ps: seq<Pair>) {
    forall p | p in ps :: Encodable(p)
  }

  function EncodePairs(ps: seq<Pair>, fs: seq<Form>): seq<byte>
    requires |fs| == |ps| && AllEncodable(ps)
  {
    if ps == [] then [] else EncodePair(ps[0], fs[0]) + EncodePairs(ps[1..], fs[1..])
  }

  lemma Base256(n: nat)
    requires n < 0x80000000
    ensures U32(n / 0x1000000, n / 0x10000 % 256, n / 0x100 % 256, n % 256) == n
  {
    var a := n / 256;
    var b := a / 256;
    var c := b / 256;
    assert n == a * 256 + n % 256 && a == b * 256 + a % 256 && b == c * 256 + b % 256;
    assert n / 0x10000 == b && n / 0x1000000 == c;
  }

  lemma ParseEncodeLen(n: nat, long: bool, rest: seq<byte>)
    requires n < 0x80000000
    ensures ParseLen(EncodeLen(n, long) + rest) == Some((n, rest))
  {
    Base256(n);
    var bs := EncodeLen(n, long) + rest;
    assert bs[|EncodeLen(n, long)|..] == rest;
  }

  /** A length field cut short does not parse. */
  lemma ParseCutLen(n: nat, long: bool, k: nat)
    requires n < 0x80000000
    requires k < |EncodeLen(n, long)|
    ensures ParseLen(EncodeLen(n, long)[..k]) == None
  {
  }

  lemma ParseEncodePair(p: Pair, f: Form, rest: seq<byte>)
    requires Encodable(p)
    ensures ParsePair(EncodePair(p, f) + rest) == Some((p, rest))
  {
    var a, b := EncodeLen(|p.name|, f.longName), EncodeLen(|p.value|, f.longValue);
    var body := p.name + p.value + rest;
    ParseEncodeLen(|p.name|, f.longName, b + body);
    ParseEncodeLen(|p.value|, f.longValue, body);
    ParseCoded(a, b, p, rest);
  }

  lemma ParseCoded(a: seq<byte>, b: seq<byte>, p: Pair, rest: seq<byte>)
    requires var body := p.name + p.value + rest;
             && ParseLen(a + (b + body)) == Some((|p.name|, b + body))
             && ParseLen(b + body) == Some((|p.value|, body))
    ensures ParsePair(a + b + p.name + p.value + rest) == Some((p, rest))
  {
    hide ParseLen, SplitPair;
    var body := p.name + p.value + rest;
    assert a + b + p.name + p.value + rest == a + (b + body);
    SplitEncoded(p, rest);
  }

  lemma SplitEncoded(p: Pair, rest: seq<byte>)
    ensures SplitPair(|p.name|, |p.value|, p.name + p.value + rest) == Some((p, rest))
  {
    var bs := p.name + p.value + rest;
    assert bs[..|p.name|] == p.name;
    assert bs[|p.name|..] == p.value + rest;
  }

  /** A pair cut strictly inside does not parse. */
  lemma ParseCutPair(p: Pair, f: Form, k: nat)
    requires Encodable(p)
    requires k < |EncodePair(p, f)|
    ensures ParsePair(EncodePair(p, f)[..k]) == None
  {
    var a, b := EncodeLen(|p.name|, f.longName), EncodeLen(|p.value|, f.longValue);
    var body := p.name + p.value;
    if k < |a| {
      ParseCutLen(|p.name|, f.longName, k);
    } else {
      ParseEncodeLen(|p.name|, f.longName, (b + body)[..k - |a|]);
      if k < |a| + |b| {
        ParseCutLen(|p.value|, f.longValue, k - |a|);
      } else {
        ParseEncodeLen(|p.value|, f.longValue, body[..k - |a| - |b|]);
      }
    }
    ParseCutCoded(a, b, p, k);
  }

  lemma ParseCutCoded(a: seq<byte>, b: seq<byte>, p: Pair, k: nat)
    requires k < |a| + |b| + |p.name| + |p.value|
    requires var body := p.name + p.value;
             if k < |a| then ParseLen(a[..k]) == None
             else
               && (var bs := (b + body)[..k - |a|]; ParseLen(a + bs) == Some((|p.name|, bs)))
               && (if k < |a| + |b| then ParseLen(b[..k - |a|]) == None
                   else var bs := body[..k - |a| - |b|]; ParseLen(b + bs) == Some((|p.value|, bs)))
    ensures ParsePair((a + b + p.name + p.value)[..k]) == None
  {
    var body := p.name + p.value;
    assert a + b + p.name + p.value == a + (b + body);
    CutConcat(a, b + body, k);
    if k >= |a| {
      CutConcat(b, body, k - |a|);
    }
  }

  lemma ParseHeadPair(p: Pair, f: Form, rest: seq<byte>)
    requires Encodable(p)
    ensures ParsePairs(EncodePair(p, f) + rest)
         == Parsed([p] + ParsePairs(rest).pairs, ParsePairs(rest).complete)
  {
    ParseEncodePair(p, f, rest);
  }

  /** Round trip: the parser returns the pairs sent, whichever length forms the sender chose. */
  lemma {:induction false} ParseEncodePairs(ps: seq<Pair>, fs: seq<Form>)
    requires |fs| == |ps| && AllEncodable(ps)
    ensures ParsePairs(EncodePairs(ps, fs)) == Parsed(ps, true)
  {
    if ps != [] {
      ParseHeadPair(ps[0], fs[0], EncodePairs(ps[1..], fs[1..]));
      ParseEncodePairs(ps[1..], fs[1..]);
    }
  }

  /** The number of bytes the first `j` pairs take. */
  function Boundary(ps: seq<Pair>, fs: seq<Form>, j: nat): nat
    requires |fs| == |ps| && AllEncodable(ps) && j <= |ps|
  {
    |EncodePairs(ps[..j], fs[..j])|
  }

  ghost predicate IsBoundary(ps: seq<Pair>, fs: seq<Form>, k: nat)
    requires |fs| == |ps| && AllEncodable(ps)
  {
    exists j | 0 <= j <= |ps| :: Boundary(ps, fs, j) == k
  }

  lemma BoundaryStep(ps: seq<Pair>, fs: seq<Form>, j: nat)
    requires |fs| == |ps| && AllEncodable(ps) && 1 <= j <= |ps|
    ensures Boundary(ps, fs, j) == |EncodePair(ps[0], fs[0])| + Boundary(ps[1..], fs[1..], j - 1)
  {
    assert ps[..j][1..] == ps[1..][..j - 1] && fs[..j][1..] == fs[1..][..j - 1];
  }

  lemma IsBoundaryStep(ps: seq<Pair>, fs: seq<Form>, k: nat)
    requires |fs| == |ps| && AllEncodable(ps) && ps != [] && k > 0
    ensures IsBoundary(ps, fs, k) <==>
            |EncodePair(ps[0], fs[0])| <= k && IsBoundary(ps[1..], fs[1..], k - |EncodePair(ps[0], fs[0])|)
  {
    var head := |EncodePair(ps[0], fs[0])|;
    assert Boundary(ps, fs, 0) == 0;
    if IsBoundary(ps, fs, k) {
      var j :| 0 <= j <= |ps| && Boundary(ps, fs, j) == k;
      BoundaryStep(ps, fs, j);
      assert Boundary(ps[1..], fs[1..], j - 1) == k - head;
    }
    if head <= k && IsBoundary(ps[1..], fs[1..], k - head) {
      var j :| 0 <= j <= |ps[1..]| && Boundary(ps[1..], fs[1..], j) == k - head;
      BoundaryStep(ps, fs, j + 1);
    }
  }

  /** Cut between two pairs, the encoding is that of the pairs in front. */
  lemma {:induction false} CutAtBoundary(ps: seq<Pair>, fs: seq<Form>, j: nat)
    requires |fs| == |ps| && AllEncodable(ps) && j <= |ps|
    ensures Boundary(ps, fs, j) <= |EncodePairs(ps, fs)|
    ensures EncodePairs(ps, fs)[..Boundary(ps, fs, j)] == EncodePairs(ps[..j], fs[..j])
  {
    hide EncodePair;
    if j > 0 {
      BoundaryStep(ps, fs, j);
      CutAtBoundary(ps[1..], fs[1..], j - 1);
      assert ps[..j][1..] == ps[1..][..j - 1] && fs[..j][1..] == fs[1..][..j - 1];
    }
  }

  lemma StartIsBoundary(ps: seq<Pair>, fs: seq<Form>)
    requires |fs| == |ps| && AllEncodable(ps)
    ensures IsBoundary(ps, fs, 0)
  {
    assert Boundary(ps, fs, 0) == 0;
  }

  /** Cut between two pairs, the encoding parses to exactly the pairs in front. */
  lemma ParseAtBoundary(ps: seq<Pair>, fs: seq<Form>, j: nat)
    requires |fs| == |ps| && AllEncodable(ps) && j <= |ps|
    ensures Boundary(ps, fs, j) <= |EncodePairs(ps, fs)|
    ensures ParsePairs(EncodePairs(ps, fs)[..Boundary(ps, fs, j)]) == Parsed(ps[..j], true)
  {
    CutAtBoundary(ps, fs, j);
    ParseEncodePairs(ps[..j], fs[..j]);
  }

  /** Cutting the encoding at `k`: the parse is complete exactly when `k` is a boundary between two pairs,
      and the pairs found are always a prefix of those sent. */
  lemma {:induction false} ParseCutPairs(ps: seq<Pair>, fs: seq<Form>, k: nat)
    requires |fs| == |ps| && AllEncodable(ps)
    requires k <= |EncodePairs(ps, fs)|
    ensures ParsePairs(EncodePairs(ps, fs)[..k]).complete <==> IsBoundary(ps, fs, k)
    ensures ParsePairs(EncodePairs(ps, fs)[..k]).pairs <= ps
  {
    hide EncodePair, ParsePair, IsBoundary;
    var e := EncodePairs(ps, fs);
    if k == 0 {
      StartIsBoundary(ps, fs);
    } else {
      var head, tail := EncodePair(ps[0], fs[0]), EncodePairs(ps[1..], fs[1..]);
      IsBoundaryStep(ps, fs, k);
      if k < |head| {
        assert e[..k] == head[..k];
        ParseCutPair(ps[0], fs[0], k);
      } else {
        assert e[..k] == head + tail[..k - |head|];
        ParseHeadPair(ps[0], fs[0], tail[..k - |head|]);
        ParseCutPairs(ps[1..], fs[1..], k - |head|);
      }
    }
  }
}

/** What writing a stream means, record by record: the state of a writer without its buffer, and the records each
    operation sends. */
module WriterSpec {
  import opened Bytes
  import opened Records

  datatype Wr = Wr(
    typ: byte,
    id: nat,
    cap: nat,              // content bytes the buffer holds
    pending: seq<byte>,    // bytes put and not yet sent
    closed: bool,
    anything: bool)        // whether a record has been sent; no longer looked at once the stream is closing
  {
    predicate Valid() {
      id <= 0xffff && 0 < cap <= MAX_LENGTH && |pending| <= cap
    }
  }

  /** The record for the pending bytes, if there are any. */
  function FlushRecords(w: Wr): (rs: seq<Record>)
    requires w.Valid()
    ensures AllValid(rs)
  {
    if w.pending == [] then [] else [StreamRecord(w.typ, w.id, w.pending)]
  }

  function Flush(w: Wr): Wr {
    w.(pending := [], anything := w.anything || w.pending != [])
  }

  /** Puts one byte, flushing first when the buffer is full. */
  function PutByte(w: Wr, c: byte): (r: (Wr, seq<Record>))
    requires w.Valid()
    ensures r.0.Valid() && AllValid(r.1)
    ensures r.0.typ == w.typ && r.0.id == w.id && r.0.cap == w.cap && r.0.closed == w.closed && r.0.pending != []
  {
    if |w.pending| == w.cap then (Flush(w).(pending := [c]), FlushRecords(w))
    else (w.(pending := w.pending + [c]), [])
  }

  /** Puts the bytes one after the other. */
  function PutBytes(w: Wr, bs: seq<byte>): (r: (Wr, seq<Record>))
    requires w.Valid()
    ensures r.0.Valid() && AllValid(r.1)
    ensures r.0.typ == w.typ && r.0.id == w.id && r.0.cap == w.cap && r.0.closed == w.closed
    decreases |bs|
  {
    if bs == [] then (w, [])
    else
      var (w1, rs1) := PutByte(w, bs[0]);
      var (w2, rs2) := PutBytes(w1, bs[1..]);
      (w2, rs1 + rs2)
  }

  /** The record that ends the stream; an error stream that never carried anything has none. */
  function EndRecords(w: Wr): (rs: seq<Record>)
    requires w.Valid()
    ensures AllValid(rs)
  {
    if w.typ == STDERR && w.pending == [] && !w.anything then [] else [Record(w.typ, w.id, [], [])]
  }

  /** The end of the request, sent by the last of its writers. */
  function EndOfRequest(id: nat, nWriters: int, appStatus: int): (rs: seq<Record>)
    requires id <= 0xffff
    ensures AllValid(rs)
  {
    if nWriters == 1 then [EndRequestRecord(id, appStatus, REQUEST_COMPLETE)] else []
  }

  /** Everything a close sends; the last writer of the request also ends the request. */
  function CloseRecords(w: Wr, nWriters: int, appStatus: int): (rs: seq<Record>)
    requires w.Valid()
    ensures AllValid(rs)
  {
    FlushRecords(w) + EndRecords(w) + EndOfRequest(w.id, nWriters, appStatus)
  }

  function Close(w: Wr): Wr {
    w.(pending := [], closed := true, anything := true)
  }

  // ---------------------------------------------------------------- laws

  /** Putting a string is putting its parts in turn: bulk and bytewise writing send the same records. */
  lemma {:induction false} PutBytesAppend(w: Wr, a: seq<byte>, b: seq<byte>)
    requires w.Valid()
    ensures var (w1, rs1) := PutBytes(w, a);
            var (w2, rs2) := PutBytes(w1, b);
            PutBytes(w, a + b) == (w2, rs1 + rs2)
    decreases |a|
  {
    hide PutByte;
    if a == [] {
      assert a + b == b;
      assert [] + PutBytes(w, b).1 == PutBytes(w, b).1;
    } else {
      assert (a + b)[1..] == a[1..] + b;
      var (w1, rs1) := PutByte(w, a[0]);
      PutBytesAppend(w1, a[1..], b);
      var (w2, rs2) := PutBytes(w1, a[1..]);
      var rs3 := PutBytes(w2, b).1;
      assert rs1 + (rs2 + rs3) == rs1 + rs2 + rs3;
    }
  }

  /** Bytes that fit are only appended. */
  lemma {:induction false} PutBytesFit(w: Wr, bs: seq<byte>)
    requires w.Valid() && |w.pending| + |bs| <= w.cap
    ensures PutBytes(w, bs) == (w.(pending := w.pending + bs), [])
    decreases |bs|
  {
    if bs == [] {
      assert w.pending + [] == w.pending;
    } else {
      var w1 := w.(pending := w.pending + [bs[0]]);
      PutBytesFit(w1, bs[1..]);
      assert PutByte(w, bs[0]) == (w1, []);
      assert w1.pending + bs[1..] == w.pending + bs;
      var none: seq<Record> := [];
      assert none + none == none;
    }
  }

  /** When the buffer is full, the next put begins with a flush. */
  lemma PutBytesFull(w: Wr, bs: seq<byte>)
    requires w.Valid() && |w.pending| == w.cap && bs != []
    ensures PutBytes(w, bs) == (PutBytes(Flush(w), bs).0, FlushRecords(w) + PutBytes(Flush(w), bs).1)
  {
    var (w1, rs1) := PutByte(w, bs[0]);
    assert [] + [bs[0]] == [bs[0]];
    assert PutByte(Flush(w), bs[0]) == (w1, []);
    var rs2 := PutBytes(w1, bs[1..]).1;
    assert [] + rs2 == rs2;
  }
}

/** Reading several streams of one request in turn: PARAMS, then STDIN, then for a filter DATA. */
module HandOver {
  import opened Bytes
  import opened Records
  import opened Demux
  import opened Streams

  datatype Phase = Phase(typ: byte, rs: seq<Record>)

  predicate Sound(ps: seq<Phase>, id: nat) {
    forall p | p in ps :: StreamType(p.typ) && AllValid(p.rs) && AllServed(p.rs, p.typ, id)
  }

  /** The bytes of the streams in turn, each ended by an empty record without padding. */
  function Conversation(ps: seq<Phase>, id: nat): seq<byte>
    requires Sound(ps, id) && id <= 0xffff
  {
    if ps == [] then []
    else EncodeAll(ps[0].rs) + (Encode(EndRecord(ps[0].typ, id, [])) + Conversation(ps[1..], id))
  }

  function Payloads(ps: seq<Phase>, id: nat): seq<seq<byte>> {
    if ps == [] then [] else [Payload(ps[0].rs, ps[0].typ, id)] + Payloads(ps[1..], id)
  }

  function AllAnswers(ps: seq<Phase>): (a: seq<Record>)
    ensures AllValid(a)
  {
    if ps == [] then [] else Answers(ps[0].rs) + AllAnswers(ps[1..])
  }

  /** Sets the reader to one type after the other and reads each stream to its end. */
  function DrainAll(s: Rd, ps: seq<Phase>): (seq<seq<byte>>, Rd)
    decreases |ps|
  {
    if ps == [] then ([], s)
    else
      var (bs, t) := Drain(SetType(s, ps[0].typ));
      var (more, u) := DrainAll(t, ps[1..]);
      ([bs] + more, u)
  }

  /** Hand-over loses and duplicates nothing: every phase delivers exactly its own stream, and what follows the
      last one is still unread. */
  lemma {:induction false} StreamsInTurn(s: Rd, ps: seq<Phase>, tail: seq<byte>)
    requires s.req.begun && s.errno == 0 && 0 < s.req.id <= 0xffff && Sound(ps, s.req.id)
    requires s.unread == Conversation(ps, s.req.id) + tail
    ensures var (bss, e) := DrainAll(s, ps);
            && bss == Payloads(ps, s.req.id)
            && e.unread == tail && e.errno == 0 && e.req == s.req
            && e.wire == s.wire + EncodeAll(AllAnswers(ps))
    decreases |ps|
  {
    hide Drain, Encode, Served, Answers, Payload;
    if ps == [] {
      assert [] + tail == tail && s.wire + [] == s.wire;
    } else {
      var p, t := ps[0], SetType(s, ps[0].typ);
      var next := Conversation(ps[1..], s.req.id) + tail;
      assert p in ps;
      assert s.unread == EncodeAll(p.rs) + (Encode(EndRecord(p.typ, s.req.id, [])) + next);
      StreamDelivered(t, p.rs, [], next);
      assert [] + next == next;
      StreamsInTurn(Drain(t).1, ps[1..], tail);
      EncodeAllAppend(Answers(p.rs), AllAnswers(ps[1..]));
      assert s.wire + EncodeAll(Answers(p.rs)) + EncodeAll(AllAnswers(ps[1..]))
          == s.wire + (EncodeAll(Answers(p.rs)) + EncodeAll(AllAnswers(ps[1..])));
    }
  }
}

/** One connection shared by the two writers of a request and by its reader, which sends replies on its own account. */
module Session {
  import opened Bytes
  import opened Records
  import opened Demux
  import opened DemuxLemmas
  import opened WriterSpec
  import opened Replies
  import S = Streams

  // ---------------------------------------------------------------- the grammar of a response

  predicate IsComplete(r: Record) {
    r.typ == END_REQUEST && |r.content| == 8 && r.content[4] == REQUEST_COMPLETE
  }

  /** Framed as the writer frames content: padded with zeros to a whole number of eight byte units. */
  predicate Aligned(r: Record) {
    (|r.content| + |r.padding|) % 8 == 0 && |r.padding| < 8 && r.padding == Zeros(|r.padding|)
  }

  /** How far a response has come. */
  datatype Mark = Mark(outEnded: bool, errStarted: bool, errEnded: bool, completed: bool)

  /** What a further record does to a response: None when the record is out of place. Replies may stand anywhere.
      Output carries content and ends once; an error stream that has started ends once; the completion of the request
      comes once, after both. */
  function Next(m: Mark, r: Record, id: nat): Option<Mark> {
    if IsReply(r) then Some(m)
    else if r.id != id || m.completed then None
    else if r.typ == STDOUT then
      if m.outEnded then None
      else if r.content == [] then Some(m.(outEnded := true))
      else if Aligned(r) then Some(m) else None
    else if r.typ == STDERR then
      if m.errEnded then None
      else if r.content == [] then if m.errStarted then Some(m.(errEnded := true)) else None
      else if Aligned(r) then Some(m.(errStarted := true)) else None
    else if IsComplete(r) && m.outEnded && m.errStarted == m.errEnded then Some(m.(completed := true))
    else None
  }

  function Check(rs: seq<Record>, id: nat): Option<Mark> {
    if rs == [] then Some(Mark(false, false, false, false))
    else
      match Check(rs[..|rs| - 1], id)
      case None => None
      case Some(m) => Next(m, rs[|rs| - 1], id)
  }

  lemma CheckSnoc(rs: seq<Record>, r: Record, id: nat)
    ensures Check(rs + [r], id) == match Check(rs, id) case None => None case Some(m) => Next(m, r, id)
  {
    assert (rs + [r])[..|rs|] == rs;
  }

  lemma PayloadSnoc(rs: seq<Record>, r: Record, typ: byte, id: nat)
    ensures S.Payload(rs + [r], typ, id)
         == S.Payload(rs, typ, id) + if r.typ == typ && r.id == id then r.content else []
  {
    S.PayloadAppend(rs, [r], typ, id);
    assert [r][1..] == [];
  }

  // ---------------------------------------------------------------- runs

  datatype State = State(out: Wr, err: Wr, nWriters: int, appStatus: int, input: Rd, sent: seq<Record>)

  /** A call on a writer. */
  datatype Act = Put(bs: seq<byte>) | FlushNow | CloseNow

  /** A call on the streams of a request. */
  datatype Op =
    | Out(act: Act)
    | Err(act: Act)
    | SetStatus(status: int)
    | Get(n: int)
    | StartData

  /** What matters of a reader: not what was sent before, nor what a closed one has left of its record. */
  function Quiet(s: Rd): Rd {
    s.(wire := [], content := if s.closed then 0 else s.content)
  }

  function Initial(id: nat, outCap: nat, errCap: nat, appStatus: int, input: Rd): State {
    State(Wr(STDOUT, id, outCap, [], false, false), Wr(STDERR, id, errCap, [], false, false), 2, appStatus,
          Quiet(input), [])
  }

  predicate Sane(s: State) {
    && s.out.Valid() && s.err.Valid() && s.out.typ == STDOUT && s.err.typ == STDERR && s.out.id == s.err.id
    && AllValid(s.sent) && s.input == Quiet(s.input)
  }

  /** What a call does to the reader. */
  function Read(input: Rd, op: Op): Rd {
    match op
    case Get(n) => Quiet(Take(input, Max(n, 0)).1)
    case StartData =>
      if input.req.role == FILTER && input.closed && input.typ == STDIN then SetType(input, DATA)
      else Quiet(input.Fail(CALL_SEQ_ERROR))
    case _ => input
  }

  /** What a call on the reader sends. */
  function Replied(input: Rd, op: Op): (rs: seq<Record>)
    ensures AllValid(rs)
  {
    if op.Get? then Sends(input, Max(op.n, 0)) else []
  }

  /** What a call does to a writer and sends; on a closed writer it has no effect. */
  function Write(w: Wr, act: Act, nWriters: int, appStatus: int): (r: (Wr, seq<Record>))
    requires w.Valid()
    ensures r.0.Valid() && AllValid(r.1) && r.0.typ == w.typ && r.0.id == w.id
    ensures r.0.closed == (w.closed || act.CloseNow?)
  {
    if w.closed then (w, [])
    else
      match act
      case Put(bs) => PutBytes(w, bs)
      case FlushNow => (Flush(w), FlushRecords(w))
      case CloseNow => (Close(w), CloseRecords(w, nWriters, appStatus))
  }

  /** How many writers a call closes. */
  function Closing(w: Wr, act: Act): int {
    if act.CloseNow? && !w.closed then 1 else 0
  }

  /** The meaning of one call. */
  function Step(s: State, op: Op): (t: State)
    requires Sane(s)
    ensures Sane(t) && t.out.id == s.out.id
  {
    match op
    case Out(act) =>
      var (w, rs) := Write(s.out, act, s.nWriters, s.appStatus);
      s.(out := w, nWriters := s.nWriters - Closing(s.out, act), sent := s.sent + rs)
    case Err(act) =>
      var (w, rs) := Write(s.err, act, s.nWriters, s.appStatus);
      s.(err := w, nWriters := s.nWriters - Closing(s.err, act), sent := s.sent + rs)
    case SetStatus(status) => s.(appStatus := status)
    case _ => s.(input := Read(s.input, op), sent := s.sent + Replied(s.input, op))
  }

  function Run(s: State, ops: seq<Op>): (t: State)
    requires Sane(s)
    ensures Sane(t) && t.out.id == s.out.id
    decreases |ops|
  {
    if ops == [] then s else Step(Run(s, ops[..|ops| - 1]), ops[|ops| - 1])
  }

  /** The bytes a call puts into one stream while it is open. */
  function Accepted(s: State, op: Op, typ: byte): seq<byte> {
    match op
    case Out(Put(bs)) => if typ == STDOUT && !s.out.closed then bs else []
    case Err(Put(bs)) => if typ == STDERR && !s.err.closed then bs else []
    case _ => []
  }

  function Put(s: State, ops: seq<Op>, typ: byte): seq<byte>
    requires Sane(s)
    decreases |ops|
  {
    if ops == [] then []
    else Put(s, ops[..|ops| - 1], typ) + Accepted(Run(s, ops[..|ops| - 1]), ops[|ops| - 1], typ)
  }

  // ---------------------------------------------------------------- the invariant

  function Writing(s: State, typ: byte): Wr {
    if typ == STDOUT then s.out else s.err
  }

  /** What holds between any two calls. */
  ghost predicate Inv(s: State) {
    && Sane(s)
    && s.nWriters == (if s.out.closed then 0 else 1) + (if s.err.closed then 0 else 1)
    && Check(s.sent, s.out.id).Some?
    && (var m := Check(s.sent, s.out.id).value;
        && m.outEnded == s.out.closed
        && (!s.err.closed ==> m.errStarted == s.err.anything && !m.errEnded)
        && (s.err.closed ==> m.errEnded == m.errStarted)
        && m.completed == (s.out.closed && s.err.closed))
    && (s.out.closed ==> s.out.pending == [])
    && (s.err.closed ==> s.err.pending == [])
  }

  /** All bytes accepted by a stream, whether sent or still pending. */
  function Carried(s: State, typ: byte): seq<byte> {
    S.Payload(s.sent, typ, s.out.id) + Writing(s, typ).pending
  }

  /** Sending the pending bytes of the output or of the error stream. */
  lemma FlushKeeps(s: State, typ: byte)
    requires Inv(s) && (typ == STDOUT || typ == STDERR) && !Writing(s, typ).closed
    ensures var w := Writing(s, typ);
            var u := if typ == STDOUT then s.(out := Flush(w)) else s.(err := Flush(w));
            var t := u.(sent := s.sent + FlushRecords(w));
            Inv(t) && Carried(t, STDOUT) == Carried(s, STDOUT) && Carried(t, STDERR) == Carried(s, STDERR)
  {
    hide Check, S.Payload;
    var w := Writing(s, typ);
    if w.pending == [] {
      assert s.sent + [] == s.sent;
    } else {
      var r := StreamRecord(typ, w.id, w.pending);
      AlignInt8Least(|w.pending|, 0);
      assert Aligned(r);
      CheckSnoc(s.sent, r, s.out.id);
      PayloadSnoc(s.sent, r, STDOUT, s.out.id);
      PayloadSnoc(s.sent, r, STDERR, s.out.id);
      assert S.Payload(s.sent, typ, s.out.id) + w.pending + [] == S.Payload(s.sent, typ, s.out.id) + w.pending;
      assert S.Payload(s.sent, STDOUT, s.out.id) + [] == S.Payload(s.sent, STDOUT, s.out.id);
      assert S.Payload(s.sent, STDERR, s.out.id) + [] == S.Payload(s.sent, STDERR, s.out.id);
    }
  }

  /** Putting bytes. */
  lemma {:induction false} PutKeeps(s: State, typ: byte, bs: seq<byte>)
    requires Inv(s) && (typ == STDOUT || typ == STDERR) && !Writing(s, typ).closed
    ensures var (w, rs) := PutBytes(Writing(s, typ), bs);
            var t := (if typ == STDOUT then s.(out := w) else s.(err := w)).(sent := s.sent + rs);
            && Inv(t)
            && Carried(t, STDOUT) == Carried(s, STDOUT) + (if typ == STDOUT then bs else [])
            && Carried(t, STDERR) == Carried(s, STDERR) + (if typ == STDERR then bs else [])
    decreases |bs|
  {
    hide Check, S.Payload, FlushRecords;
    if bs == [] {
      assert s.sent + [] == s.sent;
      assert Carried(s, STDOUT) + [] == Carried(s, STDOUT) && Carried(s, STDERR) + [] == Carried(s, STDERR);
    } else {
      PutByteKeeps(s, typ, bs[0]);
      var (w1, rs1) := PutByte(Writing(s, typ), bs[0]);
      var s1 := (if typ == STDOUT then s.(out := w1) else s.(err := w1)).(sent := s.sent + rs1);
      PutKeeps(s1, typ, bs[1..]);
      var rs2 := PutBytes(w1, bs[1..]).1;
      assert s.sent + rs1 + rs2 == s.sent + (rs1 + rs2);
      assert forall c: seq<byte> :: c + [bs[0]] + bs[1..] == c + bs;
      assert forall c: seq<byte> :: c + [] + [] == c + [];
    }
  }

  lemma PutByteKeeps(s: State, typ: byte, c: byte)
    requires Inv(s) && (typ == STDOUT || typ == STDERR) && !Writing(s, typ).closed
    ensures var (w, rs) := PutByte(Writing(s, typ), c);
            var t := (if typ == STDOUT then s.(out := w) else s.(err := w)).(sent := s.sent + rs);
            && Inv(t) && !Writing(t, typ).closed
            && Carried(t, STDOUT) == Carried(s, STDOUT) + (if typ == STDOUT then [c] else [])
            && Carried(t, STDERR) == Carried(s, STDERR) + (if typ == STDERR then [c] else [])
  {
    hide Check, S.Payload, FlushRecords;
    var w := Writing(s, typ);
    var s1 := s;
    if |w.pending| == w.cap {
      FlushKeeps(s, typ);
      s1 := (if typ == STDOUT then s.(out := Flush(w)) else s.(err := Flush(w))).(sent := s.sent + FlushRecords(w));
      assert [] + [c] == [c];
    } else {
      assert s.sent + [] == s.sent;
    }
    assert forall a: seq<byte>, b: seq<byte> {:trigger a + b} :: a + (b + [c]) == a + b + [c];
    assert Carried(s, STDOUT) + [] == Carried(s, STDOUT) && Carried(s, STDERR) + [] == Carried(s, STDERR);
  }

  /** Records that carry nothing of the two streams leave what they carry alone. */
  lemma CarriesNothing(rs: seq<Record>, r: Record, id: nat)
    requires r.content == [] || r.typ == END_REQUEST || IsReply(r)
    ensures S.Payload(rs + [r], STDOUT, id) == S.Payload(rs, STDOUT, id)
    ensures S.Payload(rs + [r], STDERR, id) == S.Payload(rs, STDERR, id)
  {
    PayloadSnoc(rs, r, STDOUT, id);
    PayloadSnoc(rs, r, STDERR, id);
    assert S.Payload(rs, STDOUT, id) + [] == S.Payload(rs, STDOUT, id);
    assert S.Payload(rs, STDERR, id) + [] == S.Payload(rs, STDERR, id);
  }

  /** Closing a stream. */
  lemma CloseKeeps(s: State, typ: byte)
    requires Inv(s) && (typ == STDOUT || typ == STDERR) && !Writing(s, typ).closed
    ensures var w := Writing(s, typ);
            var t := (if typ == STDOUT then s.(out := Close(w))
                      else s.(err := Close(w))).(
                        nWriters := s.nWriters - 1, sent := s.sent + CloseRecords(w, s.nWriters, s.appStatus));
            Inv(t) && Carried(t, STDOUT) == Carried(s, STDOUT) && Carried(t, STDERR) == Carried(s, STDERR)
  {
    hide Check, S.Payload, FlushRecords, EndRequestRecord, EndRequestBody;
    var w, id := Writing(s, typ), s.out.id;
    FlushKeeps(s, typ);
    var sent1 := s.sent + FlushRecords(w);
    var last := if s.nWriters == 1 then [EndRequestRecord(id, s.appStatus, REQUEST_COMPLETE)] else [];
    EndKeeps(sent1, w, id);
    var sent2 := sent1 + EndRecords(w);
    CompleteKeeps(sent2, id, s.appStatus);
    assert sent2 + [] == sent2;
    assert s.sent + CloseRecords(w, s.nWriters, s.appStatus) == sent2 + last;
  }

  lemma EndKeeps(sent: seq<Record>, w: Wr, id: nat)
    requires AllValid(sent) && Check(sent, id).Some? && w.Valid() && w.id == id && (w.typ == STDOUT || w.typ == STDERR)
    requires !Check(sent, id).value.completed
    requires w.typ == STDOUT ==> !Check(sent, id).value.outEnded
    requires w.typ == STDERR ==>
               && !Check(sent, id).value.errEnded
               && Check(sent, id).value.errStarted == (w.anything || w.pending != [])
    ensures Check(sent + EndRecords(w), id) == Some(
              if w.typ == STDOUT then Check(sent, id).value.(outEnded := true)
              else Check(sent, id).value.(errEnded := Check(sent, id).value.errStarted))
    ensures S.Payload(sent + EndRecords(w), STDOUT, id) == S.Payload(sent, STDOUT, id)
    ensures S.Payload(sent + EndRecords(w), STDERR, id) == S.Payload(sent, STDERR, id)
  {
    hide Check, S.Payload;
    if EndRecords(w) == [] {
      assert sent + [] == sent;
    } else {
      CheckSnoc(sent, EndRecords(w)[0], id);
      CarriesNothing(sent, EndRecords(w)[0], id);
    }
  }

  lemma CompleteKeeps(sent: seq<Record>, id: nat, appStatus: int)
    requires Check(sent, id).Some?
    ensures var r := EndRequestRecord(id, appStatus, REQUEST_COMPLETE);
            var m := Check(sent, id).value;
            && (!m.completed && m.outEnded && m.errStarted == m.errEnded ==>
                  Check(sent + [r], id) == Some(m.(completed := true)))
            && S.Payload(sent + [r], STDOUT, id) == S.Payload(sent, STDOUT, id)
            && S.Payload(sent + [r], STDERR, id) == S.Payload(sent, STDERR, id)
  {
    hide Check, S.Payload;
    var r := EndRequestRecord(id, appStatus, REQUEST_COMPLETE);
    CheckSnoc(sent, r, id);
    CarriesNothing(sent, r, id);
  }

  /** Every call keeps the invariant and carries exactly the bytes it was given. */
  lemma StepKeeps(s: State, op: Op)
    requires Inv(s)
    ensures Inv(Step(s, op))
    ensures Carried(Step(s, op), STDOUT) == Carried(s, STDOUT) + Accepted(s, op, STDOUT)
    ensures Carried(Step(s, op), STDERR) == Carried(s, STDERR) + Accepted(s, op, STDERR)
  {
    hide Check, S.Payload, FlushRecords, CloseRecords, PutBytes, Read, Sends;
    assert Carried(s, STDOUT) + [] == Carried(s, STDOUT) && Carried(s, STDERR) + [] == Carried(s, STDERR);
    assert s.sent + [] == s.sent;
    match op
    case Out(act) => if !s.out.closed { ActKeeps(s, STDOUT, act); }
    case Err(act) => if !s.err.closed { ActKeeps(s, STDERR, act); }
    case SetStatus(status) =>
    case Get(n) =>
      ReadSends(s.input, Max(n, 0));
      RepliesKeep(s.sent, Replied(s.input, op), s.out.id);
    case StartData =>
  }

  lemma ActKeeps(s: State, typ: byte, act: Act)
    requires Inv(s) && (typ == STDOUT || typ == STDERR) && !Writing(s, typ).closed
    ensures var op := if typ == STDOUT then Out(act) else Err(act);
            && Inv(Step(s, op))
            && Carried(Step(s, op), STDOUT) == Carried(s, STDOUT) + Accepted(s, op, STDOUT)
            && Carried(Step(s, op), STDERR) == Carried(s, STDERR) + Accepted(s, op, STDERR)
  {
    hide Check, S.Payload, FlushRecords, CloseRecords, PutBytes;
    assert Carried(s, STDOUT) + [] == Carried(s, STDOUT) && Carried(s, STDERR) + [] == Carried(s, STDERR);
    match act
    case Put(bs) => PutKeeps(s, typ, bs);
    case FlushNow => FlushKeeps(s, typ);
    case CloseNow => CloseKeeps(s, typ);
  }

  /** Replies may stand anywhere and carry nothing of the two streams. */
  lemma {:induction false} RepliesKeep(sent: seq<Record>, rs: seq<Record>, id: nat)
    requires AllReplies(rs) && Check(sent, id).Some?
    ensures Check(sent + rs, id) == Check(sent, id)
    ensures S.Payload(sent + rs, STDOUT, id) == S.Payload(sent, STDOUT, id)
    ensures S.Payload(sent + rs, STDERR, id) == S.Payload(sent, STDERR, id)
  {
    hide Check, S.Payload;
    if rs == [] {
      assert sent + rs == sent;
    } else {
      var init, r := rs[..|rs| - 1], rs[|rs| - 1];
      assert sent + rs == (sent + init) + [r];
      RepliesKeep(sent, init, id);
      CheckSnoc(sent + init, r, id);
      CarriesNothing(sent + init, r, id);
    }
  }

  predicate Caps(id: nat, outCap: nat, errCap: nat) {
    id <= 0xffff && 0 < outCap <= MAX_LENGTH && 0 < errCap <= MAX_LENGTH
  }

  lemma {:induction false} RunKeeps(s0: State, ops: seq<Op>)
    requires Inv(s0) && Carried(s0, STDOUT) == [] && Carried(s0, STDERR) == []
    ensures var s := Run(s0, ops);
            Inv(s) && Carried(s, STDOUT) == Put(s0, ops, STDOUT) && Carried(s, STDERR) == Put(s0, ops, STDERR)
    decreases |ops|
  {
    if ops != [] {
      hide Inv, Carried, Accepted, Step;
      SaneInv(s0);
      RunKeeps(s0, ops[..|ops| - 1]);
      StepKeeps(Run(s0, ops[..|ops| - 1]), ops[|ops| - 1]);
    }
  }

  lemma SaneInv(s: State)
    ensures Inv(s) ==> Sane(s)
  {
  }

  lemma RunStarts(id: nat, outCap: nat, errCap: nat, appStatus: int, input: Rd)
    requires Caps(id, outCap, errCap)
    ensures var s0 := Initial(id, outCap, errCap, appStatus, input);
            Inv(s0) && Carried(s0, STDOUT) == [] && Carried(s0, STDERR) == []
  {
  }

  // ---------------------------------------------------------------- the end of the request

  predicate IsEnd(r: Record, id: nat) {
    r.typ == END_REQUEST && r.id == id
  }

  /** The records that tell the peer that the request is over, for whatever reason. */
  function Ends(rs: seq<Record>, id: nat): nat {
    if rs == [] then 0
    else Ends(rs[..|rs| - 1], id) + if IsEnd(rs[|rs| - 1], id) then 1 else 0
  }

  /** Those that the reader sends, refusing a begin record with the id of the request itself. */
  function Refusals(rs: seq<Record>, id: nat): nat {
    if rs == [] then 0
    else Refusals(rs[..|rs| - 1], id) + if IsEnd(rs[|rs| - 1], id) && IsReply(rs[|rs| - 1]) then 1 else 0
  }

  lemma NothingRefused(id: nat)
    ensures Refusals([], id) == 0
  {
  }

  lemma {:induction false} RefusalsAppend(a: seq<Record>, b: seq<Record>, id: nat)
    ensures Refusals(a + b, id) == Refusals(a, id) + Refusals(b, id)
  {
    if b == [] {
      assert a + b == a;
    } else {
      assert (a + b)[..|a + b| - 1] == a + b[..|b| - 1];
      RefusalsAppend(a, b[..|b| - 1], id);
    }
  }

  lemma {:induction false} NoRefusals(rs: seq<Record>, id: nat)
    requires forall r | r in rs :: !IsReply(r)
    ensures Refusals(rs, id) == 0
  {
    if rs != [] {
      NoRefusals(rs[..|rs| - 1], id);
    }
  }

  /** How often the calls of a run made the reader refuse a begin record with the id of the request itself. */
  function Refused(s: State, ops: seq<Op>): nat
    requires Sane(s)
    decreases |ops|
  {
    if ops == [] then 0
    else Refused(s, ops[..|ops| - 1]) + RefusedBy(Run(s, ops[..|ops| - 1]), ops[|ops| - 1])
  }

  function RefusedBy(s: State, op: Op): nat {
    Refusals(Replied(s.input, op), s.out.id)
  }

  lemma {:induction false} PutSendsOwn(w: Wr, bs: seq<byte>)
    requires w.Valid()
    ensures forall r | r in PutBytes(w, bs).1 :: r.typ == w.typ
    decreases |bs|
  {
    if bs != [] {
      PutSendsOwn(PutByte(w, bs[0]).0, bs[1..]);
    }
  }

  lemma CloseSendsOwn(w: Wr, nWriters: int, appStatus: int)
    requires w.Valid()
    ensures forall r | r in CloseRecords(w, nWriters, appStatus) :: r.typ == w.typ || IsComplete(r)
  {
  }

  lemma WriteRefuses(w: Wr, act: Act, nWriters: int, appStatus: int, id: nat)
    requires w.Valid() && w.typ != END_REQUEST && w.typ != GET_VALUES_RESULT && w.typ != UNKNOWN_TYPE
    ensures Refusals(Write(w, act, nWriters, appStatus).1, id) == 0
  {
    hide Refusals, PutBytes, CloseRecords;
    var rs := Write(w, act, nWriters, appStatus).1;
    match act {
      case Put(bs) => PutSendsOwn(w, bs);
      case FlushNow =>
      case CloseNow => CloseSendsOwn(w, nWriters, appStatus);
    }
    NoRefusals(rs, id);
  }

  /** The writers refuse nothing. */
  lemma StepRefuses(s: State, op: Op)
    requires Sane(s)
    ensures Refusals(Step(s, op).sent, s.out.id) == Refusals(s.sent, s.out.id) + RefusedBy(s, op)
  {
    hide Refusals, Write, Sends, Read;
    match op {
      case Out(act) =>
        WriteRefuses(s.out, act, s.nWriters, s.appStatus, s.out.id);
        RefusalsAppend(s.sent, Write(s.out, act, s.nWriters, s.appStatus).1, s.out.id);
      case Err(act) =>
        WriteRefuses(s.err, act, s.nWriters, s.appStatus, s.out.id);
        RefusalsAppend(s.sent, Write(s.err, act, s.nWriters, s.appStatus).1, s.out.id);
      case SetStatus(_) =>
      case Get(_) => RefusalsAppend(s.sent, Replied(s.input, op), s.out.id);
      case StartData => RefusalsAppend(s.sent, Replied(s.input, op), s.out.id);
    }
    NothingRefused(s.out.id);
  }

  lemma {:induction false} RunRefuses(s0: State, ops: seq<Op>)
    requires Sane(s0)
    ensures Refusals(Run(s0, ops).sent, s0.out.id) == Refusals(s0.sent, s0.out.id) + Refused(s0, ops)
    decreases |ops|
  {
    hide Refusals, Step, RefusedBy;
    if ops != [] {
      RunRefuses(s0, ops[..|ops| - 1]);
      StepRefuses(Run(s0, ops[..|ops| - 1]), ops[|ops| - 1]);
    }
  }

  /** In a response the ends of the request are its completion and the refusals. */
  lemma {:induction false} GrammarEnds(rs: seq<Record>, id: nat)
    requires Check(rs, id).Some?
    ensures Ends(rs, id) == (if Check(rs, id).value.completed then 1 else 0) + Refusals(rs, id)
  {
    if rs != [] {
      GrammarEnds(rs[..|rs| - 1], id);
    }
  }

  /** The request is ended once, and only after its streams have ended. */
  ghost predicate EndedProperly(rs: seq<Record>, id: nat) {
    && Ends(rs, id) == 1
    && forall i | 0 <= i < |rs| && IsEnd(rs[i], id) :: StreamsEnded(rs[..i], id)
  }

  predicate StreamsEnded(rs: seq<Record>, id: nat) {
    match Check(rs, id)
    case None => false
    case Some(m) => m.outEnded && m.errStarted == m.errEnded
  }

  /** Without refusals, no end stands too early. */
  lemma {:induction false} EndsInPlace(rs: seq<Record>, id: nat)
    requires Check(rs, id).Some? && Refusals(rs, id) == 0
    ensures forall i | 0 <= i < |rs| && IsEnd(rs[i], id) :: StreamsEnded(rs[..i], id)
  {
    if rs != [] {
      var init := rs[..|rs| - 1];
      EndsInPlace(init, id);
      assert forall i | 0 <= i < |init| :: rs[..i] == init[..i];
    }
  }

  /** A complete response ends its request properly exactly when it contains no refusal. */
  lemma ResponseEnds(rs: seq<Record>, id: nat)
    requires Check(rs, id).Some?
    ensures Ends(rs, id) == (if Check(rs, id).value.completed then 1 else 0) + Refusals(rs, id)
    ensures Check(rs, id).value.completed ==> (EndedProperly(rs, id) <==> Refusals(rs, id) == 0)
  {
    hide Check, Ends, Refusals, StreamsEnded;
    GrammarEnds(rs, id);
    if Refusals(rs, id) == 0 {
      EndsInPlace(rs, id);
    }
  }

  /** In every interleaving of writes, flushes and closes on both writers with reads from whatever the peer sends: the
      wire between two calls is a whole number of records in the order the protocol asks for, and each stream carries
      exactly its own bytes. The ends of the request on the wire are its completion, sent by whichever stream closes
      last, and one for each begin record with the request's own id that the reader has refused; so the request is
      ended once, after both its streams, exactly when it has refused none. The completion carries the
      status last set before the last of the two writers was closed. */
  lemma SharedConnection(id: nat, outCap: nat, errCap: nat, appStatus: int, input: Rd, ops: seq<Op>)
    requires Caps(id, outCap, errCap)
    ensures var s0 := Initial(id, outCap, errCap, appStatus, input);
            var s := Run(s0, ops);
            && ParseAll(EncodeAll(s.sent)) == Some(s.sent)
            && Check(s.sent, id).Some?
            && (var m := Check(s.sent, id).value;
                && m.outEnded == s.out.closed
                && (s.err.closed ==> m.errEnded == (Put(s0, ops, STDERR) != []))
                && m.completed == (s.out.closed && s.err.closed))
            && S.Payload(s.sent, STDOUT, id) + s.out.pending == Put(s0, ops, STDOUT)
            && S.Payload(s.sent, STDERR, id) + s.err.pending == Put(s0, ops, STDERR)
            && (s.out.closed ==> S.Payload(s.sent, STDOUT, id) == Put(s0, ops, STDOUT))
            && (s.err.closed ==> S.Payload(s.sent, STDERR, id) == Put(s0, ops, STDERR))
            && s.nWriters == (if s.out.closed then 0 else 1) + (if s.err.closed then 0 else 1)
            && Ends(s.sent, id) == (if s.out.closed && s.err.closed then 1 else 0) + Refused(s0, ops)
            && (s.out.closed && s.err.closed ==> (EndedProperly(s.sent, id) <==> Refused(s0, ops) == 0))
            && Carry(s.sent, FinalStatus(s0, ops))
  {
    var s0 := Initial(id, outCap, errCap, appStatus, input);
    var s := Run(s0, ops);
    hide Inv, Carried, Run, Put, Check, S.Payload, Refused, Refusals, Ends, EndedProperly, ParseAll, EncodeAll;
    hide Carry, FinalStatus, IsComplete;
    RunStarts(id, outCap, errCap, appStatus, input);
    SaneInv(s0);
    RunKeeps(s0, ops);
    RunRefuses(s0, ops);
    NothingRefused(id);
    ParseEncodeAll(s.sent);
    InvMeans(s);
    ResponseEnds(s.sent, id);
    CompletionStatus(s0, ops);
  }

  /** What the invariant says of the wire. */
  lemma InvMeans(s: State)
    requires Inv(s)
    ensures Check(s.sent, s.out.id).Some?
    ensures var m := Check(s.sent, s.out.id).value;
            && m.outEnded == s.out.closed
            && (s.err.closed ==> m.errEnded == (Carried(s, STDERR) != []))
            && m.completed == (s.out.closed && s.err.closed)
    ensures S.Payload(s.sent, STDOUT, s.out.id) + s.out.pending == Carried(s, STDOUT)
    ensures S.Payload(s.sent, STDERR, s.out.id) + s.err.pending == Carried(s, STDERR)
    ensures s.out.closed ==> S.Payload(s.sent, STDOUT, s.out.id) == Carried(s, STDOUT)
    ensures s.err.closed ==> S.Payload(s.sent, STDERR, s.out.id) == Carried(s, STDERR)
    ensures s.nWriters == (if s.out.closed then 0 else 1) + (if s.err.closed then 0 else 1)
  {
    hide Check, S.Payload;
    GrammarStarts(s.sent, s.out.id);
    assert S.Payload(s.sent, STDOUT, s.out.id) + [] == S.Payload(s.sent, STDOUT, s.out.id);
    assert S.Payload(s.sent, STDERR, s.out.id) + [] == S.Payload(s.sent, STDERR, s.out.id);
  }

  /** The error stream has started exactly when it has carried something. */
  lemma {:induction false} GrammarStarts(rs: seq<Record>, id: nat)
    requires Check(rs, id).Some?
    ensures Check(rs, id).value.errStarted <==> S.Payload(rs, STDERR, id) != []
  {
    hide Check, S.Payload;
    if rs == [] {
      EmptyResponse(id);
    } else {
      var init, r := rs[..|rs| - 1], rs[|rs| - 1];
      assert rs == init + [r];
      CheckSnoc(init, r, id);
      GrammarStarts(init, id);
      PayloadSnoc(init, r, STDERR, id);
    }
  }

  lemma EmptyResponse(id: nat)
    ensures Check([], id) == Some(Mark(false, false, false, false)) && S.Payload([], STDERR, id) == []
  {
  }

  /** The begin records with the id of the request itself. */
  function OwnBegins(rs: seq<Record>, id: nat): nat {
    if rs == [] then 0 else (if S.IsOtherBegin(rs[0]) && rs[0].id == id then 1 else 0) + OwnBegins(rs[1..], id)
  }

  /** Each of them among the records of a stream is refused. */
  lemma {:induction false} OwnBeginsRefused(rs: seq<Record>, id: nat, skip: bool)
    requires id <= 0xffff
    ensures Refusals(S.SaidAll(rs, id, skip), id) == OwnBegins(rs, id)
  {
    hide S.StillSkips;
    if rs == [] {
      NothingRefused(id);
    } else {
      var skipNext := S.StillSkips(rs[0], id, skip);
      OwnBeginsRefused(rs[1..], id, skipNext);
      RefusalsAppend(S.Said(rs[0], skip), S.SaidAll(rs[1..], id, skipNext), id);
      OwnBeginRefused(rs[0], id, skip);
    }
  }

  lemma OwnBeginRefused(r: Record, id: nat, skip: bool)
    requires id <= 0xffff
    ensures Refusals(S.Said(r, skip), id) == if S.IsOtherBegin(r) && r.id == id then 1 else 0
  {
    var a := S.Said(r, skip);
    assert a != [] ==> a[..|a| - 1] == [];
  }

  // ---------------------------------------------------------------- the status of the request

  /** The status last set. */
  function StatusAfter(status: int, ops: seq<Op>): int {
    if ops == [] then status
    else match ops[|ops| - 1]
      case SetStatus(n) => n
      case _ => StatusAfter(status, ops[..|ops| - 1])
  }

  lemma {:induction false} RunStatus(s: State, ops: seq<Op>)
    requires Sane(s)
    ensures Run(s, ops).appStatus == StatusAfter(s.appStatus, ops)
    decreases |ops|
  {
    hide Write, Read, Replied;
    if ops != [] {
      RunStatus(s, ops[..|ops| - 1]);
    }
  }

  predicate BothClosed(s: State) {
    s.out.closed && s.err.closed
  }

  /** The status last set before the last of the two writers was closed. */
  function FinalStatus(s: State, ops: seq<Op>): int
    requires Sane(s)
    decreases |ops|
  {
    if ops == [] then s.appStatus
    else
      var init := ops[..|ops| - 1];
      if BothClosed(Run(s, init)) then FinalStatus(s, init) else StatusAfter(s.appStatus, init)
  }

  /** The number that the first four bytes of a body stand for. */
  function StatusOf(r: Record): int
    requires |r.content| == 8
  {
    r.content[0] as int * 0x1000000 + r.content[1] as int * 0x10000 + r.content[2] as int * 0x100 + r.content[3] as int
  }

  /** The completions among some records carry a status. */
  predicate Carry(rs: seq<Record>, status: int) {
    forall r | r in rs && IsComplete(r) :: StatusOf(r) == status % 0x100000000
  }

  lemma CloseCarries(w: Wr, act: Act, nWriters: int, appStatus: int)
    requires w.Valid() && w.typ != END_REQUEST
    ensures Carry(Write(w, act, nWriters, appStatus).1, appStatus)
    ensures nWriters != 1 || !act.CloseNow? ==> forall r | r in Write(w, act, nWriters, appStatus).1 :: !IsComplete(r)
  {
    hide PutBytes, EndRequestBody;
    EndRequestDecodes(appStatus, REQUEST_COMPLETE);
    match act {
      case Put(bs) => PutSendsOwn(w, bs);
      case FlushNow =>
      case CloseNow =>
    }
  }

  lemma NoneComplete(rs: seq<Record>)
    requires AllReplies(rs)
    ensures forall r | r in rs :: !IsComplete(r)
  {
  }

  /** Among the records of a run, only the last close sends a completion. */
  lemma StepCompletes(s: State, op: Op)
    requires Inv(s)
    ensures exists added ::
              && Step(s, op).sent == s.sent + added && Carry(added, s.appStatus)
              && (BothClosed(s) || !BothClosed(Step(s, op)) ==> forall r | r in added :: !IsComplete(r))
  {
    hide Write, Replied, Read, Check;
    match op {
      case Out(act) =>
        CloseCarries(s.out, act, s.nWriters, s.appStatus);
        ClosedSendsNothing(s.out, act, s.nWriters, s.appStatus);
        assert Step(s, op).sent == s.sent + Write(s.out, act, s.nWriters, s.appStatus).1;
      case Err(act) =>
        CloseCarries(s.err, act, s.nWriters, s.appStatus);
        ClosedSendsNothing(s.err, act, s.nWriters, s.appStatus);
        assert Step(s, op).sent == s.sent + Write(s.err, act, s.nWriters, s.appStatus).1;
      case SetStatus(_) => assert Step(s, op).sent == s.sent + [];
      case Get(n) =>
        ReadSends(s.input, Max(n, 0));
        RepliedAre(s.input, op);
        NoneComplete(Replied(s.input, op));
        assert Step(s, op).sent == s.sent + Replied(s.input, op);
      case StartData =>
        RepliedAre(s.input, op);
        assert Step(s, op).sent == s.sent + Replied(s.input, op);
    }
  }

  lemma RepliedAre(input: Rd, op: Op)
    ensures op.Get? ==> Replied(input, op) == Sends(input, Max(op.n, 0))
    ensures !op.Get? ==> Replied(input, op) == []
  {
  }

  lemma ClosedSendsNothing(w: Wr, act: Act, nWriters: int, appStatus: int)
    requires w.Valid()
    ensures w.closed ==> Write(w, act, nWriters, appStatus).1 == []
    ensures !act.CloseNow? ==> Write(w, act, nWriters, appStatus).0.closed == w.closed
  {
  }

  /** The end of the request carries the status last set before the last writer was closed. */
  lemma {:induction false} CompletionStatus(s0: State, ops: seq<Op>)
    requires Inv(s0) && s0.sent == [] && Carried(s0, STDOUT) == [] && Carried(s0, STDERR) == []
    ensures var s := Run(s0, ops);
            && Carry(s.sent, FinalStatus(s0, ops))
            && (!BothClosed(s) ==> forall r | r in s.sent :: !IsComplete(r))
    decreases |ops|
  {
    hide Inv, Carried, Step, BothClosed, IsComplete;
    SaneInv(s0);
    if ops != [] {
      var init, op := ops[..|ops| - 1], ops[|ops| - 1];
      CompletionStatus(s0, init);
      RunKeeps(s0, init);
      RunStatus(s0, init);
      StepCompletes(Run(s0, init), op);
      StaysClosed(Run(s0, init), op);
    }
  }

  lemma StaysClosed(s: State, op: Op)
    requires Sane(s)
    ensures BothClosed(s) ==> BothClosed(Step(s, op))
  {
    hide Write, Read, Replied;
  }

  // ---------------------------------------------------------------- the end of the request, by the input

  /** All that the reads of a run have sent. */
  function RepliedAll(s: State, ops: seq<Op>): (rs: seq<Record>)
    requires Sane(s)
    ensures AllValid(rs)
    decreases |ops|
  {
    if ops == [] then []
    else RepliedAll(s, ops[..|ops| - 1]) + Replied(Run(s, ops[..|ops| - 1]).input, ops[|ops| - 1])
  }

  lemma {:induction false} RefusedAll(s: State, ops: seq<Op>)
    requires Sane(s)
    ensures Refused(s, ops) == Refusals(RepliedAll(s, ops), s.out.id)
    decreases |ops|
  {
    if ops == [] {
      NothingRefused(s.out.id);
    } else {
      hide Refusals, Step, Replied;
      var init := ops[..|ops| - 1];
      RefusedAll(s, init);
      RefusalsAppend(RepliedAll(s, init), Replied(Run(s, init).input, ops[|ops| - 1]), s.out.id);
    }
  }

  /** The calls of a run stay with the stream being read. */
  predicate OneStream(ops: seq<Op>) {
    forall op | op in ops :: !op.StartData?
  }

  /** What is still to be sent when a stream has been read to its end is no longer sent by it. */
  lemma QuietDrain(t: Rd)
    ensures Drain(t).1.wire == t.wire + Drain(Quiet(t)).1.wire
  {
    hide Drain;
    if t.closed {
      ClosedDrain(t);
    } else {
      var t0 := t.(wire := []);
      assert t.wire + [] == t.wire;
      assert Shift(t.wire, t0) == t && Quiet(t) == t0;
      ShiftDrain(t.wire, t0);
    }
  }

  lemma ClosedDrain(t: Rd)
    requires t.closed
    ensures Drain(t) == ([], t) && Drain(Quiet(t)) == ([], Quiet(t)) && t.wire + [] == t.wire
  {
  }

  /** A read sends the first of what reading to the end sends. */
  lemma ReadOn(input: Rd, n: nat)
    requires input == Quiet(input) && input.req.begun
    ensures var t := Quiet(Take(input, n).1);
            Drain(input).1.wire == EncodeAll(Sends(input, n)) + Drain(t).1.wire && t.req.begun
  {
    hide Drain, Take, Sends, EncodeAll;
    var t := Take(input, n).1;
    ReadSends(input, n);
    assert input.(wire := []) == input;
    TakeDrain(input, n);
    QuietDrain(t);
    assert t.wire == [] + EncodeAll(Sends(input, n));
    assert [] + EncodeAll(Sends(input, n)) == EncodeAll(Sends(input, n));
  }

  /** What the reads of a run have sent, and what reading on to the end would still send, are together what reading
      the input to its end sends, whatever calls on the writers come between. */
  lemma {:induction false} RunReads(s0: State, ops: seq<Op>)
    requires Sane(s0) && s0.input.req.begun && OneStream(ops)
    ensures var s := Run(s0, ops);
            s.input.req.begun && Drain(s0.input).1.wire == EncodeAll(RepliedAll(s0, ops)) + Drain(s.input).1.wire
    decreases |ops|
  {
    hide Drain, EncodeAll, Quiet, Sends;
    if ops == [] {
      NothingEncoded(Drain(s0.input).1.wire);
    } else {
      var init, op := ops[..|ops| - 1], ops[|ops| - 1];
      RunReads(s0, init);
      var s := Run(s0, init);
      StepReads(s, op);
      EncodeAllAppend(RepliedAll(s0, init), Replied(s.input, op));
      Regroup(EncodeAll(RepliedAll(s0, init)), EncodeAll(Replied(s.input, op)), Drain(Step(s, op).input).1.wire);
    }
  }

  lemma NothingEncoded(w: seq<byte>)
    ensures EncodeAll([]) + w == w
  {
  }

  lemma StepReads(s: State, op: Op)
    requires Sane(s) && s.input.req.begun && !op.StartData?
    ensures var t := Step(s, op);
            t.input.req.begun && Drain(s.input).1.wire == EncodeAll(Replied(s.input, op)) + Drain(t.input).1.wire
  {
    hide Drain, EncodeAll, Sends, Write;
    NothingEncoded(Drain(s.input).1.wire);
    if op.Get? {
      ReadOn(s.input, Max(op.n, 0));
    }
  }

  lemma SameRecords(a: seq<Record>, b: seq<Record>)
    requires AllValid(a) && AllValid(b) && EncodeAll(a) == EncodeAll(b)
    ensures a == b
  {
    hide EncodeAll, ParseAll;
    ParseEncodeAll(a);
    ParseEncodeAll(b);
  }

  /** The refusals of a run are among those the input as a whole asks for, and all of them once it has been read. */
  lemma RefusedOfAll(s0: State, ops: seq<Op>, said: seq<Record>)
    requires Sane(s0) && s0.input.req.begun && OneStream(ops)
    requires AllValid(said) && Drain(s0.input).1.wire == EncodeAll(said)
    ensures Refused(s0, ops) <= Refusals(said, s0.out.id)
    ensures Run(s0, ops).input.closed ==> Refused(s0, ops) == Refusals(said, s0.out.id)
  {
    hide Drain, EncodeAll, Refusals, Refused, RepliedAll, Run, Whole;
    var s, id, sent := Run(s0, ops), s0.out.id, RepliedAll(s0, ops);
    RunReads(s0, ops);
    RefusedAll(s0, ops);
    assert s.input.wire == [];
    WholeStart();
    DrainWhole(s.input);
    var more := WholeRecords(Drain(s.input).1.wire);
    EncodeAllAppend(sent, more);
    SameRecords(sent + more, said);
    RefusalsAppend(sent, more, id);
    if s.input.closed {
      ClosedDrain(s.input);
      NothingEncoded([]);
      assert EncodeAll([]) == [] && EncodeAll(more) == [];
      SameRecords(more, []);
      NothingRefused(id);
    }
  }

  lemma WholeRecords(w: seq<byte>) returns (rs: seq<Record>)
    requires Whole(w)
    ensures AllValid(rs) && w == EncodeAll(rs)
  {
    rs :| AllReplies(rs) && w == EncodeAll(rs);
  }

  /** The condition on the input. Let the peer send a stream, with whatever records mixed into it, and let any mix of
      reads and writes read it to its end: then the ends of the request on the wire are its completion and one for
      each begin record with its own id among what the peer has sent; and it is ended once, after both its streams,
      exactly when the peer has sent none. Before the stream has been read, there are at most as many. */
  lemma EndsByInput(outCap: nat, errCap: nat, appStatus: int, input: Rd, rs: seq<Record>, padding: seq<byte>,
                    tail: seq<byte>, ops: seq<Op>)
    requires S.Reading(input) && Caps(input.req.id, outCap, errCap) && OneStream(ops) && |padding| <= 0xff
    requires S.AllUnderstood(rs, input.typ, input.req.id) && AllValid(rs)
    requires input.unread == EncodeAll(rs) + (Encode(S.EndRecord(input.typ, input.req.id, padding)) + tail)
    ensures var id := input.req.id;
            var s := Run(Initial(id, outCap, errCap, appStatus, input), ops);
            var done := if s.out.closed && s.err.closed then 1 else 0;
            && Ends(s.sent, id) <= done + OwnBegins(rs, id)
            && (s.input.closed ==> Ends(s.sent, id) == done + OwnBegins(rs, id))
            && (s.input.closed && done == 1 ==> (EndedProperly(s.sent, id) <==> OwnBegins(rs, id) == 0))
  {
    hide Run, Refused, Refusals, Ends, EndedProperly, OwnBegins, EncodeAll, Encode, Drain, S.AllUnderstood, S.SaidAll,
         S.HeardAll;
    var id := input.req.id;
    var s0 := Initial(id, outCap, errCap, appStatus, input);
    var said := S.SaidAll(rs, id, input.skip);
    S.StreamHeard(s0.input, rs, padding, tail);
    NothingInFront(EncodeAll(said));
    RunStarts(id, outCap, errCap, appStatus, input);
    RefusedOfAll(s0, ops, said);
    OwnBeginsRefused(rs, id, input.skip);
    SharedConnection(id, outCap, errCap, appStatus, input, ops);
  }

  /** What a read of one byte sends when a begin record with the request's own id comes in front of the content. */
  lemma OwnBeginReplied(q: Rd, body: seq<byte>, d: Record, tail: seq<byte>)
    requires S.Ready(q) && q.req.id <= 0xffff && |body| == 8 && d.Valid() && S.IsData(d, q.typ, q.req.id)
    requires q.unread == Encode(Record(BEGIN_REQUEST, q.req.id, body, [])) + (Encode(d) + tail)
    ensures Sends(q, 1) == [EndRequestRecord(q.req.id, 0, CANT_MPX_CONN)]
  {
    hide Fill, Encode, EncodeAll, EndRequestBody;
    var s, b := q.(wire := []), Record(BEGIN_REQUEST, q.req.id, body, []);
    var e := EndRequestRecord(q.req.id, 0, CANT_MPX_CONN);
    S.SkipStep(s, b, Encode(d) + tail);
    var t := S.AfterRecord(s, b, Encode(d) + tail);
    assert t.wire == EncodeAll([e]);
    S.DeliverHeader(t, d, tail);
    DeliveredWire(t, d, tail);
    assert Take(s, 1).1.wire == EncodeAll([e]);
    ParseEncodeAll([e]);
  }

  lemma DeliveredWire(t: Rd, d: Record, tail: seq<byte>)
    requires S.Ready(t) && S.IsData(d, t.typ, t.req.id)
    ensures S.AfterRecord(t, d, tail).wire == t.wire
  {
    assert t.wire + [] == t.wire;
  }

  /** The smallest case of a refusal: a begin record with the request's own id in the input makes two ends of the
      request, the first of them in front of everything else. */
  lemma OwnBeginEndsTwice(input: Rd, outCap: nat, errCap: nat, appStatus: int,
                          body: seq<byte>, d: Record, tail: seq<byte>)
    requires S.Ready(input) && Caps(input.req.id, outCap, errCap) && |body| == 8
    requires d.Valid() && S.IsData(d, input.typ, input.req.id)
    requires input.unread == Encode(Record(BEGIN_REQUEST, input.req.id, body, [])) + (Encode(d) + tail)
    ensures var id := input.req.id;
            var s := Run(Initial(id, outCap, errCap, appStatus, input), [Get(1), Err(CloseNow), Out(CloseNow)]);
            && Ends(s.sent, id) == 2 && !EndedProperly(s.sent, id)
            && s.sent != [] && IsEnd(s.sent[0], id) && !StreamsEnded([], id)
  {
    hide Encode, Sends, EndRequestBody, Write, Refusals, Ends, Check, ParseAll;
    var id, ops := input.req.id, [Get(1), Err(CloseNow), Out(CloseNow)];
    var s0 := Initial(id, outCap, errCap, appStatus, input);
    SharedConnection(id, outCap, errCap, appStatus, input, ops);
    OwnBeginReplied(s0.input, body, d, tail);
    OneRefusal(id);
    NothingRefused(id);
    NothingSent(id);
    var s1 := Step(s0, Get(1));
    var s2 := Step(s1, Err(CloseNow));
    assert ops[..2] == [Get(1), Err(CloseNow)] && ops[..2][..1] == [Get(1)] && ops[..2][..1][..0] == [];
    assert s1.sent == [] + [EndRequestRecord(id, 0, CANT_MPX_CONN)];
    assert Run(s0, [Get(1)]) == s1 && Refused(s0, [Get(1)]) == 1;
    assert Run(s0, ops[..2]) == s2 && Refused(s0, ops[..2]) == 1;
    assert Run(s0, ops) == Step(s2, Out(CloseNow)) && Refused(s0, ops) == 1;
  }

  lemma OneRefusal(id: nat)
    requires 0 < id <= 0xffff
    ensures Refusals([EndRequestRecord(id, 0, CANT_MPX_CONN)], id) == 1
  {
    var e := EndRequestRecord(id, 0, CANT_MPX_CONN);
    assert [e][..0] == [];
  }

  lemma NothingSent(id: nat)
    ensures !StreamsEnded([], id)
  {
  }
}

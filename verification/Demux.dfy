/** What reading a FastCGI connection means, as a function of all the bytes still to come.

    The state of a reader is seen here without its buffer: `unread` is what the buffer still holds followed by
    what the peer has yet to deliver, however that arrives. `Fill` is the meaning of one call of the buffer
    filling procedure, `Take` of reading some bytes, `Drain` of reading to the end of the stream. */
module Demux {
  import opened Bytes
  import opened Pairs
  import opened Records

  datatype Request = Request(id: u16, role: nat, keep: bool, begun: bool)

  datatype Status = IsStream | IsSkip | IsBegin | IsMgmt | IsError(code: int)

  datatype Rd = Rd(
    unread: seq<byte>,    // bytes not yet passed over
    readEnd: nat,         // how the inbound bytes end: 0 for a closed peer, otherwise the errno of a failing read
    typ: byte,            // the stream type being read
    eorStop: bool,        // stop at the end of the record
    skip: bool,           // do not deliver content
    content: nat,         // content bytes of the record not yet passed over
    padding: nat,         // padding bytes of the record not yet passed over
    closed: bool,
    errno: int,
    req: Request,
    wire: seq<byte>)      // everything sent to the peer so far
  {
    /** `SetError`: only the first error is kept. */
    function Fail(code: int): Rd {
      this.(closed := true, errno := if errno == 0 then code else errno)
    }

    function EndError(): int {
      if readEnd == 0 then PROTOCOL_ERROR else readEnd
    }

    /** Between two records of an open stream. */
    predicate Between() {
      !closed && !eorStop && content == 0 && padding == 0
    }
  }

  // ---------------------------------------------------------------- passing over one record

  /** Passes over what is left of the record: its content and then its padding. */
  function Advance(s: Rd): (r: Rd)
    requires !s.closed
    ensures r == s.(unread := r.unread, skip := r.skip, content := r.content, padding := r.padding,
                    closed := r.closed, errno := r.errno)
    ensures |r.unread| <= |s.unread|
    ensures !r.closed ==> r.content == 0 && r.padding == 0 && r.errno == s.errno
    ensures r.closed ==> r.unread == [] && r.errno != 0
  {
    if |s.unread| < s.content then
      s.(unread := [], content := s.content - |s.unread|).Fail(s.EndError())
    else
      var t := s.(unread := s.unread[s.content..], content := 0, skip := s.skip && s.content == 0);
      if |t.unread| < t.padding then
        t.(unread := [], padding := t.padding - |t.unread|).Fail(s.EndError())
      else
        t.(unread := t.unread[t.padding..], padding := 0)
  }

  /** The content that a read bounded by the end of the record delivers. */
  function Body(s: Rd): (b: seq<byte>)
    ensures b <= s.unread
  {
    if s.skip then [] else s.unread[..Min(s.content, |s.unread|)]
  }

  /** The state in which a read bounded by the end of the record meets that end.
      It needs one byte beyond an unpadded record. */
  function AtRecordEnd(s: Rd): (r: Rd)
    requires !s.closed
    ensures r.closed && |r.unread| <= |s.unread|
    ensures r == s.(unread := r.unread, skip := r.skip, content := r.content, padding := r.padding,
                    closed := true, errno := r.errno)
    ensures r.errno == 0 ==> r.content == 0 && r.padding == 0
  {
    var k := |Body(s)|;
    var t := s.(unread := s.unread[k..], content := s.content - k);
    if t.unread == [] then t.Fail(t.EndError())
    else Advance(t).(closed := true)
  }

  // ---------------------------------------------------------------- management records

  const MAX_CONNS := Ascii("FCGI_MAX_CONNS")
  const MAX_REQS := Ascii("FCGI_MAX_REQS")
  const MPXS_CONNS := Ascii("FCGI_MPXS_CONNS")

  /** Room for content in the 64-byte reply buffer. */
  const REPLY_ROOM := 56

  /** The characters before the first `=`; None when a NUL comes first, where `strchr` finds nothing. */
  function Key(entry: seq<byte>): Option<seq<byte>> {
    if entry == [] || entry[0] == 0 then None
    else if entry[0] == EQUALS then Some([])
    else
      match Key(entry[1..])
      case None => None
      case Some(k) => Some([entry[0]] + k)
  }

  function KnownValue(name: seq<byte>): Option<byte> {
    if name == MAX_CONNS || name == MAX_REQS then Some(49)
    else if name == MPXS_CONNS then Some(48)
    else None
  }

  /** The content of the reply to the entries asked for. None when the C program has no defined behaviour:
      a name with a NUL before any `=`, or more known names than the reply buffer holds. */
  function ValuesPayload(entries: seq<seq<byte>>): (r: Option<seq<byte>>)
    ensures r.Some? ==> |r.value| < REPLY_ROOM
  {
    if entries == [] then Some([])
    else
      match (ValuesPayload(entries[..|entries| - 1]), Key(entries[|entries| - 1]))
      case (Some(p), Some(name)) =>
        (match KnownValue(name)
         case None => Some(p)
         case Some(v) =>
           if |p| + |name| + 4 > REPLY_ROOM then None else Some(p + [|name|, 1] + name + [v]))
      case _ => None
  }

  function ValuesReply(payload: seq<byte>): Record {
    StreamRecord(GET_VALUES_RESULT, NULL_REQUEST_ID, payload)
  }

  // ---------------------------------------------------------------- headers

  /** `ProcessManagementRecord`. */
  function ProcessManagement(s: Rd, typ: byte): (r: (Rd, Status))
    requires !s.closed
    ensures r.1.IsMgmt? || r.1.IsError?
    ensures |r.0.unread| <= |s.unread| && r.0.req == s.req && r.0.readEnd == s.readEnd
    ensures r.0.eorStop == s.eorStop && r.0.typ == s.typ
  {
    if typ == GET_VALUES then
      var parsed := ParsePairs(Body(s));
      var e := if parsed.complete then AtRecordEnd(s) else AtRecordEnd(s).Fail(PARAMS_ERROR);
      if e.errno != 0 || e.content != 0 then (e, IsError(PROTOCOL_ERROR))
      else
        match ValuesPayload(Entries(parsed.pairs))
        case None => (e, IsError(UNDEFINED))
        case Some(payload) => (e.(wire := s.wire + Encode(ValuesReply(payload))), IsMgmt)
    else
      (s.(wire := s.wire + Encode(UnknownTypeRecord(typ))), IsMgmt)
  }

  /** `ProcessBeginRecord`. */
  function ProcessBegin(s: Rd, id: u16): (r: (Rd, Status))
    requires !s.closed
    ensures r.1.IsBegin? || r.1.IsSkip? || r.1.IsError?
    ensures |r.0.unread| <= |s.unread| && r.0.readEnd == s.readEnd
    ensures r.0.eorStop == s.eorStop && r.0.typ == s.typ
    ensures r.1.IsBegin? ==> !s.req.begun && r.0.req.begun && r.0.content == 0 && !r.0.skip
    ensures !r.1.IsBegin? ==> r.0.req.begun == s.req.begun
    ensures s.req.begun ==> r.0.req == s.req
  {
    if id == 0 || s.content != 8 then (s, IsError(PROTOCOL_ERROR))
    else if s.req.begun then
      (s.(wire := s.wire + Encode(EndRequestRecord(id, 0, CANT_MPX_CONN))), IsSkip)
    else
      var t := s.(req := s.req.(id := id));
      var body := Body(t);
      if |body| < 8 then (AtRecordEnd(t), IsError(PROTOCOL_ERROR))
      else
        (t.(unread := t.unread[8..], content := 0,
            req := Request(id, U16(body[0], body[1]), body[2] % 2 == 1, true)), IsBegin)
  }

  /** `ProcessHeader`. */
  function Process(s: Rd, header: seq<byte>): (r: (Rd, Status))
    requires !s.closed && |header| == HEADER_LEN
    ensures |r.0.unread| <= |s.unread| && r.0.readEnd == s.readEnd
    ensures r.0.eorStop == s.eorStop && r.0.typ == s.typ
    ensures r.1.IsBegin? ==> !s.req.begun && r.0.req.begun && r.0.content == 0 && !r.0.skip
    ensures !r.1.IsBegin? ==> r.0.req.begun == s.req.begun
    ensures s.req.begun ==> r.0.req == s.req
  {
    var h := ReadHeader(header);
    if h.version != VERSION_1 then (s, IsError(UNSUPPORTED_VERSION))
    else
      var t := s.(content := h.contentLen, padding := h.paddingLen);
      if h.typ == BEGIN_REQUEST then ProcessBegin(t, h.id)
      else if h.id == NULL_REQUEST_ID then ProcessManagement(t, h.typ)
      else if h.id != s.req.id then (t, IsSkip)
      else if h.typ != s.typ then (t, IsError(PROTOCOL_ERROR))
      else (t, IsStream)
  }

  // ---------------------------------------------------------------- filling

  /** `FillBuffProc`: on return the stream is closed, or has content to deliver, or has just begun a request. */
  function Fill(s: Rd): (r: Rd)
    requires !s.closed
    ensures |r.unread| <= |s.unread| && r.readEnd == s.readEnd && r.eorStop == s.eorStop && r.typ == s.typ
    ensures s.req.begun ==> r.req == s.req
    ensures s.eorStop ==> r.req == s.req && r.wire == s.wire
    ensures r.closed || (r.content > 0 && !r.skip && r.unread != []) ||
            (!s.eorStop && !s.req.begun && r.req.begun && r.content == 0 && !r.skip)
    decreases |s.unread|, 1
  {
    if s.unread == [] then s.Fail(s.EndError())
    else if s.content > 0 && !s.skip then s
    else FillTail(s)
  }

  /** The part of `Fill` after the test for an empty buffer and after delivery. */
  function FillTail(s: Rd): (r: Rd)
    requires !s.closed && (s.content == 0 || s.skip)
    ensures |r.unread| <= |s.unread| && r.readEnd == s.readEnd && r.eorStop == s.eorStop && r.typ == s.typ
    ensures s.req.begun ==> r.req == s.req
    ensures s.eorStop ==> r.req == s.req && r.wire == s.wire
    ensures r.closed || (r.content > 0 && !r.skip && r.unread != []) ||
            (!s.eorStop && !s.req.begun && r.req.begun && r.content == 0 && !r.skip)
    decreases |s.unread|, 0
  {
    var a := Advance(s);
    if a.closed then a
    else if a.eorStop then a.(closed := true)
    else if |a.unread| < HEADER_LEN then a.(unread := []).Fail(a.EndError())
    else
      var (p, status) := Process(a.(unread := a.unread[HEADER_LEN..]), a.unread[..HEADER_LEN]);
      Dispatch(p.(closed := false), status)
  }

  /** What follows a header, by its status. */
  function Dispatch(p: Rd, status: Status): (r: Rd)
    requires !p.closed
    requires status.IsBegin? ==> p.req.begun && p.content == 0 && !p.skip
    ensures |r.unread| <= |p.unread| && r.readEnd == p.readEnd && r.eorStop == p.eorStop && r.typ == p.typ
    ensures p.req.begun ==> r.req == p.req
    ensures r.closed || (r.content > 0 && !r.skip && r.unread != []) ||
            (r.req.begun && r.content == 0 && !r.skip && (status.IsBegin? || (!p.req.begun && !p.eorStop)))
    decreases |p.unread|, 2
  {
    match status
    case IsStream => if p.content == 0 then p.(closed := true) else Fill(p)
    case IsSkip => Fill(p.(skip := true))
    case IsBegin => p
    case IsMgmt => Fill(p)
    case IsError(code) => p.Fail(code)
  }

  // ---------------------------------------------------------------- reading

  /** Removes the next content byte. */
  function Pop(s: Rd): Rd
    requires s.content > 0 && s.unread != []
  {
    s.(unread := s.unread[1..], content := s.content - 1)
  }

  /** Reading at most `n` bytes, one at a time. */
  function Take(s: Rd, n: nat): (r: (seq<byte>, Rd))
    ensures |r.0| <= n && |r.1.unread| + |r.0| <= |s.unread|
    ensures s.req.begun ==> r.1.req == s.req
    ensures r.1.eorStop == s.eorStop && r.1.typ == s.typ && r.1.readEnd == s.readEnd
    ensures s.eorStop ==> r.1.req == s.req && r.1.wire == s.wire
    decreases n
  {
    if n == 0 || s.closed then ([], s)
    else
      var f := Fill(s);
      if f.closed || f.content == 0 then ([], f)
      else
        var (bs, t) := Take(Pop(f), n - 1);
        ([f.unread[0]] + bs, t)
  }

  /** Reading to the end of the stream: the bytes delivered and the state at the end. */
  function Drain(s: Rd): (r: (seq<byte>, Rd))
    decreases |s.unread|
  {
    if s.closed then ([], s)
    else
      var f := Fill(s);
      if f.closed || f.content == 0 then ([], f)
      else
        var (bs, t) := Drain(Pop(f));
        ([f.unread[0]] + bs, t)
  }

  /** `SetReaderType`: the stream starts over with another type, keeping the bytes already received. */
  function SetType(s: Rd, typ: byte): Rd {
    s.(typ := typ, eorStop := false, skip := false, content := 0, padding := 0, closed := false)
  }
}

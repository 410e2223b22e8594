/** The reading half of the stream engine: one fixed buffer, refilled by reads of arbitrary size, demultiplexed
    record by record, re-entered to read the bodies of begin and management records.

    `Abs` is the abstract state of `Demux`. Every method is specified by the function of `Demux` it implements;
    the equations hold for calls during which no write to the peer fails. */
module Reader {
  import opened Bytes
  import opened Pairs
  import opened Records
  import opened Demux
  import opened DemuxLemmas
  import opened Connection
  import opened Params

  /** How a round of `FillBuffProc` goes on. */
  datatype Next = Deliver | Again | AtEnd

  class Reader {
    const conn: Connection
    const req: RequestState
    const mBuff: array<byte>    // the buffer as allocated
    const buff: nat             // its first aligned position
    const bufflen: nat
    var buffStop: nat           // end of the valid bytes
    var rdNext: nat             // first byte not yet passed over
    var wrNext: nat
    var stop: nat               // end of the deliverable bytes
    var stopUnget: nat          // start of the current fragment, the limit of pushback
    var typ: byte
    var eorStop: bool
    var skip: bool
    var contentLen: nat
    var paddingLen: nat
    var isClosed: bool
    var errno: int

    /** What holds throughout a fill. */
    ghost predicate Valid0()
      reads this, conn
    {
      buff <= rdNext <= buffStop <= buff + bufflen <= mBuff.Length && HEADER_LEN < bufflen && conn.isOpen
    }

    ghost predicate Valid()
      reads this, conn
    {
      Valid0() && (!isClosed ==> rdNext <= stop <= buffStop && (rdNext < stop ==> !skip))
    }

    /** Bytes not yet passed over: those in the buffer, then those still to come. */
    ghost function Unread(): seq<byte>
      reads this, mBuff, conn
      requires Valid0()
    {
      mBuff[rdNext..buffStop] + conn.inbound
    }

    ghost function Deliverable(): nat
      reads this, conn
      requires Valid()
    {
      if isClosed then 0 else stop - rdNext
    }

    ghost function Abs(): Rd
      reads this, mBuff, req, conn
      requires Valid()
    {
      Rd(Unread(), conn.readEnd, typ, eorStop, skip, contentLen + Deliverable(), paddingLen,
         isClosed, errno, req.Info(), conn.wire)
    }

    /** The abstract state while a fill is under way, when `stop` means nothing. */
    ghost function Core(): Rd
      reads this, mBuff, req, conn
      requires buff <= rdNext <= buffStop <= mBuff.Length
    {
      Rd(mBuff[rdNext..buffStop] + conn.inbound, conn.readEnd, typ, eorStop, skip, contentLen, paddingLen,
         isClosed, errno, req.Info(), conn.wire)
    }

    /** Pushback stays inside the current fragment. */
    ghost predicate Ungettable()
      reads this
    {
      !isClosed && rdNext < stop ==> buff <= stopUnget <= rdNext
    }

    /** `NewStream` for a reader; the allocator returns memory at any address. */
    constructor (req: RequestState, conn: Connection, bufflen: int, streamType: byte, address: nat)
      requires conn.isOpen
      ensures Valid() && Ungettable() && fresh(mBuff) && this.req == req && this.conn == conn
      ensures this.bufflen == UsableSize(bufflen, address)
      ensures Abs() == Rd(conn.inbound, conn.readEnd, streamType, false, false, 0, 0, false, 0,
                          req.Info(), conn.wire)
    {
      FramingFits(bufflen, address, 0);
      var offset := AlignPtr8(address);
      this.req, this.conn := req, conn;
      mBuff := new byte[BufferSize(bufflen)];
      buff := offset;
      this.bufflen := UsableSize(bufflen, address);
      buffStop, rdNext, stop, stopUnget, wrNext := offset, offset, offset, offset, offset;
      typ, eorStop, skip, contentLen, paddingLen := streamType, false, false, 0, 0;
      isClosed, errno := false, 0;
      new;
      assert mBuff[rdNext..buffStop] + conn.inbound == conn.inbound;
    }

    /** `SetError`. */
    method SetError(code: int)
      modifies this`errno, this`isClosed
      ensures errno == (if old(errno) == 0 then code else old(errno)) && isClosed
    {
      if errno == 0 {
        errno := code;
      }
      isClosed := true;
    }

    /** `SetReaderType`: no byte already received is lost. */
    method SetReaderType(streamType: byte)
      requires Valid()
      modifies this
      ensures Valid() && Ungettable()
      ensures Abs() == SetType(old(Abs()), streamType)
    {
      ghost var unread := Unread();
      typ, eorStop, skip, contentLen, paddingLen := streamType, false, false, 0, 0;
      stop := rdNext;
      wrNext := stop;
      isClosed := false;
      assert Unread() == unread;
    }

    /** `FCGX_StartFilterData`: moves a filter request from the end of its input to its data. */
    method StartFilterData() returns (r: int)
      requires Valid()
      modifies this
      ensures Valid()
      ensures r == 0 <==> req.role == FILTER && old(isClosed) && old(typ) == STDIN
      ensures Ungettable()
      ensures r == 0 ==> Abs() == SetType(old(Abs()), DATA)
      ensures r != 0 ==> r == -1 && Abs() == old(Abs()).Fail(CALL_SEQ_ERROR).(content := Abs().content)
    {
      if req.role != FILTER || !isClosed || typ != STDIN {
        SetError(CALL_SEQ_ERROR);
        return -1;
      }
      SetReaderType(DATA);
      r := 0;
    }

    /** Refills the empty buffer with one read. */
    method Refill() returns (ok: bool)
      requires buff <= rdNext == buffStop <= buff + bufflen <= mBuff.Length && 0 < bufflen
      requires conn.isOpen && !isClosed
      modifies this`rdNext, this`buffStop, this`errno, this`isClosed
      modifies mBuff, conn`inbound, conn`errno
      ensures buff <= rdNext <= buffStop <= buff + bufflen
      ensures ok == !isClosed && ok == (old(conn.inbound) != [])
      ensures ok ==> Core() == old(Core()) && rdNext < buffStop
      ensures !ok ==> Core() == old(Core()).Fail(old(Core()).EndError())
    {
      ghost var core := Core();
      var count := conn.Read(mBuff, buff, bufflen);
      if count <= 0 {
        SetError(if count == 0 then PROTOCOL_ERROR else conn.errno);
        return false;
      }
      rdNext := buff;
      buffStop := buff + count;
      ghost var inb := core.unread;
      assert mBuff[rdNext..buffStop] + conn.inbound == inb;
      ok := true;
    }

    /** Moves past bytes of the buffer. */
    method Pass(count: nat)
      requires buff <= rdNext && rdNext + count <= buffStop <= mBuff.Length
      modifies this`rdNext
      ensures rdNext == old(rdNext) + count
      ensures Core() == old(Core()).(unread := old(Core()).unread[count..])
    {
      ghost var unread := mBuff[rdNext..buffStop] + conn.inbound;
      rdNext := rdNext + count;
      assert mBuff[rdNext..buffStop] + conn.inbound == unread[count..];
    }

    /** `FillBuffProc`, content: what the buffer, which is not empty, holds of it becomes deliverable or is skipped. */
    method PassContent() returns (next: Next)
      requires buff <= rdNext < buffStop <= buff + bufflen <= mBuff.Length && !isClosed && contentLen > 0
      modifies this`contentLen, this`skip, this`rdNext, this`stop, this`wrNext
      ensures buff <= rdNext <= buffStop
      ensures next == Deliver ==>
                && rdNext == old(rdNext) < stop <= buffStop && !skip
                && Core().(content := contentLen + stop - rdNext) == Fill(old(Core()))
      ensures next == Again ==> Fill(Core()) == Fill(old(Core()))
      ensures next == AtEnd ==> contentLen == 0 && FillTail(Core()) == Fill(old(Core()))
      ensures next != Deliver ==> |Core().unread| < |old(Core()).unread|
    {
      hide Fill, FillTail;
      ghost var s := Core();
      FillStep(s);
      var count := Min(contentLen, buffStop - rdNext);
      contentLen := contentLen - count;
      if !skip {
        stop := rdNext + count;
        wrNext := stop;
        FillDelivers(s);
        return Deliver;
      }
      Pass(count);
      if contentLen > 0 {
        SkipPart(s, count);
        return Again;
      }
      skip := false;
      SkipAll(s);
      return AtEnd;
    }

    /** `FillBuffProc`, padding: what the buffer holds of it is skipped. */
    method PassPadding() returns (next: Next)
      requires buff <= rdNext <= buffStop <= buff + bufflen <= mBuff.Length && !isClosed
      requires contentLen == 0 && paddingLen > 0
      modifies this`paddingLen, this`rdNext
      ensures buff <= rdNext <= buffStop
      ensures next == Again ==> Fill(Core()) == FillTail(old(Core()))
      ensures next == AtEnd ==> paddingLen == 0 && FillTail(Core()) == FillTail(old(Core()))
      ensures next == Again || next == AtEnd
      ensures |Core().unread| <= |old(Core()).unread|
      ensures old(rdNext < buffStop) ==> |Core().unread| < |old(Core()).unread|
    {
      hide Fill, FillTail;
      ghost var s := Core();
      var count := Min(paddingLen, buffStop - rdNext);
      paddingLen := paddingLen - count;
      Pass(count);
      if paddingLen > 0 {
        PadPart(s, count);
        return Again;
      }
      PadAll(s);
      return AtEnd;
    }

    /** One round of `FillBuffProc` up to the end of the record, over a buffer that is not empty. */
    method PassRecord() returns (next: Next)
      requires buff <= rdNext < buffStop <= buff + bufflen <= mBuff.Length && !isClosed
      modifies this`contentLen, this`paddingLen, this`skip, this`rdNext, this`stop, this`wrNext
      ensures buff <= rdNext <= buffStop
      ensures next == Deliver ==>
                old(contentLen) > 0 && rdNext < stop <= buffStop && !skip &&
                Core().(content := contentLen + stop - rdNext) == Fill(old(Core()))
      ensures next == Again ==>
                Fill(Core()) == Fill(old(Core())) && |Core().unread| < |old(Core()).unread| &&
                (old(contentLen) > 0 || old(paddingLen) > 0)
      ensures next == AtEnd ==>
                && contentLen == 0 && paddingLen == 0 && FillTail(Core()) == Fill(old(Core()))
                && (old(contentLen) == 0 && old(paddingLen) == 0 ==> Core() == old(Core()))
                && |Core().unread| <= |old(Core()).unread|
                && (rdNext == buffStop ==> |Core().unread| < |old(Core()).unread|)
    {
      hide Fill, FillTail;
      FillStep(Core());
      if contentLen > 0 {
        next := PassContent();
        if next != AtEnd {
          return;
        }
      }
      next := AtEnd;
      if paddingLen > 0 {
        next := PassPadding();
      }
    }

    /** The loop over the entries asked for, each answered if its name is known. */
    method AnswerValues(params: ParamVector) returns (payload: Option<seq<byte>>)
      requires params.Valid()
      ensures payload == ValuesPayload(params.Contents())
    {
      ghost var entries := params.Contents();
      var content: seq<byte> := [];
      for i := 0 to params.cur
        invariant ValuesPayload(entries[..i]) == Some(content)
      {
        assert entries[..i + 1][..i] == entries[..i];
        match Key(params.vec[i].value) {
          case None =>
            UndefinedPrefix(entries, i + 1);
            return None;
          case Some(name) =>
            match KnownValue(name) {
              case None =>
              case Some(v) =>
                if |content| + |name| + 4 > REPLY_ROOM {
                  UndefinedPrefix(entries, i + 1);
                  return None;
                }
                content := content + [|name|, 1] + name + [v];
            }
        }
      }
      assert entries[..params.cur] == entries;
      return Some(content);
    }

    /** `ProcessManagementRecord` for a request for values. */
    method ProcessGetValues() returns (status: Status)
      requires Valid() && !isClosed && rdNext == stop && eorStop
      modifies this, mBuff, conn`inbound, conn`wire, conn`failures, conn`errors, conn`errno
      modifies req`requestId, req`role, req`keepConnection, req`isBeginProcessed
      ensures Valid() && eorStop && typ == old(typ) && isClosed
      ensures conn.failures == old(conn.failures) ==> (Core(), status) == ProcessManagement(old(Core()), GET_VALUES)
      ensures conn.failures >= old(conn.failures)
      ensures conn.failures != old(conn.failures) ==> status.IsError? && errno != 0
      ensures old(req.isBeginProcessed) ==> req.Info() == old(req.Info())
      ensures status.IsMgmt? || status.IsError?
      ensures |Unread()| <= old(|Unread()|)
      decreases 0, 12
    {
      hide ParsePairs, ValuesPayload, Encode, AtRecordEnd, Body, Entries;
      var params := ReadQuestion();
      if errno != 0 || contentLen != 0 {
        return IsError(PROTOCOL_ERROR);
      }
      var payload := AnswerValues(params);
      if payload == None {
        return IsError(UNDEFINED);
      }
      status := Reply(ValuesReply(payload.value));
    }

    /** The entries a request for values asks for: those its record carries. */
    method ReadQuestion() returns (params: ParamVector)
      requires Valid() && !isClosed && rdNext == stop && eorStop
      modifies this, mBuff, conn`inbound, conn`wire, conn`failures, conn`errors, conn`errno
      modifies req`requestId, req`role, req`keepConnection, req`isBeginProcessed
      ensures Valid() && eorStop && typ == old(typ) && isClosed && conn.failures == old(conn.failures)
      ensures fresh(params) && fresh(params.vec) && params.Valid()
      ensures var parsed := ParsePairs(Body(old(Core())));
              && params.Contents() == Entries(parsed.pairs)
              && Core() == (if parsed.complete then AtRecordEnd(old(Core()))
                            else AtRecordEnd(old(Core())).Fail(PARAMS_ERROR))
      ensures req.Info() == old(req.Info()) && |Unread()| <= old(|Unread()|)
      decreases 0, 11
    {
      hide Fill, Drain, Take, ParsePairs, AtRecordEnd, Body;
      params := new ParamVector(3);
      DrainRecord(Abs());
      var status := ReadParams(params);
    }

    /** `ProcessManagementRecord`. */
    method ProcessManagementRecord(recordType: byte) returns (status: Status)
      requires Valid() && !isClosed && rdNext == stop && eorStop
      modifies this, mBuff, conn`inbound, conn`wire, conn`failures, conn`errors, conn`errno
      modifies req`requestId, req`role, req`keepConnection, req`isBeginProcessed
      ensures Valid() && eorStop && typ == old(typ)
      ensures isClosed || rdNext == stop
      ensures conn.failures == old(conn.failures) ==> (Core(), status) == ProcessManagement(old(Core()), recordType)
      ensures conn.failures >= old(conn.failures)
      ensures conn.failures != old(conn.failures) ==> status.IsError? && errno != 0
      ensures old(req.isBeginProcessed) ==> req.Info() == old(req.Info())
      ensures status.IsMgmt? || status.IsError?
      ensures |Unread()| <= old(|Unread()|)
      decreases 0, 13
    {
      hide Encode;
      if recordType == GET_VALUES {
        status := ProcessGetValues();
      } else {
        status := Reply(UnknownTypeRecord(recordType));
      }
    }

    /** Sends a reply record on behalf of the library. */
    method Reply(r: Record) returns (status: Status)
      requires Valid() && r.Valid()
      modifies this`errno, this`isClosed, conn`wire, conn`failures, conn`errors, conn`errno
      ensures Valid()
      ensures conn.failures == old(conn.failures) ==>
                && status == IsMgmt && Core() == old(Core()).(wire := old(conn.wire) + Encode(r))
                && Abs() == old(Abs()).(wire := conn.wire)
      ensures conn.failures >= old(conn.failures)
      ensures conn.failures != old(conn.failures) ==>
                && status == IsError(-1) && isClosed && errno != 0
                && errno == if old(errno) == 0 then conn.errno else old(errno)
    {
      hide Encode;
      var outcome := conn.WriteAll(Encode(r));
      if outcome < 0 {
        SetError(conn.errno);
        return IsError(-1);
      }
      return IsMgmt;
    }

    /** `ProcessBeginRecord`. */
    method ProcessBeginRecord(requestId: u16) returns (status: Status)
      requires Valid() && !isClosed && rdNext == stop && eorStop
      modifies this, mBuff, conn`inbound, conn`wire, conn`failures, conn`errors, conn`errno
      modifies req`requestId, req`role, req`keepConnection, req`isBeginProcessed
      ensures Valid() && eorStop && typ == old(typ)
      ensures isClosed || rdNext == stop
      ensures conn.failures == old(conn.failures) ==> (Core(), status) == ProcessBegin(old(Core()), requestId)
      ensures conn.failures >= old(conn.failures)
      ensures conn.failures != old(conn.failures) ==> status.IsError? && errno != 0
      ensures old(req.isBeginProcessed) ==> req.Info() == old(req.Info()) && !status.IsBegin?
      ensures status.IsBegin? ==> rdNext == stop
      ensures |Unread()| <= old(|Unread()|)
      decreases 0, 11
    {
      hide Fill, Take, AtRecordEnd, Encode;
      if requestId == 0 || contentLen != 8 {
        return IsError(PROTOCOL_ERROR);
      }
      if req.isBeginProcessed {
        status := Reply(EndRequestRecord(requestId, 0, CANT_MPX_CONN));
        if status.IsError? {
          return;
        }
        return IsSkip;
      }
      req.requestId := requestId;
      TakeRecord(Abs(), 8);
      var body := GetStr(8);
      if |body| != 8 {
        return IsError(PROTOCOL_ERROR);
      }
      req.keepConnection := body[2] % 2 == 1;
      req.role := U16(body[0], body[1]);
      req.isBeginProcessed := true;
      return IsBegin;
    }

    /** `ProcessHeader`. */
    method ProcessHeader(header: seq<byte>) returns (status: Status)
      requires Valid() && !isClosed && rdNext == stop && eorStop && |header| == HEADER_LEN
      modifies this, mBuff, conn`inbound, conn`wire, conn`failures, conn`errors, conn`errno
      modifies req`requestId, req`role, req`keepConnection, req`isBeginProcessed
      ensures Valid() && eorStop == old(eorStop) && typ == old(typ)
      ensures isClosed || rdNext == stop
      ensures conn.failures == old(conn.failures) ==> (Core(), status) == Process(old(Core()), header)
      ensures conn.failures >= old(conn.failures)
      ensures conn.failures != old(conn.failures) ==> status.IsError? && errno != 0
      ensures old(req.isBeginProcessed) ==> req.Info() == old(req.Info()) && !status.IsBegin?
      ensures status.IsBegin? ==> rdNext == stop
      ensures |Unread()| <= old(|Unread()|)
      decreases 0, 14
    {
      hide ProcessBegin, ProcessManagement;
      var h := ReadHeader(header);
      if h.version != VERSION_1 {
        return IsError(UNSUPPORTED_VERSION);
      }
      contentLen := h.contentLen;
      paddingLen := h.paddingLen;
      if h.typ == BEGIN_REQUEST {
        status := ProcessBeginRecord(h.id);
      } else if h.id == NULL_REQUEST_ID {
        status := ProcessManagementRecord(h.typ);
      } else if h.id != req.requestId {
        status := IsSkip;
      } else if h.typ != typ {
        status := IsError(PROTOCOL_ERROR);
      } else {
        status := IsStream;
      }
    }

    /** `FillBuffProc`, header: takes the header bytes the buffer holds. */
    method GatherHeader(header: seq<byte>) returns (more: seq<byte>)
      requires buff <= rdNext <= buffStop <= buff + bufflen <= mBuff.Length && |header| < HEADER_LEN
      modifies this`rdNext
      ensures buff <= rdNext <= buffStop
      ensures |more| <= HEADER_LEN && (|more| < HEADER_LEN ==> rdNext == buffStop)
      ensures PutBack(Core(), more) == PutBack(old(Core()), header)
      ensures Core() == old(Core()).(unread := Core().unread)
      ensures old(rdNext < buffStop) ==> |Core().unread| < |old(Core()).unread|
      ensures |Core().unread| <= |old(Core()).unread|
    {
      ghost var unread := Core().unread;
      var count := Min(HEADER_LEN - |header|, buffStop - rdNext);
      var chunk := mBuff[rdNext..rdNext + count];
      more := header + chunk;
      assert unread == chunk + unread[count..];
      Pass(count);
      assert more + unread[count..] == header + unread;
    }

    /** `FillBuffProc`: interprets a header with reads bounded by its record. */
    method Interpret(header: seq<byte>) returns (status: Status)
      requires Valid0() && !isClosed && !eorStop && |header| == HEADER_LEN && contentLen == 0 && paddingLen == 0
      modifies this, mBuff, conn`inbound, conn`wire, conn`failures, conn`errors, conn`errno
      modifies req`requestId, req`role, req`keepConnection, req`isBeginProcessed
      ensures Valid0() && !isClosed && !eorStop && typ == old(typ)
      ensures conn.failures == old(conn.failures) ==>
                (status.IsBegin? ==> req.isBeginProcessed && contentLen == 0 && !skip) &&
                Dispatch(Core(), status) == FillTail(PutBack(old(Core()), header))
      ensures conn.failures >= old(conn.failures)
      ensures conn.failures != old(conn.failures) ==> status.IsError? && errno != 0
      ensures old(req.isBeginProcessed) ==> req.Info() == old(req.Info()) && !status.IsBegin?
      ensures status.IsBegin? ==> rdNext == stop
      ensures |Core().unread| <= |old(Core()).unread|
      decreases 0, 15
    {
      hide Fill, FillTail, Process, Dispatch;
      ghost var s := Core();
      InterpretAtBoundary(s, header);
      eorStop := true;
      stop := rdNext;
      status := ProcessHeader(header);
      eorStop := false;
      isClosed := false;
    }

    /** `FillBuffProc`: acts on the status of a header. */
    method Follow(status: Status) returns (done: bool)
      requires Valid0() && !isClosed && !eorStop
      requires status.IsBegin? ==> rdNext == stop && req.isBeginProcessed && contentLen == 0 && !skip
      modifies this`skip, this`stop, this`wrNext, this`isClosed, this`errno
      ensures Valid0() && Unread() == old(Unread())
      ensures done ==> Valid() && Abs() == Dispatch(old(Core()), status)
      ensures done <==> status.IsBegin? || status.IsError? || (status.IsStream? && contentLen == 0)
      ensures done ==> (isClosed <==> !status.IsBegin?)
      ensures status.IsBegin? ==> rdNext == stop
      ensures !done ==> !isClosed && Fill(Core()) == Dispatch(old(Core()), status)
      ensures status.IsError? ==> errno == if old(errno) == 0 then status.code else old(errno)
    {
      hide Fill;
      match status {
        case IsStream =>
          if contentLen == 0 {
            stop := rdNext;
            wrNext := stop;
            isClosed := true;
            return true;
          }
        case IsSkip =>
          skip := true;
        case IsBegin =>
          return true;
        case IsMgmt =>
        case IsError(code) =>
          SetError(code);
          return true;
      }
      done := false;
    }

    /** One round of `FillBuffProc` after the end of the record: collects a header and acts on it when complete. */
    method HeaderRound(header: seq<byte>) returns (more: seq<byte>, done: bool)
      requires Valid0() && !isClosed && !eorStop && contentLen == 0 && paddingLen == 0 && |header| < HEADER_LEN
      modifies this, mBuff, conn`inbound, conn`wire, conn`failures, conn`errors, conn`errno
      modifies req`requestId, req`role, req`keepConnection, req`isBeginProcessed
      ensures Valid0() && !eorStop && typ == old(typ)
      ensures done ==> Valid()
      ensures done && conn.failures == old(conn.failures) ==> Abs() == FillTail(PutBack(old(Core()), header))
      ensures conn.failures >= old(conn.failures)
      ensures conn.failures != old(conn.failures) ==> done && isClosed && errno != 0
      ensures done && !isClosed ==> rdNext == stop && req.isBeginProcessed && !old(req.isBeginProcessed)
      ensures old(req.isBeginProcessed) ==> req.Info() == old(req.Info())
      ensures !done ==>
                && !isClosed && |more| < HEADER_LEN && (more != [] ==> contentLen == 0 && paddingLen == 0)
                && Fill(PutBack(Core(), more)) == FillTail(PutBack(old(Core()), header))
      ensures |Core().unread| <= |old(Core()).unread|
      ensures old(rdNext < buffStop) ==> |Core().unread| < |old(Core()).unread|
      decreases 0, 16
    {
      hide Fill, FillTail, Process, Dispatch;
      more := GatherHeader(header);
      if |more| < HEADER_LEN {
        FillHeaderCut(PutBack(Core(), more));
        return more, false;
      }
      var status := Interpret(more);
      done := Follow(status);
      more := [];
      assert PutBack(Core(), more) == Core();
    }

    /** One round of `FillBuffProc` over a buffer that is not empty. It either finishes the fill, or leaves a state of
        fewer unread bytes from which the fill comes to the same. */
    method Round(header: seq<byte>) returns (more: seq<byte>, done: bool)
      requires Valid0() && rdNext < buffStop && !isClosed && |header| < HEADER_LEN
      requires header != [] ==> contentLen == 0 && paddingLen == 0 && !eorStop
      modifies this, mBuff, conn`inbound, conn`wire, conn`failures, conn`errors, conn`errno
      modifies req`requestId, req`role, req`keepConnection, req`isBeginProcessed
      ensures Valid0() && eorStop == old(eorStop) && typ == old(typ)
      ensures done ==> Valid()
      ensures done && conn.failures == old(conn.failures) ==> Abs() == Fill(PutBack(old(Core()), header))
      ensures conn.failures >= old(conn.failures)
      ensures conn.failures != old(conn.failures) ==> done && !old(eorStop) && isClosed && errno != 0
      ensures done && !isClosed ==>
                || rdNext < stop
                || (rdNext == stop && req.isBeginProcessed && !old(req.isBeginProcessed) && !old(eorStop))
      ensures old(req.isBeginProcessed) ==> req.Info() == old(req.Info())
      ensures !done ==>
                && !isClosed && |more| < HEADER_LEN
                && (more != [] ==> contentLen == 0 && paddingLen == 0 && !eorStop)
                && Fill(PutBack(Core(), more)) == Fill(PutBack(old(Core()), header))
                && |Core().unread| < |old(Core()).unread|
      ensures |Core().unread| <= |old(Core()).unread|
      decreases if eorStop then 0 else 1, 0, 1
    {
      hide Fill, FillTail, Process, Dispatch;
      more := header;
      FillStep(PutBack(Core(), header));
      assert header == [] ==> PutBack(Core(), header) == Core();
      var next := PassRecord();
      if next == Deliver {
        return more, true;
      }
      assert header == [] ==> PutBack(Core(), header) == Core();
      if next == Again {
        return more, false;
      }
      more, done := RecordDone(header);
    }

    /** One round after the end of the record: a bounded stream ends here, any other goes on with a header. */
    method RecordDone(header: seq<byte>) returns (more: seq<byte>, done: bool)
      requires Valid0() && !isClosed && contentLen == 0 && paddingLen == 0 && |header| < HEADER_LEN
      requires header != [] ==> !eorStop
      modifies this, mBuff, conn`inbound, conn`wire, conn`failures, conn`errors, conn`errno
      modifies req`requestId, req`role, req`keepConnection, req`isBeginProcessed
      ensures Valid0() && eorStop == old(eorStop) && typ == old(typ)
      ensures done ==> Valid()
      ensures done && conn.failures == old(conn.failures) ==> Abs() == FillTail(PutBack(old(Core()), header))
      ensures conn.failures >= old(conn.failures)
      ensures conn.failures != old(conn.failures) ==> done && !old(eorStop) && isClosed && errno != 0
      ensures done && !isClosed ==>
                rdNext == stop && req.isBeginProcessed && !old(req.isBeginProcessed) && !old(eorStop)
      ensures old(req.isBeginProcessed) ==> req.Info() == old(req.Info())
      ensures !done ==>
                && !isClosed && |more| < HEADER_LEN
                && (more != [] ==> contentLen == 0 && paddingLen == 0 && !eorStop)
                && Fill(PutBack(Core(), more)) == FillTail(PutBack(old(Core()), header))
      ensures |Core().unread| <= |old(Core()).unread|
      ensures !done && old(rdNext < buffStop) ==> |Core().unread| < |old(Core()).unread|
      decreases if eorStop then 0 else 1, 0, 0
    {
      hide Fill, FillTail, Process, Dispatch;
      more := header;
      if eorStop {
        assert PutBack(Core(), header) == Core();
        FillTailStops(Core());
        stop := rdNext;
        isClosed := true;
        return more, true;
      }
      more, done := HeaderRound(header);
    }

    /** `FillBuffProc`: makes content deliverable, or closes the stream at its end or on an error. */
    method FillBuffProc()
      requires Valid() && !isClosed && rdNext == stop
      modifies this, mBuff, conn`inbound, conn`wire, conn`failures, conn`errors, conn`errno
      modifies req`requestId, req`role, req`keepConnection, req`isBeginProcessed
      ensures Valid() && eorStop == old(eorStop) && typ == old(typ)
      ensures conn.failures == old(conn.failures) ==> Abs() == Fill(old(Abs()))
      ensures conn.failures >= old(conn.failures)
      ensures conn.failures != old(conn.failures) ==> !old(eorStop) && isClosed && errno != 0
      ensures !isClosed ==>
                || rdNext < stop
                || (rdNext == stop && req.isBeginProcessed && !old(req.isBeginProcessed) && !old(eorStop))
      ensures old(req.isBeginProcessed) ==> req.Info() == old(req.Info())
      ensures |Unread()| <= old(|Unread()|)
      decreases if eorStop then 0 else 1, 1
    {
      hide Fill;
      var header: seq<byte> := [];
      var done := false;
      assert PutBack(Core(), header) == Abs();
      while !done
        invariant Valid0() && eorStop == old(eorStop) && typ == old(typ)
        invariant done ==> Valid()
        invariant done && conn.failures == old(conn.failures) ==> Abs() == Fill(old(Abs()))
        invariant conn.failures >= old(conn.failures)
        invariant conn.failures != old(conn.failures) ==> done && !old(eorStop) && isClosed && errno != 0
        invariant done && !isClosed ==>
                    || rdNext < stop
                    || (rdNext == stop && req.isBeginProcessed && !old(req.isBeginProcessed) && !old(eorStop))
        invariant old(req.isBeginProcessed) ==> req.Info() == old(req.Info())
        invariant !done ==>
                    && !isClosed && |header| < HEADER_LEN
                    && (header != [] ==> contentLen == 0 && paddingLen == 0 && !eorStop)
                    && Fill(PutBack(Core(), header)) == Fill(old(Abs()))
        invariant |Core().unread| <= old(|Unread()|)
        decreases !done, |Core().unread|
      {
        if rdNext == buffStop {
          ghost var s := Core();
          var ok := Refill();
          if !ok {
            FillExhausted(s, header);
            return;
          }
        }
        header, done := Round(header);
      }
    }

    // -------------------------------------------------------------- reading

    /** Copies deliverable bytes out of the buffer. */
    method CopyOut(m: nat) returns (chunk: seq<byte>)
      requires Valid() && Ungettable() && !isClosed && rdNext + m <= stop
      modifies this`rdNext
      ensures Valid() && Ungettable() && rdNext == old(rdNext) + m
      ensures chunk == old(Abs()).unread[..m] && |chunk| == m
      ensures Abs() == DropContent(old(Abs()), m)
    {
      ghost var unread := Unread();
      chunk := mBuff[rdNext..rdNext + m];
      assert unread == chunk + (mBuff[rdNext + m..buffStop] + conn.inbound);
      rdNext := rdNext + m;
    }

    /** A fill on behalf of a read of `n` bytes, which starts a new fragment. */
    method Fetch(ghost n: nat)
      requires Valid() && !isClosed && rdNext == stop && n > 0 && (eorStop || req.isBeginProcessed)
      modifies this, mBuff, conn`inbound, conn`wire, conn`failures, conn`errors, conn`errno
      modifies req`requestId, req`role, req`keepConnection, req`isBeginProcessed
      ensures Valid() && Ungettable() && eorStop == old(eorStop) && typ == old(typ)
      ensures conn.failures == old(conn.failures) ==>
                Take(old(Abs()), n) == if isClosed then ([], Abs()) else Take(Abs(), n)
      ensures conn.failures >= old(conn.failures)
      ensures conn.failures != old(conn.failures) ==> !old(eorStop) && isClosed && errno != 0
      ensures !isClosed ==> stopUnget == rdNext < stop
      ensures old(req.isBeginProcessed) ==> req.Info() == old(req.Info())
      ensures |Unread()| <= old(|Unread()|)
      decreases if eorStop then 0 else 1, 2
    {
      hide Fill, Take;
      TakeFill(Abs(), n);
      FillBuffProc();
      if !isClosed {
        stopUnget := rdNext;
      }
    }

    /** `FCGX_GetChar`. The assertion in its last branch, that a fill which leaves the stream open supplies a byte,
        never fails. */
    method GetChar() returns (c: int)
      requires Valid() && Ungettable() && (eorStop || req.isBeginProcessed)
      modifies this, mBuff, conn`inbound, conn`wire, conn`failures, conn`errors, conn`errno
      modifies req`requestId, req`role, req`keepConnection, req`isBeginProcessed
      ensures Valid() && Ungettable() && eorStop == old(eorStop) && typ == old(typ)
      ensures conn.failures == old(conn.failures) ==>
                Take(old(Abs()), 1) == (if c == EOF then [] else [c], Abs())
      ensures conn.failures >= old(conn.failures)
      ensures conn.failures != old(conn.failures) ==> !old(eorStop) && c == EOF && errno != 0
      ensures c == EOF <==> isClosed
      ensures c == EOF || 0 <= c < 256
      ensures c != EOF ==> buff <= stopUnget < rdNext && !skip && |Unread()| < old(|Unread()|)
      ensures old(req.isBeginProcessed) ==> req.Info() == old(req.Info())
      ensures |Unread()| <= old(|Unread()|)
      decreases if eorStop then 0 else 1, 3
    {
      hide Fill, Take;
      TakeClosed(Abs(), 1);
      if isClosed {
        return EOF;
      }
      if rdNext != stop {
        TakeOne(Abs());
        var chunk := CopyOut(1);
        return chunk[0];
      }
      Fetch(1);
      if isClosed {
        return EOF;
      }
      assert rdNext != stop;
      TakeOne(Abs());
      var chunk := CopyOut(1);
      return chunk[0];
    }

    /** The deliverable part of a read of `n` bytes. */
    method CopyUpTo(n: nat) returns (chunk: seq<byte>)
      requires Valid() && Ungettable() && !isClosed
      modifies this`rdNext
      ensures Valid() && Ungettable() && |chunk| <= n && rdNext == old(rdNext) + |chunk|
      ensures |chunk| < n ==> rdNext == stop
      ensures Joined(Take(old(Abs()), n), chunk, Take(Abs(), n - |chunk|))
    {
      hide Take;
      if rdNext == stop {
        JoinStart(Take(Abs(), n));
        return [];
      }
      var m := Min(n, stop - rdNext);
      TakeBulk(Abs(), n, m);
      chunk := CopyOut(m);
    }

    /** `FCGX_GetStr`. */
    method GetStr(n: int) returns (str: seq<byte>)
      requires Valid() && Ungettable() && (eorStop || req.isBeginProcessed)
      modifies this, mBuff, conn`inbound, conn`wire, conn`failures, conn`errors, conn`errno
      modifies req`requestId, req`role, req`keepConnection, req`isBeginProcessed
      ensures Valid() && Ungettable() && eorStop == old(eorStop) && typ == old(typ)
      ensures conn.failures == old(conn.failures) ==> Take(old(Abs()), Max(n, 0)) == (str, Abs())
      ensures conn.failures >= old(conn.failures)
      ensures conn.failures != old(conn.failures) ==> !old(eorStop) && |str| < n && errno != 0
      ensures |str| <= Max(n, 0) && (|str| < n ==> isClosed)
      ensures old(req.isBeginProcessed) ==> req.Info() == old(req.Info())
      ensures |Unread()| <= old(|Unread()|)
      decreases if eorStop then 0 else 1, 4
    {
      hide Fill, Take;
      TakeClosed(Abs(), Max(n, 0));
      TakeNone(Abs());
      if isClosed || n <= 0 {
        return [];
      }
      if n <= stop - rdNext {
        TakeAtHand(Abs(), n);
        str := CopyOut(n);
        return;
      }
      str := GetStrSlowly(n);
    }

    /** `FCGX_GetStr`, general case: copies and refills in turn. */
    method GetStrSlowly(n: nat) returns (str: seq<byte>)
      requires Valid() && Ungettable() && (eorStop || req.isBeginProcessed) && !isClosed && n > 0
      modifies this, mBuff, conn`inbound, conn`wire, conn`failures, conn`errors, conn`errno
      modifies req`requestId, req`role, req`keepConnection, req`isBeginProcessed
      ensures Valid() && Ungettable() && eorStop == old(eorStop) && typ == old(typ)
      ensures conn.failures == old(conn.failures) ==> Take(old(Abs()), n) == (str, Abs())
      ensures conn.failures >= old(conn.failures)
      ensures conn.failures != old(conn.failures) ==> !old(eorStop) && |str| < n && errno != 0
      ensures |str| <= n && (|str| < n ==> isClosed)
      ensures old(req.isBeginProcessed) ==> req.Info() == old(req.Info())
      ensures |Unread()| <= old(|Unread()|)
      decreases if eorStop then 0 else 1, 3
    {
      hide Fill, Take, Joined;
      ghost var whole := Take(Abs(), n);
      str := [];
      JoinStart(whole);
      while true
        invariant Valid() && Ungettable() && eorStop == old(eorStop) && typ == old(typ)
        invariant !isClosed && |str| < n && conn.failures == old(conn.failures)
        invariant old(req.isBeginProcessed) ==> req.Info() == old(req.Info())
        invariant Joined(whole, str, Take(Abs(), n - |str|))
        invariant |Unread()| <= old(|Unread()|)
        decreases n - |str|, rdNext == stop
      {
        ghost var middle := Take(Abs(), n - |str|);
        var chunk := CopyUpTo(n - |str|);
        ghost var rest := Take(Abs(), n - |str| - |chunk|);
        JoinStep(whole, str, middle, chunk, rest);
        str := str + chunk;
        TakeNone(Abs());
        JoinEnd(whole, str, rest);
        if |str| == n {
          return;
        }
        Fetch(n - |str|);
        JoinEnd(whole, str, rest);
        if isClosed {
          return;
        }
      }
    }

    /** `FCGX_UnGetChar`. Its caller has read a byte of the current stream, so `stopUnget` is up to date. */
    method UnGetChar(c: int) returns (r: int)
      requires Valid() && Ungettable() && (c == EOF || 0 <= c < 256)
      requires c != EOF && !isClosed ==> buff <= stopUnget <= rdNext && !skip
      modifies this`rdNext, mBuff
      ensures Valid() && Ungettable()
      ensures r == EOF <==> c == EOF || old(isClosed) || old(rdNext) == stopUnget
      ensures r == EOF ==> Abs() == old(Abs())
      ensures r != EOF ==>
                && r == c && rdNext == old(rdNext) - 1
                && Abs() == old(Abs()).(unread := [c] + old(Abs()).unread, content := old(Abs()).content + 1)
    {
      if c == EOF || isClosed || rdNext == stopUnget {
        return EOF;
      }
      ghost var unread := Unread();
      rdNext := rdNext - 1;
      mBuff[rdNext] := c;
      assert mBuff[rdNext..buffStop] == [c] + old(mBuff[rdNext..buffStop]);
      assert Unread() == [c] + unread;
      return c;
    }

    /** A read seen from what is left of the stream. */
    method GetRest(n: nat) returns (str: seq<byte>)
      requires Valid() && Ungettable() && (eorStop || req.isBeginProcessed)
      modifies this, mBuff, conn`inbound, conn`wire, conn`failures, conn`errors, conn`errno
      modifies req`requestId, req`role, req`keepConnection, req`isBeginProcessed
      ensures Valid() && Ungettable() && eorStop == old(eorStop) && typ == old(typ)
      ensures old(req.isBeginProcessed) ==> req.Info() == old(req.Info())
      ensures |Unread()| <= old(|Unread()|)
      ensures |str| <= n && (|str| < n ==> isClosed)
      ensures conn.failures >= old(conn.failures)
      ensures conn.failures != old(conn.failures) ==> !old(eorStop) && |str| < n && errno != 0
      ensures conn.failures == old(conn.failures) ==>
                var (bs, end) := Drain(old(Abs()));
                if |bs| < n then str == bs && Abs() == end
                else str == bs[..n] && Drain(Abs()) == (bs[n..], end)
      decreases if eorStop then 0 else 1, 5
    {
      hide Drain, Take;
      TakeSplits(Abs(), n);
      str := GetStr(n);
    }

    /** The next byte seen from what is left of the stream. */
    method GetNext() returns (c: int)
      requires Valid() && Ungettable() && (eorStop || req.isBeginProcessed)
      modifies this, mBuff, conn`inbound, conn`wire, conn`failures, conn`errors, conn`errno
      modifies req`requestId, req`role, req`keepConnection, req`isBeginProcessed
      ensures Valid() && Ungettable() && eorStop == old(eorStop) && typ == old(typ)
      ensures old(req.isBeginProcessed) ==> req.Info() == old(req.Info())
      ensures |Unread()| <= old(|Unread()|)
      ensures c == EOF || 0 <= c < 256
      ensures c == EOF <==> isClosed
      ensures c != EOF ==> |Unread()| < old(|Unread()|)
      ensures conn.failures >= old(conn.failures)
      ensures conn.failures != old(conn.failures) ==> !old(eorStop) && c == EOF && errno != 0
      ensures conn.failures == old(conn.failures) ==> Left(c, Abs()) == Drain(old(Abs()))
      decreases if eorStop then 0 else 1, 5
    {
      hide Drain, Take;
      TakeDrain(Abs(), 1);
      ghost var bs := Drain(Abs()).0;
      c := GetChar();
      DrainClosed(Abs());
      assert c != EOF && conn.failures == old(conn.failures) ==> [c] + bs[1..] == bs;
    }

    /** The rest of a length field: None when the stream ends inside it. */
    method ReadLen(first: byte) returns (len: Option<nat>)
      requires Valid() && Ungettable() && (eorStop || req.isBeginProcessed)
      modifies this, mBuff, conn`inbound, conn`wire, conn`failures, conn`errors, conn`errno
      modifies req`requestId, req`role, req`keepConnection, req`isBeginProcessed
      ensures Valid() && Ungettable() && eorStop == old(eorStop) && typ == old(typ)
      ensures old(req.isBeginProcessed) ==> req.Info() == old(req.Info())
      ensures |Unread()| <= old(|Unread()|)
      ensures conn.failures >= old(conn.failures)
      ensures conn.failures != old(conn.failures) ==> !old(eorStop) && isClosed && len == None && errno != 0
      ensures len == None ==> isClosed
      ensures conn.failures == old(conn.failures) ==>
                var (bs, end) := Drain(old(Abs()));
                match ParseLen([first] + bs)
                case None => len == None && Abs() == end
                case Some((n, rest)) => len == Some(n) && Drain(Abs()) == (rest, end)
      decreases if eorStop then 0 else 1, 6
    {
      hide Drain, Take, U32;
      ghost var bs := Drain(Abs()).0;
      assert ([first] + bs)[1..] == bs;
      if first < 0x80 {
        return Some(first);
      }
      var lenBuff := GetRest(3);
      if |lenBuff| != 3 {
        return None;
      }
      assert ([first] + bs)[4..] == bs[3..];
      TopBit(first, lenBuff[0], lenBuff[1], lenBuff[2]);
      return Some(U32(first, lenBuff[0], lenBuff[1], lenBuff[2]) - 0x80000000);
    }

    /** The name and the value of a pair, as an environment entry: None when the stream ends inside them. */
    method ReadNameValue(nameLen: nat, valueLen: nat) returns (nameValue: Option<seq<byte>>)
      requires Valid() && Ungettable() && (eorStop || req.isBeginProcessed)
      modifies this, mBuff, conn`inbound, conn`wire, conn`failures, conn`errors, conn`errno
      modifies req`requestId, req`role, req`keepConnection, req`isBeginProcessed
      ensures Valid() && Ungettable() && eorStop == old(eorStop) && typ == old(typ)
      ensures old(req.isBeginProcessed) ==> req.Info() == old(req.Info())
      ensures |Unread()| <= old(|Unread()|)
      ensures conn.failures >= old(conn.failures)
      ensures conn.failures != old(conn.failures) ==> !old(eorStop) && isClosed && nameValue == None && errno != 0
      ensures nameValue == None ==> isClosed
      ensures conn.failures == old(conn.failures) ==>
                var (bs, end) := Drain(old(Abs()));
                match SplitPair(nameLen, valueLen, bs)
                case None => nameValue == None && Abs() == end
                case Some((p, rest)) => nameValue == Some(Entry(p)) && Drain(Abs()) == (rest, end)
      decreases if eorStop then 0 else 1, 6
    {
      hide Drain, Take;
      var name := GetRest(nameLen);
      if |name| != nameLen {
        return None;
      }
      var value := GetRest(valueLen);
      if |value| != valueLen {
        return None;
      }
      return Some(name + [EQUALS] + value);
    }

    /** The rest of a pair, as an environment entry: None when the stream ends inside it. */
    method ReadPair(first: byte) returns (nameValue: Option<seq<byte>>)
      requires Valid() && Ungettable() && (eorStop || req.isBeginProcessed)
      modifies this, mBuff, conn`inbound, conn`wire, conn`failures, conn`errors, conn`errno
      modifies req`requestId, req`role, req`keepConnection, req`isBeginProcessed
      ensures Valid() && Ungettable() && eorStop == old(eorStop) && typ == old(typ)
      ensures old(req.isBeginProcessed) ==> req.Info() == old(req.Info())
      ensures |Unread()| <= old(|Unread()|)
      ensures conn.failures >= old(conn.failures)
      ensures conn.failures != old(conn.failures) ==> !old(eorStop) && isClosed && nameValue == None && errno != 0
      ensures nameValue == None ==> isClosed
      ensures conn.failures == old(conn.failures) ==>
                var (bs, end) := Drain(old(Abs()));
                match ParsePair([first] + bs)
                case None => nameValue == None && Abs() == end
                case Some((p, rest)) => nameValue == Some(Entry(p)) && Drain(Abs()) == (rest, end)
      decreases if eorStop then 0 else 1, 7
    {
      hide Drain, Take, ParseLen, SplitPair;
      var nameLen := ReadLen(first);
      if nameLen == None {
        return None;
      }
      var c := GetNext();
      if c == EOF {
        ParseLenEmpty();
        return None;
      }
      var valueLen := ReadLen(c);
      if valueLen == None {
        return None;
      }
      nameValue := ReadNameValue(nameLen.value, valueLen.value);
    }

    /** The pair that starts with `first` becomes an entry; `c` is the byte after it. */
    method ReadEntry(params: ParamVector, first: byte) returns (ok: bool, c: int)
      requires Valid() && Ungettable() && (eorStop || req.isBeginProcessed) && !isClosed && params.Valid()
      modifies params, params.vec
      modifies this, mBuff, conn`inbound, conn`wire, conn`failures, conn`errors, conn`errno
      modifies req`requestId, req`role, req`keepConnection, req`isBeginProcessed
      ensures Valid() && Ungettable() && eorStop == old(eorStop) && typ == old(typ)
      ensures params.Valid() && (params.vec == old(params.vec) || fresh(params.vec))
      ensures c == EOF || 0 <= c < 256
      ensures c == EOF <==> isClosed
      ensures !ok ==> c == EOF
      ensures conn.failures >= old(conn.failures)
      ensures conn.failures != old(conn.failures) ==> !old(eorStop) && c == EOF && errno != 0
      ensures conn.failures == old(conn.failures) ==>
                var (rest, end) := Left(first, old(Abs()));
                match ParsePair(rest)
                case None => !ok && Abs() == end && params.Contents() == old(params.Contents())
                case Some((p, after)) =>
                  ok && Left(c, Abs()) == (after, end) && params.Contents() == old(params.Contents()) + [Entry(p)]
      ensures old(req.isBeginProcessed) ==> req.Info() == old(req.Info())
      ensures c != EOF ==> |Unread()| < old(|Unread()|)
      ensures |Unread()| <= old(|Unread()|)
      decreases if eorStop then 0 else 1, 8
    {
      hide Drain, Take, ParsePair;
      var nameValue := ReadPair(first);
      if nameValue == None {
        return false, EOF;
      }
      params.Put(nameValue.value);
      ok := true;
      c := GetNext();
    }

    /** One turn of `ReadParams`, with the progress of the whole loop. */
    method ReadNext(params: ParamVector, first: byte,
                    ghost start: seq<seq<byte>>, ghost all: (seq<byte>, Rd), ghost pairs: seq<Pair>)
      returns (ok: bool, c: int, ghost more: seq<Pair>)
      requires Valid() && Ungettable() && (eorStop || req.isBeginProcessed) && !isClosed && params.Valid()
      requires SoFar(start, all, pairs, params.Contents(), first, Abs())
      modifies params, params.vec
      modifies this, mBuff, conn`inbound, conn`wire, conn`failures, conn`errors, conn`errno
      modifies req`requestId, req`role, req`keepConnection, req`isBeginProcessed
      ensures Valid() && Ungettable() && eorStop == old(eorStop) && typ == old(typ)
      ensures params.Valid() && (params.vec == old(params.vec) || fresh(params.vec))
      ensures c == EOF || 0 <= c < 256
      ensures c == EOF <==> isClosed
      ensures !ok ==> c == EOF
      ensures conn.failures >= old(conn.failures)
      ensures conn.failures != old(conn.failures) ==> !old(eorStop) && c == EOF && errno != 0
      ensures conn.failures == old(conn.failures) ==>
                if ok then SoFar(start, all, more, params.Contents(), c, Abs())
                else
                  && Abs() == all.1 && !ParsePairs(all.0).complete
                  && params.Contents() == start + Entries(ParsePairs(all.0).pairs)
      ensures old(req.isBeginProcessed) ==> req.Info() == old(req.Info())
      ensures c != EOF ==> |Unread()| < old(|Unread()|)
      ensures |Unread()| <= old(|Unread()|)
      decreases if eorStop then 0 else 1, 9
    {
      hide Drain, Take, ParsePair, ParsePairs, SoFar, Entries, After;
      ghost var s, contents := Abs(), params.Contents();
      SoFarCut(start, all, pairs, contents, first, s);
      ok, c := ReadEntry(params, first);
      more := pairs;
      if ok && conn.failures == old(conn.failures) {
        var p := ParsePair(Left(first, s).0).value.0;
        SoFarStep(start, all, pairs, contents, first, s, p, c, Abs());
        more := pairs + [p];
      }
    }

    /** `SetError` for a stream that ends inside a pair. */
    method FailParams()
      requires Valid() && isClosed
      modifies this`errno, this`isClosed
      ensures Valid() && isClosed && Ungettable() && Abs() == old(Abs()).Fail(PARAMS_ERROR) && Unread() == old(Unread())
    {
      SetError(PARAMS_ERROR);
    }

    /** `ReadParams`: every pair up to the end of the stream becomes an entry. */
    method ReadParams(params: ParamVector) returns (status: int)
      requires params.Valid()
      requires Valid() && Ungettable() && (eorStop || req.isBeginProcessed)
      modifies params, params.vec
      modifies this, mBuff, conn`inbound, conn`wire, conn`failures, conn`errors, conn`errno
      modifies req`requestId, req`role, req`keepConnection, req`isBeginProcessed
      ensures Valid() && Ungettable() && eorStop == old(eorStop) && typ == old(typ)
      ensures params.Valid() && (params.vec == old(params.vec) || fresh(params.vec))
      ensures isClosed && (status == 0 || status == -1)
      ensures conn.failures >= old(conn.failures)
      ensures conn.failures != old(conn.failures) ==> !old(eorStop) && errno != 0
      ensures conn.failures == old(conn.failures) ==>
                var (bs, end) := Drain(old(Abs()));
                var parsed := ParsePairs(bs);
                && params.Contents() == old(params.Contents()) + Entries(parsed.pairs)
                && status == (if parsed.complete then 0 else -1)
                && Abs() == if parsed.complete then end else end.Fail(PARAMS_ERROR)
      ensures old(req.isBeginProcessed) ==> req.Info() == old(req.Info())
      ensures |Unread()| <= old(|Unread()|)
      decreases if eorStop then 0 else 1, 10
    {
      hide Drain, Take, ParsePair, ParsePairs, SoFar, Left, Entries;
      ghost var start, all := params.Contents(), Drain(Abs());
      ghost var pairs: seq<Pair> := [];
      var c := GetNext();
      if conn.failures == old(conn.failures) {
        SoFarStart(start, all, c, Abs());
      }
      while c != EOF
        invariant Valid() && Ungettable() && eorStop == old(eorStop) && typ == old(typ)
        invariant old(req.isBeginProcessed) ==> req.Info() == old(req.Info())
        invariant |Unread()| <= old(|Unread()|)
        invariant params.Valid() && (params.vec == old(params.vec) || fresh(params.vec))
        invariant c == EOF || 0 <= c < 256
        invariant c == EOF <==> isClosed
        invariant conn.failures >= old(conn.failures)
        invariant conn.failures != old(conn.failures) ==> !old(eorStop) && c == EOF && errno != 0
        invariant conn.failures == old(conn.failures) ==>
                    SoFar(start, all, pairs, params.Contents(), c, Abs())
        decreases c != EOF, |Unread()|
      {
        var ok;
        ok, c, pairs := ReadNext(params, c, start, all, pairs);
        if !ok {
          FailParams();
          return -1;
        }
      }
      if conn.failures == old(conn.failures) {
        SoFarEnd(start, all, pairs, params.Contents(), Abs());
      }
      return 0;
    }
  }

  /** The pairs read so far and those left in the stream are all the pairs of the stream. */
  ghost predicate SoFar(start: seq<seq<byte>>, all: (seq<byte>, Rd), pairs: seq<Pair>,
                        contents: seq<seq<byte>>, c: int, s: Rd)
    requires c == EOF || 0 <= c < 256
  {
    && contents == start + Entries(pairs)
    && Left(c, s).1 == all.1
    && ParsePairs(all.0) == After(pairs, ParsePairs(Left(c, s).0))
  }

  lemma SoFarStart(start: seq<seq<byte>>, all: (seq<byte>, Rd), c: int, s: Rd)
    requires (c == EOF || 0 <= c < 256) && Left(c, s) == all
    ensures SoFar(start, all, [], start, c, s)
  {
    hide ParsePairs, Drain;
    AfterStart(ParsePairs(all.0));
    assert start + Entries([]) == start;
  }

  lemma SoFarStep(start: seq<seq<byte>>, all: (seq<byte>, Rd), pairs: seq<Pair>, contents: seq<seq<byte>>,
                  c: byte, s: Rd, p: Pair, d: int, t: Rd)
    requires SoFar(start, all, pairs, contents, c, s) && (d == EOF || 0 <= d < 256)
    requires ParsePair(Left(c, s).0) == Some((p, Left(d, t).0)) && Left(d, t).1 == Left(c, s).1
    ensures SoFar(start, all, pairs + [p], contents + [Entry(p)], d, t)
  {
    hide ParsePairs, ParsePair, Drain, After, Entry;
    AfterStep(pairs, Left(c, s).0);
    EntriesAppend(pairs, p);
    assert start + Entries(pairs) + [Entry(p)] == start + Entries(pairs + [p]);
  }

  lemma SoFarEnd(start: seq<seq<byte>>, all: (seq<byte>, Rd), pairs: seq<Pair>, contents: seq<seq<byte>>, s: Rd)
    requires SoFar(start, all, pairs, contents, EOF, s)
    ensures s == all.1 && ParsePairs(all.0).complete && contents == start + Entries(ParsePairs(all.0).pairs)
  {
    AfterEnd(pairs);
  }

  lemma SoFarCut(start: seq<seq<byte>>, all: (seq<byte>, Rd), pairs: seq<Pair>, contents: seq<seq<byte>>,
                 c: byte, s: Rd)
    ensures SoFar(start, all, pairs, contents, c, s) && ParsePair(Left(c, s).0) == None ==>
              !ParsePairs(all.0).complete && contents == start + Entries(ParsePairs(all.0).pairs) &&
              Left(c, s).1 == all.1
  {
    hide ParsePairs, ParsePair, Drain, After;
    AfterStep(pairs, Left(c, s).0);
  }

  /** What is left of a stream of which the byte `c` has just been read. */
  ghost function Left(c: int, s: Rd): (seq<byte>, Rd)
    requires c == EOF || 0 <= c < 256
  {
    if c == EOF then ([], s) else ([c] + Drain(s).0, Drain(s).1)
  }

  function After(pairs: seq<Pair>, rest: Parsed): Parsed {
    Parsed(pairs + rest.pairs, rest.complete)
  }

  lemma AfterStart(rest: Parsed)
    ensures After([], rest) == rest
  {
    assert [] + rest.pairs == rest.pairs;
  }

  lemma AfterStep(pairs: seq<Pair>, bs: seq<byte>)
    requires bs != []
    ensures match ParsePair(bs)
            case None => After(pairs, ParsePairs(bs)) == Parsed(pairs, false)
            case Some((p, rest)) => After(pairs, ParsePairs(bs)) == After(pairs + [p], ParsePairs(rest))
  {
    match ParsePair(bs)
    case None =>
      assert pairs + [] == pairs;
    case Some((p, rest)) =>
      assert pairs + ([p] + ParsePairs(rest).pairs) == pairs + [p] + ParsePairs(rest).pairs;
  }

  lemma AfterEnd(pairs: seq<Pair>)
    ensures After(pairs, ParsePairs([])) == Parsed(pairs, true)
  {
    assert pairs + [] == pairs;
  }

  lemma EntriesAppend(pairs: seq<Pair>, p: Pair)
    ensures Entries(pairs + [p]) == Entries(pairs) + [Entry(p)]
  {
  }

  lemma TopBit(b3: byte, b2: byte, b1: byte, b0: byte)
    requires b3 >= 0x80
    ensures U32(b3, b2, b1, b0) >= 0x80000000
  {
  }

  lemma ParseLenEmpty()
    ensures ParseLen([]) == None
  {
  }

  lemma {:induction false} UndefinedPrefix(entries: seq<seq<byte>>, n: nat)
    requires n <= |entries| && ValuesPayload(entries[..n]) == None
    ensures ValuesPayload(entries) == None
    decreases |entries| - n
  {
    if n < |entries| {
      assert entries[..n + 1][..n] == entries[..n];
      UndefinedPrefix(entries, n + 1);
    } else {
      assert entries[..n] == entries;
    }
  }

  /** A read made of the bytes `str` and then the read `rest`. */
  ghost predicate Joined(whole: (seq<byte>, Rd), str: seq<byte>, rest: (seq<byte>, Rd)) {
    whole == (str + rest.0, rest.1)
  }

  lemma JoinStep(whole: (seq<byte>, Rd), str: seq<byte>, middle: (seq<byte>, Rd), chunk: seq<byte>,
                 rest: (seq<byte>, Rd))
    requires Joined(whole, str, middle) && Joined(middle, chunk, rest)
    ensures Joined(whole, str + chunk, rest)
  {
    assert str + (chunk + rest.0) == str + chunk + rest.0;
  }

  lemma JoinStart(whole: (seq<byte>, Rd))
    ensures Joined(whole, [], whole)
  {
    assert [] + whole.0 == whole.0;
  }

  lemma JoinEnd(whole: (seq<byte>, Rd), str: seq<byte>, rest: (seq<byte>, Rd))
    ensures rest.0 == [] && Joined(whole, str, rest) ==> whole == (str, rest.1)
  {
    assert str + [] == str;
  }
}

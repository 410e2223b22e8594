/** The writing half of the stream engine: content gathers in the buffer behind room for a header, is framed and
    padded in place when it is flushed, and closing records go out through the same buffer unframed.

    `Abs` is the abstract state of `WriterSpec`; the equations hold for calls during which no write fails. */
module Writer {
  import opened Bytes
  import opened Records
  import opened WriterSpec
  import opened Connection

  class Writer {
    const conn: Connection
    const req: RequestState
    const mBuff: array<byte>    // the buffer as allocated
    const buff: nat             // its first aligned position
    const bufflen: nat
    const typ: byte
    var wrNext: nat             // first free byte
    var stop: nat               // end of the buffer
    var isClosed: bool
    var wasFCloseCalled: bool
    var errno: int
    var isAnythingWritten: bool
    var rawWrite: bool          // bytes go out without stream headers

    /** The buffer lies inside its allocation and is a whole number of eight byte units. */
    ghost predicate Sound()
      reads this, conn, req
    {
      && buff + bufflen <= mBuff.Length && bufflen % 8 == 0 && 24 <= bufflen <= MAX_LENGTH + 1
      && conn.isOpen
      && (isClosed && !wasFCloseCalled ==> errno != 0)
    }

    /** Between calls. */
    ghost predicate Valid()
      reads this, conn, req
    {
      && Sound() && buff <= wrNext <= buff + bufflen
      && (!wasFCloseCalled ==> !rawWrite && buff + HEADER_LEN <= wrNext <= stop == buff + bufflen)
      && (wasFCloseCalled ==> isClosed && rawWrite && wrNext == stop)
    }

    /** While closing records are written. */
    ghost predicate Raw()
      reads this, conn, req
    {
      Sound() && !wasFCloseCalled && rawWrite && buff <= wrNext <= stop == buff + bufflen
    }

    ghost function Abs(): (w: Wr)
      reads this, mBuff, conn, req
      requires Valid()
      ensures w.Valid()
    {
      Wr(typ, req.requestId, bufflen - HEADER_LEN, if rawWrite then [] else mBuff[buff + HEADER_LEN..wrNext],
         isClosed, rawWrite || isAnythingWritten)
    }

    /** What has been sent together with what the buffer holds ready to be sent. */
    ghost function Emitted(): seq<byte>
      reads this, mBuff, conn
      requires buff <= wrNext <= mBuff.Length
    {
      conn.wire + mBuff[buff..wrNext]
    }

    /** `NewStream` for a writer; the allocator returns memory at any address. */
    constructor (req: RequestState, conn: Connection, bufflen: int, streamType: byte, address: nat)
      requires conn.isOpen
      ensures Valid() && fresh(mBuff) && this.req == req && this.conn == conn
      ensures this.bufflen == UsableSize(bufflen, address)
      ensures Abs() == Wr(streamType, req.requestId, this.bufflen - HEADER_LEN, [], false, false)
      ensures !wasFCloseCalled && !isClosed && !isAnythingWritten && errno == 0
      ensures wrNext == buff + HEADER_LEN && typ == streamType
    {
      FramingFits(bufflen, address, 0);
      var offset := AlignPtr8(address);
      this.req, this.conn := req, conn;
      mBuff := new byte[BufferSize(bufflen)];
      buff := offset;
      this.bufflen := UsableSize(bufflen, address);
      typ := streamType;
      wrNext := offset + HEADER_LEN;
      stop := offset + UsableSize(bufflen, address);
      isClosed, wasFCloseCalled, errno, isAnythingWritten, rawWrite := false, false, 0, false, false;
    }

    /** Once a write has failed, the error of the stream is the errno of the first write that did, unless it had an
        error before. */
    twostate predicate Failing()
      reads this, conn
    {
      && old(conn.errors) <= conn.errors
      && conn.failures - old(conn.failures) == |conn.errors| - |old(conn.errors)|
      && (|conn.errors| > |old(conn.errors)| ==>
            errno == if old(errno) == 0 then conn.errors[|old(conn.errors)|] else old(errno))
    }

    /** `SetError`. */
    method SetError(code: int)
      modifies this`errno, this`isClosed
      ensures errno == (if old(errno) == 0 then code else old(errno)) && isClosed
    {
      if errno == 0 {
        errno := code;
      }
      isClosed := true;
    }

    /** Copies into the free part of the buffer. */
    method CopyIn(data: seq<byte>)
      requires buff <= wrNext && wrNext + |data| <= stop <= mBuff.Length
      modifies this`wrNext, mBuff
      ensures wrNext == old(wrNext) + |data|
      ensures mBuff[buff..wrNext] == old(mBuff[buff..wrNext]) + data
      ensures Emitted() == old(Emitted()) + data
    {
      ghost var before := mBuff[buff..wrNext];
      forall i | 0 <= i < |data| {
        mBuff[wrNext + i] := data[i];
      }
      wrNext := wrNext + |data|;
      assert mBuff[buff..wrNext] == before + data;
    }

    /** Fills the free part of the buffer with zeros. */
    method Pad(count: nat)
      requires buff <= wrNext && wrNext + count <= stop <= mBuff.Length
      modifies this`wrNext, mBuff
      ensures wrNext == old(wrNext) + count
      ensures mBuff[buff..wrNext] == old(mBuff[buff..wrNext]) + Zeros(count)
    {
      CopyIn(Zeros(count));
    }

    /** Stores a header in the room kept for it. */
    method PutHeader(h: seq<byte>)
      requires buff + HEADER_LEN <= wrNext <= mBuff.Length && |h| == HEADER_LEN
      modifies mBuff
      ensures mBuff[buff..wrNext] == h + old(mBuff[buff + HEADER_LEN..wrNext])
    {
      ghost var content := mBuff[buff + HEADER_LEN..wrNext];
      forall i | 0 <= i < HEADER_LEN {
        mBuff[buff + i] := h[i];
      }
      assert mBuff[buff + HEADER_LEN..wrNext] == content;
    }

    /** The first part of `EmptyBuffProc`: turns pending content into a record in place, or gives back the room
        for a header. */
    method Frame()
      requires Valid() && !wasFCloseCalled
      modifies this`wrNext, mBuff
      ensures Sound() && buff <= wrNext <= stop
      ensures mBuff[buff..wrNext] == EncodeAll(FlushRecords(old(Abs())))
      ensures wrNext == buff <==> old(Abs()).pending == []
      ensures wrNext > buff ==> wrNext >= buff + 16
    {
      hide EncodeAll, MakeHeader;
      EncodeAllNone();
      var cLen := wrNext - buff - HEADER_LEN;
      if cLen > 0 {
        ghost var before, pending := mBuff[buff..wrNext], mBuff[buff + HEADER_LEN..wrNext];
        var eLen := AlignInt8(cLen);
        Pad(eLen - cLen);
        assert mBuff[buff + HEADER_LEN..wrNext] == (before + Zeros(eLen - cLen))[HEADER_LEN..];
        assert mBuff[buff + HEADER_LEN..wrNext] == pending + Zeros(eLen - cLen);
        var h := MakeHeader(typ, req.requestId, cLen, eLen - cLen);
        PutHeader(h);
        assert h + (pending + Zeros(eLen - cLen)) == h + pending + Zeros(eLen - cLen);
        EncodeAllOne(StreamRecord(typ, req.requestId, pending));
      } else {
        wrNext := buff;
      }
    }

    /** The last part of `EmptyBuffProc`: sends what the buffer holds. */
    method Send() returns (ok: bool)
      requires Sound() && buff <= wrNext <= stop == buff + bufflen
      modifies this`wrNext, this`isAnythingWritten, this`errno, this`isClosed
      modifies conn`wire, conn`failures, conn`errors, conn`errno
      ensures Sound() && Failing()
      ensures ok <==> conn.failures == old(conn.failures)
      ensures ok ==> wrNext == buff && conn.wire == old(Emitted()) && isClosed == old(isClosed) && errno == old(errno)
      ensures !ok ==> wrNext == old(wrNext) > buff && isClosed && errno != 0 && conn.failures > old(conn.failures)
      ensures isAnythingWritten == (old(isAnythingWritten) || old(wrNext) != buff)
    {
      if wrNext != buff {
        isAnythingWritten := true;
        var status := conn.WriteAll(mBuff[buff..wrNext]);
        if status < 0 {
          SetError(conn.errno);
          return false;
        }
        wrNext := buff;
      }
      ok := true;
    }

    /** Sends what the buffer holds, and then keeps room for a header again unless closing records are on the way. */
    method SendAndReserve()
      requires Sound() && !wasFCloseCalled && buff <= wrNext <= stop == buff + bufflen
      requires !rawWrite ==> wrNext == buff || wrNext >= buff + HEADER_LEN
      modifies this`wrNext, this`isAnythingWritten, this`errno, this`isClosed
      modifies conn`wire, conn`failures, conn`errors, conn`errno
      ensures if rawWrite then Raw() else Valid()
      ensures conn.failures >= old(conn.failures)
      ensures Failing()
      ensures conn.failures == old(conn.failures) ==>
                && conn.wire == old(Emitted()) && isClosed == old(isClosed) && errno == old(errno)
                && (if rawWrite then wrNext == buff
                    else Abs() == Wr(typ, req.requestId, bufflen - HEADER_LEN, [], isClosed,
                                     old(isAnythingWritten) || old(wrNext) != buff))
      ensures conn.failures != old(conn.failures) ==> isClosed && errno != 0
    {
      var ok := Send();
      if ok && !rawWrite {
        wrNext := wrNext + HEADER_LEN;
        assert mBuff[buff + HEADER_LEN..wrNext] == [];
      }
    }

    /** `EmptyBuffProc`. */
    method EmptyBuffProc(doClose: bool)
      requires !wasFCloseCalled && (Valid() || (Raw() && !doClose))
      modifies this`wrNext, this`isAnythingWritten, this`errno, this`isClosed, this`rawWrite, mBuff
      modifies conn`wire, conn`failures, conn`errors, conn`errno, req`nWriters
      ensures Sound() && conn.failures >= old(conn.failures)
      ensures Failing()
      ensures conn.failures == old(conn.failures) ==>
                rawWrite == (old(rawWrite) || doClose) && isClosed == old(isClosed) && errno == old(errno)
      ensures conn.failures != old(conn.failures) ==> isClosed && errno != 0
      ensures !doClose ==> req.nWriters == old(req.nWriters)
      ensures doClose ==> req.nWriters == old(req.nWriters) - 1
      // Flushing stream content.
      ensures !doClose && old(!rawWrite) ==>
                && Valid()
                && (conn.failures == old(conn.failures) ==>
                      && Abs() == Flush(old(Abs()))
                      && conn.wire == old(conn.wire) + EncodeAll(FlushRecords(old(Abs()))))
      // Sending closing records on the way.
      ensures old(rawWrite) ==>
                Raw() && (conn.failures == old(conn.failures) ==> wrNext == buff && conn.wire == old(Emitted()))
      // Closing the stream.
      ensures doClose ==>
                && Raw()
                && (conn.failures == old(conn.failures) && !old(isClosed) ==>
                      && wrNext == buff
                      && conn.wire == old(conn.wire) +
                           EncodeAll(CloseRecords(old(Abs()), old(req.nWriters), req.appStatus)))
      decreases if doClose then 3 else 0, 0
    {
      hide FlushRecords, CloseRecords, EncodeAll;
      if doClose {
        FrameAndClose();
      } else if !rawWrite {
        Frame();
      }
      SendAndReserve();
    }

    /** Closing: frames the pending content and writes the closing records behind it. */
    method FrameAndClose()
      requires Valid() && !wasFCloseCalled
      modifies this`wrNext, this`isAnythingWritten, this`errno, this`isClosed, this`rawWrite, mBuff
      modifies conn`wire, conn`failures, conn`errors, conn`errno, req`nWriters
      ensures Raw() && conn.failures >= old(conn.failures) && req.nWriters == old(req.nWriters) - 1
      ensures Failing()
      ensures conn.failures == old(conn.failures) ==> isClosed == old(isClosed) && errno == old(errno)
      ensures conn.failures != old(conn.failures) ==> isClosed && errno != 0
      ensures conn.failures == old(conn.failures) && !old(isClosed) ==>
                Emitted() == old(conn.wire) + EncodeAll(CloseRecords(old(Abs()), old(req.nWriters), req.appStatus))
      decreases 2, 1
    {
      hide FlushRecords, EndRecords, CloseRecords, EncodeAll, EndRequestRecord, StreamRecord, EndOfRequest;
      ghost var w, nWriters := Abs(), req.nWriters;
      Frame();
      WriteCloseRecords(w);
      CloseEncoded(w, nWriters, req.appStatus);
    }

    /** `WriteCloseRecords`; `w` is the writer before its pending content was framed. */
    method WriteCloseRecords(ghost w: Wr)
      requires Sound() && !wasFCloseCalled && !rawWrite && buff <= wrNext <= stop == buff + bufflen
      requires w.Valid() && w.typ == typ && w.id == req.requestId && w.anything == isAnythingWritten
      requires wrNext == buff <==> w.pending == []
      modifies this`wrNext, this`isAnythingWritten, this`errno, this`isClosed, this`rawWrite, mBuff
      modifies conn`wire, conn`failures, conn`errors, conn`errno, req`nWriters
      ensures Raw() && conn.failures >= old(conn.failures)
      ensures Failing()
      ensures conn.failures == old(conn.failures) ==> isClosed == old(isClosed) && errno == old(errno)
      ensures conn.failures != old(conn.failures) ==> isClosed && errno != 0
      ensures conn.failures == old(conn.failures) && !old(isClosed) ==>
                Emitted() == old(Emitted()) + EncodeAll(EndRecords(w)) +
                               EncodeAll(EndOfRequest(w.id, old(req.nWriters), req.appStatus))
      ensures req.nWriters == old(req.nWriters) - 1
      decreases 2, 0
    {
      hide EndRequestRecord;
      rawWrite := true;
      if !(typ == STDERR && wrNext == buff && !isAnythingWritten) {
        ghost var r := Record(typ, req.requestId, [], []);
        EncodeAllOne(r);
        assert Encode(r) == MakeHeader(typ, req.requestId, 0, 0);
        var n := PutStr(MakeHeader(typ, req.requestId, 0, 0));
      }
      assert conn.failures == old(conn.failures) && !old(isClosed) ==>
          Emitted() == old(Emitted()) + EncodeAll(EndRecords(w));
      if req.nWriters == 1 {
        var r := EndRequestRecord(req.requestId, req.appStatus, REQUEST_COMPLETE);
        EncodeAllOne(r);
        var n := PutStr(Encode(r));
      }
      req.nWriters := req.nWriters - 1;
    }

    /** Copies as much as the buffer takes. */
    method CopyPart(data: seq<byte>) returns (m: nat)
      requires Valid() || Raw()
      modifies this`wrNext, mBuff
      ensures m == Min(|data|, stop - old(wrNext)) && wrNext == old(wrNext) + m
      ensures old(Valid()) ==>
                && Valid() && (wasFCloseCalled ==> Abs() == old(Abs()))
                && (!wasFCloseCalled ==> Abs() == old(Abs()).(pending := old(Abs()).pending + data[..m]))
      ensures old(Raw()) ==> Raw() && Emitted() == old(Emitted()) + data[..m]
    {
      m := Min(|data|, stop - wrNext);
      ghost var pending := if rawWrite then [] else mBuff[buff + HEADER_LEN..wrNext];
      CopyIn(data[..m]);
      assert !rawWrite ==> mBuff[buff + HEADER_LEN..wrNext] == pending + data[..m];
    }

    /** `FCGX_PutStr`. */
    method PutStr(data: seq<byte>) returns (r: int)
      requires Valid() || Raw()
      modifies this`wrNext, this`isAnythingWritten, this`errno, this`isClosed, this`rawWrite, mBuff
      modifies conn`wire, conn`failures, conn`errors, conn`errno, req`nWriters
      ensures conn.failures >= old(conn.failures) && req.nWriters == old(req.nWriters)
      ensures Failing()
      ensures rawWrite == old(rawWrite)
      ensures conn.failures == old(conn.failures) ==> isClosed == old(isClosed) && errno == old(errno)
      ensures conn.failures != old(conn.failures) ==> isClosed && errno != 0
      ensures r == |data| || (r == -1 && isClosed)
      ensures old(Valid() && wasFCloseCalled) ==> conn.failures == old(conn.failures) && Valid() && Abs() == old(Abs())
      ensures old(isClosed) ==> conn.wire == old(conn.wire)
      ensures old(Valid()) ==>
                && Valid()
                && (conn.failures == old(conn.failures) && !old(isClosed) ==>
                      var (w, rs) := PutBytes(old(Abs()), data);
                      r == |data| && Abs() == w && conn.wire == old(conn.wire) + EncodeAll(rs))
      ensures old(Raw()) ==>
                && Raw()
                && (conn.failures == old(conn.failures) && !old(isClosed) ==> Emitted() == old(Emitted()) + data)
      decreases 1, 1
    {
      hide PutBytes;
      if |data| <= stop - wrNext {
        if !rawWrite {
          PutBytesFit(Abs(), data);
        }
        assert data[..|data|] == data;
        r := CopyPart(data);
        return;
      }
      if wasFCloseCalled {
        return -1;
      }
      if rawWrite {
        r := PutRaw(data);
      } else {
        r := PutStream(data);
      }
    }

    /** `FCGX_PutStr`, general case, on a stream: copies and flushes in turn. */
    method PutStream(data: seq<byte>) returns (r: int)
      requires Valid() && !wasFCloseCalled && data != []
      modifies this`wrNext, this`isAnythingWritten, this`errno, this`isClosed, this`rawWrite, mBuff
      modifies conn`wire, conn`failures, conn`errors, conn`errno, req`nWriters
      ensures conn.failures >= old(conn.failures) && req.nWriters == old(req.nWriters)
      ensures Failing()
      ensures rawWrite == old(rawWrite)
      ensures conn.failures == old(conn.failures) ==> isClosed == old(isClosed) && errno == old(errno)
      ensures conn.failures != old(conn.failures) ==> isClosed && errno != 0
      ensures r == |data| || (r == -1 && isClosed)
      ensures old(isClosed) ==> conn.wire == old(conn.wire)
      ensures Valid()
      ensures conn.failures == old(conn.failures) && !old(isClosed) ==>
                var (w, rs) := PutBytes(old(Abs()), data);
                r == |data| && Abs() == w && conn.wire == old(conn.wire) + EncodeAll(rs)
      decreases 1, 0
    {
      ghost var w0, wire0, sent: seq<Record> := Abs(), conn.wire, [];
      hide PutBytes, EncodeAll, Progress;
      NoProgress(data);
      var moved := 0;
      var done := false;
      while !done
        invariant 0 <= moved <= |data| && Valid() && !wasFCloseCalled && (!done ==> moved < |data|)
        invariant rawWrite == old(rawWrite) && req.nWriters == old(req.nWriters)
        invariant conn.failures >= old(conn.failures)
        invariant Failing()
        invariant conn.failures == old(conn.failures) ==> isClosed == old(isClosed) && errno == old(errno)
        invariant conn.failures != old(conn.failures) ==> isClosed && errno != 0
        invariant old(isClosed) ==> conn.wire == old(conn.wire) && conn.failures == old(conn.failures)
        invariant done ==> moved == |data| || isClosed
        invariant conn.failures == old(conn.failures) && !old(isClosed) ==> Progress(w0, wire0, data, moved, sent)
        decreases !done, |data| - moved, wrNext == stop && !isClosed
      {
        moved, done, sent := PutTurn(data, moved, w0, wire0, sent);
      }
      FullProgress(w0, wire0, data, sent);
      return if moved == |data| then moved else -1;
    }

    /** One turn of the loop: copies, and flushes when there is more. */
    method PutTurn(data: seq<byte>, moved: nat, ghost w0: Wr, ghost wire0: seq<byte>, ghost sent: seq<Record>)
      returns (after: nat, done: bool, ghost sentNow: seq<Record>)
      requires Valid() && !wasFCloseCalled && w0.Valid() && moved < |data|
      modifies this`wrNext, this`isAnythingWritten, this`errno, this`isClosed, this`rawWrite, mBuff
      modifies conn`wire, conn`failures, conn`errors, conn`errno, req`nWriters
      ensures Valid() && !wasFCloseCalled && req.nWriters == old(req.nWriters) && rawWrite == old(rawWrite)
      ensures moved <= after <= |data| && conn.failures >= old(conn.failures)
      ensures Failing()
      ensures conn.failures == old(conn.failures) ==> isClosed == old(isClosed) && errno == old(errno)
      ensures conn.failures != old(conn.failures) ==> isClosed && errno != 0
      ensures old(isClosed) ==> conn.wire == old(conn.wire) && conn.failures == old(conn.failures)
      ensures if done then after == |data| || isClosed
              else after < |data| && !old(isClosed) && (after > moved || old(wrNext == stop)) &&
                   !(wrNext == stop && !isClosed)
      ensures conn.failures == old(conn.failures) && old(Progress(w0, wire0, data, moved, sent)) ==>
                Progress(w0, wire0, data, after, sentNow)
      decreases 0, 2
    {
      hide Progress;
      var m := CopyMore(data, moved, w0, wire0, sent);
      after, sentNow := moved + m, sent;
      done := after == |data| || isClosed;
      if !done {
        sentNow := FlushFull(data, after, w0, wire0, sent);
      }
    }

    /** Of the bytes `all` put into `w0` when the wire held `wire0`, the first `moved` are in, and `sent` went out. */
    ghost predicate Progress(w0: Wr, wire0: seq<byte>, all: seq<byte>, moved: nat, sent: seq<Record>)
      reads this, mBuff, conn, req
      requires w0.Valid() && moved <= |all|
    {
      Valid() && AllValid(sent) && conn.wire == wire0 + EncodeAll(sent) && OnTheWay(w0, all, Abs(), all[moved..], sent)
    }

    lemma NoProgress(all: seq<byte>)
      requires Valid()
      ensures Progress(Abs(), conn.wire, all, 0, [])
    {
      hide PutBytes, EncodeAll, OnTheWay;
      WireUnchanged(conn.wire);
      OnTheWayStart(Abs(), all);
      assert all[0..] == all;
    }

    lemma FullProgress(w0: Wr, wire0: seq<byte>, all: seq<byte>, sent: seq<Record>)
      requires w0.Valid()
      ensures Progress(w0, wire0, all, |all|, sent) ==>
                && Valid() && Abs() == PutBytes(w0, all).0
                && conn.wire == wire0 + EncodeAll(PutBytes(w0, all).1)
    {
      hide PutBytes, EncodeAll, OnTheWay;
      if Progress(w0, wire0, all, |all|, sent) {
        OnTheWayEnd(w0, all, Abs(), all[|all|..], sent);
      }
    }

    /** Copies what the buffer takes of `data[moved..]`. */
    method CopyMore(data: seq<byte>, moved: nat, ghost w0: Wr, ghost wire0: seq<byte>, ghost sent: seq<Record>)
      returns (m: nat)
      requires Valid() && !wasFCloseCalled && w0.Valid() && moved <= |data|
      modifies this`wrNext, mBuff
      ensures Valid() && m == Min(|data| - moved, stop - old(wrNext)) && wrNext == old(wrNext) + m
      ensures old(Progress(w0, wire0, data, moved, sent)) ==> Progress(w0, wire0, data, moved + m, sent)
    {
      hide PutBytes, OnTheWay, EncodeAll;
      ghost var w := Abs();
      m := CopyPart(data[moved..]);
      if old(Progress(w0, wire0, data, moved, sent)) {
        CopyStep(w0, data, w, moved, m, sent);
      }
    }

    /** Flushes a full buffer on the way. */
    method FlushFull(data: seq<byte>, moved: nat, ghost w0: Wr, ghost wire0: seq<byte>, ghost sent: seq<Record>)
      returns (ghost sentNow: seq<Record>)
      requires Valid() && !isClosed && !wasFCloseCalled && w0.Valid() && moved < |data| && wrNext == stop
      modifies this`wrNext, this`isAnythingWritten, this`errno, this`isClosed, this`rawWrite, mBuff
      modifies conn`wire, conn`failures, conn`errors, conn`errno, req`nWriters
      ensures Valid() && !wasFCloseCalled && req.nWriters == old(req.nWriters) && rawWrite == old(rawWrite)
      ensures conn.failures == old(conn.failures) ==> !isClosed && wrNext < stop && errno == old(errno)
      ensures conn.failures != old(conn.failures) ==> conn.failures >= old(conn.failures) && isClosed && errno != 0
      ensures conn.failures == old(conn.failures) && old(Progress(w0, wire0, data, moved, sent)) ==>
                Progress(w0, wire0, data, moved, sentNow)
      ensures Failing()
      decreases 0, 1
    {
      hide PutBytes, FlushRecords, OnTheWay, EncodeAll;
      sentNow := sent + FlushRecords(Abs());
      if Progress(w0, wire0, data, moved, sent) {
        FlushStep(w0, data, Abs(), data[moved..], sent);
        WireGrows(wire0, sent, FlushRecords(Abs()));
      }
      EmptyBuffProc(false);
    }

    /** `FCGX_PutStr`, general case, among closing records: copies and sends in turn. */
    method PutRaw(data: seq<byte>) returns (r: int)
      requires Raw() && data != []
      modifies this`wrNext, this`isAnythingWritten, this`errno, this`isClosed, this`rawWrite, mBuff
      modifies conn`wire, conn`failures, conn`errors, conn`errno, req`nWriters
      ensures conn.failures >= old(conn.failures) && req.nWriters == old(req.nWriters)
      ensures Failing()
      ensures rawWrite == old(rawWrite)
      ensures conn.failures == old(conn.failures) ==> isClosed == old(isClosed) && errno == old(errno)
      ensures conn.failures != old(conn.failures) ==> isClosed && errno != 0
      ensures r == |data| || (r == -1 && isClosed)
      ensures old(isClosed) ==> conn.wire == old(conn.wire)
      ensures Raw()
      ensures conn.failures == old(conn.failures) && !old(isClosed) ==> Emitted() == old(Emitted()) + data
      decreases 1, 0
    {
      var moved := 0;
      while true
        invariant 0 <= moved < |data|
        invariant Raw() && req.nWriters == old(req.nWriters) && conn.failures >= old(conn.failures)
        invariant Failing()
        invariant conn.failures == old(conn.failures) ==> isClosed == old(isClosed) && errno == old(errno)
        invariant conn.failures != old(conn.failures) ==> isClosed && errno != 0
        invariant old(isClosed) ==> conn.wire == old(conn.wire) && conn.failures == old(conn.failures)
        invariant conn.failures == old(conn.failures) && !old(isClosed) ==>
                    Emitted() == old(Emitted()) + data[..moved]
        decreases |data| - moved, wrNext == stop && !isClosed
      {
        ghost var before := moved;
        var m := CopyPart(data[moved..]);
        assert data[..before] + data[before..][..m] == data[..before + m];
        moved := moved + m;
        if moved == |data| {
          return moved;
        }
        if isClosed {
          return -1;
        }
        EmptyBuffProc(false);
      }
    }

    /** `FCGX_PutChar`. */
    method PutChar(c: byte) returns (r: int)
      requires Valid()
      modifies this`wrNext, this`isAnythingWritten, this`errno, this`isClosed, this`rawWrite, mBuff
      modifies conn`wire, conn`failures, conn`errors, conn`errno, req`nWriters
      ensures Valid() && conn.failures >= old(conn.failures) && req.nWriters == old(req.nWriters)
      ensures Failing()
      ensures conn.failures == old(conn.failures) ==> isClosed == old(isClosed) && errno == old(errno)
      ensures conn.failures != old(conn.failures) ==> isClosed && errno != 0
      ensures r == c || (r == EOF && isClosed)
      ensures old(wasFCloseCalled) ==> conn.failures == old(conn.failures) && Abs() == old(Abs())
      ensures wasFCloseCalled == old(wasFCloseCalled)
      ensures old(isClosed) ==> conn.wire == old(conn.wire)
      ensures conn.failures == old(conn.failures) && !old(isClosed) ==>
                var (w, rs) := PutBytes(old(Abs()), [c]);
                r == c && Abs() == w && conn.wire == old(conn.wire) + EncodeAll(rs)
    {
      hide FlushRecords, EncodeAll, PutBytes;
      ghost var w := Abs();
      if wrNext != stop {
        PutBytesFit(w, [c]);
        EncodeAllNone();
        var m := CopyPart([c]);
        assert [c][..m] == [c];
        return c;
      }
      if isClosed {
        return EOF;
      }
      PutBytesFull(w, [c]);
      PutBytesFit(Flush(w), [c]);
      EmptyBuffProc(false);
      if wrNext != stop {
        var m := CopyPart([c]);
        assert [c][..m] == [c];
        assert FlushRecords(w) + [] == FlushRecords(w);
        return c;
      }
      return EOF;
    }

    /** `FCGX_FFlush`. */
    method FFlush() returns (r: int)
      requires Valid()
      modifies this`wrNext, this`isAnythingWritten, this`errno, this`isClosed, this`rawWrite, mBuff
      modifies conn`wire, conn`failures, conn`errors, conn`errno, req`nWriters
      ensures Valid() && conn.failures >= old(conn.failures) && req.nWriters == old(req.nWriters)
      ensures Failing()
      ensures conn.failures == old(conn.failures) ==> isClosed == old(isClosed) && errno == old(errno)
      ensures conn.failures != old(conn.failures) ==> isClosed && errno != 0
      ensures r == -1 <==> conn.failures != old(conn.failures)
      ensures r == 0 || r == -1
      ensures old(wasFCloseCalled) ==> conn.failures == old(conn.failures) && Abs() == old(Abs())
      ensures wasFCloseCalled == old(wasFCloseCalled)
      ensures old(isClosed) ==> conn.wire == old(conn.wire)
      ensures conn.failures == old(conn.failures) && !old(isClosed) ==>
                Abs() == Flush(old(Abs())) && conn.wire == old(conn.wire) + EncodeAll(FlushRecords(old(Abs())))
    {
      hide FlushRecords, EncodeAll;
      if isClosed {
        return 0;
      }
      EmptyBuffProc(false);
      return if isClosed then -1 else 0;
    }

    /** `FCGX_FClose`. */
    method FClose() returns (r: int)
      requires Valid()
      modifies this`wrNext, this`isAnythingWritten, this`errno, this`isClosed, this`rawWrite, mBuff
      modifies this`wasFCloseCalled, this`stop
      modifies conn`wire, conn`failures, conn`errors, conn`errno, req`nWriters
      ensures Valid() && wasFCloseCalled && conn.failures >= old(conn.failures)
      ensures Failing()
      ensures conn.failures == old(conn.failures) ==> errno == old(errno)
      ensures conn.failures != old(conn.failures) ==> errno != 0
      ensures r == (if errno == 0 then 0 else EOF)
      ensures old(wasFCloseCalled) ==> conn.failures == old(conn.failures) && Abs() == old(Abs())
      ensures old(wasFCloseCalled) ==> conn.wire == old(conn.wire) && req.nWriters == old(req.nWriters)
      ensures !old(wasFCloseCalled) ==> req.nWriters == old(req.nWriters) - 1
      ensures conn.failures == old(conn.failures) && !old(isClosed) ==>
                && Abs() == Close(old(Abs()))
                && conn.wire == old(conn.wire) + EncodeAll(CloseRecords(old(Abs()), old(req.nWriters), req.appStatus))
    {
      hide FlushRecords, EncodeAll, CloseRecords;
      if !wasFCloseCalled {
        EmptyBuffProc(true);
        wasFCloseCalled := true;
        isClosed := true;
        stop := wrNext;
      }
      return if errno == 0 then 0 else EOF;
    }
  }

  /** Of the bytes `all` put into `w0`, `rest` are still to be put into `w`, and `sent` went out so far. */
  ghost predicate OnTheWay(w0: Wr, all: seq<byte>, w: Wr, rest: seq<byte>, sent: seq<Record>)
    requires w0.Valid() && w.Valid()
  {
    PutBytes(w0, all) == (PutBytes(w, rest).0, sent + PutBytes(w, rest).1)
  }

  lemma CopyStep(w0: Wr, all: seq<byte>, w: Wr, moved: nat, m: nat, sent: seq<Record>)
    requires w0.Valid() && w.Valid() && moved + m <= |all| && |w.pending| + m <= w.cap
    requires OnTheWay(w0, all, w, all[moved..], sent)
    ensures OnTheWay(w0, all, w.(pending := w.pending + all[moved..][..m]), all[moved + m..], sent)
  {
    hide PutBytes;
    var chunk, rest := all[moved..][..m], all[moved + m..];
    assert all[moved..] == chunk + rest;
    PutBytesFit(w, chunk);
    PutBytesAppend(w, chunk, rest);
    var rs := PutBytes(w.(pending := w.pending + chunk), rest).1;
    assert [] + rs == rs;
  }

  lemma FlushStep(w0: Wr, all: seq<byte>, w: Wr, rest: seq<byte>, sent: seq<Record>)
    requires w0.Valid() && w.Valid() && |w.pending| == w.cap && rest != []
    requires OnTheWay(w0, all, w, rest, sent)
    ensures OnTheWay(w0, all, Flush(w), rest, sent + FlushRecords(w))
  {
    hide PutBytes;
    PutBytesFull(w, rest);
    var rs := PutBytes(Flush(w), rest).1;
    assert sent + (FlushRecords(w) + rs) == sent + FlushRecords(w) + rs;
  }

  lemma OnTheWayEnd(w0: Wr, all: seq<byte>, w: Wr, rest: seq<byte>, sent: seq<Record>)
    requires w0.Valid() && w.Valid() && OnTheWay(w0, all, w, rest, sent)
    ensures rest == [] ==> PutBytes(w0, all) == (w, sent)
  {
    assert sent + [] == sent;
  }

  lemma OnTheWayStart(w: Wr, all: seq<byte>)
    requires w.Valid()
    ensures OnTheWay(w, all, w, all, [])
  {
    assert [] + PutBytes(w, all).1 == PutBytes(w, all).1;
  }

  lemma WireUnchanged(wire: seq<byte>)
    ensures wire + EncodeAll([]) == wire
  {
  }

  lemma WireGrows(wire: seq<byte>, a: seq<Record>, b: seq<Record>)
    requires AllValid(a) && AllValid(b)
    ensures wire + EncodeAll(a) + EncodeAll(b) == wire + EncodeAll(a + b)
  {
    EncodeAllAppend(a, b);
  }

  lemma EncodeAllNone()
    ensures EncodeAll([]) == []
  {
  }

  lemma CloseEncoded(w: Wr, nWriters: int, appStatus: int)
    requires w.Valid()
    ensures EncodeAll(CloseRecords(w, nWriters, appStatus))
         == EncodeAll(FlushRecords(w)) + EncodeAll(EndRecords(w)) + EncodeAll(EndOfRequest(w.id, nWriters, appStatus))
  {
    hide FlushRecords, EndRecords, EndRequestRecord, Encode;
    EncodeAllAppend(FlushRecords(w) + EndRecords(w), EndOfRequest(w.id, nWriters, appStatus));
    EncodeAllAppend(FlushRecords(w), EndRecords(w));
  }
}

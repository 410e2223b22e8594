/** The C++ stream buffer over a FastCGI stream: a second layer of buffering that must not show.

    A buffer on a writer is described by the writer as it would be without the buffer, a buffer on a reader by what
    the program has still to read. A buffer size of zero means none. */
module StreamBuf {
  import opened Bytes
  import opened Records
  import opened Demux
  import opened DemuxLemmas
  import opened WriterSpec
  import R = Reader
  import W = Writer
  import T = RoundTrip

  // ---------------------------------------------------------------- the put area

  /** `fcgi_streambuf` on an output stream. */
  class OutputBuffer {
    const fcgx: W.Writer
    const buf: array<byte>
    const bufsize: nat
    var pptr: nat              // put position; the put area is the first `bufsize` bytes of `buf`

    ghost predicate Valid()
      reads this, fcgx, fcgx.conn, fcgx.req
    {
      fcgx.Valid() && pptr <= bufsize <= buf.Length && buf != fcgx.mBuff
    }

    /** The writer as if everything put had been put into it directly. */
    ghost function Direct(): Wr
      reads this, buf, fcgx, fcgx.mBuff, fcgx.conn, fcgx.req
      requires Valid()
      ensures Direct().Valid()
    {
      PutBytes(fcgx.Abs(), buf[..pptr]).0
    }

    /** The wire as if everything put had been put into the writer directly. */
    ghost function DirectWire(): seq<byte>
      reads this, buf, fcgx, fcgx.mBuff, fcgx.conn, fcgx.req
      requires Valid()
    {
      fcgx.conn.wire + EncodeAll(PutBytes(fcgx.Abs(), buf[..pptr]).1)
    }

    /** The buffer set up by `setbuf` and `reset`. */
    constructor (fcgx: W.Writer, buf: array<byte>, bufsize: nat)
      requires fcgx.Valid() && bufsize <= buf.Length && buf != fcgx.mBuff
      ensures Valid() && this.fcgx == fcgx && this.buf == buf && this.bufsize == bufsize
      ensures Direct() == fcgx.Abs() && DirectWire() == fcgx.conn.wire
    {
      this.fcgx, this.buf, this.bufsize, pptr := fcgx, buf, bufsize, 0;
      new;
      W.WireUnchanged(fcgx.conn.wire);
    }

    lemma NothingBuffered()
      requires Valid()
      ensures pptr == 0 ==> Direct() == fcgx.Abs() && DirectWire() == fcgx.conn.wire
    {
      PutNone(fcgx.Abs());
      W.WireUnchanged(fcgx.conn.wire);
      assert buf[..0] == [];
    }

    /** The first part of `overflow`: hands the put area over to the stream. */
    method Empty() returns (ok: bool)
      requires Valid()
      modifies this`pptr, fcgx, fcgx.mBuff
      modifies fcgx.conn`wire, fcgx.conn`failures, fcgx.conn`errors, fcgx.conn`errno, fcgx.req`nWriters
      ensures Valid() && fcgx.conn.failures >= old(fcgx.conn.failures)
      ensures fcgx.wasFCloseCalled == old(fcgx.wasFCloseCalled)
      ensures fcgx.conn.failures == old(fcgx.conn.failures) && !old(fcgx.isClosed) ==>
                ok && !fcgx.isClosed && pptr == 0 && fcgx.Abs() == old(Direct()) && fcgx.conn.wire == old(DirectWire())
      ensures ok ==> pptr == 0
    {
      hide EncodeAll;
      W.WireUnchanged(fcgx.conn.wire);
      assert PutBytes(fcgx.Abs(), []) == (fcgx.Abs(), []);
      if bufsize != 0 {
        var plen := pptr;
        if plen != 0 {
          var n := fcgx.PutStr(buf[..plen]);
          if n != plen {
            return false;
          }
          pptr := 0;
        }
      }
      assert buf[..0] == [];
      ok := true;
    }

    /** `overflow`. */
    method Overflow(c: int) returns (r: int)
      requires Valid() && (c == EOF || 0 <= c < 256)
      modifies this`pptr, fcgx, fcgx.mBuff
      modifies fcgx.conn`wire, fcgx.conn`failures, fcgx.conn`errors, fcgx.conn`errno, fcgx.req`nWriters
      ensures Valid() && fcgx.conn.failures >= old(fcgx.conn.failures) && (r == 0 || r == EOF)
      ensures fcgx.conn.failures == old(fcgx.conn.failures) && !old(fcgx.isClosed) ==>
                var (w, rs) := PutBytes(old(Direct()), if c == EOF then [] else [c]);
                && r == 0 && !fcgx.isClosed && pptr == 0
                && fcgx.Abs() == w && fcgx.conn.wire == old(DirectWire()) + EncodeAll(rs)
    {
      hide EncodeAll;
      var ok := Empty();
      if !ok {
        return EOF;
      }
      W.WireUnchanged(fcgx.conn.wire);
      assert PutBytes(fcgx.Abs(), []) == (fcgx.Abs(), []);
      if c != EOF {
        var p := fcgx.PutChar(c);
        if p != c {
          return EOF;
        }
      }
      return 0;
    }

    /** `sputc` of the base class: stores while there is room, otherwise overflows. */
    method SPutC(c: byte) returns (r: int)
      requires Valid()
      modifies this`pptr, buf, fcgx, fcgx.mBuff
      modifies fcgx.conn`wire, fcgx.conn`failures, fcgx.conn`errors, fcgx.conn`errno, fcgx.req`nWriters
      ensures Valid() && fcgx.conn.failures >= old(fcgx.conn.failures)
      ensures r == EOF ==> fcgx.conn.failures != old(fcgx.conn.failures) || old(fcgx.isClosed)
      ensures fcgx.conn.failures == old(fcgx.conn.failures) && !old(fcgx.isClosed) ==>
                var (w, rs) := PutBytes(old(Direct()), [c]);
                r != EOF && !fcgx.isClosed && Direct() == w && DirectWire() == old(DirectWire()) + EncodeAll(rs)
    {
      hide EncodeAll, PutBytes;
      if pptr < bufsize {
        ghost var w, before := fcgx.Abs(), buf[..pptr];
        buf[pptr] := c;
        pptr := pptr + 1;
        assert buf[..pptr] == before + [c];
        PutBytesAppend(w, before, [c]);
        W.WireGrows(fcgx.conn.wire, PutBytes(w, before).1, PutBytes(PutBytes(w, before).0, [c]).1);
        return c;
      }
      r := Overflow(c);
      PutNone(fcgx.Abs());
      W.WireUnchanged(fcgx.conn.wire);
      assert pptr == 0 ==> buf[..pptr] == [];
    }

    /** `xsputn`: without a buffer straight into the stream, otherwise, as the base class does, byte by byte. */
    method XSPutN(s: seq<byte>) returns (n: int)
      requires Valid()
      modifies this`pptr, buf, fcgx, fcgx.mBuff
      modifies fcgx.conn`wire, fcgx.conn`failures, fcgx.conn`errors, fcgx.conn`errno, fcgx.req`nWriters
      ensures Valid() && fcgx.conn.failures >= old(fcgx.conn.failures)
      ensures fcgx.conn.failures == old(fcgx.conn.failures) && !old(fcgx.isClosed) ==>
                var (w, rs) := PutBytes(old(Direct()), s);
                n == |s| && !fcgx.isClosed && Direct() == w && DirectWire() == old(DirectWire()) + EncodeAll(rs)
    {
      hide EncodeAll, PutBytes;
      PutNone(fcgx.Abs());
      W.WireUnchanged(fcgx.conn.wire);
      assert pptr == 0 ==> buf[..pptr] == [];
      if bufsize == 0 {
        n := fcgx.PutStr(s);
        PutNone(fcgx.Abs());
        W.WireUnchanged(fcgx.conn.wire);
        assert buf[..pptr] == [];
        return;
      }
      ghost var w0, wire0 := Direct(), DirectWire();
      W.WireUnchanged(wire0);
      PutNone(w0);
      n := 0;
      assert s[..0] == [];
      while n < |s|
        invariant 0 <= n <= |s| && Valid() && fcgx.conn.failures >= old(fcgx.conn.failures)
        invariant fcgx.conn.failures == old(fcgx.conn.failures) && !old(fcgx.isClosed) ==>
                    && !fcgx.isClosed
                    && Direct() == PutBytes(w0, s[..n]).0 && DirectWire() == wire0 + EncodeAll(PutBytes(w0, s[..n]).1)
      {
        ghost var w := PutBytes(w0, s[..n]).0;
        assert s[..n + 1] == s[..n] + [s[n]];
        PutBytesAppend(w0, s[..n], [s[n]]);
        W.WireGrows(wire0, PutBytes(w0, s[..n]).1, PutBytes(w, [s[n]]).1);
        var r := SPutC(s[n]);
        if r == EOF {
          return;
        }
        n := n + 1;
      }
      assert s[..n] == s;
    }

    /** `sync`: afterwards the stream has received, and sent, exactly what was put. */
    method Sync() returns (r: int)
      requires Valid()
      modifies this`pptr, fcgx, fcgx.mBuff
      modifies fcgx.conn`wire, fcgx.conn`failures, fcgx.conn`errors, fcgx.conn`errno, fcgx.req`nWriters
      ensures Valid() && fcgx.conn.failures >= old(fcgx.conn.failures)
      ensures fcgx.conn.failures == old(fcgx.conn.failures) && !old(fcgx.isClosed) ==>
                && r == 0 && pptr == 0
                && fcgx.Abs() == Flush(old(Direct()))
                && fcgx.conn.wire == old(DirectWire()) + EncodeAll(FlushRecords(old(Direct())))
    {
      hide EncodeAll, PutBytes, FlushRecords;
      PutNone(Direct());
      W.WireUnchanged(DirectWire());
      var o := Overflow(EOF);
      if o != 0 {
        return EOF;
      }
      var f := fcgx.FFlush();
      if f != 0 {
        return EOF;
      }
      return 0;
    }
  }

  /** One call on a buffered writer. */
  method PerformOne(b: OutputBuffer, op: T.Op)
    requires b.Valid()
    modifies b`pptr, b.buf, b.fcgx, b.fcgx.mBuff
    modifies b.fcgx.conn`wire, b.fcgx.conn`failures, b.fcgx.conn`errors, b.fcgx.conn`errno, b.fcgx.req`nWriters
    ensures b.Valid() && b.fcgx.conn.failures >= old(b.fcgx.conn.failures)
    ensures b.fcgx.conn.failures == old(b.fcgx.conn.failures) && !old(b.fcgx.isClosed) ==>
              var (w, rs) := T.Step(old(b.Direct()), op);
              !b.fcgx.isClosed && b.Direct() == w && b.DirectWire() == old(b.DirectWire()) + EncodeAll(rs)
  {
    hide EncodeAll, PutBytes, FlushRecords;
    match op {
      case Put(bs) =>
        var single: bool := *;
        if single && |bs| == 1 {
          assert bs == [bs[0]];
          var r := b.SPutC(bs[0]);
        } else {
          var n := b.XSPutN(bs);
        }
      case FlushNow =>
        var r := b.Sync();
        PutNone(b.fcgx.Abs());
        W.WireUnchanged(b.fcgx.conn.wire);
        assert b.pptr == 0 ==> b.buf[..b.pptr] == [];
    }
  }

  /** A second layer of buffering does not show: whatever the calls and the size of the buffer, after a final `sync`
      the wire is the one that the same calls on the writer itself, ended by a flush, would have made. */
  method PerformAll(b: OutputBuffer, ops: seq<T.Op>)
    requires b.Valid() && b.pptr == 0
    modifies b`pptr, b.buf, b.fcgx, b.fcgx.mBuff
    modifies b.fcgx.conn`wire, b.fcgx.conn`failures, b.fcgx.conn`errors, b.fcgx.conn`errno, b.fcgx.req`nWriters
    ensures b.Valid() && b.fcgx.conn.failures >= old(b.fcgx.conn.failures)
    ensures b.fcgx.conn.failures == old(b.fcgx.conn.failures) && !old(b.fcgx.isClosed) ==>
              var (w, rs) := T.Run(old(b.fcgx.Abs()), ops);
              && b.pptr == 0 && b.fcgx.Abs() == Flush(w)
              && b.fcgx.conn.wire == old(b.fcgx.conn.wire) + EncodeAll(rs + FlushRecords(w))
  {
    hide EncodeAll, PutBytes, FlushRecords, T.Step, T.Run, T.UnderWay, OutputBuffer.Direct, OutputBuffer.DirectWire;
    ghost var w0, wire, sent := b.Direct(), b.DirectWire(), [];
    b.NothingBuffered();
    W.WireUnchanged(wire);
    T.UnderWayStart(w0, ops);
    for i := 0 to |ops|
      invariant b.Valid() && b.fcgx.conn.failures >= old(b.fcgx.conn.failures) && AllValid(sent)
      invariant b.fcgx.conn.failures == old(b.fcgx.conn.failures) && !old(b.fcgx.isClosed) ==>
                  && !b.fcgx.isClosed && b.DirectWire() == wire + EncodeAll(sent)
                  && T.UnderWay(w0, ops, b.Direct(), ops[i..], sent)
    {
      ghost var w := b.Direct();
      ghost var rs := T.Step(w, ops[i]).1;
      W.WireGrows(wire, sent, rs);
      if b.fcgx.conn.failures == old(b.fcgx.conn.failures) && !old(b.fcgx.isClosed) {
        T.UnderWayStep(w0, ops, w, i, sent);
      }
      PerformOne(b, ops[i]);
      sent := sent + rs;
    }
    T.UnderWayEnd(w0, ops, b.Direct(), sent);
    W.WireGrows(wire, sent, FlushRecords(b.Direct()));
    var r := b.Sync();
  }

  lemma PutNone(w: Wr)
    requires w.Valid()
    ensures PutBytes(w, []) == (w, [])
  {
  }

  // ---------------------------------------------------------------- the get area

  /** A byte pushed back is the next one to be read. */
  lemma PushedBack(s: Rd, c: byte)
    requires !s.closed && !s.skip
    ensures var t := s.(unread := [c] + s.unread, content := s.content + 1);
            Drain(t) == ([c] + Drain(s).0, Drain(s).1)
  {
    var t := s.(unread := [c] + s.unread, content := s.content + 1);
    FillDelivers(t);
    assert t.unread[1..] == s.unread;
    assert Pop(t) == s;
  }

  /** `fcgi_streambuf` on an input stream. */
  class InputBuffer {
    const fcgx: R.Reader
    const buf: array<byte>
    const bufsize: nat
    var gptr: nat              // get position
    var egptr: nat             // end of the get area, which starts at 0

    ghost predicate Sound()
      reads this, fcgx, fcgx.conn, fcgx.req
    {
      && fcgx.Valid() && fcgx.Ungettable() && fcgx.req.isBeginProcessed
      && egptr <= bufsize <= buf.Length && buf != fcgx.mBuff
    }

    ghost predicate Valid()
      reads this, fcgx, fcgx.conn, fcgx.req
    {
      Sound() && gptr <= egptr
    }

    /** All that is still to be read, and the state of the stream at its end. */
    ghost function Rest(): (seq<byte>, Rd)
      reads this, buf, fcgx, fcgx.mBuff, fcgx.conn, fcgx.req
      requires Valid()
    {
      (buf[gptr..egptr] + Drain(fcgx.Abs()).0, Drain(fcgx.Abs()).1)
    }

    constructor (fcgx: R.Reader, buf: array<byte>, bufsize: nat)
      requires fcgx.Valid() && fcgx.Ungettable() && fcgx.req.isBeginProcessed
      requires bufsize <= buf.Length && buf != fcgx.mBuff
      ensures Valid() && this.fcgx == fcgx && this.buf == buf && this.bufsize == bufsize
      ensures Rest() == Drain(fcgx.Abs())
    {
      this.fcgx, this.buf, this.bufsize, gptr, egptr := fcgx, buf, bufsize, 0, 0;
      new;
      assert [] + Drain(fcgx.Abs()).0 == Drain(fcgx.Abs()).0;
    }

    lemma NoGetArea()
      requires Valid() && gptr == egptr
      ensures Rest() == Drain(fcgx.Abs())
    {
      hide Drain;
      assert buf[gptr..egptr] + Drain(fcgx.Abs()).0 == Drain(fcgx.Abs()).0;
    }

    /** Fills the empty get area: the bytes leave the stream but are still to be read. */
    method Refill() returns (ok: bool)
      requires Valid() && bufsize > 0 && gptr == egptr
      modifies this, buf, fcgx, fcgx.mBuff
      modifies fcgx.conn`inbound, fcgx.conn`wire, fcgx.conn`failures, fcgx.conn`errors, fcgx.conn`errno
      modifies fcgx.req`requestId, fcgx.req`role, fcgx.req`keepConnection, fcgx.req`isBeginProcessed
      ensures Valid() && fcgx.conn.failures >= old(fcgx.conn.failures)
      ensures ok <==> gptr < egptr
      ensures fcgx.conn.failures == old(fcgx.conn.failures) ==> Rest() == old(Rest())
      ensures !ok ==> fcgx.isClosed
    {
      hide Drain, Take;
      ghost var (bs, end) := Drain(fcgx.Abs());
      assert buf[gptr..egptr] + bs == bs;
      var str := fcgx.GetRest(bufsize);
      DrainClosed(fcgx.Abs());
      var glen := |str|;
      if glen <= 0 {
        assert buf[gptr..egptr] + [] == [];
        return false;
      }
      forall i | 0 <= i < glen {
        buf[i] := str[i];
      }
      gptr, egptr := 0, glen;
      assert buf[gptr..egptr] == str;
      assert |bs| >= bufsize ==> bs[..bufsize] + bs[bufsize..] == bs;
      assert str + [] == str;
      ok := true;
    }

    /** `underflow`: looks at the next byte and consumes nothing. */
    method Underflow() returns (c: int)
      requires Valid()
      modifies this, buf, fcgx, fcgx.mBuff
      modifies fcgx.conn`inbound, fcgx.conn`wire, fcgx.conn`failures, fcgx.conn`errors, fcgx.conn`errno
      modifies fcgx.req`requestId, fcgx.req`role, fcgx.req`keepConnection, fcgx.req`isBeginProcessed
      ensures Valid() && fcgx.conn.failures >= old(fcgx.conn.failures) && (c == EOF || 0 <= c < 256)
      ensures fcgx.conn.failures == old(fcgx.conn.failures) ==>
                Rest() == old(Rest()) && c == if Rest().0 == [] then EOF else Rest().0[0]
      ensures bufsize > 0 && c != EOF ==> gptr < egptr && c == buf[gptr]
      ensures bufsize > 0 && c == EOF ==> gptr == egptr
    {
      hide Drain, Take;
      if bufsize != 0 {
        if egptr - gptr == 0 {
          var ok := Refill();
          if !ok {
            DrainClosed(fcgx.Abs());
            assert buf[gptr..egptr] == [];
            return EOF;
          }
        }
        assert Rest().0[0] == buf[gptr];
        return buf[gptr];
      }
      c := Peek();
    }

    /** `underflow` without a buffer: reads a byte and pushes it back. */
    method Peek() returns (c: int)
      requires Valid() && bufsize == 0
      modifies fcgx, fcgx.mBuff
      modifies fcgx.conn`inbound, fcgx.conn`wire, fcgx.conn`failures, fcgx.conn`errors, fcgx.conn`errno
      modifies fcgx.req`requestId, fcgx.req`role, fcgx.req`keepConnection, fcgx.req`isBeginProcessed
      ensures Valid() && fcgx.conn.failures >= old(fcgx.conn.failures) && (c == EOF || 0 <= c < 256)
      ensures fcgx.conn.failures == old(fcgx.conn.failures) ==>
                Rest() == old(Rest()) && c == if Rest().0 == [] then EOF else Rest().0[0]
    {
      hide Drain, Take;
      TakeSplits(fcgx.Abs(), 1);
      TakeShort(fcgx.Abs(), 1);
      ghost var (bs, end) := Drain(fcgx.Abs());
      assert buf[gptr..egptr] == [] && [] + bs == bs;
      var d := fcgx.GetChar();
      DrainClosed(fcgx.Abs());
      ghost var s := fcgx.Abs();
      c := fcgx.UnGetChar(d);
      if d != EOF {
        PushedBack(s, d);
        assert fcgx.conn.failures == old(fcgx.conn.failures) ==> [d] + bs[1..] == bs;
      }
      assert [] + Drain(fcgx.Abs()).0 == Drain(fcgx.Abs()).0;
    }

    /** `uflow`: consumes the next byte. At the end of the stream a buffered one moves the get position past the end
        of the get area all the same, so the buffer stays usable exactly when there was a byte or there is no
        buffer. */
    method UFlow() returns (c: int)
      requires Valid()
      modifies this, buf, fcgx, fcgx.mBuff
      modifies fcgx.conn`inbound, fcgx.conn`wire, fcgx.conn`failures, fcgx.conn`errors, fcgx.conn`errno
      modifies fcgx.req`requestId, fcgx.req`role, fcgx.req`keepConnection, fcgx.req`isBeginProcessed
      ensures Sound() && fcgx.conn.failures >= old(fcgx.conn.failures) && (c == EOF || 0 <= c < 256)
      ensures Valid() <==> c != EOF || bufsize == 0
      ensures c == EOF && bufsize > 0 ==> gptr == egptr + 1
      ensures fcgx.conn.failures == old(fcgx.conn.failures) ==>
                if old(Rest()).0 == [] then c == EOF
                else c == old(Rest()).0[0] && Rest() == (old(Rest()).0[1..], old(Rest()).1)
    {
      hide Drain, Take;
      if bufsize != 0 {
        c := Underflow();
        gptr := gptr + 1;
        ghost var more := Drain(fcgx.Abs()).0;
        assert c != EOF ==> (buf[gptr - 1..egptr] + more)[1..] == buf[gptr..egptr] + more;
        return;
      }
      ghost var bs := Drain(fcgx.Abs()).0;
      assert buf[gptr..egptr] == [] && [] + bs == bs;
      c := fcgx.GetNext();
      assert buf[gptr..egptr] == [] && [] + Drain(fcgx.Abs()).0 == Drain(fcgx.Abs()).0;
      assert c != EOF && fcgx.conn.failures == old(fcgx.conn.failures) ==> bs[1..] == Drain(fcgx.Abs()).0;
    }

    /** `sbumpc` of the base class. */
    method SBumpC() returns (c: int)
      requires Valid()
      modifies this, buf, fcgx, fcgx.mBuff
      modifies fcgx.conn`inbound, fcgx.conn`wire, fcgx.conn`failures, fcgx.conn`errors, fcgx.conn`errno
      modifies fcgx.req`requestId, fcgx.req`role, fcgx.req`keepConnection, fcgx.req`isBeginProcessed
      ensures Sound() && fcgx.conn.failures >= old(fcgx.conn.failures) && (c == EOF || 0 <= c < 256)
      ensures Valid() <==> c != EOF || bufsize == 0
      ensures fcgx.conn.failures == old(fcgx.conn.failures) ==>
                if old(Rest()).0 == [] then c == EOF
                else c == old(Rest()).0[0] && Rest() == (old(Rest()).0[1..], old(Rest()).1)
    {
      hide Drain;
      if gptr < egptr {
        c := buf[gptr];
        gptr := gptr + 1;
        ghost var more := Drain(fcgx.Abs()).0;
        assert old(Rest()).0 == buf[gptr - 1..egptr] + more;
        assert (buf[gptr - 1..egptr] + more)[1..] == buf[gptr..egptr] + more;
        return;
      }
      c := UFlow();
    }

    /** `xsgetn`: without a buffer straight from the stream, otherwise, as the base class does, byte by byte. The
        buffer stays usable exactly when all bytes asked for were there or there is no buffer. */
    method XSGetN(n: nat) returns (str: seq<byte>)
      requires Valid()
      modifies this, buf, fcgx, fcgx.mBuff
      modifies fcgx.conn`inbound, fcgx.conn`wire, fcgx.conn`failures, fcgx.conn`errors, fcgx.conn`errno
      modifies fcgx.req`requestId, fcgx.req`role, fcgx.req`keepConnection, fcgx.req`isBeginProcessed
      ensures Sound() && fcgx.conn.failures >= old(fcgx.conn.failures) && |str| <= n
      ensures Valid() <==> |str| == n || bufsize == 0
      ensures fcgx.conn.failures == old(fcgx.conn.failures) ==>
                var (bs, end) := old(Rest());
                if |bs| < n then str == bs else str == bs[..n] && Rest() == (bs[n..], end)
    {
      hide Drain, Take;
      ghost var (bs, end) := Rest();
      if bufsize == 0 {
        NoGetArea();
        str := fcgx.GetRest(n);
        NoGetArea();
        return;
      }
      str := [];
      while |str| < n
        invariant Valid() && |str| <= n && fcgx.conn.failures >= old(fcgx.conn.failures)
        invariant fcgx.conn.failures == old(fcgx.conn.failures) ==>
                    |str| <= |bs| && str == bs[..|str|] && Rest() == (bs[|str|..], end)
        decreases n - |str|
      {
        var c := SBumpC();
        if c == EOF {
          assert fcgx.conn.failures == old(fcgx.conn.failures) ==> |str| == |bs|;
          assert bs[..|bs|] == bs;
          return;
        }
        assert fcgx.conn.failures == old(fcgx.conn.failures) ==> bs[|str|..][1..] == bs[|str| + 1..];
        str := str + [c];
      }
    }
  }
}

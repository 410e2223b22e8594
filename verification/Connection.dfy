/** The operating system's side of a request: a connection that delivers bytes in chunks of any size and accepts
    bytes in pieces of any size, and the request fields that all streams of a request share. */
module Connection {
  import opened Bytes
  import Demux

  class Connection {
    var inbound: seq<byte>   // what the peer has yet to deliver
    const readEnd: nat       // what follows it: 0 for end of file, otherwise the errno of a failing read
    var wire: seq<byte>      // what has been sent to the peer
    var failures: nat        // how many writes have failed
    ghost var errors: seq<int>   // and with what errno each
    var errno: int           // OS_Errno
    var isOpen: bool

    constructor (inbound: seq<byte>, readEnd: nat)
      ensures this.inbound == inbound && this.readEnd == readEnd && wire == [] && failures == 0 && isOpen
      ensures errno > 0 && errors == []
    {
      this.inbound, this.readEnd := inbound, readEnd;
      wire, failures, errno, isOpen, errors := [], 0, 1, true, [];
    }

    /** `OS_Read`: at least one byte as long as there is one, never more than asked for. */
    method Read(buf: array<byte>, off: nat, n: nat) returns (count: int)
      requires isOpen && 0 < n && off + n <= buf.Length
      modifies this`inbound, this`errno, buf
      ensures old(inbound) == [] ==>
                inbound == [] && buf[..] == old(buf[..]) &&
                (if readEnd == 0 then count == 0 else count == -1 && errno == readEnd)
      ensures old(inbound) != [] ==>
                && 1 <= count <= n && count <= |old(inbound)|
                && buf[off..off + count] == old(inbound)[..count]
                && buf[..off] == old(buf[..off]) && buf[off + count..] == old(buf[off + count..])
                && inbound == old(inbound)[count..]
    {
      if inbound == [] {
        count := if readEnd == 0 then 0 else -1;
        errno := readEnd;
      } else {
        var k :| 1 <= k <= n && k <= |inbound|;
        count := k;
        ghost var chunk := inbound[..k];
        forall i | 0 <= i < k {
          buf[off + i] := inbound[i];
        }
        assert buf[off..off + k] == chunk;
        inbound := inbound[k..];
      }
    }

    /** `OS_Write`: part of the data, or a failure. */
    method Write(data: seq<byte>) returns (count: int)
      requires isOpen && data != []
      modifies this`wire, this`failures, this`errors, this`errno
      ensures count < 0 ==>
                failures == old(failures) + 1 && errno > 0 && errors == old(errors) + [errno] && wire == old(wire)
      ensures count >= 0 ==>
                && 1 <= count <= |data| && failures == old(failures) && errors == old(errors)
                && wire == old(wire) + data[..count]
    {
      if * {
        count := -1;
        failures := failures + 1;
        var code :| code > 0;
        errno := code;
        errors := errors + [code];
      } else {
        var k :| 1 <= k <= |data|;
        count := k;
        wire := wire + data[..k];
      }
    }

    /** `OS_IpcClose`. A connection that has been closed is never read, written or closed again: all of these ask for
        an open one. */
    method Close()
      requires isOpen
      modifies this`isOpen
      ensures !isOpen
    {
      isOpen := false;
    }

    /** `write_it_all`: everything, in as many writes as it takes, unless one of them fails. */
    method WriteAll(data: seq<byte>) returns (status: int)
      requires isOpen
      modifies this`wire, this`failures, this`errors, this`errno
      ensures status == 0 || status == -1
      ensures status == 0 <==> failures == old(failures)
      ensures status == 0 ==> wire == old(wire) + data
      ensures status < 0 ==> failures == old(failures) + 1 && errno > 0 && errors == old(errors) + [errno]
      ensures status == 0 ==> errors == old(errors)
      ensures status < 0 ==> exists k | 0 <= k < |data| :: wire == old(wire) + data[..k]
    {
      var sent := 0;
      while sent < |data|
        invariant sent <= |data| && failures == old(failures) && errors == old(errors)
        invariant wire == old(wire) + data[..sent]
      {
        var count := Write(data[sent..]);
        if count < 0 {
          return -1;
        }
        assert data[..sent] + data[sent..][..count] == data[..sent + count];
        sent := sent + count;
      }
      assert data[..sent] == data;
      status := 0;
    }
  }

  /** The fields of a request that its reader and its writers share. */
  class RequestState {
    var requestId: u16
    var role: nat
    var keepConnection: bool
    var isBeginProcessed: bool
    var appStatus: int
    var nWriters: int

    constructor ()
      ensures requestId == 0 && role == 0 && !keepConnection && !isBeginProcessed
      ensures appStatus == 0 && nWriters == 0
    {
      requestId, role, keepConnection, isBeginProcessed, appStatus, nWriters := 0, 0, false, false, 0, 0;
    }

    ghost function Info(): Demux.Request
      reads this
    {
      Demux.Request(requestId, role, keepConnection, isBeginProcessed)
    }
  }
}

/** Bytes, small arithmetic and the constants of the FastCGI Specification 1.0. */
module Bytes {
  type byte = b: int | 0 <= b < 256
  type u16 = n: int | 0 <= n <= 0xffff

  datatype Option<+T> = None | Some(value: T)

  const EOF := -1

  const HEADER_LEN := 8
  const MAX_LENGTH := 0xffff
  const VERSION_1 := 1

  // Record types (section 8 of the FastCGI Specification).
  const BEGIN_REQUEST := 1
  const END_REQUEST := 3
  const PARAMS := 4
  const STDIN := 5
  const STDOUT := 6
  const STDERR := 7
  const DATA := 8
  const GET_VALUES := 9
  const GET_VALUES_RESULT := 10
  const UNKNOWN_TYPE := 11

  const NULL_REQUEST_ID := 0

  // Roles and protocol status values.
  const RESPONDER := 1
  const AUTHORIZER := 2
  const FILTER := 3
  const REQUEST_COMPLETE := 0
  const CANT_MPX_CONN := 1

  // Stream error codes.
  const UNSUPPORTED_VERSION := -2
  const PROTOCOL_ERROR := -3
  const PARAMS_ERROR := -4
  const CALL_SEQ_ERROR := -5

  /** Stands for the places where the C program has no defined behaviour. */
  const UNDEFINED := -1000

  /** The numbers of the specification and of the library. */
  lemma Numbers()
    ensures BEGIN_REQUEST == 1 && END_REQUEST == 3 && PARAMS == 4 && STDIN == 5 && STDOUT == 6 && STDERR == 7
    ensures DATA == 8 && GET_VALUES == 9 && GET_VALUES_RESULT == 10 && UNKNOWN_TYPE == 11 && NULL_REQUEST_ID == 0
    ensures RESPONDER == 1 && AUTHORIZER == 2 && FILTER == 3 && REQUEST_COMPLETE == 0 && CANT_MPX_CONN == 1
    ensures VERSION_1 == 1 && HEADER_LEN == 8 && MAX_LENGTH == 65535 && EOF == -1
    ensures UNSUPPORTED_VERSION == -2 && PROTOCOL_ERROR == -3 && PARAMS_ERROR == -4 && CALL_SEQ_ERROR == -5
  {
  }

  function Min(a: int, b: int): int {
    if a <= b then a else b
  }

  function Max(a: int, b: int): int {
    if a >= b then a else b
  }

  /** Big-endian numbers of two and of four bytes. */
  function U16(b1: int, b0: int): int {
    b1 * 0x100 + b0
  }

  function U32(b3: int, b2: int, b1: int, b0: int): int {
    b3 * 0x1000000 + b2 * 0x10000 + b1 * 0x100 + b0
  }

  lemma Remainder(n: nat, k: nat, r: nat)
    requires n == k * 0x10000 + r && r < 0x10000
    ensures n % 0x10000 == r
  {
  }

  lemma U16Split(n: nat)
    ensures U16(n / 0x100 % 0x100, n % 0x100) == n % 0x10000
  {
    var q, low := n / 0x100, n % 0x100;
    var k, high := q / 0x100, q % 0x100;
    assert n == q * 0x100 + low && q == k * 0x100 + high;
    Remainder(n, k, high * 0x100 + low);
  }

  function Zeros(n: nat): (z: seq<byte>)
    ensures |z| == n
  {
    seq(n, i => 0)
  }

  /** `AlignInt8`: the mask clears the low three bits. */
  function AlignInt8(n: nat): nat {
    (n + 7) / 8 * 8
  }

  /** `AlignPtr8`, as the distance from the address to the aligned one. */
  function AlignPtr8(address: nat): nat {
    (address + 7) / 8 * 8 - address
  }

  /** The result is the least multiple of eight that is not below the argument. */
  lemma AlignInt8Least(n: nat, m: nat)
    ensures AlignInt8(n) % 8 == 0 && n <= AlignInt8(n) < n + 8
    ensures m % 8 == 0 && n <= m ==> AlignInt8(n) <= m
  {
  }

  lemma AlignPtr8Least(address: nat)
    ensures 0 <= AlignPtr8(address) < 8 && (address + AlignPtr8(address)) % 8 == 0
  {
  }

  /** What `NewStream` allocates for a requested length. */
  function BufferSize(requested: int): nat {
    AlignInt8(Min(Max(requested, 32), MAX_LENGTH + 1))
  }

  /** What is left of it behind the first aligned position when the allocation starts at `address`. */
  function UsableSize(requested: int, address: nat): int {
    if AlignPtr8(address) != 0 then BufferSize(requested) - 8 else BufferSize(requested)
  }

  /** What is left of the buffer that was asked for: the next multiple of eight, less eight when the allocation is not
      aligned, between the smallest and the largest buffer there can be. */
  lemma UsableOfRequested(requested: int, address: nat)
    ensures var aligned := address % 8 == 0;
            var size := UsableSize(requested, address);
            && (requested <= 32 ==> size == if aligned then 32 else 24)
            && (requested >= 65536 ==> size == if aligned then 65536 else 65528)
            && (32 <= requested <= 65536 ==>
                  && size % 8 == 0
                  && (if aligned then requested <= size <= requested + 7 else requested - 8 <= size <= requested - 1))
  {
    AlignPtr8Least(address);
    AlignInt8Least(Max(requested, 0), 0);
  }

  /** For every requested length and every address, the usable part is aligned and inside the allocation, and a record
      of whatever fills it, header and padding included, stays inside it with a length the header can express. */
  lemma FramingFits(requested: int, address: nat, contentLen: nat)
    ensures (address + AlignPtr8(address)) % 8 == 0 && UsableSize(requested, address) % 8 == 0
    ensures 24 <= UsableSize(requested, address) <= MAX_LENGTH + 1
    ensures AlignPtr8(address) + UsableSize(requested, address) <= BufferSize(requested)
    ensures HEADER_LEN + contentLen <= UsableSize(requested, address) ==>
              && contentLen <= MAX_LENGTH
              && AlignInt8(contentLen) - contentLen <= 7
              && AlignPtr8(address) + HEADER_LEN + AlignInt8(contentLen) <= BufferSize(requested)
  {
    AlignPtr8Least(address);
    var usable := UsableSize(requested, address);
    if HEADER_LEN + contentLen <= usable {
      AlignInt8Least(contentLen, usable - HEADER_LEN);
    }
  }

  /** The bytes of a C string literal. */
  function Ascii(s: string): (bs: seq<byte>)
    ensures |bs| == |s|
  {
    seq(|s|, i requires 0 <= i < |s| => s[i] as int % 256)
  }

  lemma Regroup(a: seq<byte>, b: seq<byte>, c: seq<byte>)
    ensures a + (b + c) == a + b + c
  {
  }

  lemma CutConcat(a: seq<byte>, b: seq<byte>, k: nat)
    requires k <= |a| + |b|
    ensures (a + b)[..k] == if k <= |a| then a[..k] else a + b[..k - |a|]
  {
  }
}

/** Octets, fixed-width integers and small helpers shared by the other modules. */
module Bytes {
  const U32 := 0x1_0000_0000
  const INT32_LIMIT := 0x8000_0000
  // The largest block realloc_buffer of libssh/buffer.c can reach by doubling an int from 1;
  // when more is needed its loop does not end.
  const BUFFER_MAX := 0x4000_0000

  type Byte = b: int | 0 <= b < 256
  type Uint32 = n: int | 0 <= n < U32
  type Int32 = n: int | -INT32_LIMIT <= n < INT32_LIMIT

  datatype Option<+T> = None | Some(value: T)

  function Min(a: int, b: int): int { if a < b then a else b }

  function Max(a: int, b: int): int { if a < b then b else a }

  /** Bit `i` of a number, counted from the least significant one. */
  predicate BitSet(n: nat, i: int) {
    i >= 0 && if i == 0 then n % 2 == 1 else BitSet(n / 2, i - 1)
  }

  lemma {:induction false} NoBits(i: nat)
    ensures !BitSet(0, i)
  {
    if i > 0 {
      NoBits(i - 1);
    }
  }

  /** The elements in order, without the one at `k`. */
  function Without<T>(s: seq<T>, k: nat): seq<T>
    requires k < |s|
  {
    s[..k] + s[k + 1..]
  }

  lemma Associate<T>(a: seq<T>, b: seq<T>, c: seq<T>)
    ensures a + b + c == a + (b + c)
  {
  }

  /** The value kept by a 32-bit unsigned variable. */
  function ToUint32(n: int): Uint32 { n % U32 }

  /** The value kept by a 32-bit two's complement variable. */
  function ToInt32(n: int): Int32 {
    if n % U32 < INT32_LIMIT then n % U32 else n % U32 - U32
  }

  /** Big-endian (network order) octets of a 32-bit number. */
  function U32ToBytes(n: Uint32): (s: seq<Byte>)
    ensures |s| == 4
  {
    [n / 256 / 256 / 256, n / 256 / 256 % 256, n / 256 % 256, n % 256]
  }

  function BytesToU32(s: seq<Byte>): Uint32
    requires |s| == 4
  {
    var a: int, b: int, c: int, d: int := s[0], s[1], s[2], s[3];
    ((a * 256 + b) * 256 + c) * 256 + d
  }

  lemma U32RoundTrip(n: Uint32)
    ensures BytesToU32(U32ToBytes(n)) == n
  {
    var m := n / 256;
    assert n == m * 256 + n % 256;
    var k := m / 256;
    assert m == k * 256 + m % 256;
    assert k == k / 256 * 256 + k % 256;
  }

  lemma BytesRoundTrip(s: seq<Byte>)
    requires |s| == 4
    ensures U32ToBytes(BytesToU32(s)) == s
  {
    var a: int, b: int, c: int, d: int := s[0], s[1], s[2], s[3];
    var n: int := ((a * 256 + b) * 256 + c) * 256 + d;
    assert n / 256 == (a * 256 + b) * 256 + c;
    assert ((a * 256 + b) * 256 + c) / 256 == a * 256 + b;
  }
}

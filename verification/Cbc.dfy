/** Cipher-block chaining over an abstract block cipher, as libssh/crypt.c uses it: each
    call continues from the last block of the call before. */
module Cbc {
  import opened Bytes

  /** A block cipher under a fixed key. */
  datatype Cipher = Cipher(size: nat, enc: seq<Byte> -> seq<Byte>, dec: seq<Byte> -> seq<Byte>)

  /** Block sizes of the CBC ciphers in libssh/wrapper.c; decryption undoes encryption. */
  ghost predicate IsCipher(c: Cipher) {
    && (c.size == 8 || c.size == 16)
    && (forall b {:trigger c.enc(b)} :: |b| == c.size ==> |c.enc(b)| == c.size && c.dec(c.enc(b)) == b)
    && (forall b {:trigger c.dec(b)} :: |b| == c.size ==> |c.dec(b)| == c.size)
  }

  /** Bitwise exclusive or. */
  function XorNat(a: nat, b: nat): nat {
    if a == 0 && b == 0 then 0
    else 2 * XorNat(a / 2, b / 2) + (if a % 2 == b % 2 then 0 else 1)
  }

  /** A bit is set in the result exactly when it is set in one of the two. */
  lemma {:induction false} XorBits(a: nat, b: nat, i: nat)
    ensures BitSet(XorNat(a, b), i) <==> BitSet(a, i) != BitSet(b, i)
    decreases i
  {
    if a == 0 && b == 0 {
      NoBits(i);
    } else if i > 0 {
      XorBits(a / 2, b / 2, i - 1);
      assert XorNat(a, b) / 2 == XorNat(a / 2, b / 2);
    } else {
      assert XorNat(a, b) % 2 == if a % 2 == b % 2 then 0 else 1;
    }
  }

  lemma {:induction false} XorUndo(a: nat, b: nat)
    ensures XorNat(XorNat(a, b), b) == a
  {
    if a != 0 || b != 0 {
      XorUndo(a / 2, b / 2);
      var x := XorNat(a, b);
      assert x / 2 == XorNat(a / 2, b / 2);
    }
  }

  lemma {:induction false} XorBound(a: nat, b: nat, n: nat)
    requires a < Pow2(n) && b < Pow2(n)
    ensures XorNat(a, b) < Pow2(n)
    decreases n
  {
    if n > 0 && (a != 0 || b != 0) {
      XorBound(a / 2, b / 2, n - 1);
    }
  }

  function Pow2(n: nat): nat {
    if n == 0 then 1 else 2 * Pow2(n - 1)
  }

  function XorByte(a: Byte, b: Byte): Byte {
    assert Pow2(8) == 256 by {
      assert Pow2(4) == 16;
    }
    XorBound(a, b, 8);
    XorNat(a, b)
  }

  function Xor(s: seq<Byte>, t: seq<Byte>): (r: seq<Byte>)
    requires |s| == |t|
    ensures |r| == |s|
  {
    seq(|s|, i requires 0 <= i < |s| => XorByte(s[i], t[i]))
  }

  lemma XorTwice(s: seq<Byte>, t: seq<Byte>)
    requires |s| == |t|
    ensures Xor(Xor(s, t), t) == s
  {
    forall i | 0 <= i < |s|
      ensures Xor(Xor(s, t), t)[i] == s[i]
    {
      XorUndo(s[i], t[i]);
    }
  }

  /** The chaining value after the ciphertext `s`. */
  function NextIv(c: Cipher, iv: seq<Byte>, s: seq<Byte>): seq<Byte> {
    if |s| < c.size then iv else s[|s| - c.size..]
  }

  ghost predicate Whole(c: Cipher, iv: seq<Byte>, s: seq<Byte>) {
    IsCipher(c) && |iv| == c.size && |s| % c.size == 0
  }

  function Encrypt(c: Cipher, iv: seq<Byte>, p: seq<Byte>): (s: seq<Byte>)
    requires Whole(c, iv, p)
    ensures |s| == |p|
    decreases |p|
  {
    if p == [] then []
    else
      var b := c.enc(Xor(p[..c.size], iv));
      b + Encrypt(c, b, p[c.size..])
  }

  function Decrypt(c: Cipher, iv: seq<Byte>, s: seq<Byte>): (p: seq<Byte>)
    requires Whole(c, iv, s)
    ensures |p| == |s|
    decreases |s|
  {
    if s == [] then []
    else Xor(c.dec(s[..c.size]), iv) + Decrypt(c, s[..c.size], s[c.size..])
  }

  /** Block `j / size` of the ciphertext comes from that block of the plaintext and from the
      ciphertext before it, or the chaining value. */
  ghost predicate Chained(c: Cipher, iv: seq<Byte>, p: seq<Byte>, s: seq<Byte>, j: nat)
    requires IsCipher(c) && |iv| == c.size && j + c.size <= |p| == |s| && (j == 0 || j >= c.size)
  {
    s[j..j + c.size] == c.enc(Xor(p[j..j + c.size], if j == 0 then iv else s[j - c.size..j]))
  }

  /** Each block is encrypted together with the ciphertext of the block before it, the first
      one with the chaining value. */
  lemma {:induction false} BlocksAreChained(c: Cipher, iv: seq<Byte>, p: seq<Byte>, j: nat)
    requires Whole(c, iv, p) && j % c.size == 0 && j + c.size <= |p|
    ensures (j == 0 || j >= c.size) && Chained(c, iv, p, Encrypt(c, iv, p), j)
    decreases |p|
  {
    var b := c.enc(Xor(p[..c.size], iv));
    if j == 0 {
      assert Encrypt(c, iv, p)[..c.size] == b;
    } else {
      Behind(|p|, j, c.size);
      BlocksAreChained(c, b, p[c.size..], j - c.size);
      ChainedBehind(c, iv, p, Encrypt(c, b, p[c.size..]), j);
    }
  }

  lemma Behind(n: nat, j: nat, size: nat)
    requires (size == 8 || size == 16) && j % size == 0 && n % size == 0 && j > 0 && j + size <= n
    ensures j >= size && (j - size) % size == 0 && (n - size) % size == 0 && (j == size || j >= 2 * size)
  {
    Aligned(j, 0, size);
    Aligned(n, 0, size);
    Aligned(j - size, 0, size);
  }

  lemma ChainedBehind(c: Cipher, iv: seq<Byte>, p: seq<Byte>, t: seq<Byte>, j: nat)
    requires IsCipher(c) && |iv| == c.size && |p| == c.size + |t| && j + c.size <= |p|
    requires j == c.size || j >= 2 * c.size
    requires Chained(c, c.enc(Xor(p[..c.size], iv)), p[c.size..], t, j - c.size)
    ensures Chained(c, iv, p, c.enc(Xor(p[..c.size], iv)) + t, j)
  {
    var b, n := c.enc(Xor(p[..c.size], iv)), c.size;
    SliceBehind(b, t, j, j + n);
    SliceBehind(p[..n], p[n..], j, j + n);
    assert p == p[..n] + p[n..];
    if j == n {
      assert (b + t)[j - n..j] == b;
    } else {
      SliceBehind(b, t, j - n, j);
    }
  }

  lemma SliceBehind<T>(b: seq<T>, t: seq<T>, i: nat, k: nat)
    requires |b| <= i <= k <= |b| + |t|
    ensures (b + t)[i..k] == t[i - |b|..k - |b|]
  {
  }

  lemma {:induction false} DecryptEncrypt(c: Cipher, iv: seq<Byte>, p: seq<Byte>)
    requires Whole(c, iv, p)
    ensures Decrypt(c, iv, Encrypt(c, iv, p)) == p
    decreases |p|
  {
    if p != [] {
      var head := Xor(p[..c.size], iv);
      var b, s := c.enc(head), Encrypt(c, iv, p);
      XorTwice(p[..c.size], iv);
      DecryptEncrypt(c, b, p[c.size..]);
      assert s[..c.size] == b && s[c.size..] == Encrypt(c, b, p[c.size..]);
    }
  }

  lemma Aligned(a: nat, b: nat, k: nat)
    requires (k == 8 || k == 16) && a % k == 0 && b % k == 0
    ensures (a + b) % k == 0
    ensures a > 0 ==> a >= k && (a - k) % k == 0
  {
    if k == 8 {
      Aligned8(a, b);
    } else {
      Aligned16(a, b);
    }
  }

  lemma Aligned8(a: nat, b: nat)
    requires a % 8 == 0 && b % 8 == 0
    ensures (a + b) % 8 == 0 && (a > 0 ==> a >= 8 && (a - 8) % 8 == 0)
  {
  }

  lemma Aligned16(a: nat, b: nat)
    requires a % 16 == 0 && b % 16 == 0
    ensures (a + b) % 16 == 0 && (a > 0 ==> a >= 16 && (a - 16) % 16 == 0)
  {
  }

  /** Decrypting in two calls what was encrypted in one. */
  lemma {:induction false} DecryptInTwo(c: Cipher, iv: seq<Byte>, s: seq<Byte>, t: seq<Byte>)
    requires Whole(c, iv, s) && |t| % c.size == 0
    ensures Whole(c, iv, s + t) && |NextIv(c, iv, s)| == c.size
    ensures Decrypt(c, iv, s + t) == Decrypt(c, iv, s) + Decrypt(c, NextIv(c, iv, s), t)
    decreases |s|
  {
    Aligned(|s|, |t|, c.size);
    assert |s + t| == |s| + |t|;
    if s == [] {
      assert s + t == t;
    } else {
      var head, rest := s[..c.size], s[c.size..];
      DecryptInTwo(c, head, rest, t);
      NextIvOfRest(c, iv, s);
      Associate(head, rest, t);
      assert s == head + rest;
      FirstBlock(c, iv, s + t, head, rest + t);
      FirstBlock(c, iv, s, head, rest);
      Associate(Xor(c.dec(head), iv), Decrypt(c, head, rest), Decrypt(c, NextIv(c, iv, s), t));
    }
  }

  lemma FirstBlock(c: Cipher, iv: seq<Byte>, s: seq<Byte>, head: seq<Byte>, rest: seq<Byte>)
    requires Whole(c, iv, s) && |head| == c.size && s == head + rest
    ensures Whole(c, head, rest) && Decrypt(c, iv, s) == Xor(c.dec(head), iv) + Decrypt(c, head, rest)
  {
    Aligned(|s|, 0, c.size);
    assert s[..c.size] == head && s[c.size..] == rest;
  }

  lemma NextIvOfRest(c: Cipher, iv: seq<Byte>, s: seq<Byte>)
    requires Whole(c, iv, s) && s != []
    ensures |s| >= c.size && NextIv(c, s[..c.size], s[c.size..]) == NextIv(c, iv, s)
  {
    Aligned(|s|, 0, c.size);
    if |s| < 2 * c.size {
      assert s == s[..c.size];
    }
  }
}

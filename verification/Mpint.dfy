/** Multiple precision integers on the wire (libssh/dh.c: make_bignum_string and
    make_string_bn; section 5 of RFC 4251). */
module Mpint {
  import opened Bytes

  /** The minimal big-endian octets of a number, as bn2bin writes them. */
  function NatBytes(n: nat): (s: seq<Byte>) {
    if n == 0 then [] else NatBytes(n / 256) + [n % 256]
  }

  /** bin2bn */
  function BytesNat(s: seq<Byte>): nat {
    if s == [] then 0 else BytesNat(s[..|s| - 1]) * 256 + s[|s| - 1]
  }

  function NumBits(n: nat): nat {
    if n == 0 then 0 else 1 + NumBits(n / 2)
  }

  function NumBytes(n: nat): nat {
    (NumBits(n) + 7) / 8
  }

  /** The payload of make_bignum_string: an octet 0 goes before a leading 1 bit. */
  function Encode(n: nat): seq<Byte> {
    var bits := NumBits(n);
    var pad := if bits % 8 == 0 && BitSet(n, bits - 1) then 1 else 0;
    seq(pad, _ => 0) + NatBytes(n)
  }

  /** make_string_bn */
  function Decode(s: seq<Byte>): nat {
    BytesNat(s)
  }

  // ----- Octets and bits -----

  lemma {:induction false} BytesOfNat(n: nat)
    ensures BytesNat(NatBytes(n)) == n
  {
    if n != 0 {
      BytesOfNat(n / 256);
      var s := NatBytes(n);
      assert s[..|s| - 1] == NatBytes(n / 256);
    }
  }

  lemma {:induction false} ZeroInFront(s: seq<Byte>)
    ensures BytesNat([0] + s) == BytesNat(s)
  {
    if s == [] {
      assert [0] + s == [0] && [0][..0] == [];
      assert BytesNat([0]) == BytesNat([]) * 256 + 0;
    } else {
      ZeroInFront(s[..|s| - 1]);
      assert ([0] + s)[..|s|] == [0] + s[..|s| - 1];
    }
  }

  /** At the first place where the two differ the octet of `s` is smaller. */
  ghost predicate Smaller(s: seq<Byte>, t: seq<Byte>)
    requires |s| == |t|
  {
    exists k :: 0 <= k < |s| && s[..k] == t[..k] && s[k] < t[k]
  }

  lemma {:induction false} SomeDifference(s: seq<Byte>, t: seq<Byte>)
    requires |s| == |t| && s != t
    ensures Smaller(s, t) || Smaller(t, s)
  {
    var n := |s| - 1;
    if s[..n] == t[..n] {
      assert s == s[..n] + [s[n]] && t == t[..n] + [t[n]];
    } else {
      SomeDifference(s[..n], t[..n]);
      OneOctetMore(s, t);
      OneOctetMore(t, s);
    }
  }

  /** A last octet decides only when all before it are the same. */
  lemma OneOctetMore(s: seq<Byte>, t: seq<Byte>)
    requires |s| == |t| > 0
    ensures var n := |s| - 1;
      Smaller(s, t) <==> Smaller(s[..n], t[..n]) || (s[..n] == t[..n] && s[n] < t[n])
  {
    var n := |s| - 1;
    if k :| 0 <= k < |s| && s[..k] == t[..k] && s[k] < t[k] {
      if k < n {
        assert s[..n][..k] == s[..k] && t[..n][..k] == t[..k];
      }
    }
    if k :| 0 <= k < n && s[..n][..k] == t[..n][..k] && s[..n][k] < t[..n][k] {
      assert s[..k] == s[..n][..k] && t[..k] == t[..n][..k];
    }
  }

  /** The most significant octet comes first: of two strings of one length the one that is
      smaller at the first difference is the smaller number. */
  lemma {:induction false} NetworkOrder(s: seq<Byte>, t: seq<Byte>)
    requires |s| == |t|
    ensures BytesNat(s) < BytesNat(t) <==> Smaller(s, t)
    decreases |s|
  {
    if s != [] {
      var n := |s| - 1;
      OneOctetMore(s, t);
      NetworkOrder(s[..n], t[..n]);
      NetworkOrder(t[..n], s[..n]);
      if s[..n] != t[..n] {
        SomeDifference(s[..n], t[..n]);
      }
    }
  }

  /** Three views of the top octet: the bit count, the number of octets, the octet itself. */
  lemma {:induction false} TopOctet(n: nat)
    requires n > 0
    ensures NatBytes(n) != [] && 0 < NatBytes(n)[0]
    ensures NumBits(n) == 8 * (|NatBytes(n)| - 1) + NumBits(NatBytes(n)[0])
  {
    if n < 256 {
      assert NatBytes(n / 256) == [];
      assert NatBytes(n) == [n];
    } else {
      TopOctet(n / 256);
      assert NatBytes(n)[0] == NatBytes(n / 256)[0];
      FourBits(n);
      FourBits(n / 16);
      assert n / 16 / 16 == n / 256;
    }
  }

  lemma FourBits(n: nat)
    requires n >= 16
    ensures NumBits(n) == 4 + NumBits(n / 16)
  {
    var a := n / 2;
    var b := a / 2;
    var c := b / 2;
    assert NumBits(n) == 1 + NumBits(a);
    assert NumBits(a) == 1 + NumBits(b);
    assert NumBits(b) == 1 + NumBits(c);
    assert c / 2 == n / 16;
  }

  lemma Nibble(n: nat)
    requires n < 16
    ensures NumBits(n) <= 4 && (NumBits(n) == 4 <==> n >= 8)
  {
    var a := n / 2;
    var b := a / 2;
    assert n > 0 ==> NumBits(n) == 1 + NumBits(a);
    assert a > 0 ==> NumBits(a) == 1 + NumBits(b);
    assert b > 0 ==> NumBits(b) == 1 + NumBits(b / 2);
    assert NumBits(b / 2) == b / 2;
  }

  lemma OctetBits(b: nat)
    requires 0 < b < 256
    ensures 1 <= NumBits(b) <= 8 && (NumBits(b) == 8 <==> b >= 128)
  {
    if b < 16 {
      Nibble(b);
    } else {
      FourBits(b);
      Nibble(b / 16);
    }
  }

  lemma {:induction false} TopBitIsSet(n: nat)
    requires n > 0
    ensures BitSet(n, NumBits(n) - 1)
  {
    if n > 1 {
      TopBitIsSet(n / 2);
    }
  }

  /** The octet count of the bignum library is the length of what it writes. */
  lemma NumBytesIsLength(n: nat)
    ensures |NatBytes(n)| == NumBytes(n)
  {
    if n > 0 {
      TopOctet(n);
      OctetBits(NatBytes(n)[0]);
    }
  }

  lemma WholeOctets(k: int, t: int)
    requires 1 <= t <= 8
    ensures (8 * k + t) % 8 == 0 <==> t == 8
  {
  }

  /** The padding test of the code asks exactly whether the top octet has its high bit set. */
  lemma PadTest(n: nat)
    ensures (NumBits(n) % 8 == 0 && BitSet(n, NumBits(n) - 1)) <==> (n > 0 && NatBytes(n)[0] >= 128)
  {
    if n > 0 {
      TopOctet(n);
      OctetBits(NatBytes(n)[0]);
      TopBitIsSet(n);
      WholeOctets(|NatBytes(n)| - 1, NumBits(NatBytes(n)[0]));
    }
  }

  // ----- The encoding -----

  lemma EncodeShape(n: nat)
    ensures Encode(n) == if n > 0 && NatBytes(n)[0] >= 128 then [0] + NatBytes(n) else NatBytes(n)
  {
    PadTest(n);
  }

  /** Reading back what was written gives the number, for every natural number. */
  lemma DecodeEncode(n: nat)
    ensures Decode(Encode(n)) == n
  {
    EncodeShape(n);
    BytesOfNat(n);
    ZeroInFront(NatBytes(n));
  }

  /** Section 5 of RFC 4251 for numbers that are not negative: the high bit is clear, there is
      no unneeded leading octet 0, and zero is the empty string. */
  predicate Canonical(s: seq<Byte>) {
    s == [] || (s[0] < 128 && (s[0] == 0 ==> |s| > 1 && s[1] >= 128))
  }

  lemma EncodeIsCanonical(n: nat)
    ensures Canonical(Encode(n))
    ensures Encode(n) == [] <==> n == 0
    ensures |Encode(n)| == NumBytes(n) + (if n > 0 && Encode(n)[0] == 0 then 1 else 0)
  {
    EncodeShape(n);
    NumBytesIsLength(n);
    if n > 0 {
      TopOctet(n);
    }
  }

  lemma DistinctNumbersEncodeDifferently(m: nat, n: nat)
    ensures Encode(m) == Encode(n) <==> m == n
  {
    DecodeEncode(m);
    DecodeEncode(n);
  }

  lemma {:induction false} BytesOfBytes(s: seq<Byte>)
    requires s == [] || s[0] > 0
    ensures NatBytes(BytesNat(s)) == s
    ensures s != [] ==> BytesNat(s) > 0
  {
    if s != [] {
      var front := s[..|s| - 1];
      assert s == front + [s[|s| - 1]];
      BytesOfBytes(front);
      var v: int := BytesNat(front);
      var last: int := s[|s| - 1];
      assert (v * 256 + last) / 256 == v && (v * 256 + last) % 256 == last;
    }
  }

  /** The octet strings that survive reading and writing are exactly the canonical ones. */
  lemma EncodeDecode(s: seq<Byte>)
    ensures Encode(Decode(s)) == s <==> Canonical(s)
  {
    EncodeIsCanonical(Decode(s));
    if Canonical(s) {
      EncodeShape(Decode(s));
      if s != [] && s[0] == 0 {
        assert s == [0] + s[1..];
        ZeroInFront(s[1..]);
        BytesOfBytes(s[1..]);
      } else {
        BytesOfBytes(s);
      }
    }
  }
}

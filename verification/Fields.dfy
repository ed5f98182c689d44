/** The field codec of the wire format: what buffer_add_* appends and buffer_get_* takes off
    (libssh/buffer.c and libssh/string.c; section 5 of RFC 4251). */
module Fields {
  import opened Bytes
  import Mpint

  const U64 := 0x1_0000_0000_0000_0000

  type Uint64 = n: int | 0 <= n < U64

  /** A length in network order, then the octets. */
  function WireString(s: seq<Byte>): seq<Byte> {
    U32ToBytes(ToUint32(|s|)) + s
  }

  function U64ToBytes(n: Uint64): (s: seq<Byte>)
    ensures |s| == 8
  {
    U32ToBytes(n / U32) + U32ToBytes(n % U32)
  }

  function BytesToU64(s: seq<Byte>): Uint64
    requires |s| == 8
  {
    var high: int, low: int := BytesToU32(s[..4]), BytesToU32(s[4..]);
    high * U32 + low
  }

  lemma U64RoundTrip(n: Uint64)
    ensures BytesToU64(U64ToBytes(n)) == n
  {
    U32RoundTrip(n / U32);
    U32RoundTrip(n % U32);
    assert U64ToBytes(n)[..4] == U32ToBytes(n / U32);
    assert U64ToBytes(n)[4..] == U32ToBytes(n % U32);
  }

  lemma Bytes64RoundTrip(s: seq<Byte>)
    requires |s| == 8
    ensures U64ToBytes(BytesToU64(s)) == s
  {
    BytesRoundTrip(s[..4]);
    BytesRoundTrip(s[4..]);
    var high: int, low: int := BytesToU32(s[..4]), BytesToU32(s[4..]);
    assert (high * U32 + low) / U32 == high && (high * U32 + low) % U32 == low;
    assert s == s[..4] + s[4..];
  }

  /** What is read of four or eight octets is the number that bin2bn reads. */
  lemma U32IsNumber(s: seq<Byte>)
    requires |s| == 4
    ensures BytesToU32(s) == Mpint.BytesNat(s)
  {
    assert s[..3][..2] == s[..2] && s[..2][..1] == s[..1] && s[..1][..0] == [];
    assert Mpint.BytesNat(s[..1]) == 0 * 256 + s[0];
    assert Mpint.BytesNat(s[..2]) == Mpint.BytesNat(s[..1]) * 256 + s[1];
    assert Mpint.BytesNat(s[..3]) == Mpint.BytesNat(s[..2]) * 256 + s[2];
  }

  lemma U64IsNumber(s: seq<Byte>)
    requires |s| == 8
    ensures BytesToU64(s) == Mpint.BytesNat(s)
  {
    U32IsNumber(s[..4]);
    U32IsNumber(s[4..]);
    FourMore(s[..4], s[4..]);
    assert s == s[..4] + s[4..];
  }

  lemma FourMore(s: seq<Byte>, t: seq<Byte>)
    requires |t| == 4
    ensures Mpint.BytesNat(s + t) == Mpint.BytesNat(s) * U32 + Mpint.BytesNat(t)
  {
    U32IsNumber(t);
    OneMore(s, t[0]);
    OneMore(s + [t[0]], t[1]);
    OneMore(s + [t[0]] + [t[1]], t[2]);
    OneMore(s + [t[0]] + [t[1]] + [t[2]], t[3]);
    assert s + t == s + [t[0]] + [t[1]] + [t[2]] + [t[3]];
  }

  lemma OneMore(s: seq<Byte>, b: Byte)
    ensures Mpint.BytesNat(s + [b]) == Mpint.BytesNat(s) * 256 + b
  {
    assert (s + [b])[..|s|] == s;
  }

  /** Numbers are written in network order: a smaller one is smaller at the first octet in
      which they differ. */
  lemma NetworkOrder(m: Uint32, n: Uint32)
    ensures m < n <==> Mpint.Smaller(U32ToBytes(m), U32ToBytes(n))
  {
    U32RoundTrip(m);
    U32RoundTrip(n);
    U32IsNumber(U32ToBytes(m));
    U32IsNumber(U32ToBytes(n));
    Mpint.NetworkOrder(U32ToBytes(m), U32ToBytes(n));
  }

  lemma NetworkOrder64(m: Uint64, n: Uint64)
    ensures m < n <==> Mpint.Smaller(U64ToBytes(m), U64ToBytes(n))
  {
    U64RoundTrip(m);
    U64RoundTrip(n);
    U64IsNumber(U64ToBytes(m));
    U64IsNumber(U64ToBytes(n));
    Mpint.NetworkOrder(U64ToBytes(m), U64ToBytes(n));
  }

  datatype Kind = KindU8 | KindU32 | KindU64 | KindString

  datatype Field = U8(octet: Byte) | Word(word: Uint32) | Long(long: Uint64) | Text(text: seq<Byte>) {
    function KindOf(): Kind {
      match this
      case U8(_) => KindU8
      case Word(_) => KindU32
      case Long(_) => KindU64
      case Text(_) => KindString
    }

    /** A string is as long as its 32-bit length says. */
    predicate Fits() {
      Text? ==> |text| < U32
    }

    function Encode(): seq<Byte> {
      match this
      case U8(b) => [b]
      case Word(n) => U32ToBytes(n)
      case Long(n) => U64ToBytes(n)
      case Text(s) => WireString(s)
    }
  }

  /** One field taken off the front of `s`: buffer_get_u8, _u32, _u64 or _ssh_string. */
  function Take(kind: Kind, s: seq<Byte>): Option<Field> {
    match kind
    case KindU8 => if |s| < 1 then None else Some(U8(s[0]))
    case KindU32 => if |s| < 4 then None else Some(Word(BytesToU32(s[..4])))
    case KindU64 => if |s| < 8 then None else Some(Long(BytesToU64(s[..8])))
    case KindString =>
      if |s| < 4 || |s| < 4 + BytesToU32(s[..4]) then None
      else Some(Text(s[4..4 + BytesToU32(s[..4])]))
  }

  function EncodeAll(fields: seq<Field>): seq<Byte> {
    if fields == [] then [] else fields[0].Encode() + EncodeAll(fields[1..])
  }

  function Kinds(fields: seq<Field>): seq<Kind> {
    if fields == [] then [] else [fields[0].KindOf()] + Kinds(fields[1..])
  }

  /** The layout of a string: its length in network order, then its octets. */
  lemma StringLayout(s: seq<Byte>)
    requires |s| < U32
    ensures Mpint.BytesNat(WireString(s)[..4]) == |s| && WireString(s)[4..] == s
  {
    assert WireString(s)[..4] == U32ToBytes(ToUint32(|s|));
    U32RoundTrip(ToUint32(|s|));
    U32IsNumber(WireString(s)[..4]);
  }

  lemma TakeEncoded(f: Field, rest: seq<Byte>)
    requires f.Fits()
    ensures Take(f.KindOf(), f.Encode() + rest) == Some(f)
  {
    var s := f.Encode() + rest;
    match f
    case U8(b) =>
    case Word(n) =>
      U32RoundTrip(n);
      assert s[..4] == U32ToBytes(n);
    case Long(n) =>
      U64RoundTrip(n);
      assert s[..8] == U64ToBytes(n);
    case Text(t) =>
      U32RoundTrip(ToUint32(|t|));
      assert s[..4] == U32ToBytes(ToUint32(|t|));
      assert s[4..4 + |t|] == t;
  }

  lemma TakenIsEncoded(kind: Kind, s: seq<Byte>, f: Field)
    requires Take(kind, s) == Some(f)
    ensures f.KindOf() == kind && f.Fits() && f.Encode() <= s
  {
    match kind
    case KindU8 =>
    case KindU32 => BytesRoundTrip(s[..4]);
    case KindU64 => Bytes64RoundTrip(s[..8]);
    case KindString => TextIsEncoded(s, BytesToU32(s[..4]));
  }

  lemma TextIsEncoded(s: seq<Byte>, n: Uint32)
    requires |s| >= 4 + n && n == BytesToU32(s[..4])
    ensures WireString(s[4..4 + n]) == s[..4 + n]
  {
    BytesRoundTrip(s[..4]);
    assert s[..4 + n] == s[..4] + s[4..4 + n];
  }

  /** A field of this kind is read exactly when its encoding stands at the front. */
  lemma TakeMeaning(kind: Kind, s: seq<Byte>, f: Field)
    ensures Take(kind, s) == Some(f) <==> f.KindOf() == kind && f.Fits() && f.Encode() <= s
  {
    if f.KindOf() == kind && f.Fits() && f.Encode() <= s {
      assert s == f.Encode() + s[|f.Encode()|..];
      TakeEncoded(f, s[|f.Encode()|..]);
    }
    if Take(kind, s) == Some(f) {
      TakenIsEncoded(kind, s, f);
    }
  }

  /** The fields of the given kinds in order, or None when one of them is not there. */
  function TakeAll(kinds: seq<Kind>, s: seq<Byte>): Option<seq<Field>> {
    if kinds == [] then Some([])
    else
      var first := Take(kinds[0], s);
      if first.None? then None
      else
        TakenIsEncoded(kinds[0], s, first.value);
        var others := TakeAll(kinds[1..], s[|first.value.Encode()|..]);
        if others.None? then None else Some([first.value] + others.value)
  }

  ghost predicate AllFit(fields: seq<Field>) {
    forall f <- fields :: f.Fits()
  }

  lemma TakeAllStep(kinds: seq<Kind>, f: Field, others: seq<Field>, tail: seq<Byte>)
    requires f.Fits() && TakeAll(kinds, tail) == Some(others)
    ensures TakeAll([f.KindOf()] + kinds, f.Encode() + tail) == Some([f] + others)
  {
    var s := f.Encode() + tail;
    TakeEncoded(f, tail);
    assert s[|f.Encode()|..] == tail;
    assert ([f.KindOf()] + kinds)[1..] == kinds;
  }

  /** Any list of fields is read back in order, whatever octets are behind it. */
  lemma {:induction false} TakeAllEncoded(fields: seq<Field>, rest: seq<Byte>)
    requires AllFit(fields)
    ensures TakeAll(Kinds(fields), EncodeAll(fields) + rest) == Some(fields)
  {
    if fields == [] {
      assert Kinds(fields) == [];
    } else {
      var others := fields[1..];
      TakeAllEncoded(others, rest);
      TakeAllStep(Kinds(others), fields[0], others, EncodeAll(others) + rest);
      Associate(fields[0].Encode(), EncodeAll(others), rest);
      assert fields == [fields[0]] + others;
    }
  }

  lemma {:induction false} TakenAllIsEncoded(kinds: seq<Kind>, s: seq<Byte>, fields: seq<Field>)
    requires TakeAll(kinds, s) == Some(fields)
    ensures Kinds(fields) == kinds && AllFit(fields) && EncodeAll(fields) <= s
  {
    if kinds != [] {
      var f := Take(kinds[0], s).value;
      TakenIsEncoded(kinds[0], s, f);
      var n := |f.Encode()|;
      TakenAllIsEncoded(kinds[1..], s[n..], fields[1..]);
      assert fields == [f] + fields[1..];
      PrefixJoin(f.Encode(), EncodeAll(fields[1..]), s);
    }
  }

  lemma PrefixJoin<T>(a: seq<T>, b: seq<T>, s: seq<T>)
    requires a <= s && b <= s[|a|..]
    ensures a + b <= s
  {
    assert s == a + s[|a|..];
  }

  /** Fields are read exactly when their encodings stand one after the other at the front. */
  lemma TakeAllMeaning(kinds: seq<Kind>, s: seq<Byte>, fields: seq<Field>)
    ensures TakeAll(kinds, s) == Some(fields) <==> Kinds(fields) == kinds && AllFit(fields) && EncodeAll(fields) <= s
  {
    if Kinds(fields) == kinds && AllFit(fields) && EncodeAll(fields) <= s {
      assert s == EncodeAll(fields) + s[|EncodeAll(fields)|..];
      TakeAllEncoded(fields, s[|EncodeAll(fields)|..]);
    }
    if TakeAll(kinds, s) == Some(fields) {
      TakenAllIsEncoded(kinds, s, fields);
    }
  }

  /** What was read is what its encoding says: two field lists of the same kinds with the same
      octets are the same list. */
  lemma EncodingIsUnique(a: seq<Field>, b: seq<Field>)
    requires AllFit(a) && AllFit(b) && Kinds(a) == Kinds(b)
    ensures EncodeAll(a) == EncodeAll(b) <==> a == b
  {
    TakeAllEncoded(a, []);
    TakeAllEncoded(b, []);
    assert EncodeAll(a) + [] == EncodeAll(a) && EncodeAll(b) + [] == EncodeAll(b);
  }

  lemma {:induction false} EncodeAllAppend(fields: seq<Field>, f: Field)
    ensures EncodeAll(fields + [f]) == EncodeAll(fields) + f.Encode()
  {
    if fields == [] {
      assert [f][1..] == [];
    } else {
      assert (fields + [f])[1..] == fields[1..] + [f];
      EncodeAllAppend(fields[1..], f);
    }
  }

  lemma {:induction false} KindsAppend(fields: seq<Field>, f: Field)
    ensures Kinds(fields + [f]) == Kinds(fields) + [f.KindOf()]
  {
    if fields == [] {
      assert [f][1..] == [];
    } else {
      assert (fields + [f])[1..] == fields[1..] + [f];
      KindsAppend(fields[1..], f);
    }
  }

  lemma TwoMore(fields: seq<Field>, f: Field, g: Field)
    ensures EncodeAll(fields + [f, g]) == EncodeAll(fields) + f.Encode() + g.Encode()
    ensures Kinds(fields + [f, g]) == Kinds(fields) + [f.KindOf(), g.KindOf()]
  {
    assert fields + [f, g] == fields + [f] + [g];
    EncodeAllAppend(fields, f);
    EncodeAllAppend(fields + [f], g);
    KindsAppend(fields, f);
    KindsAppend(fields + [f], g);
    assert Kinds(fields) + [f.KindOf()] + [g.KindOf()] == Kinds(fields) + [f.KindOf(), g.KindOf()];
  }

  /** One field and then the others. */
  lemma TakenInFront(kinds: seq<Kind>, s: seq<Byte>, f: Field, others: seq<Field>, tail: seq<Byte>)
    requires kinds != [] && Take(kinds[0], s) == Some(f) && f.Encode() <= s
    requires TakeAll(kinds[1..], s[|f.Encode()|..]) == Some(others)
    requires s[|f.Encode()|..] == EncodeAll(others) + tail
    ensures TakeAll(kinds, s) == Some([f] + others)
    ensures s == EncodeAll([f] + others) + tail
  {
    assert ([f] + others)[1..] == others;
    assert s == f.Encode() + s[|f.Encode()|..];
    Associate(f.Encode(), EncodeAll(others), tail);
  }
}

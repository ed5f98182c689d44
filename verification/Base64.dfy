/** Base64 (libssh/base64.c; section 4 of RFC 4648). The disjoint bit fields of the code are
    written as sums, quotients and remainders. */
module Base64 {
  import opened Bytes

  type Sextet = v: int | 0 <= v < 64

  // ----- Octets and sextets -----

  function Second(a: Byte, b: Byte): Sextet { b / 16 + a % 4 * 16 }

  function Third(b: Byte, c: Byte): Sextet { c / 64 + b % 16 * 4 }

  function Sextets(s: seq<Byte>): seq<Sextet> {
    if s == [] then []
    else if |s| == 1 then [s[0] / 4, s[0] % 4 * 16]
    else if |s| == 2 then [s[0] / 4, Second(s[0], s[1]), s[1] % 16 * 4]
    else [s[0] / 4, Second(s[0], s[1]), Third(s[1], s[2]), s[2] % 64] + Sextets(s[3..])
  }

  function FirstOctet(a: Sextet, b: Sextet): Byte {
    var high: int := a;
    high * 4 + b / 16
  }

  function SecondOctet(b: Sextet, c: Sextet): Byte {
    var high: int := b % 16;
    high * 16 + c / 4
  }

  function ThirdOctet(c: Sextet, d: Sextet): Byte {
    var high: int := c % 4;
    high * 64 + d
  }

  /** How many of `n` sextets the last, short group has: the remainder by four. */
  function Left(n: nat): (r: nat)
    ensures r < 4
  {
    if n < 4 then n else Left(n - 4)
  }

  lemma {:induction false} LeftIsRemainder(n: nat)
    ensures Left(n) == n % 4
  {
    if n >= 4 {
      LeftIsRemainder(n - 4);
    }
  }

  lemma {:induction false} LeftBehindGroups(n: nat, ptr: nat)
    requires ptr <= n && Left(ptr) == 0
    ensures Left(n) == Left(n - ptr)
  {
    if ptr >= 4 {
      LeftBehindGroups(n - 4, ptr - 4);
    }
  }

  /** Whole octets only: a last group of two or three sextets gives one or two. */
  function Octets(v: seq<Sextet>): seq<Byte> {
    if |v| < 2 then []
    else if |v| == 2 then [FirstOctet(v[0], v[1])]
    else if |v| == 3 then [FirstOctet(v[0], v[1]), SecondOctet(v[1], v[2])]
    else [FirstOctet(v[0], v[1]), SecondOctet(v[1], v[2]), ThirdOctet(v[2], v[3])] + Octets(v[4..])
  }

  /** The equals signs that fill the last group up. */
  function Padding(group: nat): string {
    if group == 2 then "==" else if group == 3 then "=" else ""
  }

  lemma SextetsInFront(s: seq<Byte>)
    requires |s| >= 3
    ensures Sextets(s) == [s[0] / 4, Second(s[0], s[1]), Third(s[1], s[2]), s[2] % 64] + Sextets(s[3..])
    ensures |Sextets(s)| == 4 + |Sextets(s[3..])| && Sextets(s)[4..] == Sextets(s[3..])
  {
  }

  lemma ShortLengths(s: seq<Byte>)
    requires |s| < 3
    ensures |Sextets(s)| == if s == [] then 0 else |s| + 1
  {
  }

  lemma OneGroupMore(n: nat)
    requires n >= 3
    ensures (n + 2) / 3 == (n - 3 + 2) / 3 + 1
  {
  }

  lemma {:induction false} HowMany(s: seq<Byte>)
    ensures Left(|Sextets(s)|) != 1
    ensures |Sextets(s)| + |Padding(Left(|Sextets(s)|))| == 4 * ((|s| + 2) / 3)
  {
    if |s| >= 3 {
      HowMany(s[3..]);
      SextetsInFront(s);
      OneGroupMore(|s|);
    } else {
      ShortLengths(s);
    }
  }

  lemma {:induction false} OctetsSextets(s: seq<Byte>)
    ensures Octets(Sextets(s)) == s
  {
    if s == [] {
    } else if |s| < 3 {
      ShortGroup(s);
    } else {
      OctetsSextets(s[3..]);
      SextetsInFront(s);
      OctetsInFront(Sextets(s));
      ThreeOctets(s[0], s[1], s[2]);
      assert s == [s[0], s[1], s[2]] + s[3..];
    }
  }

  lemma ShortGroup(s: seq<Byte>)
    requires 1 <= |s| < 3
    ensures Octets(Sextets(s)) == s
  {
    if |s| == 1 {
      ThreeOctets(s[0], 0, 0);
    } else {
      ThreeOctets(s[0], s[1], 0);
    }
  }

  lemma ThreeOctets(a: Byte, b: Byte, c: Byte)
    ensures FirstOctet(a / 4, Second(a, b)) == a
    ensures SecondOctet(Second(a, b), Third(b, c)) == b
    ensures ThirdOctet(Third(b, c), c % 64) == c
  {
  }

  /** The element at `i`, or the zero bits that fill a short last group up. */
  function OrZero(s: seq<int>, i: nat): int {
    if i < |s| then s[i] else 0
  }

  /** Group `k` as one number of 24 bits: three octets and four sextets, most significant first. */
  lemma {:induction false} SextetsAreBits(s: seq<Byte>, k: nat)
    requires 3 * k < |s|
    ensures 4 * k < |Sextets(s)|
    ensures var v := Sextets(s);
      (OrZero(s, 3 * k) * 256 + OrZero(s, 3 * k + 1)) * 256 + OrZero(s, 3 * k + 2)
      == ((OrZero(v, 4 * k) * 64 + OrZero(v, 4 * k + 1)) * 64 + OrZero(v, 4 * k + 2)) * 64 + OrZero(v, 4 * k + 3)
    decreases k
  {
    if k == 0 {
      FirstGroupIsBits(s);
    } else {
      SextetsInFront(s);
      SextetsAreBits(s[3..], k - 1);
      GroupsBehind(s, Sextets(s), k);
    }
  }

  lemma GroupsBehind(s: seq<int>, v: seq<int>, k: nat)
    requires k > 0 && |s| >= 3 && |v| >= 4
    ensures var n := 3 * (k - 1);
      && OrZero(s, 3 * k) == OrZero(s[3..], n) && OrZero(s, 3 * k + 1) == OrZero(s[3..], n + 1)
      && OrZero(s, 3 * k + 2) == OrZero(s[3..], n + 2)
    ensures var n := 4 * (k - 1);
      && OrZero(v, 4 * k) == OrZero(v[4..], n) && OrZero(v, 4 * k + 1) == OrZero(v[4..], n + 1)
      && OrZero(v, 4 * k + 2) == OrZero(v[4..], n + 2) && OrZero(v, 4 * k + 3) == OrZero(v[4..], n + 3)
  {
  }

  lemma FirstGroupIsBits(s: seq<Byte>)
    requires s != []
    ensures Sextets(s) != []
    ensures var v := Sextets(s);
      (OrZero(s, 0) * 256 + OrZero(s, 1)) * 256 + OrZero(s, 2)
      == ((OrZero(v, 0) * 64 + OrZero(v, 1)) * 64 + OrZero(v, 2)) * 64 + OrZero(v, 3)
  {
    GroupBits(s[0], OrZero(s, 1), OrZero(s, 2));
  }

  lemma GroupBits(a: Byte, b: Byte, c: Byte)
    ensures (a * 256 + b) * 256 + c == ((a / 4 * 64 + Second(a, b)) * 64 + Third(b, c)) * 64 + c % 64
  {
  }

  /** The bits of a short last group that no octet takes are zero. */
  predicate NoSpareBits(v: seq<Sextet>) {
    && (Left(|v|) == 2 ==> v[|v| - 1] % 16 == 0)
    && (Left(|v|) == 3 ==> v[|v| - 1] % 4 == 0)
  }

  lemma {:induction false} SextetsOctets(v: seq<Sextet>)
    requires Left(|v|) != 1
    ensures Sextets(Octets(v)) == v <==> NoSpareBits(v)
  {
    if v == [] {
    } else if |v| == 2 {
      assert v == [v[0], v[1]];
      TwoSextets(v[0], v[1]);
    } else if |v| == 3 {
      assert v == [v[0], v[1], v[2]];
      ThreeSextets(v[0], v[1], v[2]);
    } else {
      SextetsOctets(v[4..]);
      SextetsOctetsStep(v);
      assert v == v[..4] + v[4..];
      SameTail(v[..4], Sextets(Octets(v[4..])), v[4..]);
      SpareBitsOfTail(v);
    }
  }

  lemma SpareBitsOfTail(v: seq<Sextet>)
    requires |v| >= 4
    ensures NoSpareBits(v) <==> NoSpareBits(v[4..])
  {
    assert |v| > 4 ==> v[4..][|v| - 5] == v[|v| - 1];
  }

  lemma SextetsOctetsStep(v: seq<Sextet>)
    requires |v| >= 4
    ensures Sextets(Octets(v)) == v[..4] + Sextets(Octets(v[4..]))
  {
    GroupInFront(v[0], v[1], v[2], v[3], Octets(v[4..]));
    OctetsInFront(v);
    assert v[..4] == [v[0], v[1], v[2], v[3]];
  }

  lemma OctetsInFront(v: seq<Sextet>)
    requires |v| >= 4
    ensures Octets(v) == [FirstOctet(v[0], v[1]), SecondOctet(v[1], v[2]), ThirdOctet(v[2], v[3])] + Octets(v[4..])
  {
  }

  lemma GroupInFront(a: Sextet, b: Sextet, c: Sextet, d: Sextet, rest: seq<Byte>)
    ensures Sextets([FirstOctet(a, b), SecondOctet(b, c), ThirdOctet(c, d)] + rest) == [a, b, c, d] + Sextets(rest)
  {
    FourSextets(a, b, c, d);
    var s := [FirstOctet(a, b), SecondOctet(b, c), ThirdOctet(c, d)] + rest;
    assert s[3..] == rest;
  }

  lemma SameTail<T>(head: seq<T>, a: seq<T>, b: seq<T>)
    ensures head + a == head + b <==> a == b
  {
    assert (head + a)[|head|..] == a && (head + b)[|head|..] == b;
  }

  lemma TwoSextets(a: Sextet, b: Sextet)
    ensures Sextets(Octets([a, b])) == [a, b] <==> b % 16 == 0
  {
    var s := Octets([a, b]);
    FourSextets(a, b, 0, 0);
    assert Sextets(s) == [a, b / 16 * 16];
    assert Sextets(s)[1] == b <==> b % 16 == 0;
  }

  lemma ThreeSextets(a: Sextet, b: Sextet, c: Sextet)
    ensures Sextets(Octets([a, b, c])) == [a, b, c] <==> c % 4 == 0
  {
    var s := Octets([a, b, c]);
    FourSextets(a, b, c, 0);
    assert Sextets(s) == [a, b, c / 4 * 4];
    assert Sextets(s)[2] == c <==> c % 4 == 0;
  }

  lemma FourSextets(a: Sextet, b: Sextet, c: Sextet, d: Sextet)
    ensures FirstOctet(a, b) / 4 == a && FirstOctet(a, b) % 4 == b / 16
    ensures Second(FirstOctet(a, b), SecondOctet(b, c)) == b
    ensures SecondOctet(b, c) % 16 == c / 4
    ensures Third(SecondOctet(b, c), ThirdOctet(c, d)) == c && ThirdOctet(c, d) % 64 == d
  {
  }

  // ----- Sextets and characters -----

  /** The capital letters, the small letters, the ten digits, plus and slash. */
  function Digit(v: Sextet): char {
    if v < 26 then 'A' + v as char
    else if v < 52 then 'a' + (v - 26) as char
    else if v < 62 then '0' + (v - 52) as char
    else if v == 62 then '+' else '/'
  }

  /** Table 1 of RFC 4648, by the numbers of the characters. */
  lemma DigitTable(v: Sextet)
    ensures Digit(v) as int ==
      if v < 26 then 65 + v else if v < 52 then 71 + v else if v < 62 then v - 4 else if v == 62 then 43 else 47
  {
  }

  predicate IsDigit(c: char) {
    'A' <= c <= 'Z' || 'a' <= c <= 'z' || '0' <= c <= '9' || c == '+' || c == '/'
  }

  function Value(c: char): Sextet
    requires IsDigit(c)
  {
    if 'A' <= c <= 'Z' then (c - 'A') as int
    else if 'a' <= c <= 'z' then (c - 'a') as int + 26
    else if '0' <= c <= '9' then (c - '0') as int + 52
    else if c == '+' then 62 else 63
  }

  lemma DigitValue(v: Sextet)
    ensures IsDigit(Digit(v)) && Value(Digit(v)) == v
  {
  }

  lemma ValueDigit(c: char)
    requires IsDigit(c)
    ensures Digit(Value(c)) == c && c != '='
  {
  }

  function Alphabet(): string {
    seq(64, i requires 0 <= i < 64 => Digit(i))
  }

  /** strchr: the first place at or behind `i` where `c` stands, or -1. */
  function Strchr(s: string, c: char, i: nat): (k: int)
    requires i <= |s|
    ensures k == -1 || (i <= k < |s| && s[k] == c)
    ensures forall j :: i <= j < (if k == -1 then |s| else k) ==> s[j] != c
    decreases |s| - i
  {
    if i == |s| then -1 else if s[i] == c then i else Strchr(s, c, i + 1)
  }

  /** Looking a character up in the alphabet gives its value. */
  lemma Lookup(c: char)
    ensures Strchr(Alphabet(), c, 0) == if IsDigit(c) then Value(c) else -1
  {
    var k := Strchr(Alphabet(), c, 0);
    if IsDigit(c) {
      ValueDigit(c);
      assert Alphabet()[Value(c)] == c;
      DigitValue(k);
    } else if k != -1 {
      DigitValue(k);
    }
  }

  predicate AllDigits(s: string) {
    forall i :: 0 <= i < |s| ==> IsDigit(s[i])
  }

  function Chars(v: seq<Sextet>): (s: string)
    ensures |s| == |v| && forall i :: 0 <= i < |v| ==> s[i] == Digit(v[i])
  {
    seq(|v|, i requires 0 <= i < |v| => Digit(v[i]))
  }

  function Values(s: string): (v: seq<Sextet>)
    requires AllDigits(s)
    ensures |v| == |s| && forall i :: 0 <= i < |v| ==> v[i] == Value(s[i])
  {
    seq(|s|, i requires 0 <= i < |s| => Value(s[i]))
  }

  lemma ValuesChars(v: seq<Sextet>)
    ensures AllDigits(Chars(v)) && Values(Chars(v)) == v
  {
    forall i | 0 <= i < |v| ensures IsDigit(Chars(v)[i]) && Value(Chars(v)[i]) == v[i] {
      DigitValue(v[i]);
    }
  }

  lemma CharsValues(s: string)
    requires AllDigits(s)
    ensures Chars(Values(s)) == s
  {
    forall i | 0 <= i < |s| ensures Chars(Values(s))[i] == s[i] {
      ValueDigit(s[i]);
    }
  }

  lemma NoEquals(s: string)
    requires AllDigits(s)
    ensures '=' !in s
  {
    forall i | 0 <= i < |s| ensures s[i] != '=' {
      ValueDigit(s[i]);
    }
  }

  // ----- The codec -----

  function Encode(s: seq<Byte>): string {
    Chars(Sextets(s)) + Padding(Left(|Sextets(s)|))
  }

  function CountEquals(s: string): nat {
    if s == "" then 0 else (if s[0] == '=' then 1 else 0) + CountEquals(s[1..])
  }

  /** What stands before the first equals sign. */
  function Prefix(s: string): (p: string)
    ensures p <= s && '=' !in p
    ensures p != s ==> s[|p|] == '='
  {
    if s == "" || s[0] == '=' then "" else [s[0]] + Prefix(s[1..])
  }

  /** The texts that the decoder takes: digits only before the first equals sign, and as many
      equals signs anywhere as the last group asks for. What else stands behind the first
      equals sign is not looked at. */
  predicate Accepted(s: string) {
    var p := Prefix(s);
    p != "" && AllDigits(p) && Left(|p|) != 1 && CountEquals(s) == |Padding(Left(|p|))|
  }

  function Decode(s: string): Option<seq<Byte>> {
    if Accepted(s) then Some(Octets(Values(Prefix(s)))) else None
  }

  lemma {:induction false} PrefixOf(p: string, rest: string)
    requires '=' !in p && (rest == "" || rest[0] == '=')
    ensures Prefix(p + rest) == p && CountEquals(p + rest) == CountEquals(rest)
  {
    if p == "" {
      assert p + rest == rest;
    } else {
      assert (p + rest)[1..] == p[1..] + rest;
      PrefixOf(p[1..], rest);
    }
  }

  lemma CountPadding(group: nat)
    ensures CountEquals(Padding(group)) == |Padding(group)|
  {
    assert "=="[1..] == "=" && "="[1..] == "";
  }

  lemma PrefixOfEncoded(v: seq<Sextet>)
    ensures Prefix(Chars(v) + Padding(Left(|v|))) == Chars(v)
    ensures CountEquals(Chars(v) + Padding(Left(|v|))) == |Padding(Left(|v|))|
  {
    ValuesChars(v);
    NoEquals(Chars(v));
    PrefixOf(Chars(v), Padding(Left(|v|)));
    CountPadding(Left(|v|));
  }

  /** Characters without an equals sign and then `k` of them are taken exactly when they are
      digits, at least one, at most two equals signs follow, and all are a multiple of four. */
  lemma PaddingDecides(p: string, k: nat)
    requires '=' !in p
    ensures Decode(p + seq(k, _ => '=')).Some? <==> p != "" && AllDigits(p) && k <= 2 && (|p| + k) % 4 == 0
  {
    var signs := seq(k, _ => '=');
    PrefixOf(p, signs);
    CountSigns(signs);
    LeftIsRemainder(|p|);
  }

  lemma {:induction false} CountSigns(s: string)
    requires forall i :: 0 <= i < |s| ==> s[i] == '='
    ensures CountEquals(s) == |s|
  {
    if s != "" {
      CountSigns(s[1..]);
    }
  }

  /** Every string of octets but the empty one comes back; the text of the empty one is refused. */
  lemma DecodeEncode(s: seq<Byte>)
    ensures Decode(Encode(s)) == if s == [] then None else Some(s)
  {
    PrefixOfEncoded(Sextets(s));
    ValuesChars(Sextets(s));
    OctetsSextets(s);
    HowMany(s);
  }

  lemma EncodedLength(s: seq<Byte>)
    ensures |Encode(s)| == 4 * ((|s| + 2) / 3)
  {
    HowMany(s);
  }

  /** A text that the decoder takes is the encoding of what it decodes to exactly when nothing
      but the padding stands behind the digits and the spare bits are zero. */
  lemma EncodeDecode(s: string)
    requires Accepted(s)
    ensures Encode(Decode(s).value) == s <==>
      s == Prefix(s) + Padding(Left(|Prefix(s)|)) && NoSpareBits(Values(Prefix(s)))
  {
    var v := Values(Prefix(s));
    SextetsOctets(v);
    CharsValues(Prefix(s));
    PrefixOfEncoded(Sextets(Octets(v)));
    ValuesChars(Sextets(Octets(v)));
  }

  // ----- The encoder -----

  lemma {:induction false} SextetsAppend(head: seq<Byte>, rest: seq<Byte>)
    requires |head| == 3
    ensures Sextets(head + rest) == Sextets(head) + Sextets(rest)
  {
    assert (head + rest)[3..] == rest;
    assert head[3..] == [];
  }

  lemma EncodeGroup(head: seq<Byte>, rest: seq<Byte>)
    requires |head| == 3
    ensures Encode(head + rest) == Encode(head) + Encode(rest)
  {
    SextetsAppend(head, rest);
    HowMany(head);
    assert Left(|Sextets(head + rest)|) == Left(|Sextets(rest)|);
    assert Encode(head) == Chars(Sextets(head));
    assert Chars(Sextets(head) + Sextets(rest)) == Chars(Sextets(head)) + Chars(Sextets(rest));
  }

  lemma OneGroup(s: seq<Byte>)
    requires 1 <= |s| <= 3
    ensures |Encode(s)| == 4 && Encode(s)[0] == Digit(s[0] / 4)
    ensures Encode(s)[1] == Digit(if |s| == 1 then s[0] % 4 * 16 else Second(s[0], s[1]))
    ensures Encode(s)[2] == if |s| == 1 then '=' else Digit(if |s| == 2 then s[1] % 16 * 4 else Third(s[1], s[2]))
    ensures Encode(s)[3] == if |s| == 3 then Digit(s[2] % 64) else '='
  {
    if |s| == 3 {
      assert Sextets(s[3..]) == [];
    }
  }

  /** _bin_to_base64: one group of four characters. */
  method PutGroup(dest: array<char>, ptr: nat, source: seq<Byte>)
    requires 1 <= |source| <= 3 && ptr + 4 <= dest.Length
    modifies dest
    ensures dest[..ptr + 4] == old(dest[..ptr]) + Encode(source)
  {
    if |source| == 1 {
      dest[ptr] := Digit(source[0] / 4);
      dest[ptr + 1] := Digit(source[0] % 4 * 16);
      dest[ptr + 2] := '=';
      dest[ptr + 3] := '=';
    } else if |source| == 2 {
      dest[ptr] := Digit(source[0] / 4);
      dest[ptr + 1] := Digit(source[1] / 16 + source[0] % 4 * 16);
      dest[ptr + 2] := Digit(source[1] % 16 * 4);
      dest[ptr + 3] := '=';
    } else {
      dest[ptr] := Digit(source[0] / 4);
      dest[ptr + 1] := Digit(source[1] / 16 + source[0] % 4 * 16);
      dest[ptr + 2] := Digit(source[2] / 64 + source[1] % 16 * 4);
      dest[ptr + 3] := Digit(source[2] % 64);
    }
    OneGroup(source);
    assert dest[ptr..ptr + 4] == Encode(source);
    assert dest[..ptr + 4] == dest[..ptr] + dest[ptr..ptr + 4];
  }

  lemma NextGroup(s: seq<Byte>, at: nat, end: nat)
    requires at < end <= |s| && (end == at + 3 || (end < at + 3 && end == |s|))
    ensures |Encode(s[at..end])| == 4 && Encode(s[at..]) == Encode(s[at..end]) + Encode(s[end..])
  {
    EncodedLength(s[at..end]);
    assert s[at..] == s[at..end] + s[end..];
    if end == at + 3 {
      EncodeGroup(s[at..end], s[end..]);
    } else {
      assert s[end..] == [] && Encode([]) == "";
      assert s[at..] == s[at..end];
    }
  }

  lemma BlockIsLargeEnough(n: nat)
    ensures 4 * ((n + 2) / 3) < 4 * (n + (3 - n % 3)) / 3 + 1
  {
    var k, r := n / 3, n % 3;
    assert n == 3 * k + r;
    assert n + (3 - r) == 3 * (k + 1);
    assert 4 * (3 * (k + 1)) / 3 == 4 * (k + 1);
  }

  /** The encoder fills a block of the size it asked for, ends the text with a NUL and writes
      nowhere else. */
  method BinToBase64(source: seq<Byte>) returns (base64: array<char>)
    requires 4 * (|source| + 3) < INT32_LIMIT
    ensures fresh(base64) && |Encode(source)| < base64.Length
    ensures base64[..|Encode(source)|] == Encode(source) && base64[|Encode(source)|] == '\0'
  {
    var len: int := |source|;
    var flen := len + (3 - len % 3);
    flen := 4 * flen / 3 + 1;
    base64 := new char[flen];
    EncodedLength(source);
    BlockIsLargeEnough(|source|);
    var ptr, at := 0, 0;
    while len > 0
      invariant len == |source| - at && 0 <= at
      invariant 0 <= ptr <= |Encode(source)| < base64.Length
      invariant base64[..ptr] + Encode(source[Min(at, |source|)..]) == Encode(source)
    {
      var end := if len > 3 then at + 3 else at + len;
      NextGroup(source, at, end);
      assert Min(at, |source|) == at && Min(at + 3, |source|) == end;
      ghost var group, rest := Encode(source[at..end]), Encode(source[end..]);
      Associate(base64[..ptr], group, rest);
      PutGroup(base64, ptr, source[at..end]);
      ptr := ptr + 4;
      at := at + 3;
      len := len - 3;
    }
    assert source[Min(at, |source|)..] == [] && Encode([]) == "";
    base64[ptr] := '\0';
  }

  // ----- The decoder -----

  lemma {:induction false} OctetsAppend(v: seq<Sextet>, w: seq<Sextet>)
    requires Left(|v|) == 0
    ensures Octets(v + w) == Octets(v) + Octets(w)
  {
    if v == [] {
      assert v + w == w;
    } else {
      OctetsAppend(v[4..], w);
      assert (v + w)[4..] == v[4..] + w;
      OctetsInFront(v);
      OctetsInFront(v + w);
      var first := [FirstOctet(v[0], v[1]), SecondOctet(v[1], v[2]), ThirdOctet(v[2], v[3])];
      Associate(first, Octets(v[4..]), Octets(w));
    }
  }

  lemma BlockOctets(a: int, b: int, c: int, d: int)
    requires 0 <= a < 64 && 0 <= b < 64 && 0 <= c < 64 && 0 <= d < 64
    ensures (a * 0x4_0000 + b * 0x1000 + c * 64 + d) / 0x1_0000 % 256 == FirstOctet(a, b)
    ensures (a * 0x4_0000 + b * 0x1000 + c * 64 + d) / 256 % 256 == SecondOctet(b, c)
    ensures (a * 0x4_0000 + b * 0x1000 + c * 64 + d) % 256 == ThirdOctet(c, d)
  {
    var bh, bl, ch, cl := b / 16, b % 16, c / 4, c % 4;
    assert b == 16 * bh + bl && c == 4 * ch + cl;
    BaseTwoFiftySix(4 * a + bh, 16 * bl + ch, 64 * cl + d);
  }

  lemma BaseTwoFiftySix(x: int, y: int, z: int)
    requires 0 <= x < 256 && 0 <= y < 256 && 0 <= z < 256
    ensures (x * 0x1_0000 + y * 256 + z) / 0x1_0000 % 256 == x
    ensures (x * 0x1_0000 + y * 256 + z) / 256 % 256 == y
    ensures (x * 0x1_0000 + y * 256 + z) % 256 == z
  {
    assert x * 0x1_0000 + y * 256 + z == (x * 256 + y) * 256 + z;
  }

  lemma {:induction false} NothingToCount(s: string, i: nat, k: nat)
    requires i <= k <= |s| && forall j :: i <= j < k ==> s[j] != '='
    ensures CountEquals(s[i..]) == CountEquals(s[k..])
    decreases k - i
  {
    if i < k {
      assert s[i..][1..] == s[i + 1..];
      NothingToCount(s, i + 1, k);
    }
  }

  predicate Blanked(before: string, after: string) {
    && |after| == |before|
    && forall j :: 0 <= j < |before| ==> after[j] == if before[j] == '=' then '\0' else before[j]
  }

  /** get_equals */
  method GetEquals(text: array<char>, ghost s: string) returns (num: nat)
    requires text[..] == s + "\0"
    modifies text
    ensures num == CountEquals(s) && Blanked(s + "\0", text[..])
  {
    num := 0;
    var ptr := 0;
    var k := Strchr(text[..], '=', ptr);
    assert s[0..] == s;
    while k != -1
      invariant 0 <= ptr <= |s| && k == Strchr(text[..], '=', ptr)
      invariant num + CountEquals(s[ptr..]) == CountEquals(s)
      invariant HalfBlanked(s + "\0", text[..], ptr)
      decreases |s| - ptr
    {
      OneMoreEquals(s, text[..], ptr, k);
      num := num + 1;
      text[k] := '\0';
      ptr := k + 1;
      k := Strchr(text[..], '=', ptr);
    }
    NoMoreEquals(s, text[..], ptr);
  }

  predicate HalfBlanked(before: string, after: string, n: nat) {
    && |after| == |before|
    && forall j :: 0 <= j < |before| ==> after[j] == if j < n && before[j] == '=' then '\0' else before[j]
  }

  lemma OneMoreEquals(s: string, text: string, ptr: nat, k: nat)
    requires ptr <= |s| && HalfBlanked(s + "\0", text, ptr) && k == Strchr(text, '=', ptr)
    ensures k < |s| && CountEquals(s[ptr..]) == 1 + CountEquals(s[k + 1..])
    ensures HalfBlanked(s + "\0", text[k := '\0'], k + 1)
  {
    assert (s + "\0")[k] == '=';
    forall j | ptr <= j < k ensures s[j] != '=' {
      assert text[j] != '=' && text[j] == (s + "\0")[j];
    }
    NothingToCount(s, ptr, k);
    assert s[k..][1..] == s[k + 1..];
  }

  lemma NoMoreEquals(s: string, text: string, ptr: nat)
    requires ptr <= |s| && HalfBlanked(s + "\0", text, ptr) && Strchr(text, '=', ptr) == -1
    ensures CountEquals(s[ptr..]) == 0 && Blanked(s + "\0", text)
  {
    forall j | ptr <= j < |s| ensures s[j] != '=' {
      assert text[j] != '=' && text[j] == (s + "\0")[j];
    }
    NothingToCount(s, ptr, |s|);
  }

  method Strlen(text: array<char>, ghost n: nat) returns (len: nat)
    requires n < text.Length && text[n] == '\0'
    ensures len <= n && text[len] == '\0' && '\0' !in text[..len]
  {
    len := 0;
    while text[len] != '\0'
      invariant len <= n && '\0' !in text[..len]
      decreases n - len
    {
      len := len + 1;
    }
  }

  /** Up to four sextets side by side, zeros for those that are not there. */
  function Block(v: seq<Sextet>): nat
    requires 2 <= |v| <= 4
  {
    var a: int, b: int := v[0], v[1];
    var c: int := if |v| > 2 then v[2] else 0;
    var d: int := if |v| > 3 then v[3] else 0;
    a * 0x4_0000 + b * 0x1000 + c * 64 + d
  }

  /** to_block4 */
  method ToBlock4(source: string, num: nat) returns (block: Option<nat>)
    requires 1 <= num <= 3 && |source| == num + 1
    ensures block.Some? <==> AllDigits(source)
    ensures block.Some? ==> block.value == Block(Values(source))
  {
    Lookup(source[0]);
    var a := Strchr(Alphabet(), source[0], 0);
    if a == -1 {
      return None;
    }
    Lookup(source[1]);
    var b := Strchr(Alphabet(), source[1], 0);
    if b == -1 {
      return None;
    }
    if num < 2 {
      return Some(a * 0x4_0000 + b * 0x1000);
    }
    Lookup(source[2]);
    var c := Strchr(Alphabet(), source[2], 0);
    if c == -1 {
      return None;
    }
    if num < 3 {
      return Some(a * 0x4_0000 + b * 0x1000 + c * 64);
    }
    Lookup(source[3]);
    var d := Strchr(Alphabet(), source[3], 0);
    if d == -1 {
      return None;
    }
    return Some(a * 0x4_0000 + b * 0x1000 + c * 64 + d);
  }

  /** _base64_to_bin: the `num` octets of the next `num + 1` digits. */
  method ToBin(source: string, num: nat) returns (dest: Option<seq<Byte>>)
    requires 1 <= num <= 3 && |source| == num + 1
    ensures dest.Some? <==> AllDigits(source)
    ensures dest.Some? ==> dest.value == Octets(Values(source))
  {
    var block := ToBlock4(source, num);
    if block.None? {
      return None;
    }
    var n := block.value;
    dest := Some([n / 0x1_0000 % 256, n / 256 % 256, n % 256][..num]);
    OctetsOfBlock(Values(source));
  }

  lemma OctetsOfBlock(v: seq<Sextet>)
    requires 2 <= |v| <= 4
    ensures var n := Block(v); Octets(v) == [n / 0x1_0000 % 256, n / 256 % 256, n % 256][..|v| - 1]
  {
    BlockOctets(v[0], v[1], if |v| > 2 then v[2] else 0, if |v| > 3 then v[3] else 0);
    if |v| == 4 {
      assert v[4..] == [];
    }
  }

  /** The decoder takes exactly the accepted texts and gives their octets. */
  method Base64ToBin(source: string) returns (buffer: Option<seq<Byte>>)
    requires '\0' !in source
    ensures buffer == Decode(source)
  {
    var base64 := new char[|source| + 1];
    forall i | 0 <= i <= |source| {
      base64[i] := (source + "\0")[i];
    }
    assert base64[..] == source + "\0";
    var equals := GetEquals(base64, source);
    if equals > 2 {
      return None;
    }
    var len := Strlen(base64, |source|);
    PrefixEndsThere(source, base64[..], len);
    buffer := DecodeDigits(base64[..len], equals);
  }

  lemma PrefixEndsThere(s: string, text: string, len: nat)
    requires '\0' !in s && Blanked(s + "\0", text)
    requires len <= |s| && text[len] == '\0' && '\0' !in text[..len]
    ensures text[..len] == Prefix(s)
  {
    forall j | 0 <= j < len ensures s[j] == text[j] && s[j] != '=' {
      assert text[j] in text[..len];
    }
    assert s[..len] == text[..len];
    assert s == s[..len] + s[len..];
    PrefixOf(s[..len], s[len..]);
  }

  /** The first `ptr` digits are good and give `out`. */
  ghost predicate Decoded(digits: string, ptr: nat, out: seq<Byte>) {
    && ptr <= |digits|
    && AllDigits(digits[..ptr]) && out == Octets(Values(digits[..ptr]))
  }

  lemma Advance(digits: string, ptr: nat, end: nat, out: seq<Byte>)
    requires Decoded(digits, ptr, out) && Left(ptr) == 0
    requires ptr + 2 <= end <= ptr + 4 && end <= |digits| && AllDigits(digits[ptr..end])
    ensures Decoded(digits, end, out + Octets(Values(digits[ptr..end])))
  {
    var a, b := digits[..ptr], digits[ptr..end];
    assert digits[..end] == a + b;
    Joined(a, b);
  }

  lemma Joined(a: string, b: string)
    requires AllDigits(a) && AllDigits(b) && Left(|a|) == 0
    ensures AllDigits(a + b)
    ensures Octets(Values(a + b)) == Octets(Values(a)) + Octets(Values(b))
  {
    DigitsAppend(a, b);
    ValuesAppend(a, b);
    OctetsAppend(Values(a), Values(b));
  }

  lemma ValuesAppend(a: string, b: string)
    requires AllDigits(a) && AllDigits(b) && AllDigits(a + b)
    ensures Values(a + b) == Values(a) + Values(b)
  {
  }

  /** The loop: full groups as long as more than four digits are left. */
  method DecodeGroups(digits: string) returns (ok: bool, ptr: nat, out: seq<Byte>)
    ensures ok ==> Decoded(digits, ptr, out) && Left(ptr) == 0
    ensures ok ==> |digits| - ptr <= 4 && (digits != "" ==> ptr < |digits|)
    ensures !ok ==> !AllDigits(digits)
  {
    ptr, out := 0, [];
    while |digits| - ptr > 4
      invariant Decoded(digits, ptr, out) && Left(ptr) == 0
      invariant digits != "" ==> ptr < |digits|
    {
      var block := ToBin(digits[ptr..ptr + 4], 3);
      if block.None? {
        SomeBadDigit(digits, ptr, ptr + 4);
        return false, ptr, out;
      }
      Advance(digits, ptr, ptr + 4, out);
      out := out + block.value;
      ptr := ptr + 4;
    }
    return true, ptr, out;
  }

  predicate GoodShape(digits: string, equals: nat) {
    digits != "" && AllDigits(digits) && Left(|digits|) != 1 && equals == |Padding(Left(|digits|))|
  }

  /** The loop and the last group: `digits` is what stands before the first equals sign. */
  method DecodeDigits(digits: string, equals: nat) returns (buffer: Option<seq<Byte>>)
    ensures buffer.Some? <==> GoodShape(digits, equals)
    ensures buffer.Some? ==> buffer.value == Octets(Values(digits))
  {
    var ok, ptr, out := DecodeGroups(digits);
    if !ok {
      return None;
    }
    var last := DecodeLast(digits[ptr..], equals);
    LastGroup(digits, ptr, out, equals);
    return if last.None? then None else Some(out + last.value);
  }

  lemma LastGroup(digits: string, ptr: nat, out: seq<Byte>, equals: nat)
    requires Decoded(digits, ptr, out) && Left(ptr) == 0 && |digits| - ptr <= 4
    requires digits != "" ==> ptr < |digits|
    ensures var rest := digits[ptr..];
      GoodShape(digits, equals) <==> |rest| >= 2 && AllDigits(rest) && equals == |Padding(Left(|rest|))|
    ensures GoodShape(digits, equals) ==> Octets(Values(digits)) == out + Octets(Values(digits[ptr..]))
  {
    var rest := digits[ptr..];
    LeftBehindGroups(|digits|, ptr);
    assert rest == digits[ptr..|digits|] && digits[..|digits|] == digits;
    if |rest| >= 2 && AllDigits(rest) {
      Advance(digits, ptr, |digits|, out);
    } else if AllDigits(digits) {
      assert AllDigits(rest);
    }
  }

  /** The switch over the digits that are left. */
  method DecodeLast(rest: string, equals: nat) returns (block: Option<seq<Byte>>)
    requires |rest| <= 4
    ensures block.Some? <==> |rest| >= 2 && AllDigits(rest) && equals == |Padding(Left(|rest|))|
    ensures block.Some? ==> block.value == Octets(Values(rest))
  {
    var len := |rest|;
    if len == 4 {
      if equals != 0 {
        return None;
      }
      block := ToBin(rest, 3);
    } else if len == 2 {
      if equals != 2 {
        return None;
      }
      block := ToBin(rest, 1);
    } else if len == 3 {
      if equals != 1 {
        return None;
      }
      block := ToBin(rest, 2);
    } else {
      return None;
    }
  }

  lemma DigitsAppend(a: string, b: string)
    requires AllDigits(a) && AllDigits(b)
    ensures AllDigits(a + b)
  {
  }

  lemma SomeBadDigit(s: string, from: nat, to: nat)
    requires from <= to <= |s| && !AllDigits(s[from..to])
    ensures !AllDigits(s)
  {
    var i :| 0 <= i < to - from && !IsDigit(s[from..to][i]);
    assert !IsDigit(s[from + i]);
  }

  /** Encoder and decoder together: every octet string but the empty one comes back. */
  method RoundTrip(source: seq<Byte>) returns (buffer: Option<seq<Byte>>)
    requires 4 * (|source| + 3) < INT32_LIMIT
    ensures buffer == if source == [] then None else Some(source)
  {
    var base64 := BinToBase64(source);
    NoNul(source);
    ghost var text := Encode(source);
    assert forall i :: 0 <= i < |text| ==> base64[i] == text[i];
    var len := Strlen(base64, |text|);
    buffer := Base64ToBin(base64[..len]);
    DecodeEncode(source);
  }

  lemma NoNul(s: seq<Byte>)
    ensures '\0' !in Encode(s)
  {
    forall i | 0 <= i < |Sextets(s)|
      ensures Encode(s)[i] != '\0'
    {
      assert Encode(s)[i] == Digit(Sextets(s)[i]);
    }
  }
}

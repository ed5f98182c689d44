/** Diffie-Hellman key agreement, exchange hash and key derivation (libssh/dh.c, the two kex
    messages of libssh/kex.c; sections 7.1, 7.2 and 8 of RFC 4253). */
module KeyAgreement {
  import opened Bytes
  import opened Fields
  import Mpint

  // ----- Modular powers -----

  function Pow(b: nat, e: nat): nat {
    if e == 0 then 1 else b * Pow(b, e - 1)
  }

  /** What bignum_mod_exp returns. */
  function ModExp(b: nat, e: nat, m: nat): nat
    requires m > 0
  {
    Pow(b, e) % m
  }

  lemma Remainder(n: int, q: int, r: int, m: int)
    requires n == m * q + r && 0 <= r < m
    ensures n % m == r
  {
    var d := n / m - q;
    Apart(m, d);
    assert m * d == r - n % m by {
      assert n == m * (n / m) + n % m;
    }
  }

  lemma Apart(m: int, d: int)
    requires m > 0
    ensures d == 0 || m * d >= m || m * d <= -m
  {
    if d > 0 {
      assert m * d >= m * 1;
    } else if d < 0 {
      assert m * d <= m * -1;
    }
  }

  lemma MulMod(a: nat, b: nat, m: nat)
    requires m > 0
    ensures (a * (b % m)) % m == (a * b) % m
  {
    var q, r := b / m, b % m;
    var s := a * r;
    assert a * b == m * (a * q + s / m) + s % m by {
      assert b == m * q + r;
      assert s == m * (s / m) + s % m;
      assert a * (m * q + r) == m * (a * q) + a * r;
    }
    Remainder(a * b, a * q + s / m, s % m, m);
  }

  /** Reducing the base first changes no remainder. */
  lemma {:induction false} PowMod(b: nat, e: nat, m: nat)
    requires m > 0
    ensures Pow(b % m, e) % m == Pow(b, e) % m
  {
    if e > 0 {
      var c := b % m;
      PowMod(b, e - 1, m);
      calc {
        Pow(c, e) % m;
        (c * Pow(c, e - 1)) % m;
        { MulMod(c, Pow(c, e - 1), m); }
        (c * (Pow(c, e - 1) % m)) % m;
        (c * (Pow(b, e - 1) % m)) % m;
        { MulMod(c, Pow(b, e - 1), m); }
        (c * Pow(b, e - 1)) % m;
        { assert c * Pow(b, e - 1) == Pow(b, e - 1) * c; }
        (Pow(b, e - 1) * c) % m;
        { MulMod(Pow(b, e - 1), b, m); }
        (Pow(b, e - 1) * b) % m;
        { assert Pow(b, e - 1) * b == b * Pow(b, e - 1); }
        Pow(b, e) % m;
      }
    }
  }

  lemma {:induction false} PowAdd(b: nat, m: nat, n: nat)
    ensures Pow(b, m + n) == Pow(b, m) * Pow(b, n)
  {
    if m > 0 {
      PowAdd(b, m - 1, n);
      assert b * (Pow(b, m - 1) * Pow(b, n)) == (b * Pow(b, m - 1)) * Pow(b, n);
    }
  }

  lemma PowOne(b: nat)
    ensures Pow(b, 1) == b
  {
    assert Pow(b, 0) == 1;
  }

  /** The law of modular powers: the first power is the remainder, and a sum of exponents is
      a product. It determines them all. */
  lemma ModExpLaw(b: nat, m: nat, n: nat, p: nat)
    requires p > 0
    ensures ModExp(b, 0, p) == 1 % p && ModExp(b, 1, p) == b % p
    ensures ModExp(b, m + n, p) == (ModExp(b, m, p) * ModExp(b, n, p)) % p
  {
    PowOne(b);
    PowAdd(b, m, n);
    var x, y := Pow(b, m), Pow(b, n);
    MulMod(x % p, y, p);
    MulMod(y, x, p);
    Commute(x % p, y);
    Commute(x, y);
  }

  lemma Commute(a: nat, b: nat)
    ensures a * b == b * a
  {
  }

  lemma {:induction false} PowPow(b: nat, m: nat, n: nat)
    ensures Pow(Pow(b, m), n) == Pow(b, m * n)
  {
    if n > 0 {
      PowPow(b, m, n - 1);
      PowAdd(b, m, m * (n - 1));
      assert m * n == m + m * (n - 1);
    }
  }

  /** Each side raises the other's reduced public number to its own secret exponent, and both
      get g^(xy) mod p. */
  lemma SharedSecret(g: nat, p: nat, x: nat, y: nat)
    requires p > 0
    ensures ModExp(ModExp(g, y, p), x, p) == Pow(g, x * y) % p == ModExp(ModExp(g, x, p), y, p)
  {
    PowMod(Pow(g, y), x, p);
    PowPow(g, y, x);
    PowMod(Pow(g, x), y, p);
    PowPow(g, x, y);
    assert y * x == x * y;
  }

  // ----- What is hashed and what is derived, stated once for both roles -----

  type Digest = s: seq<Byte> | |s| == 20 witness seq(20, _ => 0)

  /** What the exchange hash covers: version strings, KEXINIT payloads, host key, both public
      numbers and the secret (section 8 of RFC 4253). */
  datatype Exchange = Exchange(
    clientVersion: seq<Byte>,
    serverVersion: seq<Byte>,
    clientInit: seq<Byte>,
    serverInit: seq<Byte>,
    hostKey: seq<Byte>,
    e: nat,
    f: nat,
    k: nat)
  {
    function Parts(): seq<Field> {
      [Text(clientVersion), Text(serverVersion), Text(clientInit), Text(serverInit), Text(hostKey),
       Text(Mpint.Encode(e)), Text(Mpint.Encode(f)), Text(Mpint.Encode(k))]
    }

    function HashInput(): seq<Byte> {
      EncodeAll(Parts())
    }
  }

  /** Different exchanges never feed the same octets to the hash. */
  lemma HashInputIsUnambiguous(a: Exchange, b: Exchange)
    requires AllFit(a.Parts()) && AllFit(b.Parts())
    ensures a.HashInput() == b.HashInput() <==> a == b
  {
    SameKinds(a.Parts(), b.Parts());
    EncodingIsUnique(a.Parts(), b.Parts());
    assert a.Parts() == b.Parts() ==> forall i :: 0 <= i < 8 ==> a.Parts()[i].text == b.Parts()[i].text;
    Mpint.DistinctNumbersEncodeDifferently(a.e, b.e);
    Mpint.DistinctNumbersEncodeDifferently(a.f, b.f);
    Mpint.DistinctNumbersEncodeDifferently(a.k, b.k);
  }

  /** The eight strings come out of the hash input in the order of section 8 of RFC 4253. */
  lemma HashInputIsRead(x: Exchange)
    requires AllFit(x.Parts())
    ensures TakeAll(seq(8, _ => KindString), x.HashInput()) == Some([
      Text(x.clientVersion), Text(x.serverVersion), Text(x.clientInit), Text(x.serverInit), Text(x.hostKey),
      Text(Mpint.Encode(x.e)), Text(Mpint.Encode(x.f)), Text(Mpint.Encode(x.k))])
  {
    TextKinds(x.Parts());
    TakeAllEncoded(x.Parts(), []);
    assert x.HashInput() + [] == x.HashInput();
  }

  lemma {:induction false} TextKinds(fields: seq<Field>)
    requires forall f <- fields :: f.Text?
    ensures Kinds(fields) == seq(|fields|, _ => KindString)
  {
    if fields != [] {
      TextKinds(fields[1..]);
      assert fields[0].Text?;
      assert fields[0].KindOf() == KindString;
    }
  }

  lemma {:induction false} SameKinds(a: seq<Field>, b: seq<Field>)
    requires |a| == |b|
    requires (forall f <- a :: f.Text?) && (forall f <- b :: f.Text?)
    ensures Kinds(a) == Kinds(b)
  {
    if a == [] {
      assert b == [];
    } else {
      SameKinds(a[1..], b[1..]);
      assert a[0].Text? && b[0].Text?;
      assert a[0].KindOf() == b[0].KindOf();
    }
  }

  type Letter = c: char | 'A' <= c <= 'F' witness 'A'

  /** The letters of the two directions (section 7.2 of RFC 4253). */
  datatype Direction = ClientToServer | ServerToClient {
    function Iv(): Letter { if this == ClientToServer then 'A' else 'B' }

    function Key(): Letter { if this == ClientToServer then 'C' else 'D' }

    function Mac(): Letter { if this == ClientToServer then 'E' else 'F' }
  }

  /** HASH(K || H || letter || session id); here H is the session id. */
  function DeriveInput(k: nat, id: Digest, letter: Letter): seq<Byte>
  {
    WireString(Mpint.Encode(k)) + id + [letter as int] + id
  }

  function Derive(sha1: seq<Byte> -> Digest, k: nat, id: Digest, letter: Letter): Digest
  {
    sha1(DeriveInput(k, id, letter))
  }

  /** The six values come from six different inputs. */
  lemma DeriveLayout(k: nat, id: Digest, letter: Letter)
    requires |Mpint.Encode(k)| < U32
    ensures var s := DeriveInput(k, id, letter);
      && Take(KindString, s) == Some(Text(Mpint.Encode(k)))
      && s[|WireString(Mpint.Encode(k))|..] == id + [letter as int] + id
  {
    var first := Text(Mpint.Encode(k));
    TakeEncoded(first, id + [letter as int] + id);
    assert DeriveInput(k, id, letter) == first.Encode() + (id + [letter as int] + id);
  }

  lemma DifferentLetters(k: nat, id: Digest, a: Letter, b: Letter)
    ensures DeriveInput(k, id, a) == DeriveInput(k, id, b) <==> a == b
  {
    var n := |WireString(Mpint.Encode(k))| + 20;
    assert DeriveInput(k, id, a)[n] == a as int && DeriveInput(k, id, b)[n] == b as int;
  }

  /** A key of more than 160 bits is continued with HASH(K || H || key so far). */
  function Extend(sha1: seq<Byte> -> Digest, k: nat, id: Digest, key: Digest): seq<Byte> {
    key + sha1(WireString(Mpint.Encode(k)) + id + key)
  }

  /** The octets of a key buffer that the derivation fills. */
  function KeyMaterial(sha1: seq<Byte> -> Digest, k: nat, id: Digest, letter: Letter, keysize: nat): seq<Byte>
  {
    var key := Derive(sha1, k, id, letter);
    if keysize > 160 then Extend(sha1, k, id, key) else key
  }

  // ----- KEXINIT -----

  datatype Kex = Kex(cookie: seq<Byte>, methods: seq<seq<Byte>>) {
    predicate Fits() {
      |cookie| == 16 && |methods| == 10 && forall m <- methods :: |m| < U32
    }

    /** The payload of the KEXINIT message (section 7.1 of RFC 4253). */
    function Payload(): seq<Byte> {
      [20] + cookie + EncodeAll(Texts(methods)) + [0] + U32ToBytes(0)
    }
  }

  function Texts(names: seq<seq<Byte>>): (fields: seq<Field>)
    ensures |fields| == |names| && forall i :: 0 <= i < |names| ==> fields[i] == Text(names[i])
  {
    seq(|names|, i requires 0 <= i < |names| => Text(names[i]))
  }

  /** The strings the reader finds: at most `n`, and none behind one that is cut off. */
  function Names(n: nat, s: seq<Byte>): seq<Field> {
    if n == 0 || Take(KindString, s).None? then []
    else
      var f := Take(KindString, s).value;
      TakenIsEncoded(KindString, s, f);
      [f] + Names(n - 1, s[|f.Encode()|..])
  }

  lemma {:induction false} NamesOfTexts(fields: seq<Field>, rest: seq<Byte>)
    requires AllFit(fields) && forall f <- fields :: f.Text?
    ensures Names(|fields|, EncodeAll(fields) + rest) == fields
  {
    if fields != [] {
      var f, tail := fields[0], EncodeAll(fields[1..]) + rest;
      Associate(f.Encode(), EncodeAll(fields[1..]), rest);
      TakeEncoded(f, tail);
      assert (f.Encode() + tail)[|f.Encode()|..] == tail;
      NamesOfTexts(fields[1..], rest);
      assert fields == [f] + fields[1..];
    }
  }

  /** The layout of the message: its number, the cookie, ten strings, a flag and four octets
      that are reserved. */
  lemma KexLayout(kex: Kex)
    requires kex.Fits()
    ensures var s := kex.Payload();
      && |s| >= 17 && s[0] == 20 && s[1..17] == kex.cookie
      && TakeAll(seq(10, _ => KindString) + [KindU8, KindU32], s[17..])
         == Some(Texts(kex.methods) + [U8(0), Word(0)])
  {
    var names := EncodeAll(Texts(kex.methods));
    NamesAndTail(Texts(kex.methods), 10);
    Associate([20] + kex.cookie, names, [0]);
    Associate([20] + kex.cookie, names + [0], U32ToBytes(0));
    Behind([20] + kex.cookie, names + [0] + U32ToBytes(0));
  }

  lemma Behind<T>(head: seq<T>, tail: seq<T>)
    ensures (head + tail)[|head|..] == tail
  {
  }

  lemma NamesAndTail(fields: seq<Field>, n: nat)
    requires |fields| == n && AllFit(fields) && forall f <- fields :: f.Text?
    ensures TakeAll(seq(n, _ => KindString) + [KindU8, KindU32], EncodeAll(fields) + [0] + U32ToBytes(0))
         == Some(fields + [U8(0), Word(0)])
  {
    var all := fields + [U8(0), Word(0)];
    TwoMore(fields, U8(0), Word(0));
    TextKinds(fields);
    TakeAllEncoded(all, []);
    assert EncodeAll(all) + [] == EncodeAll(all);
  }

  /** What the reader of a KEXINIT message keeps for the exchange hash. */
  function KexHash(body: seq<Byte>): seq<Byte>
    requires |body| >= 16
  {
    [20] + body[..16] + EncodeAll(Names(10, body[16..]))
  }

  /** With the five octets that make_sessionid adds it is the message itself. */
  lemma KexIsRead(kex: Kex)
    requires kex.Fits()
    ensures |kex.Payload()| >= 17
    ensures KexHash(kex.Payload()[1..]) + [0, 0, 0, 0, 0] == kex.Payload()
  {
    var names, tail := Texts(kex.methods), [0, 0, 0, 0, 0];
    assert [0] + U32ToBytes(0) == tail;
    Associate([20] + kex.cookie + EncodeAll(names), [0], U32ToBytes(0));
    Slices(kex.cookie, EncodeAll(names), tail);
    NamesOfTexts(names, tail);
  }

  lemma Slices(cookie: seq<Byte>, names: seq<Byte>, tail: seq<Byte>)
    ensures ([20] + cookie + names + tail)[1..][..|cookie|] == cookie
    ensures ([20] + cookie + names + tail)[1..][|cookie|..] == names + tail
  {
  }

  lemma SameHead<T>(a: seq<T>, b: seq<T>, tail: seq<T>)
    requires a + tail == b + tail
    ensures a == b
  {
    assert (a + tail)[..|a|] == a && (b + tail)[..|b|] == b;
  }

  /** One step of the reading loop: a name moves from what is to come to what is kept. */
  lemma OneNameRead(kept: seq<Byte>, strings: seq<seq<Byte>>, n: nat, rest: seq<Byte>, text: seq<Byte>)
    requires Take(KindString, rest) == Some(Text(text)) && |WireString(text)| <= |rest|
    ensures var rest' := rest[|WireString(text)|..];
      && kept + EncodeAll(Names(n + 1, rest)) == kept + WireString(text) + EncodeAll(Names(n, rest'))
      && Texts(strings) + Names(n + 1, rest) == Texts(strings + [text]) + Names(n, rest')
  {
    var others := Names(n, rest[|WireString(text)|..]);
    assert Names(n + 1, rest) == [Text(text)] + others;
    EncodeInFront(Text(text), others);
    Associate(kept, WireString(text), EncodeAll(others));
    assert Texts(strings + [text]) == Texts(strings) + [Text(text)];
    Associate(Texts(strings), [Text(text)], others);
  }

  lemma EncodeInFront(f: Field, others: seq<Field>)
    ensures EncodeAll([f] + others) == f.Encode() + EncodeAll(others)
  {
    assert ([f] + others)[1..] == others;
  }

  /** One step of the writing loop. */
  lemma OneNameMore(head: seq<Byte>, names: seq<seq<Byte>>, i: nat)
    requires i < |names|
    ensures head + EncodeAll(Texts(names[..i + 1])) == head + EncodeAll(Texts(names[..i])) + WireString(names[i])
  {
    EncodeAllAppend(Texts(names[..i]), Text(names[i]));
    assert Texts(names[..i + 1]) == Texts(names[..i]) + [Text(names[i])];
    Associate(head, EncodeAll(Texts(names[..i])), WireString(names[i]));
  }

  // ----- A session -----

  class Session {
    const client: bool
    const sha1: seq<Byte> -> Digest
    const g: nat
    const p: nat
    var clientBanner: seq<Byte>
    var serverBanner: seq<Byte>
    var clientKex: Kex
    var serverKex: Kex
    var inHashbuf: seq<Byte>
    var outHashbuf: seq<Byte>
    var x: nat
    var y: nat
    var e: nat
    var f: nat
    var k: nat
    var serverPubkey: seq<Byte>
    var sessionId: Digest
    var outKeysize: nat
    var inKeysize: nat
    const encryptIV: array<Byte>
    const decryptIV: array<Byte>
    const encryptKey: array<Byte>
    const decryptKey: array<Byte>
    const encryptMAC: array<Byte>
    const decryptMAC: array<Byte>

    ghost function Buffers(): set<object> {
      {encryptIV, decryptIV, encryptKey, decryptKey, encryptMAC, decryptMAC}
    }

    ghost predicate Valid() {
      && p > 1
      && encryptIV.Length == decryptIV.Length == encryptKey.Length == decryptKey.Length == 40
      && encryptMAC.Length == decryptMAC.Length == 20
      && encryptIV != decryptIV && encryptKey != decryptKey && encryptMAC != decryptMAC
      && {encryptIV, decryptIV} !! {encryptKey, decryptKey} !! {encryptMAC, decryptMAC}
    }

    /** crypto_new: the arrays of a new ssh_crypto_struct. */
    constructor (client: bool, sha1: seq<Byte> -> Digest, g: nat, p: nat)
      requires p > 1
      ensures Valid() && fresh(Buffers())
      ensures this.client == client && this.sha1 == sha1 && this.g == g && this.p == p
    {
      this.client, this.sha1, this.g, this.p := client, sha1, g, p;
      encryptIV, decryptIV := new Byte[40], new Byte[40];
      encryptKey, decryptKey := new Byte[40], new Byte[40];
      encryptMAC, decryptMAC := new Byte[20], new Byte[20];
    }

    method GenerateE()
      requires Valid()
      modifies this`e
      ensures e == ModExp(g, x, p)
    {
      e := ModExp(g, x, p);
    }

    method GenerateF()
      requires Valid()
      modifies this`f
      ensures f == ModExp(g, y, p)
    {
      f := ModExp(g, y, p);
    }

    method ImportE(s: seq<Byte>)
      modifies this`e
      ensures forall n: nat :: s == Mpint.Encode(n) ==> e == n
    {
      e := Mpint.Decode(s);
      forall n: nat | s == Mpint.Encode(n) ensures e == n {
        Mpint.DecodeEncode(n);
      }
    }

    method ImportF(s: seq<Byte>)
      modifies this`f
      ensures forall n: nat :: s == Mpint.Encode(n) ==> f == n
    {
      f := Mpint.Decode(s);
      forall n: nat | s == Mpint.Encode(n) ensures f == n {
        Mpint.DecodeEncode(n);
      }
    }

    /** dh_build_k: when the number from the other side is g to some power, modulo p, the
        secret is g to the product of both powers. */
    method BuildK()
      requires Valid()
      modifies this`k
      ensures forall z: nat :: (if client then f else e) == ModExp(g, z, p) ==>
        k == Pow(g, (if client then x else y) * z) % p
      ensures (if client then x else y) == 1 ==> k == (if client then f else e) % p
    {
      PowOne(if client then f else e);
      if client {
        k := ModExp(f, x, p);
      } else {
        k := ModExp(e, y, p);
      }
      forall z: nat | (if client then f else e) == ModExp(g, z, p)
        ensures k == Pow(g, (if client then x else y) * z) % p
      {
        SharedSecret(g, p, if client then x else y, z);
      }
    }

    ghost function OwnKex(): Kex
      reads this`clientKex, this`serverKex
    {
      if client then clientKex else serverKex
    }

    /** ssh_send_kex: the message goes out and, but for its last five octets, into outHashbuf. */
    method SendKex() returns (payload: seq<Byte>)
      requires OwnKex().Fits()
      modifies this`outHashbuf
      ensures payload == OwnKex().Payload() == outHashbuf + [0, 0, 0, 0, 0]
    {
      var kex := if client then clientKex else serverKex;
      ghost var head := [20] + kex.cookie;
      payload := [20] + kex.cookie;
      outHashbuf := [20] + kex.cookie;
      var i := 0;
      while i < 10
        invariant 0 <= i <= 10
        invariant payload == outHashbuf == head + EncodeAll(Texts(kex.methods[..i]))
      {
        OneNameMore(head, kex.methods, i);
        outHashbuf := outHashbuf + WireString(kex.methods[i]);
        payload := payload + WireString(kex.methods[i]);
        i := i + 1;
      }
      assert kex.methods[..10] == kex.methods;
      payload := payload + [0];
      payload := payload + U32ToBytes(0);
    }

    /** The loop of ssh_get_kex: up to ten strings, each added to inHashbuf. */
    method ReadNames(body: seq<Byte>) returns (strings: seq<seq<Byte>>)
      modifies this`inHashbuf
      ensures Texts(strings) == Names(10, body)
      ensures inHashbuf == old(inHashbuf) + EncodeAll(Names(10, body))
    {
      strings := [];
      var rest := body;
      var i := 0;
      while i < 10
        invariant 0 <= i <= 10
        invariant inHashbuf + EncodeAll(Names(10 - i, rest)) == old(inHashbuf) + EncodeAll(Names(10, body))
        invariant Texts(strings) + Names(10 - i, rest) == Names(10, body)
      {
        var str := Take(KindString, rest);
        if str.None? {
          break;
        }
        TakenIsEncoded(KindString, rest, str.value);
        var text := str.value.text;
        OneNameRead(inHashbuf, strings, 10 - i - 1, rest, text);
        inHashbuf := inHashbuf + WireString(text);
        strings := strings + [text];
        rest := rest[|WireString(text)|..];
        i := i + 1;
      }
      assert Names(10 - i, rest) == [];
    }

    /** ssh_get_kex, behind the message type: the cookie is kept in serverKex in both roles. */
    method GetKex(body: seq<Byte>) returns (ok: bool)
      modifies this`inHashbuf, this`serverKex, this`clientKex
      ensures ok <==> |body| >= 16
      ensures !ok ==> inHashbuf == old(inHashbuf) && serverKex == old(serverKex) && clientKex == old(clientKex)
      ensures ok ==> inHashbuf == KexHash(body)
      ensures ok ==> serverKex.cookie == body[..16] && clientKex.cookie == old(clientKex.cookie)
      ensures ok && client ==> clientKex == old(clientKex) && Texts(serverKex.methods) == Names(10, body[16..])
      ensures ok && !client ==>
        serverKex.methods == old(serverKex.methods) && Texts(clientKex.methods) == Names(10, body[16..])
    {
      if |body| < 16 {
        return false;
      }
      serverKex := serverKex.(cookie := body[..16]);
      inHashbuf := [20] + serverKex.cookie;
      var strings := ReadNames(body[16..]);
      if client {
        serverKex := serverKex.(methods := strings);
      } else {
        clientKex := clientKex.(methods := strings);
      }
      return true;
    }

    /** The exchange as this session sees it, whichever role it has. */
    ghost function Seen(): Exchange
      reads this`clientBanner, this`serverBanner, this`inHashbuf, this`outHashbuf
      reads this`serverPubkey, this`e, this`f, this`k
    {
      var zeros := [0, 0, 0, 0, 0];
      var own, peer := outHashbuf + zeros, inHashbuf + zeros;
      Exchange(clientBanner, serverBanner, if client then own else peer, if client then peer else own,
               serverPubkey, e, f, k)
    }

    /** make_sessionid */
    method MakeSessionId()
      modifies this`sessionId, this`inHashbuf, this`outHashbuf
      ensures sessionId == sha1(old(Seen()).HashInput())
      ensures inHashbuf == [] && outHashbuf == []
    {
      ghost var exchange := Seen();
      var buf := WireString(clientBanner);
      buf := buf + WireString(serverBanner);
      var serverHash := if client then inHashbuf else outHashbuf;
      var clientHash := if client then outHashbuf else inHashbuf;
      serverHash := serverHash + U32ToBytes(0);
      serverHash := serverHash + [0];
      clientHash := clientHash + U32ToBytes(0);
      clientHash := clientHash + [0];
      assert clientHash == exchange.clientInit && serverHash == exchange.serverInit;
      buf := buf + (U32ToBytes(ToUint32(|clientHash|)) + clientHash);
      buf := buf + (U32ToBytes(ToUint32(|serverHash|)) + serverHash);
      buf := buf + WireString(serverPubkey);
      buf := buf + WireString(Mpint.Encode(e));
      buf := buf + WireString(Mpint.Encode(f));
      buf := buf + WireString(Mpint.Encode(k));
      InputOneByOne(exchange);
      sessionId := sha1(buf);
      inHashbuf, outHashbuf := [], [];
    }

    /** generate_one_key */
    method GenerateOneKey(output: array<Byte>, letter: Letter)
      requires output.Length >= 20
      modifies output
      ensures output[..] == Derive(sha1, k, sessionId, letter) + old(output[20..])
    {
      var digest := sha1(WireString(Mpint.Encode(k)) + sessionId + [letter as int] + sessionId);
      forall i | 0 <= i < 20 {
        output[i] := digest[i];
      }
    }

    /** The second half of a long key. */
    method ExtendKey(key: array<Byte>, keysize: nat, ghost letter: Letter)
      requires key.Length == 40
      requires key[..20] == Derive(sha1, k, sessionId, letter)
      modifies key
      ensures KeyMaterial(sha1, k, sessionId, letter, keysize) <= key[..]
      ensures keysize <= 160 ==> key[..] == old(key[..])
      ensures keysize > 160 ==>
        key[..20] == old(key[..20]) && key[20..] == sha1(WireString(Mpint.Encode(k)) + sessionId + old(key[..20]))
    {
      if keysize > 160 {
        var digest := sha1(WireString(Mpint.Encode(k)) + sessionId + key[..20]);
        forall i | 0 <= i < 20 {
          key[20 + i] := digest[i];
        }
        assert key[..20] == old(key[..20]);
        assert key[..] == key[..20] + digest;
      }
    }

    ghost function Out(): Direction {
      if client then ClientToServer else ServerToClient
    }

    ghost function In(): Direction {
      if client then ServerToClient else ClientToServer
    }

    /** What a session has in its key buffers, for the direction they serve. */
    ghost predicate HasKeys(iv: array<Byte>, key: array<Byte>, mac: array<Byte>, keysize: nat, way: Direction)
      requires iv.Length == key.Length == 40 && mac.Length == 20
      reads this`k, this`sessionId, iv, key, mac
    {
      && iv[..20] == Derive(sha1, k, sessionId, way.Iv())
      && KeyMaterial(sha1, k, sessionId, way.Key(), keysize) <= key[..]
      && mac[..] == Derive(sha1, k, sessionId, way.Mac())
    }

    /** generate_session_keys */
    method GenerateSessionKeys()
      requires Valid()
      modifies Buffers()
      ensures HasKeys(encryptIV, encryptKey, encryptMAC, outKeysize, Out())
      ensures HasKeys(decryptIV, decryptKey, decryptMAC, inKeysize, In())
      ensures encryptIV[..20] == Derive(sha1, k, sessionId, if client then 'A' else 'B')
      ensures KeyMaterial(sha1, k, sessionId, if client then 'C' else 'D', outKeysize) <= encryptKey[..]
      ensures encryptMAC[..] == Derive(sha1, k, sessionId, if client then 'E' else 'F')
    {
      if client {
        GenerateOneKey(encryptIV, 'A');
        GenerateOneKey(decryptIV, 'B');
      } else {
        GenerateOneKey(decryptIV, 'A');
        GenerateOneKey(encryptIV, 'B');
      }
      if client {
        GenerateOneKey(encryptKey, 'C');
        GenerateOneKey(decryptKey, 'D');
      } else {
        GenerateOneKey(decryptKey, 'C');
        GenerateOneKey(encryptKey, 'D');
      }
      ExtendKey(encryptKey, outKeysize, if client then 'C' else 'D');
      ExtendKey(decryptKey, inKeysize, if client then 'D' else 'C');
      if client {
        GenerateOneKey(encryptMAC, 'E');
        GenerateOneKey(decryptMAC, 'F');
      } else {
        GenerateOneKey(decryptMAC, 'E');
        GenerateOneKey(encryptMAC, 'F');
      }
    }
  }

  /** The order in which make_sessionid appends. */
  lemma InputOneByOne(x: Exchange)
    ensures x.HashInput()
         == WireString(x.clientVersion) + WireString(x.serverVersion) + WireString(x.clientInit)
          + WireString(x.serverInit) + WireString(x.hostKey) + WireString(Mpint.Encode(x.e))
          + WireString(Mpint.Encode(x.f)) + WireString(Mpint.Encode(x.k))
  {
    var parts := x.Parts();
    var octets := seq(8, i requires 0 <= i < 8 => parts[i].Encode());
    EncodeAllConcat(parts, octets);
    Eight(octets);
  }

  function Concat(parts: seq<seq<Byte>>): seq<Byte> {
    if parts == [] then [] else Concat(parts[..|parts| - 1]) + parts[|parts| - 1]
  }

  lemma {:induction false} EncodeAllConcat(fields: seq<Field>, octets: seq<seq<Byte>>)
    requires |fields| == |octets|
    requires forall i :: 0 <= i < |fields| ==> octets[i] == fields[i].Encode()
    ensures EncodeAll(fields) == Concat(octets)
  {
    if fields == [] {
      assert octets == [];
    } else {
      var n := |fields| - 1;
      EncodeAllConcat(fields[..n], octets[..n]);
      EncodeAllAppend(fields[..n], fields[n]);
      assert fields == fields[..n] + [fields[n]];
    }
  }

  lemma Eight(s: seq<seq<Byte>>)
    requires |s| == 8
    ensures Concat(s) == s[0] + s[1] + s[2] + s[3] + s[4] + s[5] + s[6] + s[7]
  {
    Four(s[..4]);
    assert s[..7][..6] == s[..6] && s[..6][..5] == s[..5] && s[..5][..4] == s[..4];
    assert Concat(s) == Concat(s[..7]) + s[7];
    assert Concat(s[..7]) == Concat(s[..6]) + s[6];
    assert Concat(s[..6]) == Concat(s[..5]) + s[5];
    assert Concat(s[..5]) == Concat(s[..4]) + s[4];
  }

  lemma Four(s: seq<seq<Byte>>)
    requires |s| == 4
    ensures Concat(s) == s[0] + s[1] + s[2] + s[3]
  {
    assert s[..3][..2] == s[..2] && s[..2][..1] == s[..1] && s[..1][..0] == [];
    assert Concat(s) == Concat(s[..3]) + s[3];
    assert Concat(s[..3]) == Concat(s[..2]) + s[2];
    assert Concat(s[..2]) == Concat(s[..1]) + s[1];
    assert Concat(s[..1]) == s[0];
  }

  // ----- Two sessions -----

  /** The client reads the server's KEXINIT before it sends its own. Afterwards what one has
      in its out buffer the other has in its in buffer. */
  method ExchangeKexInit(c: Session, s: Session)
    requires c.client && !s.client
    requires c.clientKex.Fits() && s.serverKex.Fits()
    modifies c`inHashbuf, c`outHashbuf, c`clientKex, c`serverKex
    modifies s`inHashbuf, s`outHashbuf, s`clientKex, s`serverKex
    ensures c.outHashbuf == s.inHashbuf && c.inHashbuf == s.outHashbuf
    ensures c.outHashbuf + [0, 0, 0, 0, 0] == old(c.clientKex).Payload()
    ensures s.outHashbuf + [0, 0, 0, 0, 0] == old(s.serverKex).Payload()
  {
    KexIsRead(s.serverKex);
    KexIsRead(c.clientKex);
    var serverInit := s.SendKex();
    var ok := c.GetKex(serverInit[1..]);
    var clientInit := c.SendKex();
    ok := s.GetKex(clientInit[1..]);
    SameHead(c.outHashbuf, s.inHashbuf, [0, 0, 0, 0, 0]);
    SameHead(s.outHashbuf, c.inHashbuf, [0, 0, 0, 0, 0]);
  }

  /** The Diffie-Hellman messages with secret exponents `x` and `y`: both sides reach g^(xy) mod p. */
  method ExchangeNumbers(c: Session, s: Session, x: nat, y: nat, hostKey: seq<Byte>)
    requires c.Valid() && s.Valid() && c.client && !s.client && c.g == s.g && c.p == s.p
    modifies c`x, c`e, c`f, c`k, c`serverPubkey
    modifies s`y, s`e, s`f, s`k, s`serverPubkey
    ensures c.e == s.e == ModExp(c.g, x, c.p) && c.f == s.f == ModExp(c.g, y, c.p)
    ensures c.k == s.k == Pow(c.g, x * y) % c.p
    ensures c.serverPubkey == s.serverPubkey == hostKey
  {
    c.x := x;
    c.GenerateE();
    var eString := Mpint.Encode(c.e);
    s.ImportE(eString);
    s.y := y;
    s.GenerateF();
    var fString := Mpint.Encode(s.f);
    s.serverPubkey := hostKey;
    s.BuildK();
    c.serverPubkey := hostKey;
    c.ImportF(fString);
    c.BuildK();
    assert x * y == y * x;
  }

  /** The octets of a key buffer that the derivation sets: all that a cipher of that size uses. */
  function KeyLength(keysize: nat): (n: nat)
    ensures n <= 40 && (keysize <= 320 ==> keysize <= 8 * n)
  {
    if keysize > 160 then 40 else 20
  }

  /** Each side encrypts with what the other decrypts with. */
  ghost predicate Crossed(c: Session, s: Session, outKeysize: nat, inKeysize: nat)
    requires c.Valid() && s.Valid()
    reads c.Buffers(), s.Buffers()
  {
    && c.encryptIV[..20] == s.decryptIV[..20] && c.decryptIV[..20] == s.encryptIV[..20]
    && c.encryptKey[..KeyLength(outKeysize)] == s.decryptKey[..KeyLength(outKeysize)]
    && c.decryptKey[..KeyLength(inKeysize)] == s.encryptKey[..KeyLength(inKeysize)]
    && c.encryptMAC[..] == s.decryptMAC[..] && c.decryptMAC[..] == s.encryptMAC[..]
  }

  /** A whole key exchange between a client and a server: same secret, same session id over
      the version strings, the two KEXINIT payloads, the host key and the three numbers, and
      each side encrypts with what the other decrypts with. */
  method Handshake(c: Session, s: Session, x: nat, y: nat, hostKey: seq<Byte>)
    requires c.Valid() && s.Valid() && c.client && !s.client && c.Buffers() !! s.Buffers()
    requires c.g == s.g && c.p == s.p && c.sha1 == s.sha1
    requires c.clientBanner == s.clientBanner && c.serverBanner == s.serverBanner
    requires c.clientKex.Fits() && s.serverKex.Fits()
    requires c.outKeysize == s.inKeysize && c.inKeysize == s.outKeysize
    modifies c, s, c.Buffers(), s.Buffers()
    ensures c.k == s.k == Pow(c.g, x * y) % c.p
    ensures c.sessionId == s.sessionId == c.sha1(Exchange(
      old(c.clientBanner), old(c.serverBanner), old(c.clientKex).Payload(), old(s.serverKex).Payload(),
      hostKey, ModExp(c.g, x, c.p), ModExp(c.g, y, c.p), c.k).HashInput())
    ensures Crossed(c, s, old(c.outKeysize), old(c.inKeysize))
  {
    AgreeOnExchange(c, s, x, y, hostKey);
    MakeIds(c, s);
    DeriveKeys(c, s);
  }

  /** Both sides see the same exchange. */
  method AgreeOnExchange(c: Session, s: Session, x: nat, y: nat, hostKey: seq<Byte>)
    requires c.Valid() && s.Valid() && c.client && !s.client && c.g == s.g && c.p == s.p
    requires c.clientBanner == s.clientBanner && c.serverBanner == s.serverBanner
    requires c.clientKex.Fits() && s.serverKex.Fits()
    modifies c`x, c`e, c`f, c`k, c`serverPubkey, c`inHashbuf, c`outHashbuf, c`clientKex, c`serverKex
    modifies s`y, s`e, s`f, s`k, s`serverPubkey, s`inHashbuf, s`outHashbuf, s`clientKex, s`serverKex
    ensures c.k == s.k == Pow(c.g, x * y) % c.p
    ensures c.Seen() == s.Seen() == Exchange(
      old(c.clientBanner), old(c.serverBanner), old(c.clientKex).Payload(), old(s.serverKex).Payload(),
      hostKey, ModExp(c.g, x, c.p), ModExp(c.g, y, c.p), c.k)
  {
    ExchangeKexInit(c, s);
    ExchangeNumbers(c, s, x, y, hostKey);
  }

  method MakeIds(c: Session, s: Session)
    requires c != s && c.Seen() == s.Seen() && c.sha1 == s.sha1
    modifies c`sessionId, c`inHashbuf, c`outHashbuf, s`sessionId, s`inHashbuf, s`outHashbuf
    ensures c.sessionId == s.sessionId == c.sha1(old(c.Seen()).HashInput())
  {
    c.MakeSessionId();
    s.MakeSessionId();
  }

  /** Two new sessions, each given what it knows of the exchange beforehand, agree. */
  method Connect(sha1: seq<Byte> -> Digest, g: nat, p: nat, x: nat, y: nat, hostKey: seq<Byte>,
                 versions: (seq<Byte>, seq<Byte>), kexes: (Kex, Kex), keysizes: (nat, nat))
    returns (c: Session, s: Session)
    requires p > 1 && kexes.0.Fits() && kexes.1.Fits()
    ensures c.k == s.k == Pow(g, x * y) % p
    ensures c.sessionId == s.sessionId == sha1(Exchange(
      versions.0, versions.1, kexes.0.Payload(), kexes.1.Payload(), hostKey, ModExp(g, x, p), ModExp(g, y, p), c.k
    ).HashInput())
    ensures c.Valid() && s.Valid() && Crossed(c, s, keysizes.0, keysizes.1)
  {
    c := new Session(true, sha1, g, p);
    s := new Session(false, sha1, g, p);
    c.clientBanner, c.serverBanner := versions.0, versions.1;
    s.clientBanner, s.serverBanner := versions.0, versions.1;
    c.clientKex, s.serverKex := kexes.0, kexes.1;
    c.outKeysize, c.inKeysize := keysizes.0, keysizes.1;
    s.outKeysize, s.inKeysize := keysizes.1, keysizes.0;
    Handshake(c, s, x, y, hostKey);
  }

  method DeriveKeys(c: Session, s: Session)
    requires c.Valid() && s.Valid() && c.client && !s.client && c.Buffers() !! s.Buffers()
    requires c.sha1 == s.sha1 && c.k == s.k && c.sessionId == s.sessionId
    requires c.outKeysize == s.inKeysize && c.inKeysize == s.outKeysize
    modifies c.Buffers(), s.Buffers()
    ensures Crossed(c, s, c.outKeysize, c.inKeysize)
  {
    c.GenerateSessionKeys();
    s.GenerateSessionKeys();
    CrossedKeys(c, s);
  }

  lemma CrossedKeys(c: Session, s: Session)
    requires c.Valid() && s.Valid() && c.client && !s.client
    requires c.sha1 == s.sha1 && c.k == s.k && c.sessionId == s.sessionId
    requires c.outKeysize == s.inKeysize && c.inKeysize == s.outKeysize
    requires c.HasKeys(c.encryptIV, c.encryptKey, c.encryptMAC, c.outKeysize, c.Out())
    requires c.HasKeys(c.decryptIV, c.decryptKey, c.decryptMAC, c.inKeysize, c.In())
    requires s.HasKeys(s.encryptIV, s.encryptKey, s.encryptMAC, s.outKeysize, s.Out())
    requires s.HasKeys(s.decryptIV, s.decryptKey, s.decryptMAC, s.inKeysize, s.In())
    ensures Crossed(c, s, c.outKeysize, c.inKeysize)
  {
    SamePrefix(c.encryptKey, s.decryptKey, KeyMaterial(c.sha1, c.k, c.sessionId, 'C', c.outKeysize));
    SamePrefix(c.decryptKey, s.encryptKey, KeyMaterial(c.sha1, c.k, c.sessionId, 'D', c.inKeysize));
  }

  lemma SamePrefix(a: array<Byte>, b: array<Byte>, s: seq<Byte>)
    requires s <= a[..] && s <= b[..]
    ensures a[..|s|] == b[..|s|]
  {
  }
}

/** The binary packet protocol (libssh/packet.c, libssh/crypt.c; section 6 of RFC 4253):
    one-shot descriptions of framing and of parsing. */
module Packet {
  import opened Bytes
  import opened Cbc
  import Fields
  import Mpint

  const MAX_PACKET_LEN := 262144
  const MAC_SIZE := 20

  /** The keys of one direction, None before the first key exchange. The MAC is any
      function of sequence number and plain packet with 20 octets. */
  datatype Keys = Plain | Keyed(cipher: Cipher, mac: seq<Byte> -> seq<Byte>)

  ghost predicate GoodKeys(k: Keys) {
    k.Keyed? ==> IsCipher(k.cipher) && forall m :: |k.mac(m)| == MAC_SIZE
  }

  /** What both ends advance with every packet. */
  datatype Place = Place(iv: seq<Byte>, seqno: Uint32)

  ghost predicate GoodPlace(k: Keys, at: Place) {
    GoodKeys(k) && (k.Keyed? ==> |at.iv| == k.cipher.size)
  }

  function BlockSize(k: Keys): nat {
    if k.Keyed? then k.cipher.size else 8
  }

  function MacSize(k: Keys): nat {
    if k.Keyed? then MAC_SIZE else 0
  }

  // ----- sending -----

  /** packet_send2: at least 4 octets, and the whole a multiple of the block size. */
  function Padding(bs: nat, len: nat): nat
    requires bs > 0
  {
    var p := bs - (len + 5) % bs;
    if p < 4 then p + bs else p
  }

  lemma PaddingAligns(bs: nat, len: nat)
    requires bs == 8 || bs == 16
    ensures 4 <= Padding(bs, len) < bs + 4
    ensures (len + 5 + Padding(bs, len)) % bs == 0
  {
    var n := len + 5;
    if bs == 8 {
      RoundUp8(n);
    } else {
      RoundUp16(n);
    }
  }

  lemma RoundUp8(n: nat)
    ensures (n + (8 - n % 8)) % 8 == 0 && (n + (8 - n % 8) + 8) % 8 == 0
  {
  }

  lemma RoundUp16(n: nat)
    ensures (n + (16 - n % 16)) % 16 == 0 && (n + (16 - n % 16) + 16) % 16 == 0
  {
  }

  /** The octets before encryption: length, padding length, payload, padding. */
  function Frame(payload: seq<Byte>, pad: seq<Byte>): seq<Byte>
    requires 1 + |payload| + |pad| < U32 && |pad| < 256
  {
    U32ToBytes(1 + |payload| + |pad|) + [|pad|] + payload + pad
  }

  /** The layout of section 6 of RFC 4253: the length of all that follows, in network order,
      the length of the padding, the payload and the padding. */
  lemma FrameLayout(payload: seq<Byte>, pad: seq<Byte>)
    requires 1 + |payload| + |pad| < U32 && |pad| < 256
    ensures var f := Frame(payload, pad);
      && |f| == 5 + |payload| + |pad| && Mpint.BytesNat(f[..4]) == |f| - 4
      && f[4] == |pad| && f[5..5 + |payload|] == payload && f[5 + |payload|..] == pad
  {
    var f := Frame(payload, pad);
    assert f[..4] == U32ToBytes(1 + |payload| + |pad|);
    U32RoundTrip(1 + |payload| + |pad|);
    Fields.U32IsNumber(f[..4]);
  }

  /** A payload as long as the receiver takes, with the padding the sender chose. */
  ghost predicate Sendable(k: Keys, payload: seq<Byte>, pad: seq<Byte>) {
    && (BlockSize(k) == 8 || BlockSize(k) == 16)
    && |pad| == Padding(BlockSize(k), |payload|)
    && 1 + |payload| + |pad| <= MAX_PACKET_LEN
  }

  function Seal(k: Keys, at: Place, plain: seq<Byte>): seq<Byte>
    requires GoodPlace(k, at) && |plain| % BlockSize(k) == 0
  {
    if k.Plain? then plain
    else Encrypt(k.cipher, at.iv, plain) + k.mac(U32ToBytes(at.seqno) + plain)
  }

  /** Where both ends stand after a packet whose octets, without MAC, were `wire`. */
  function Advance(k: Keys, at: Place, wire: seq<Byte>): Place {
    Place(if k.Plain? then at.iv else NextIv(k.cipher, at.iv, wire), ToUint32(at.seqno + 1))
  }

  // ----- receiving, with all octets at hand -----

  datatype Parsed =
    | Incomplete
    | Bad
    | Packet(payload: seq<Byte>, rest: seq<Byte>, after: Place)

  function Open(k: Keys, iv: seq<Byte>, s: seq<Byte>): seq<Byte>
    requires k.Keyed? ==> Whole(k.cipher, iv, s)
  {
    if k.Plain? then s else Decrypt(k.cipher, iv, s)
  }

  /** The length field of the packet whose first block is `s`. */
  function LengthField(k: Keys, iv: seq<Byte>, s: seq<Byte>): Uint32
    requires GoodKeys(k) && (k.Keyed? ==> |iv| == k.cipher.size) && |s| == BlockSize(k)
  {
    BytesToU32(Open(k, iv, s)[..4])
  }

  /** The packet's octets without the length field's own check: length, padding, payload. */
  function Unframe(plain: seq<Byte>): Option<seq<Byte>>
    requires |plain| >= 5
  {
    var padding: int := plain[4];
    if padding > |plain| - 5 then None else Some(plain[5..|plain| - padding])
  }

  /** The payload is found exactly when the frame is its five octets of head, the payload and as
      much padding as the head says. */
  lemma UnframeMeaning(plain: seq<Byte>, payload: seq<Byte>)
    requires |plain| >= 5
    ensures Unframe(plain) == Some(payload) <==> exists pad :: |pad| == plain[4] && plain[5..] == payload + pad
  {
    if pad :| |pad| == plain[4] && plain[5..] == payload + pad {
      assert plain[5..|plain| - |pad|] == (payload + pad)[..|payload|] == payload;
    }
    if Unframe(plain) == Some(payload) {
      var pad := plain[|plain| - plain[4]..];
      assert plain[5..] == payload + pad;
    }
  }

  /** The verdict once `total` octets and the MAC are there. */
  function ParseWhole(k: Keys, at: Place, s: seq<Byte>, total: nat): (r: Parsed)
    requires GoodPlace(k, at) && BlockSize(k) <= total && |s| >= total + MacSize(k)
    ensures r.Packet? ==> |r.rest| < |s| && GoodPlace(k, r.after)
  {
    if k.Keyed? && total % BlockSize(k) != 0 then Bad
    else
      var plain := Open(k, at.iv, s[..total]);
      if k.Keyed? && s[total..total + MAC_SIZE] != k.mac(U32ToBytes(at.seqno) + plain) then Bad
      else
        match Unframe(plain)
        case None => Bad
        case Some(payload) =>
          Packet(payload, s[total + MacSize(k)..], Advance(k, at, s[..total]))
  }

  function Parse(k: Keys, at: Place, s: seq<Byte>): (r: Parsed)
    requires GoodPlace(k, at)
    ensures r.Packet? ==> |r.rest| < |s| && GoodPlace(k, r.after)
  {
    var bs := BlockSize(k);
    if |s| < bs then Incomplete
    else
      var len := LengthField(k, at.iv, s[..bs]);
      if len > MAX_PACKET_LEN || len + 4 < bs then Bad
      else if |s| < len + 4 + MacSize(k) then Incomplete
      else ParseWhole(k, at, s, len + 4)
  }

  /** The first `total` octets open to a frame with that payload, and the MAC of the sequence
      number and the plain octets stands behind them, if there are keys. */
  ghost predicate Authentic(k: Keys, at: Place, s: seq<Byte>, total: nat, payload: seq<Byte>, rest: seq<Byte>)
    requires GoodPlace(k, at) && BlockSize(k) <= total && total + MacSize(k) <= |s|
  {
    && (k.Keyed? ==> Whole(k.cipher, at.iv, s[..total]))
    && var plain := Open(k, at.iv, s[..total]);
    && |plain| >= 5 && Unframe(plain) == Some(payload) && rest == s[total + MacSize(k)..]
    && (k.Keyed? ==> s[total..total + MAC_SIZE] == k.mac(U32ToBytes(at.seqno) + plain))
  }

  lemma WholeIsAuthentic(k: Keys, at: Place, s: seq<Byte>, total: nat)
    requires GoodPlace(k, at) && BlockSize(k) <= total && total + MacSize(k) <= |s|
    requires ParseWhole(k, at, s, total).Packet?
    ensures var r := ParseWhole(k, at, s, total); Authentic(k, at, s, total, r.payload, r.rest)
  {
    assert |s[..total]| == total;
  }

  lemma WholeOf(k: Keys, at: Place, s: seq<Byte>) returns (total: nat)
    requires GoodPlace(k, at) && Parse(k, at, s).Packet?
    ensures BlockSize(k) <= total <= MAX_PACKET_LEN + 4 && total + MacSize(k) <= |s|
    ensures LengthField(k, at.iv, s[..BlockSize(k)]) == total - 4
    ensures Parse(k, at, s) == ParseWhole(k, at, s, total)
  {
    var bs := BlockSize(k);
    assert |s| >= bs;
    var len := LengthField(k, at.iv, s[..bs]);
    assert len <= MAX_PACKET_LEN && len + 4 >= bs && |s| >= len + 4 + MacSize(k);
    total := len + 4;
  }

  /** Nothing else is taken as a packet; `total` is what its length field says. */
  lemma AcceptedIsAuthentic(k: Keys, at: Place, s: seq<Byte>) returns (total: nat)
    requires GoodPlace(k, at) && Parse(k, at, s).Packet?
    ensures BlockSize(k) <= total <= MAX_PACKET_LEN + 4 && total + MacSize(k) <= |s|
    ensures LengthField(k, at.iv, s[..BlockSize(k)]) == total - 4
    ensures var r := Parse(k, at, s); Authentic(k, at, s, total, r.payload, r.rest)
  {
    total := WholeOf(k, at, s);
    WholeIsAuthentic(k, at, s, total);
  }

  /** More octets do not change what is already decided. */
  lemma ParseExtends(k: Keys, at: Place, s: seq<Byte>, t: seq<Byte>)
    requires GoodPlace(k, at) && !Parse(k, at, s).Incomplete?
    ensures Parse(k, at, s + t) == match Parse(k, at, s)
                                   case Packet(p, rest, after) => Packet(p, rest + t, after)
                                   case other => other
  {
    var bs := BlockSize(k);
    assert (s + t)[..bs] == s[..bs];
    var len := LengthField(k, at.iv, s[..bs]);
    if len <= MAX_PACKET_LEN && len + 4 >= bs {
      WholeExtends(k, at, s, t, len + 4);
    }
  }

  lemma WholeExtends(k: Keys, at: Place, s: seq<Byte>, t: seq<Byte>, total: nat)
    requires GoodPlace(k, at) && BlockSize(k) <= total && |s| >= total + MacSize(k)
    ensures ParseWhole(k, at, s + t, total) == match ParseWhole(k, at, s, total)
                                               case Packet(p, rest, after) => Packet(p, rest + t, after)
                                               case other => other
  {
    assert (s + t)[..total] == s[..total];
    assert k.Keyed? ==> (s + t)[total..total + MAC_SIZE] == s[total..total + MAC_SIZE];
    assert (s + t)[total + MacSize(k)..] == s[total + MacSize(k)..] + t;
  }

  /** A stream that starts with a sound packet of `total` octets parses to it. */
  lemma ParseSound(k: Keys, at: Place, s: seq<Byte>, total: nat, plain: seq<Byte>, payload: seq<Byte>, tail: seq<Byte>)
    requires GoodPlace(k, at) && BlockSize(k) >= 5
    requires BlockSize(k) <= total <= MAX_PACKET_LEN + 4 && (k.Keyed? ==> total % BlockSize(k) == 0)
    requires |s| == total + MacSize(k) + |tail| && s[total + MacSize(k)..] == tail
    requires LengthField(k, at.iv, s[..BlockSize(k)]) == total - 4
    requires Open(k, at.iv, s[..total]) == plain && Unframe(plain) == Some(payload)
    requires k.Keyed? ==> s[total..total + MAC_SIZE] == k.mac(U32ToBytes(at.seqno) + plain)
    ensures Parse(k, at, s) == Packet(payload, tail, Advance(k, at, s[..total]))
  {
  }

  lemma UnframeFrame(payload: seq<Byte>, pad: seq<Byte>)
    requires 1 + |payload| + |pad| < U32 && |pad| < 256
    ensures var plain := Frame(payload, pad);
      |plain| == 5 + |payload| + |pad| && Unframe(plain) == Some(payload)
      && BytesToU32(plain[..4]) == |plain| - 4
  {
    var plain := Frame(payload, pad);
    assert plain[5..|plain| - |pad|] == payload;
    assert plain[..4] == U32ToBytes(1 + |payload| + |pad|);
    U32RoundTrip(1 + |payload| + |pad|);
  }

  /** The sealed packet opens again, and so does its first block alone. */
  lemma OpenSealed(k: Keys, at: Place, plain: seq<Byte>)
    requires GoodPlace(k, at) && |plain| % BlockSize(k) == 0 && |plain| >= BlockSize(k) >= 8
    ensures var s := Seal(k, at, plain);
      && |s| == |plain| + MacSize(k)
      && Open(k, at.iv, s[..|plain|]) == plain
      && LengthField(k, at.iv, s[..BlockSize(k)]) == BytesToU32(plain[..4])
      && (k.Keyed? ==> s[|plain|..] == k.mac(U32ToBytes(at.seqno) + plain))
  {
    var s, bs := Seal(k, at, plain), BlockSize(k);
    if k.Plain? {
      assert s[..|plain|] == plain && s[..bs][..4] == plain[..4];
    } else {
      var e := Encrypt(k.cipher, at.iv, plain);
      assert s[..|plain|] == e && s[..bs] == e[..bs] && e == e[..bs] + e[bs..];
      DecryptEncrypt(k.cipher, at.iv, plain);
      Aligned(|e|, 0, bs);
      DecryptInTwo(k.cipher, at.iv, e[..bs], e[bs..]);
      var first := Decrypt(k.cipher, at.iv, e[..bs]);
      assert first == plain[..bs] && first[..4] == plain[..4];
    }
  }

  /** What one end sends the other parses back, and both ends keep in step. */
  lemma ParseSealed(k: Keys, at: Place, payload: seq<Byte>, pad: seq<Byte>, tail: seq<Byte>)
    requires GoodPlace(k, at) && Sendable(k, payload, pad)
    ensures var plain := Frame(payload, pad);
      && |plain| % BlockSize(k) == 0
      && Parse(k, at, Seal(k, at, plain) + tail)
         == Packet(payload, tail, Advance(k, at, Seal(k, at, plain)[..|plain|]))
  {
    var bs, plain := BlockSize(k), Frame(payload, pad);
    PaddingAligns(bs, |payload|);
    UnframeFrame(payload, pad);
    var e := Seal(k, at, plain);
    var s, total := e + tail, |plain|;
    Aligned(total, 0, bs);
    OpenSealed(k, at, plain);
    assert s[..bs] == e[..bs] && s[..total] == e[..total];
    assert k.Keyed? ==> s[total..total + MAC_SIZE] == e[total..];
    assert s[total + MacSize(k)..] == tail;
    ParseSound(k, at, s, total, plain, payload, tail);
  }

  /** The limit is exact: one octet more and the receiver gives up, although the sender
      does not look at it. */
  lemma OversizedIsRefused(k: Keys, at: Place, payload: seq<Byte>, pad: seq<Byte>, tail: seq<Byte>)
    requires GoodPlace(k, at) && (BlockSize(k) == 8 || BlockSize(k) == 16)
    requires |pad| == Padding(BlockSize(k), |payload|) && MAX_PACKET_LEN < 1 + |payload| + |pad| < U32
    ensures |pad| < 256 && |Frame(payload, pad)| % BlockSize(k) == 0
    ensures Parse(k, at, Seal(k, at, Frame(payload, pad)) + tail) == Bad
  {
    var bs := BlockSize(k);
    PaddingAligns(bs, |payload|);
    UnframeFrame(payload, pad);
    var plain := Frame(payload, pad);
    OpenSealed(k, at, plain);
    var e := Seal(k, at, plain);
    assert (e + tail)[..bs] == e[..bs];
  }
}

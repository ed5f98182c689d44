/** Sender and receiver of packets as libssh/packet.c and libssh/socket.c write them: the
    receiver is resumed call after call while the network delivers fragments, and is
    proved to read what the one-shot parser of module Packet reads. */
module PacketStream {
  import opened Bytes
  import opened Cbc
  import opened Packet

  // ----- many packets at once -----

  datatype Stream = Stream(payloads: seq<seq<Byte>>, bad: bool, rest: seq<Byte>, at: Place)

  /** All packets of `s`, up to the first bad or incomplete one. */
  function ParseAll(k: Keys, at: Place, s: seq<Byte>): Stream
    requires GoodPlace(k, at)
    decreases |s|
  {
    match Parse(k, at, s)
    case Incomplete => Stream([], false, s, at)
    case Bad => Stream([], true, s, at)
    case Packet(p, rest, after) =>
      var others := ParseAll(k, after, rest);
      others.(payloads := [p] + others.payloads)
  }

  datatype Outgoing = Outgoing(payload: seq<Byte>, pad: seq<Byte>)

  ghost predicate AllSendable(k: Keys, out: seq<Outgoing>) {
    forall i :: 0 <= i < |out| ==> Sendable(k, out[i].payload, out[i].pad)
  }

  /** The octets of one packet, and where the sender stands behind it. */
  ghost function SealOne(k: Keys, at: Place, o: Outgoing): (r: (seq<Byte>, Place))
    requires GoodPlace(k, at) && Sendable(k, o.payload, o.pad)
    ensures GoodPlace(k, r.1)
  {
    ParseSealed(k, at, o.payload, o.pad, []);
    var plain := Frame(o.payload, o.pad);
    var e := Seal(k, at, plain);
    (e, Advance(k, at, e[..|plain|]))
  }

  ghost function SealAll(k: Keys, at: Place, out: seq<Outgoing>): (r: (seq<Byte>, Place))
    requires GoodPlace(k, at) && AllSendable(k, out)
    ensures GoodPlace(k, r.1)
    decreases |out|
  {
    if out == [] then ([], at)
    else
      var (e, next) := SealOne(k, at, out[0]);
      var (others, end) := SealAll(k, next, out[1..]);
      (e + others, end)
  }

  /** The sequence number counts packets, modulo 2^32. */
  lemma {:induction false} SequenceCounts(k: Keys, at: Place, out: seq<Outgoing>) returns (wraps: nat)
    requires GoodPlace(k, at) && AllSendable(k, out)
    ensures SealAll(k, at, out).1.seqno + wraps * U32 == at.seqno + |out|
    decreases |out|
  {
    if out == [] {
      wraps := 0;
    } else {
      var (e, next) := SealOne(k, at, out[0]);
      var wrap := NextNumber(k, at, out[0]);
      wraps := SequenceCounts(k, next, out[1..]);
      wraps := wraps + wrap;
    }
  }

  lemma NextNumber(k: Keys, at: Place, o: Outgoing) returns (wrap: nat)
    requires GoodPlace(k, at) && Sendable(k, o.payload, o.pad)
    ensures SealOne(k, at, o).1.seqno + wrap * U32 == at.seqno + 1
  {
    wrap := if at.seqno == U32 - 1 then 1 else 0;
  }

  lemma ParseOne(k: Keys, at: Place, o: Outgoing, tail: seq<Byte>)
    requires GoodPlace(k, at) && Sendable(k, o.payload, o.pad)
    ensures var (e, next) := SealOne(k, at, o); Parse(k, at, e + tail) == Packet(o.payload, tail, next)
  {
    ParseSealed(k, at, o.payload, o.pad, tail);
  }

  function Payloads(out: seq<Outgoing>): seq<seq<Byte>> {
    if out == [] then [] else [out[0].payload] + Payloads(out[1..])
  }

  ghost function Before(ps: seq<seq<Byte>>, st: Stream): Stream {
    st.(payloads := ps + st.payloads)
  }

  /** Every list of payloads comes back in order, and both ends end at the same place, so
      that every MAC verifies. */
  lemma {:induction false} RoundTrip(k: Keys, at: Place, out: seq<Outgoing>, tail: seq<Byte>)
    requires GoodPlace(k, at) && AllSendable(k, out)
    ensures ParseAll(k, at, SealAll(k, at, out).0 + tail)
         == Before(Payloads(out), ParseAll(k, SealAll(k, at, out).1, tail))
    decreases |out|
  {
    if out == [] {
      assert [] + tail == tail;
      assert [] + ParseAll(k, at, tail).payloads == ParseAll(k, at, tail).payloads;
    } else {
      var (e, next) := SealOne(k, at, out[0]);
      RoundTrip(k, next, out[1..], tail);
      FirstPacket(k, at, out[0], SealAll(k, next, out[1..]).0, tail);
      BeforeBoth(out[0].payload, Payloads(out[1..]), ParseAll(k, SealAll(k, at, out).1, tail));
    }
  }

  lemma BeforeBoth(p: seq<Byte>, ps: seq<seq<Byte>>, st: Stream)
    ensures Before([p], Before(ps, st)) == Before([p] + ps, st)
  {
    assert [p] + (ps + st.payloads) == [p] + ps + st.payloads;
  }

  lemma FirstPacket(k: Keys, at: Place, o: Outgoing, others: seq<Byte>, tail: seq<Byte>)
    requires GoodPlace(k, at) && Sendable(k, o.payload, o.pad)
    ensures var (e, next) := SealOne(k, at, o);
      ParseAll(k, at, e + others + tail) == Before([o.payload], ParseAll(k, next, others + tail))
  {
    var (e, next) := SealOne(k, at, o);
    ParseOne(k, at, o, others + tail);
    Associate(e, others, tail);
    PrependPacket(k, at, e + (others + tail), o.payload, others + tail, next);
  }

  lemma PrependPacket(k: Keys, at: Place, s: seq<Byte>, p: seq<Byte>, rest: seq<Byte>, next: Place)
    requires GoodPlace(k, at) && GoodPlace(k, next) && Parse(k, at, s) == Packet(p, rest, next)
    ensures ParseAll(k, at, s) == Before([p], ParseAll(k, next, rest))
  {
  }

  // ----- the sender -----

  /** Whether packet_encrypt goes on to encrypt a packet of `len` octets: there are keys, and
      the length is a multiple of the block size of the cipher of the other direction. */
  predicate Passes(k: Keys, inSize: nat, len: nat)
    requires inSize > 0
  {
    k.Keyed? && len % inSize == 0
  }

  class Sender {
    const keys: Keys
    // The block size of session->current_crypto->in_cipher.
    const inSize: nat
    var iv: seq<Byte>
    var sendSeq: Uint32
    var outBuffer: seq<Byte>
    var wire: seq<Byte>

    ghost function At(): Place
      reads this
    {
      Place(iv, sendSeq)
    }

    constructor (keys: Keys, inSize: nat, iv: seq<Byte>)
      requires GoodPlace(keys, Place(iv, 0)) && inSize > 0
      ensures this.keys == keys && this.inSize == inSize && At() == Place(iv, 0) && wire == [] && outBuffer == []
    {
      this.keys, this.inSize, this.iv := keys, inSize, iv;
      sendSeq, outBuffer, wire := 0, [], [];
    }

    /** packet_encrypt: returns the MAC of the plain packet and encrypts it in place, or
        returns None, which is NULL, and leaves it as it is. */
    method Encrypt() returns (hmac: Option<seq<Byte>>)
      requires GoodPlace(keys, At()) && inSize > 0 && |outBuffer| % BlockSize(keys) == 0
      modifies this`iv, this`outBuffer
      ensures hmac.Some? <==> Passes(keys, inSize, |old(outBuffer)|)
      ensures hmac.None? ==> outBuffer == old(outBuffer) && iv == old(iv)
      ensures hmac.Some? ==> outBuffer + hmac.value == Seal(keys, old(At()), old(outBuffer))
      ensures hmac.Some? ==> Place(iv, ToUint32(sendSeq + 1)) == Advance(keys, old(At()), outBuffer)
      ensures |outBuffer| == |old(outBuffer)| && GoodPlace(keys, At())
    {
      if keys.Plain? {
        return None;
      }
      if |outBuffer| % inSize != 0 {
        return None;
      }
      hmac := Some(keys.mac(U32ToBytes(sendSeq) + outBuffer));
      outBuffer := Cbc.Encrypt(keys.cipher, iv, outBuffer);
      iv := NextIv(keys.cipher, iv, outBuffer);
    }

    /** The octets packet_send2 builds before encryption; `random` is what ssh_get_random
        delivers. */
    method BuildFrame(random: seq<Byte>)
      requires GoodPlace(keys, At()) && |random| >= 32 && |outBuffer| + 32 < U32
      modifies this`outBuffer
      ensures var pad := PadString(keys, |old(outBuffer)|, random);
        4 <= |pad| < 32 && outBuffer == Frame(old(outBuffer), pad) && |outBuffer| % BlockSize(keys) == 0
    {
      var blocksize := if keys.Plain? then 8 else keys.cipher.size;
      var currentlen := |outBuffer|;
      var padding := blocksize - (currentlen + 5) % blocksize;
      if padding < 4 {
        padding := padding + blocksize;
      }
      PaddingAligns(blocksize, currentlen);
      var padstring: seq<Byte> := if keys.Plain? then seq(padding, _ => 0) else random[..padding];
      var finallen := currentlen + padding + 1;
      outBuffer := [padding] + outBuffer;
      outBuffer := U32ToBytes(finallen) + outBuffer;
      outBuffer := outBuffer + padstring;
      assert outBuffer == Frame(old(outBuffer), padstring);
    }

    /** packet_send2. Without a MAC from packet_encrypt the frame goes out as it is, though
        there are keys. */
    method Send(random: seq<Byte>)
      requires GoodPlace(keys, At()) && inSize > 0 && |random| >= 32 && |outBuffer| + 32 < U32
      modifies this
      ensures GoodPlace(keys, At()) && outBuffer == []
      ensures var pad := PadString(keys, |old(outBuffer)|, random);
        |pad| < 32 && Sent(old(wire), wire, old(At()), Frame(old(outBuffer), pad))
    {
      BuildFrame(random);
      ghost var plain := outBuffer;
      var hmac := Encrypt();
      if hmac.Some? {
        ghost var e := outBuffer + hmac.value;
        assert e[..|plain|] == outBuffer;
        outBuffer := outBuffer + hmac.value;
      }
      wire := wire + outBuffer;
      sendSeq := ToUint32(sendSeq + 1);
      outBuffer := [];
    }

    /** What one call sends for the frame `plain`, and where it leaves the sender. */
    ghost predicate Sent(before: seq<Byte>, after: seq<Byte>, at: Place, plain: seq<Byte>)
      requires inSize > 0
      reads this
    {
      if keys.Plain? || |plain| % inSize == 0 then
        && GoodPlace(keys, at) && |plain| % BlockSize(keys) == 0
        && after == before + Seal(keys, at, plain)
        && At() == Advance(keys, at, Seal(keys, at, plain)[..|plain|])
      else
        after == before + plain && At() == Place(at.iv, ToUint32(at.seqno + 1))
    }
  }

  /** The padding of a packet: zeros as long as nothing is encrypted. */
  function PadString(k: Keys, len: nat, random: seq<Byte>): seq<Byte>
    requires BlockSize(k) > 0 && |random| >= Padding(BlockSize(k), len)
  {
    var n := Padding(BlockSize(k), len);
    if k.Plain? then seq(n, _ => 0) else random[..n]
  }

  /** Random octets with keys, zeros without. */
  lemma PaddingOctets(k: Keys, len: nat, random: seq<Byte>)
    requires BlockSize(k) > 0 && |random| >= Padding(BlockSize(k), len)
    ensures var pad := PadString(k, len, random);
      |pad| == Padding(BlockSize(k), len) && forall i :: 0 <= i < |pad| ==> pad[i] == if k.Keyed? then random[i] else 0
  {
  }

  // ----- the receiver -----

  /** What the network will deliver, fragment by fragment; an empty fragment is a poll that
      finds nothing to read. */
  type Network = seq<seq<Byte>>

  ghost function Flat(net: Network): seq<Byte> {
    if net == [] then [] else net[0] + Flat(net[1..])
  }

  /** Every fragment brings two octets, and the last one brings one. */
  predicate Pairs(net: Network) {
    net != [] && if |net| == 1 then |net[0]| == 1 else |net[0]| == 2 && Pairs(net[1..])
  }

  /** The octets come so that no read of an even number of them finds just that number:
      `held` is what is buffered now. */
  predicate OneTooMany(held: nat, net: Network) {
    if held == 0 then |net| > 1 && |net[0]| == 1 && Pairs(net[1..]) else held % 2 == 1 && Pairs(net)
  }

  datatype Phase = Init | SizeRead

  /** Hung stands for a call that does not return from realloc_buffer. */
  datatype Rc = Ok | Again | Error | Hung

  const READ_SIZE := 4096

  class Receiver {
    const keys: Keys
    var phase: Phase
    var len: Uint32
    // session->in_buffer, from its position on.
    var inBuffer: seq<Byte>
    // The socket's in_buffer, from its position on, and that position.
    var sockIn: seq<Byte>
    var sockPos: nat
    var net: Network
    var iv: seq<Byte>
    var recvSeq: Uint32
    // The octets already taken for the packet being read, and the chaining value before.
    ghost var raw: seq<Byte>
    ghost var iv0: seq<Byte>

    ghost function At(): Place
      reads this
    {
      Place(iv0, recvSeq)
    }

    /** All that has been received and not been returned as a packet. */
    ghost function Pending(): seq<Byte>
      reads this
    {
      raw + sockIn
    }

    /** What the socket's in_buffer will use when all has arrived, unless a read drains it
        before. */
    ghost function Load(): nat
      reads this`sockPos, this`sockIn, this`net
    {
      sockPos + |sockIn| + |Flat(net)|
    }

    /** With keys every read is of an even number of octets, so this buffer is never drained
        and gets too large. */
    ghost predicate Leaky()
      reads this`sockPos, this`sockIn, this`net
    {
      keys.Keyed? && Load() > BUFFER_MAX && OneTooMany(|sockIn|, net)
    }

    /** The socket after some reads: `load` and `leaky` are what they were before. */
    ghost predicate Socket(load: nat, leaky: bool)
      reads this`sockPos, this`sockIn, this`net
    {
      && (sockIn == [] ==> sockPos == 0)
      && Load() <= load && (leaky ==> Leaky())
    }

    ghost predicate Valid()
      reads this
    {
      && GoodPlace(keys, At()) && (sockIn == [] ==> sockPos == 0)
      && (phase.Init? ==> raw == [] && iv == iv0)
      && (phase.SizeRead? ==>
            && |raw| == BlockSize(keys) && (keys.Keyed? ==> Whole(keys.cipher, iv0, raw))
            && inBuffer == Packet.Open(keys, iv0, raw)
            && iv == (if keys.Plain? then iv0 else NextIv(keys.cipher, iv0, raw))
            && len == LengthField(keys, iv0, raw) && len <= MAX_PACKET_LEN && len + 4 >= BlockSize(keys))
    }

    constructor (keys: Keys, iv: seq<Byte>, net: Network)
      requires GoodPlace(keys, Place(iv, 0))
      ensures Valid() && this.keys == keys && At() == Place(iv, 0) && Pending() == [] && this.net == net
      ensures Load() == |Flat(net)|
    {
      this.keys, this.iv, this.net := keys, iv, net;
      phase, len, inBuffer, recvSeq := Init, 0, [], 0;
      sockIn, sockPos := [], 0;
      raw, iv0 := [], iv;
    }

    /** ssh_socket_wait_for_data, nonblocking: reads until `n` octets are buffered or a poll
        finds nothing. */
    method WaitForData(n: nat) returns (rc: Rc, ghost taken: seq<Byte>)
      requires sockIn == [] ==> sockPos == 0
      modifies this`sockIn, this`net
      ensures sockIn == old(sockIn) + taken && Flat(old(net)) == taken + Flat(net)
      ensures rc != Error && (rc == Ok <==> |sockIn| >= n)
      ensures rc == Again ==> net == [] || |net| < |old(net)|
      ensures rc == Hung ==> old(Load()) > BUFFER_MAX
      ensures |net| <= |old(net)| && Socket(old(Load()), old(Leaky()))
    {
      taken := [];
      assert sockIn + [] == sockIn && [] + Flat(net) == Flat(net);
      if |sockIn| >= n {
        return Ok, taken;
      }
      while |sockIn| < n
        invariant sockIn == old(sockIn) + taken && Flat(old(net)) == taken + Flat(net)
        invariant |net| <= |old(net)| && Socket(old(Load()), old(Leaky()))
        decreases |net|, if net == [] then 0 else |net[0]|
      {
        if net == [] {
          return Again, taken;
        }
        if net[0] == [] {
          net := net[1..];
          return Again, taken;
        }
        ghost var got;
        var ok;
        ok, got := ReadSome();
        if !ok {
          return Hung, taken;
        }
        Associate(taken, got, Flat(net));
        Associate(old(sockIn), taken, got);
        taken := taken + got;
      }
      rc := Ok;
    }

    /** One read of at most 4096 octets of the fragment that has arrived; false when
        buffer_add_data does not return. */
    method ReadSome() returns (ok: bool, ghost got: seq<Byte>)
      requires net != [] && net[0] != [] && (sockIn == [] ==> sockPos == 0)
      modifies this`sockIn, this`net
      ensures var n := Min(|old(net)[0]|, READ_SIZE);
        (ok <==> sockPos + |old(sockIn)| + n <= BUFFER_MAX) && |got| == if ok then n else 0
      ensures !ok ==> net == old(net) && Load() > BUFFER_MAX
      ensures sockIn == old(sockIn) + got && Flat(old(net)) == got + Flat(net)
      ensures ok ==> |net| < |old(net)| || (|net| == |old(net)| && |net[0]| < |old(net)[0]|)
      ensures Socket(old(Load()), old(Leaky()))
    {
      var f := net[0];
      var n := if |f| < READ_SIZE then |f| else READ_SIZE;
      if sockPos + |sockIn| + n > BUFFER_MAX {
        assert sockIn + [] == sockIn && [] + Flat(net) == Flat(net);
        return false, [];
      }
      sockIn := sockIn + f[..n];
      ok, got := true, f[..n];
      assert f == f[..n] + f[n..];
      if n == |f| {
        net := net[1..];
      } else {
        net := [f[n..]] + net[1..];
        assert f[..n] + (f[n..] + Flat(net[1..])) == f + Flat(net[1..]);
      }
    }

    /** ssh_socket_read of octets that are buffered. */
    method SocketRead(n: nat) returns (bytes: seq<Byte>)
      requires n <= |sockIn| && (sockIn == [] ==> sockPos == 0)
      modifies this`sockIn, this`sockPos
      ensures bytes + sockIn == old(sockIn) && |bytes| == n
      ensures sockPos == if n == |old(sockIn)| then 0 else old(sockPos) + n
      ensures Socket(old(Load()), n % 2 == 0 && old(Leaky()))
    {
      bytes := sockIn[..n];
      sockIn, sockPos := sockIn[n..], sockPos + n;
      if sockIn == [] {
        sockPos := 0;
      }
    }

    /** packet_decrypt: in place, continuing the chain. */
    method DecryptPart(data: seq<Byte>) returns (plain: seq<Byte>)
      requires keys.Keyed? && Whole(keys.cipher, iv, data)
      modifies this`iv
      ensures plain == Decrypt(keys.cipher, old(iv), data) && iv == NextIv(keys.cipher, old(iv), data)
    {
      plain := Decrypt(keys.cipher, iv, data);
      iv := NextIv(keys.cipher, iv, data);
    }

    /** Takes the first block off the socket and decrypts it. */
    method TakeFirstBlock(blocksize: nat)
      requires Valid() && phase.Init? && blocksize == BlockSize(keys) <= |sockIn|
      modifies this`raw, this`sockIn, this`sockPos, this`iv, this`inBuffer
      ensures GoodPlace(keys, At()) && |raw| == blocksize && raw + sockIn == old(sockIn)
      ensures Socket(old(Load()), old(Leaky()))
      ensures keys.Keyed? ==> Whole(keys.cipher, iv0, raw)
      ensures inBuffer == Packet.Open(keys, iv0, raw)
      ensures iv == if keys.Plain? then iv0 else NextIv(keys.cipher, iv0, raw)
    {
      var buffer := SocketRead(blocksize);
      raw := buffer;
      if keys.Keyed? {
        Aligned(0, 0, blocksize);
        buffer := DecryptPart(buffer);
      }
      inBuffer := buffer;
    }

    /** The first block is there: the length in it, if it can be the length of a packet. */
    method ReadLength(blocksize: nat) returns (rc: Rc)
      requires Valid() && phase.Init? && blocksize == BlockSize(keys) <= |sockIn|
      modifies this`raw, this`sockIn, this`sockPos, this`iv, this`inBuffer, this`len, this`phase
      ensures GoodPlace(keys, At()) && Pending() == old(Pending()) && (rc == Ok || rc == Error)
      ensures Socket(old(Load()), old(Leaky()))
      ensures rc == Ok ==> Valid() && phase.SizeRead?
      ensures rc == Error ==> Parse(keys, At(), Pending()) == Bad
    {
      TakeFirstBlock(blocksize);
      len := BytesToU32(inBuffer[..4]);
      assert Pending()[..blocksize] == raw;
      assert Pending() == old(Pending());
      if len > MAX_PACKET_LEN {
        return Error;
      }
      var toBeRead: int := len - blocksize + 4;
      if toBeRead < 0 {
        return Error;
      }
      phase := SizeRead;
      rc := Ok;
    }

    /** packet_read2 from PACKET_STATE_INIT: the first block and the length in it. */
    method ReadFirst() returns (rc: Rc, ghost taken: seq<Byte>)
      requires Valid() && phase.Init?
      modifies this
      ensures Pending() == old(Pending()) + taken && Flat(old(net)) == taken + Flat(net) && |net| <= |old(net)|
      ensures GoodPlace(keys, At()) && At() == old(At())
      ensures rc == Again ==> Valid() && (net == [] || |net| < |old(net)|)
      ensures rc == Again ==> Parse(keys, At(), Pending()) == Incomplete
      ensures rc == Hung ==> old(Load()) > BUFFER_MAX
      ensures Socket(old(Load()), old(Leaky()))
      ensures rc == Ok ==> Valid() && phase.SizeRead?
      ensures rc == Error ==> Parse(keys, At(), Pending()) == Bad
    {
      var blocksize := if keys.Plain? then 8 else keys.cipher.size;
      rc, taken := WaitForData(blocksize);
      if rc != Ok {
        return;
      }
      rc := ReadLength(blocksize);
    }

    /** The state once the whole packet of `total` octets is off the socket and decrypted. */
    ghost predicate Decrypted(total: nat)
      reads this
    {
      && GoodPlace(keys, At()) && |raw| == total && total >= BlockSize(keys)
      && (keys.Keyed? ==> Whole(keys.cipher, iv0, raw) && total % BlockSize(keys) == 0)
      && inBuffer == Packet.Open(keys, iv0, raw)
      && iv == (if keys.Plain? then iv0 else NextIv(keys.cipher, iv0, raw))
    }

    /** The second call of packet_decrypt, on what follows the first block. */
    method DecryptRest(blocksize: nat, ghost first: seq<Byte>, ghost packet: seq<Byte>)
      requires GoodPlace(keys, At()) && keys.Keyed? && blocksize == BlockSize(keys) == |first|
      requires Whole(keys.cipher, iv0, first) && |packet| % blocksize == 0 && (|first| + |packet|) % blocksize == 0
      requires inBuffer == Decrypt(keys.cipher, iv0, first) + packet && raw == first + packet
      requires iv == NextIv(keys.cipher, iv0, first)
      modifies this`iv, this`inBuffer
      ensures Decrypted(blocksize + |packet|)
    {
      DecryptInTwo(keys.cipher, iv0, first, packet);
      assert inBuffer[..blocksize] == Decrypt(keys.cipher, iv0, first) && inBuffer[blocksize..] == packet;
      var rest := DecryptPart(inBuffer[blocksize..]);
      inBuffer := inBuffer[..blocksize] + rest;
      NextIvInTwo(keys.cipher, iv0, first, packet);
    }

    /** Takes the rest of the packet off the socket and decrypts it; false when its length
        does not fit the cipher. */
    method TakeRest(blocksize: nat, n: nat) returns (ok: bool)
      requires Valid() && phase.SizeRead? && blocksize == BlockSize(keys) && n == len + 4 - blocksize <= |sockIn|
      modifies this`raw, this`sockIn, this`sockPos, this`iv, this`inBuffer
      ensures raw + sockIn == old(raw + sockIn) && |raw| == blocksize + n
      ensures ok ==> Socket(old(Load()), old(Leaky()))
      ensures ok <==> keys.Plain? || (blocksize + n) % blocksize == 0
      ensures ok ==> Decrypted(blocksize + n)
    {
      var packet := SocketRead(n);
      ghost var raw0 := raw;
      raw := raw + packet;
      inBuffer := inBuffer + packet;
      assert raw0 + packet + sockIn == raw0 + (packet + sockIn);
      if keys.Keyed? {
        SameRemainder(blocksize, n);
        if n % blocksize != 0 {
          return false;
        }
        EvenBlocks(n, blocksize);
        DecryptRest(blocksize, raw0, packet);
      }
      ok := true;
    }

    /** packet_hmac_verify */
    method CheckMac() returns (ok: bool)
      requires keys.Keyed? && |sockIn| >= MAC_SIZE
      modifies this`sockIn, this`sockPos
      ensures ok <==> old(sockIn)[..MAC_SIZE] == keys.mac(U32ToBytes(recvSeq) + inBuffer)
      ensures sockIn == old(sockIn)[MAC_SIZE..] && Socket(old(Load()), old(Leaky()))
    {
      var mac := SocketRead(MAC_SIZE);
      assert mac == old(sockIn)[..MAC_SIZE];
      ok := mac == keys.mac(U32ToBytes(recvSeq) + inBuffer);
    }

    /** The end of packet_read2: strips length and padding, and steps to the next packet. */
    method Strip(ghost total: nat) returns (rc: Rc)
      requires Decrypted(total) && total >= 5 && (sockIn == [] ==> sockPos == 0)
      modifies this`inBuffer, this`recvSeq, this`phase, this`iv0, this`raw
      ensures rc == if Unframe(old(inBuffer)).None? then Error else Ok
      ensures rc == Ok ==> Valid() && phase.Init? && Some(inBuffer) == Unframe(old(inBuffer))
      ensures rc == Ok ==> At() == Advance(keys, old(At()), old(raw))
    {
      var rest := inBuffer[4..];
      var padding: int := rest[0];
      rest := rest[1..];
      if padding > |rest| {
        return Error;
      }
      assert rest[..|rest| - padding] == inBuffer[5..|inBuffer| - padding];
      inBuffer := rest[..|rest| - padding];
      recvSeq := ToUint32(recvSeq + 1);
      phase := Init;
      iv0, raw := iv, [];
      rc := Ok;
    }

    /** The octets of the packet and its MAC are buffered: decrypt, verify, strip. */
    method FinishPacket(blocksize: nat) returns (rc: Rc)
      requires Valid() && phase.SizeRead? && blocksize == BlockSize(keys)
      requires |sockIn| >= len + 4 - blocksize + MacSize(keys)
      modifies this
      ensures net == old(net) && (rc == Ok || rc == Error)
      ensures rc == Ok ==> Socket(old(Load()), old(Leaky()))
      ensures rc == Ok ==> Valid() && Parse(keys, old(At()), old(Pending())) == Packet(inBuffer, Pending(), At())
      ensures rc == Error ==> Parse(keys, old(At()), old(Pending())) == Bad
    {
      ghost var s, at := Pending(), At();
      assert s[..blocksize] == raw;
      assert Parse(keys, at, s) == ParseWhole(keys, at, s, len + 4);
      rc := DecideWhole(blocksize);
    }

    method DecideWhole(blocksize: nat) returns (rc: Rc)
      requires Valid() && phase.SizeRead? && blocksize == BlockSize(keys)
      requires |sockIn| >= len + 4 - blocksize + MacSize(keys)
      modifies this
      ensures net == old(net) && (rc == Ok || rc == Error)
      ensures rc == Ok ==> Socket(old(Load()), old(Leaky()))
      ensures var verdict := ParseWhole(keys, old(At()), old(Pending()), old(len) + 4);
        if rc == Ok then Valid() && verdict == Packet(inBuffer, Pending(), At()) else verdict == Bad
    {
      ghost var s, total := Pending(), len + 4;
      var ok := TakeRest(blocksize, len + 4 - blocksize);
      if !ok {
        return Error;
      }
      assert raw == s[..total] && sockIn == s[total..];
      rc := Judge(s, total);
    }

    /** The whole packet is decrypted: verify and strip. */
    method Judge(ghost s: seq<Byte>, ghost total: nat) returns (rc: Rc)
      requires Decrypted(total) && |s| >= total + MacSize(keys) && raw == s[..total] && sockIn == s[total..]
      requires sockIn == [] ==> sockPos == 0
      modifies this
      ensures net == old(net) && (rc == Ok || rc == Error)
      ensures rc == Ok ==> Socket(old(Load()), old(Leaky()))
      ensures var verdict := ParseWhole(keys, old(At()), s, total);
        if rc == Ok then Valid() && verdict == Packet(inBuffer, Pending(), At()) else verdict == Bad
    {
      if keys.Keyed? {
        var ok := CheckMac();
        assert s[total..][..MAC_SIZE] == s[total..total + MAC_SIZE];
        if !ok {
          return Error;
        }
      }
      assert sockIn == s[total + MacSize(keys)..];
      rc := Strip(total);
      assert [] + sockIn == sockIn;
    }

    /** packet_read2 from PACKET_STATE_SIZEREAD. */
    method ReadRest() returns (rc: Rc, ghost taken: seq<Byte>)
      requires Valid() && phase.SizeRead?
      modifies this
      ensures Flat(old(net)) == taken + Flat(net) && |net| <= |old(net)|
      ensures rc == Hung ==> old(Load()) > BUFFER_MAX
      ensures rc == Ok || rc == Again ==> Socket(old(Load()), old(Leaky()))
      ensures rc == Again ==> Valid() && At() == old(At()) && Pending() == old(Pending()) + taken
      ensures rc == Again ==> Parse(keys, At(), Pending()) == Incomplete && (net == [] || |net| < |old(net)|)
      ensures rc == Ok ==> Valid() && Parse(keys, old(At()), old(Pending()) + taken) == Packet(inBuffer, Pending(), At())
      ensures rc == Error ==> Parse(keys, old(At()), old(Pending()) + taken) == Bad
    {
      var blocksize := if keys.Plain? then 8 else keys.cipher.size;
      rc, taken := AwaitRest(len + 4 - blocksize + MacSize(keys));
      if rc == Ok {
        rc := FinishPacket(blocksize);
      } else if rc == Again {
        StillIncomplete(keys, At(), raw, sockIn);
      }
    }

    /** Waits for the octets that are to come, unless that is none. */
    method AwaitRest(toBeRead: nat) returns (rc: Rc, ghost taken: seq<Byte>)
      requires Valid() && phase.SizeRead?
      modifies this`sockIn, this`net
      ensures Valid() && Pending() == old(Pending()) + taken
      ensures Flat(old(net)) == taken + Flat(net) && |net| <= |old(net)|
      ensures rc != Error && (rc == Ok <==> |sockIn| >= toBeRead)
      ensures rc == Again ==> net == [] || |net| < |old(net)|
      ensures rc == Hung ==> old(Load()) > BUFFER_MAX
      ensures Socket(old(Load()), old(Leaky()))
    {
      rc, taken := Ok, [];
      if toBeRead != 0 {
        rc, taken := WaitForData(toBeRead);
      } else {
        assert Pending() + [] == Pending() && [] + Flat(net) == Flat(net);
      }
      Associate(raw, old(sockIn), taken);
    }

    /** packet_read2: one call, from wherever the call before has stopped. It is the one-shot
        parser on everything received so far. */
    method PacketRead2() returns (rc: Rc, ghost taken: seq<Byte>)
      requires Valid()
      modifies this
      ensures Flat(old(net)) == taken + Flat(net) && |net| <= |old(net)|
      ensures rc == Hung ==> old(Load()) > BUFFER_MAX
      ensures rc == Ok || rc == Again ==> Socket(old(Load()), old(Leaky()))
      ensures rc == Again ==> Valid() && At() == old(At()) && Pending() == old(Pending()) + taken
      ensures rc == Again ==> Parse(keys, At(), Pending()) == Incomplete && (net == [] || |net| < |old(net)|)
      ensures rc == Ok ==> Valid() && Parse(keys, old(At()), old(Pending()) + taken) == Packet(inBuffer, Pending(), At())
      ensures rc == Error ==> Parse(keys, old(At()), old(Pending()) + taken) == Bad
    {
      ghost var first, second := [], [];
      assert Pending() + [] == Pending();
      if phase.Init? {
        rc, first := ReadFirst();
        if rc != Ok {
          return rc, first;
        }
      }
      rc, second := ReadRest();
      taken := first + second;
      assert first + second + Flat(net) == first + (second + Flat(net));
      assert old(Pending()) + first + second == old(Pending()) + (first + second);
    }
  }

  /** With the length known and octets missing there is nothing to parse yet. */
  lemma StillIncomplete(k: Keys, at: Place, raw: seq<Byte>, more: seq<Byte>)
    requires GoodPlace(k, at) && |raw| == BlockSize(k)
    requires var len := LengthField(k, at.iv, raw);
      len <= MAX_PACKET_LEN && len + 4 >= BlockSize(k) && |raw + more| < len + 4 + MacSize(k)
    ensures Parse(k, at, raw + more) == Incomplete
  {
    assert (raw + more)[..BlockSize(k)] == raw;
  }

  /** What is still to come out of a receiver, from all the network will deliver. */
  ghost function Left(r: Receiver): Stream
    requires GoodPlace(r.keys, r.At())
    reads r
  {
    ParseAll(r.keys, r.At(), r.Pending() + Flat(r.net))
  }

  ghost function Size(r: Receiver): nat
    reads r
  {
    |r.Pending() + Flat(r.net)| + |r.net|
  }

  /** One call of packet_read2 takes the next packet of the whole octet stream, or waits. */
  method NextPacket(r: Receiver) returns (rc: Rc)
    requires r.Valid()
    modifies r
    ensures rc == Ok ==> r.Valid() && old(Left(r)) == Before([r.inBuffer], Left(r)) && Size(r) < old(Size(r))
    ensures rc == Again ==> r.Valid() && Left(r) == old(Left(r)) && (r.net == [] || Size(r) < old(Size(r)))
    ensures rc == Again && r.net == [] ==> Left(r) == Stream([], false, r.Pending(), r.At())
    ensures rc == Error ==> old(Left(r)).payloads == [] && old(Left(r)).bad
    ensures rc == Hung ==> old(r.Load()) > BUFFER_MAX
    ensures rc == Ok || rc == Again ==> r.Socket(old(r.Load()), old(r.Leaky()))
  {
    ghost var at, had, coming := r.At(), r.Pending(), Flat(r.net);
    ghost var taken;
    rc, taken := r.PacketRead2();
    assert had + coming == had + taken + Flat(r.net);
    if rc == Ok || rc == Error {
      PacketOfStream(r.keys, at, had + taken, Flat(r.net));
    }
    assert r.net == [] ==> r.Pending() + Flat(r.net) == r.Pending();
  }

  datatype Ending = Drained | Failed | Stuck

  /** Reads until the network has nothing more, whatever its fragments and pauses: exactly
      the packets of the whole octet stream come out, unless a call does not return. */
  method ReceiveAll(r: Receiver) returns (payloads: seq<seq<Byte>>, ending: Ending)
    requires r.Valid()
    modifies r
    ensures ending == Drained ==> !old(Left(r)).bad && payloads == old(Left(r)).payloads
    ensures ending == Drained ==> r.Valid() && r.Pending() == old(Left(r)).rest && r.At() == old(Left(r)).at
    ensures ending == Failed ==> old(Left(r)).bad && payloads == old(Left(r)).payloads
    ensures ending == Stuck ==> old(r.Load()) > BUFFER_MAX && payloads <= old(Left(r)).payloads
    ensures old(r.Leaky()) ==> ending != Drained
  {
    payloads := [];
    ghost var all, load, leaky := Left(r), r.Load(), r.Leaky();
    assert Before([], all) == all;
    while true
      invariant r.Valid() && all == Before(payloads, Left(r)) && r.Socket(load, leaky)
      decreases Size(r)
    {
      var rc := NextPacket(r);
      match rc {
        case Ok =>
          BeforeBoth'(payloads, r.inBuffer, Left(r));
          payloads := payloads + [r.inBuffer];
        case Again =>
          if r.net == [] {
            return payloads, Drained;
          }
        case Error => return payloads, Failed;
        case Hung => return payloads, Stuck;
      }
    }
  }

  /** Octets sent by one end and received by the other in any fragments, with any pauses:
      the same payloads in the same order, with nothing left over. If there are more than
      2^30 octets, a call may never return, and then the first of them have arrived. */
  method Transfer(r: Receiver, ghost out: seq<Outgoing>) returns (payloads: seq<seq<Byte>>, ending: Ending)
    requires r.Valid() && r.Pending() == [] && AllSendable(r.keys, out)
    requires Flat(r.net) == SealAll(r.keys, r.At(), out).0
    modifies r
    ensures ending == Drained ==> payloads == Payloads(out)
    ensures ending == Drained ==> r.Valid() && r.Pending() == [] && r.At() == old(SealAll(r.keys, r.At(), out).1)
    ensures ending == Stuck ==> |old(Flat(r.net))| > BUFFER_MAX && payloads <= Payloads(out)
    ensures ending != Failed && (old(r.Leaky()) ==> ending == Stuck)
  {
    ghost var wire := Flat(r.net);
    assert r.Pending() + wire == wire && wire + [] == wire && r.sockIn == [];
    RoundTrip(r.keys, r.At(), out, []);
    assert Payloads(out) + [] == Payloads(out);
    payloads, ending := ReceiveAll(r);
  }

  lemma BeforeBoth'(ps: seq<seq<Byte>>, p: seq<Byte>, st: Stream)
    ensures Before(ps, Before([p], st)) == Before(ps + [p], st)
  {
    assert ps + ([p] + st.payloads) == ps + [p] + st.payloads;
  }

  lemma PacketOfStream(k: Keys, at: Place, s: seq<Byte>, t: seq<Byte>)
    requires GoodPlace(k, at) && !Parse(k, at, s).Incomplete?
    ensures var r := Parse(k, at, s);
      if r.Packet? then ParseAll(k, at, s + t) == Before([r.payload], ParseAll(k, r.after, r.rest + t))
      else ParseAll(k, at, s + t).bad && ParseAll(k, at, s + t).payloads == []
  {
    ParseExtends(k, at, s, t);
    if Parse(k, at, s).Packet? {
      var r := Parse(k, at, s);
      PrependPacket(k, at, s + t, r.payload, r.rest + t, r.after);
    }
  }

  lemma EvenBlocks(n: nat, bs: nat)
    requires (bs == 8 || bs == 16) && n % bs == 0
    ensures n % 2 == 0
  {
  }

  lemma SameRemainder(bs: nat, n: nat)
    requires bs == 8 || bs == 16
    ensures (bs + n) % bs == n % bs
  {
    if bs == 8 {
      assert (8 + n) % 8 == n % 8;
    } else {
      assert (16 + n) % 16 == n % 16;
    }
  }

  lemma NextIvInTwo(c: Cipher, iv: seq<Byte>, s: seq<Byte>, t: seq<Byte>)
    requires Whole(c, iv, s) && |t| % c.size == 0 && |s| == c.size
    ensures NextIv(c, NextIv(c, iv, s), t) == NextIv(c, iv, s + t)
  {
    if |t| < c.size {
      Aligned(|t|, 0, c.size);
      assert t == [] && s + t == s;
    } else {
      LastOfSum(s, t, c.size);
    }
  }

  lemma LastOfSum<T>(a: seq<T>, b: seq<T>, n: nat)
    requires n <= |b|
    ensures (a + b)[|a + b| - n..] == b[|b| - n..]
  {
  }

  // ----- when every packet is sealed -----

  /** The test of packet_encrypt is on the wrong cipher. It never matters if and only if the
      block size of the outgoing cipher is a multiple of that of the incoming one. */
  lemma EveryPacketIsSealed(k: Keys, inSize: nat)
    requires GoodKeys(k) && k.Keyed? && (inSize == 8 || inSize == 16)
    ensures (forall payload, pad :: Sendable(k, payload, pad) ==> Passes(k, inSize, |Frame(payload, pad)|))
      <==> k.cipher.size % inSize == 0
  {
    if k.cipher.size % inSize == 0 {
      forall payload, pad | Sendable(k, payload, pad)
        ensures Passes(k, inSize, |Frame(payload, pad)|)
      {
        PaddingAligns(BlockSize(k), |payload|);
        MultipleOfMultiple(|Frame(payload, pad)|, BlockSize(k), inSize);
      }
    } else {
      var payload, pad := TenOctetsInTheClear(k);
      assert !Passes(k, inSize, |Frame(payload, pad)|);
    }
  }

  lemma MultipleOfMultiple(n: nat, a: nat, b: nat)
    requires (a == 8 || a == 16) && (b == 8 || b == 16) && a % b == 0 && n % a == 0
    ensures n % b == 0
  {
  }

  /** An 8-octet cipher out and a 16-octet one in: a payload of 10 octets makes a frame of 24,
      and that is sent neither encrypted nor with a MAC. */
  lemma TenOctetsInTheClear(k: Keys) returns (payload: seq<Byte>, pad: seq<Byte>)
    requires GoodKeys(k) && k.Keyed? && k.cipher.size == 8
    ensures |payload| == 10 && Sendable(k, payload, pad) && |Frame(payload, pad)| == 24
    ensures Passes(k, 8, 24) && !Passes(k, 16, 24)
  {
    payload, pad := seq(10, _ => 0), seq(9, _ => 0);
    assert Padding(8, 10) == 9;
  }

  // ----- both ends -----

  ghost predicate Fits(k: Keys, payload: seq<Byte>) {
    BlockSize(k) > 0 && 1 + |payload| + Padding(BlockSize(k), |payload|) <= MAX_PACKET_LEN
  }

  function FrameLength(k: Keys, payload: seq<Byte>): nat
    requires BlockSize(k) > 0
  {
    5 + |payload| + Padding(BlockSize(k), |payload|)
  }

  /** The frame of the payload is sent as it should be: bare before there are keys, and
      sealed when there are. */
  predicate GetsSealed(k: Keys, inSize: nat, payload: seq<Byte>)
    requires inSize > 0
  {
    BlockSize(k) > 0 && (k.Plain? || Passes(k, inSize, FrameLength(k, payload)))
  }

  /** Block sizes that fit seal every payload. */
  lemma FittingSizesSeal(k: Keys, inSize: nat, payload: seq<Byte>)
    requires GoodKeys(k) && (inSize == 8 || inSize == 16)
    requires k.Keyed? ==> k.cipher.size % inSize == 0
    ensures GetsSealed(k, inSize, payload)
  {
    PaddingAligns(BlockSize(k), |payload|);
    if k.Keyed? {
      MultipleOfMultiple(FrameLength(k, payload), BlockSize(k), inSize);
    }
  }

  /** A caller that sends payload after payload. */
  method SendAll(s: Sender, payloads: seq<seq<Byte>>, randoms: seq<seq<Byte>>) returns (ghost out: seq<Outgoing>)
    requires GoodPlace(s.keys, s.At()) && s.inSize > 0
    requires |randoms| == |payloads| && forall r <- randoms :: |r| >= 32
    requires forall p <- payloads :: Fits(s.keys, p) && GetsSealed(s.keys, s.inSize, p)
    modifies s
    ensures GoodPlace(s.keys, old(s.At())) && AllSendable(s.keys, out) && Payloads(out) == payloads
    ensures s.wire == old(s.wire) + SealAll(s.keys, old(s.At()), out).0
    ensures s.At() == SealAll(s.keys, old(s.At()), out).1
    decreases |payloads|
  {
    if payloads == [] {
      return [];
    }
    ghost var at := s.At();
    ghost var o := SendOne(s, payloads[0], randoms[0]);
    ghost var others := SendAll(s, payloads[1..], randoms[1..]);
    out := [o] + others;
    SealInFront(s.keys, at, o, others);
    Associate(old(s.wire), SealOne(s.keys, at, o).0, SealAll(s.keys, SealOne(s.keys, at, o).1, others).0);
  }

  lemma SealInFront(k: Keys, at: Place, o: Outgoing, others: seq<Outgoing>)
    requires GoodPlace(k, at) && Sendable(k, o.payload, o.pad) && AllSendable(k, others)
    ensures AllSendable(k, [o] + others) && Payloads([o] + others) == [o.payload] + Payloads(others)
    ensures var (e, next) := SealOne(k, at, o); var (es, end) := SealAll(k, next, others);
      SealAll(k, at, [o] + others) == (e + es, end)
  {
    assert ([o] + others)[1..] == others;
  }

  method SendOne(s: Sender, payload: seq<Byte>, random: seq<Byte>) returns (ghost o: Outgoing)
    requires GoodPlace(s.keys, s.At()) && s.inSize > 0
    requires |random| >= 32 && Fits(s.keys, payload) && GetsSealed(s.keys, s.inSize, payload)
    modifies s
    ensures GoodPlace(s.keys, old(s.At())) && Sendable(s.keys, o.payload, o.pad) && o.payload == payload
    ensures s.wire == old(s.wire) + SealOne(s.keys, old(s.At()), o).0
    ensures s.At() == SealOne(s.keys, old(s.At()), o).1 && GoodPlace(s.keys, s.At())
  {
    PaddingAligns(BlockSize(s.keys), |payload|);
    o := Outgoing(payload, PadString(s.keys, |payload|, random));
    assert Sendable(s.keys, o.payload, o.pad) && |Frame(o.payload, o.pad)| == FrameLength(s.keys, payload);
    s.outBuffer := payload;
    s.Send(random);
  }

  // ----- fragments that overfill the socket's buffer -----

  /** One octet, and then two at a time. */
  function OneAndPairs(w: seq<Byte>): Network
    requires w != []
  {
    [w[..1]] + InPairs(w[1..])
  }

  function InPairs(w: seq<Byte>): Network {
    if |w| <= 2 then [w] else [w[..2]] + InPairs(w[2..])
  }

  lemma {:induction false} PairsOf(w: seq<Byte>, half: nat)
    requires |w| == 2 * half + 1
    ensures Pairs(InPairs(w)) && Flat(InPairs(w)) == w
    decreases half
  {
    var net := InPairs(w);
    if half == 0 {
      assert net[1..] == [] && w + [] == w;
    } else {
      PairsOf(w[2..], half - 1);
      assert net[1..] == InPairs(w[2..]) && w[..2] + w[2..] == w;
    }
  }

  lemma OneTooManyOf(w: seq<Byte>, half: nat)
    requires |w| == 2 * half && half > 0
    ensures OneTooMany(0, OneAndPairs(w)) && Flat(OneAndPairs(w)) == w
  {
    PairsOf(w[1..], half - 1);
    assert OneAndPairs(w)[1..] == InPairs(w[1..]) && w[..1] + w[1..] == w;
  }

  /** What is sealed with keys has an even number of octets. */
  lemma {:induction false} SealedIsEven(k: Keys, at: Place, out: seq<Outgoing>) returns (half: nat)
    requires GoodPlace(k, at) && AllSendable(k, out) && k.Keyed?
    ensures |SealAll(k, at, out).0| == 2 * half
    decreases |out|
  {
    if out == [] {
      half := 0;
    } else {
      var (e, next) := SealOne(k, at, out[0]);
      var h := OneIsEven(k, at, out[0]);
      half := SealedIsEven(k, next, out[1..]);
      half := half + h;
    }
  }

  lemma OneIsEven(k: Keys, at: Place, o: Outgoing) returns (half: nat)
    requires GoodPlace(k, at) && Sendable(k, o.payload, o.pad) && k.Keyed?
    ensures |SealOne(k, at, o).0| == 2 * half
  {
    SealedLength(k, at, o.payload, o.pad);
    half := Halve(|Frame(o.payload, o.pad)|, BlockSize(k));
    half := half + MAC_SIZE / 2;
  }

  lemma SealedLength(k: Keys, at: Place, payload: seq<Byte>, pad: seq<Byte>)
    requires GoodPlace(k, at) && Sendable(k, payload, pad) && k.Keyed?
    ensures |Frame(payload, pad)| % BlockSize(k) == 0
    ensures |Seal(k, at, Frame(payload, pad))| == 5 + |payload| + |pad| + MAC_SIZE
  {
    PaddingAligns(BlockSize(k), |payload|);
  }

  lemma Halve(n: nat, bs: nat) returns (half: nat)
    requires (bs == 8 || bs == 16) && n % bs == 0
    ensures n == 2 * half
  {
    half := if bs == 8 then 4 * (n / 8) else 8 * (n / 16);
  }

  /** So cut like this they come with one octet too many for every read. */
  lemma SealedSplitsBadly(k: Keys, at: Place, out: seq<Outgoing>)
    requires GoodPlace(k, at) && AllSendable(k, out) && k.Keyed? && SealAll(k, at, out).0 != []
    ensures OneTooMany(0, OneAndPairs(SealAll(k, at, out).0))
  {
    var half := SealedIsEven(k, at, out);
    OneTooManyOf(SealAll(k, at, out).0, half);
  }

  /** The network brings `wire` in the fragments `net`. */
  method Deliver(r: Receiver, net: Network, ghost wire: seq<Byte>, ghost out: seq<Outgoing>)
    returns (received: seq<seq<Byte>>, ending: Ending)
    requires r.Valid() && r.Pending() == [] && AllSendable(r.keys, out)
    requires Flat(net) == wire == SealAll(r.keys, r.At(), out).0
    modifies r
    ensures ending == Drained ==> received == Payloads(out) && r.At() == old(SealAll(r.keys, r.At(), out).1)
    ensures ending == Stuck ==> |wire| > BUFFER_MAX && received <= Payloads(out)
    ensures ending != Failed
    ensures r.keys.Keyed? && |wire| > BUFFER_MAX && net == OneAndPairs(wire) ==> ending == Stuck
  {
    if r.keys.Keyed? && |wire| > BUFFER_MAX {
      SealedSplitsBadly(r.keys, r.At(), out);
    }
    r.net := net;
    assert r.sockIn == [];
    received, ending := Transfer(r, out);
  }

  /** Sender and receiver against each other: whatever way `cut` the network splits what was
      sent, the receiver returns the payloads, provided the sender seals them and they are
      at most 2^30 octets on the wire. Longer streams arrive in part or as a whole, depending
      on the fragments; one way to split them never brings the whole. */
  method EndToEnd(s: Sender, r: Receiver, payloads: seq<seq<Byte>>, randoms: seq<seq<Byte>>, cut: seq<Byte> -> Network)
    returns (received: seq<seq<Byte>>, ending: Ending)
    requires GoodPlace(s.keys, s.At()) && s.inSize > 0
    requires |randoms| == |payloads| && forall random <- randoms :: |random| >= 32
    requires forall p <- payloads :: Fits(s.keys, p) && GetsSealed(s.keys, s.inSize, p)
    requires forall w :: Flat(cut(w)) == w
    requires r.Valid() && r.Pending() == [] && r.keys == s.keys && r.At() == s.At() && s.wire == []
    modifies s, r
    ensures ending == Drained ==> received == payloads && r.At() == s.At()
    ensures ending == Stuck ==> |s.wire| > BUFFER_MAX && received <= payloads
    ensures ending != Failed
    ensures s.keys.Keyed? && |s.wire| > BUFFER_MAX && cut(s.wire) == OneAndPairs(s.wire) ==> ending == Stuck
  {
    ghost var out := SendAll(s, payloads, randoms);
    assert [] + SealAll(s.keys, old(s.At()), out).0 == s.wire;
    received, ending := Deliver(r, cut(s.wire), s.wire, out);
  }
}

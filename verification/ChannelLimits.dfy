/** Exact limits of the channel code: how large a read may be before the reader's grants
    make packets that its packet layer refuses, how long a stream may be before the reader's
    buffer can no longer hold it, and when two writes block each other for good. */
module ChannelLimits {
  import opened Bytes
  import opened ChannelFlow
  import opened ChannelSafety
  import opened ChannelTheorems
  import Fields
  import Packet

  // ----- the largest burst a reader grants -----

  ghost predicate Reachable(limit: nat, s: Net) {
    exists moves :: Run(limit, moves) == Some(s)
  }

  lemma GoOn(limit: nat, s: Net, m: Move, t: Net)
    requires Reachable(limit, s) && Step(limit, s, m) == Some(t)
    ensures Reachable(limit, t)
  {
    var moves :| Run(limit, moves) == Some(s);
    RunOneMore(limit, moves, m);
    assert Run(limit, moves + [m]) == Some(t);
  }

  lemma OpenerGoes(limit: nat, s: Net, x: Action, t: Turn, ab: seq<Message>)
    requires Reachable(limit, s) && TakeTurn(limit, s.a, x, s.ba) == Some(t) && ab == s.ab + t.sent
    ensures Reachable(limit, Net(t.peer, s.b, ab, t.inbox))
  {
    GoOn(limit, s, Move(true, x), Net(t.peer, s.b, ab, t.inbox));
  }

  lemma OtherGoes(limit: nat, s: Net, x: Action, t: Turn, ba: seq<Message>)
    requires Reachable(limit, s) && TakeTurn(limit, s.b, x, s.ab) == Some(t) && ba == s.ba + t.sent
    ensures Reachable(limit, Net(s.a, t.peer, t.inbox, ba))
  {
    GoOn(limit, s, Move(false, x), Net(s.a, t.peer, t.inbox, ba));
  }

  /** The opener of an open channel, and the other side. */
  function Opener(remote: Uint32, x: Activity, written: seq<Byte>): Peer {
    NewPeer(true).(act := x, localWindow := OPEN_WINDOW, remoteWindow := remote, written := written)
  }

  function Other(local: Uint32, y: Activity, held: seq<Byte>, read: seq<Byte>): Peer {
    NewPeer(false).(act := y, localWindow := local, remoteWindow := OPEN_WINDOW, buffered := held, delivered := read)
  }

  /** Nothing is on its way, and all that was written has been read. */
  function Calm(window: Uint32, y: Activity, sent: seq<Byte>): Net {
    Net(Opener(window, Idle, sent), Other(window, y, [], sent), [], [])
  }

  lemma GrantTurn(limit: nat, count: nat, window: Uint32, read: seq<Byte>)
    requires WINDOW_BASE <= count <= limit && window < count < INT32_LIMIT
    ensures TakeTurn(limit, Other(window, Idle, [], read), StartRead(count, false), [])
         == Some(Turn(Other(window + count, Reading(count, false), [], read), [], [Adjust(count)]))
  {
    GrowExact(Other(window, Reading(count, false), [], read), count);
  }

  /** A read that needs more window than is open has it granted. */
  lemma ReaderGrants(limit: nat, count: nat, window: Uint32, sent: seq<Byte>)
    requires Reachable(limit, Calm(window, Idle, sent))
    requires WINDOW_BASE <= count <= limit && window < count < INT32_LIMIT
    ensures Reachable(limit, Calm(window + count, Reading(count, false), sent))
  {
    var p := Other(window + count, Reading(count, false), [], sent);
    GrantTurn(limit, count, window, sent);
    OtherGoes(limit, Calm(window, Idle, sent), StartRead(count, false), Turn(p, [], [Adjust(count)]), [Adjust(count)]);
    AdjustArrives(limit, window, count, sent);
    OpenerGoes(limit, Net(Opener(window, Idle, sent), p, [], [Adjust(count)]), Receive,
               Turn(Opener(window + count, Idle, sent), [], []), []);
  }

  lemma AdjustTurn(limit: nat, p: Peer, grant: Uint32)
    requires p.act.Idle? && p.remoteWindow + grant < U32
    ensures TakeTurn(limit, p, Receive, [Adjust(grant)])
         == Some(Turn(p.(remoteWindow := p.remoteWindow + grant), [], []))
  {
    assert [Adjust(grant)][1..] == [];
  }

  lemma AdjustArrives(limit: nat, window: Uint32, count: nat, written: seq<Byte>)
    requires window + count < U32
    ensures TakeTurn(limit, Opener(window, Idle, written), Receive, [Adjust(count)])
         == Some(Turn(Opener(window + count, Idle, written), [], []))
  {
    AdjustTurn(limit, Opener(window, Idle, written), count);
  }

  lemma WriteTurns(limit: nat, window: Uint32, written: seq<Byte>, data: seq<Byte>)
    requires 0 < |data| <= window
    ensures TakeTurn(limit, Opener(window, Idle, written), StartWrite(data), [])
         == Some(Turn(Opener(window, Writing(data), written + data), [], []))
    ensures TakeTurn(limit, Opener(window, Writing(data), written + data), SendChunk, [])
         == Some(Turn(Opener(window - |data|, Writing([]), written + data), [], [Data(data)]))
  {
    assert data[..|data|] == data && data[|data|..] == [];
  }

  lemma WriteGoes(limit: nat, count: nat, window: Uint32, sent: seq<Byte>, data: seq<Byte>)
    requires Reachable(limit, Calm(window, Reading(count, false), sent))
    requires 0 < |data| <= window
    ensures Reachable(limit, Net(Opener(window - |data|, Writing([]), sent + data),
                                 Other(window, Reading(count, false), [], sent), [Data(data)], []))
  {
    WriteTurns(limit, window, sent, data);
    var s := Calm(window, Reading(count, false), sent);
    var p := Opener(window, Writing(data), sent + data);
    OpenerGoes(limit, s, StartWrite(data), Turn(p, [], []), []);
    OpenerGoes(limit, Net(p, s.b, [], []), SendChunk,
               Turn(Opener(window - |data|, Writing([]), sent + data), [], [Data(data)]), [Data(data)]);
  }

  lemma DoneWriting(limit: nat, left: Uint32, written: seq<Byte>, b: Peer, ab: seq<Message>)
    requires Reachable(limit, Net(Opener(left, Writing([]), written), b, ab, []))
    ensures Reachable(limit, Net(Opener(left, Idle, written), b, ab, []))
  {
    assert ab + [] == ab;
    OpenerGoes(limit, Net(Opener(left, Writing([]), written), b, ab, []), EndWrite,
               Turn(Opener(left, Idle, written), [], []), ab);
  }

  lemma ReadTurns(limit: nat, count: nat, window: Uint32, data: seq<Byte>)
    requires 0 < |data| <= count && |data| + WINDOW_LIMIT <= window && |data| <= BUFFER_MAX
    ensures TakeTurn(limit, Other(window, Reading(count, false), [], []), Receive, [Data(data)])
         == Some(Turn(Other(window - |data|, Reading(count, false), data, []), [], []))
    ensures TakeTurn(limit, Other(window - |data|, Reading(count, false), data, []), EndRead, [])
         == Some(Turn(Other(window - |data|, Idle, [], data), [], []))
  {
    assert [Data(data)][1..] == [] && [] + data == data;
    assert data[..|data|] == data && data[|data|..] == [];
  }

  /** The opener writes `data`, and the reader takes all of it. */
  lemma BytesPass(limit: nat, count: nat, window: Uint32, left: Uint32, data: seq<Byte>)
    requires Reachable(limit, Calm(window, Reading(count, false), []))
    requires 0 < |data| <= count && left == window - |data| && WINDOW_LIMIT <= left && |data| <= BUFFER_MAX
    ensures Reachable(limit, Calm(left, Idle, data))
  {
    WriteGoes(limit, count, window, [], data);
    assert [] + data == data;
    DoneWriting(limit, left, data, Other(window, Reading(count, false), [], []), [Data(data)]);
    BytesArrive(limit, count, window, left, data);
  }

  lemma BytesArrive(limit: nat, count: nat, window: Uint32, left: Uint32, data: seq<Byte>)
    requires 0 < |data| <= count && left == window - |data| && WINDOW_LIMIT <= left && |data| <= BUFFER_MAX
    requires Reachable(limit, Net(Opener(left, Idle, data), Other(window, Reading(count, false), [], []), [Data(data)], []))
    ensures Reachable(limit, Calm(left, Idle, data))
  {
    ReadTurns(limit, count, window, data);
    var a, held := Opener(left, Idle, data), Other(left, Reading(count, false), data, []);
    OtherGoes(limit, Net(a, Other(window, Reading(count, false), [], []), [Data(data)], []), Receive,
              Turn(held, [], []), []);
    OtherGoes(limit, Net(a, held, [], []), EndRead, Turn(Other(left, Idle, [], data), [], []), []);
  }

  lemma JustOpened(limit: nat)
    ensures Reachable(limit, Calm(ACCEPT_WINDOW, Idle, []))
  {
    var moves := Opened(limit);
    assert OpenNet() == Calm(ACCEPT_WINDOW, Idle, []);
  }

  /** Two reads of `count` with 32001 octets between them leave 2 * count - 1 granted. */
  lemma TwoReads(limit: nat, count: nat, window: Uint32, sent: seq<Byte>)
    requires WINDOW_BASE <= count <= limit && count < INT32_LIMIT && |sent| == ACCEPT_WINDOW + 1
    requires window == count - 1
    ensures Reachable(limit, Calm(window + count, Reading(count, false), sent))
  {
    FirstRead(limit, count, window, sent);
    ReaderGrants(limit, count, window, sent);
  }

  lemma FirstRead(limit: nat, count: nat, left: Uint32, sent: seq<Byte>)
    requires WINDOW_BASE <= count <= limit && count < INT32_LIMIT && |sent| == ACCEPT_WINDOW + 1
    requires left == count - 1
    ensures Reachable(limit, Calm(left, Idle, sent))
  {
    JustOpened(limit);
    ReaderGrants(limit, count, ACCEPT_WINDOW, []);
    BytesPass(limit, count, ACCEPT_WINDOW + count, left, sent);
  }

  /** The opener then sends all of that in one packet. */
  lemma Burst(limit: nat, count: nat) returns (sent: seq<Byte>, data: seq<Byte>)
    requires WINDOW_BASE <= count <= limit && count < INT32_LIMIT
    ensures |data| == 2 * count - 1
    ensures Reachable(limit, AfterBurst(count, Writing([]), sent, data))
  {
    sent := seq(ACCEPT_WINDOW + 1, _ => 0);
    TwoReads(limit, count, count - 1, sent);
    assert count - 1 + count == 2 * count - 1;
    data := seq(2 * count - 1, _ => 0);
    WriteGoes(limit, count, 2 * count - 1, sent, data);
  }

  function AfterBurst(count: nat, x: Activity, sent: seq<Byte>, data: seq<Byte>): Net
    requires 2 * count - 1 < U32 && count > 0
  {
    Net(Opener(0, x, sent + data), Other(2 * count - 1, Reading(count, false), [], sent), [Data(data)], [])
  }

  // ----- packets the receiver takes -----

  /** What channel_write puts into one packet: type, channel, string. */
  function DataPayload(channel: Uint32, bytes: seq<Byte>): (payload: seq<Byte>)
    ensures |payload| == 9 + |bytes|
  {
    [94] + U32ToBytes(channel) + Fields.WireString(bytes)
  }

  /** Its fields: the message number, the channel of the other side and the data. */
  lemma DataPayloadIsRead(channel: Uint32, bytes: seq<Byte>)
    requires |bytes| < U32
    ensures Fields.TakeAll([Fields.KindU8, Fields.KindU32, Fields.KindString], DataPayload(channel, bytes))
         == Some([Fields.U8(94), Fields.Word(channel), Fields.Text(bytes)])
  {
    var first, fields := [Fields.U8(94)], [Fields.U8(94), Fields.Word(channel), Fields.Text(bytes)];
    assert first[1..] == [] && fields == first + [Fields.Word(channel), Fields.Text(bytes)];
    Fields.TwoMore(first, Fields.Word(channel), Fields.Text(bytes));
    assert Fields.EncodeAll(first) == [94] && Fields.Kinds(first) == [Fields.KindU8];
    Fields.TakeAllEncoded(fields, []);
    assert Fields.EncodeAll(fields) + [] == DataPayload(channel, bytes);
  }

  /** A data packet of `n` octets is as short as the packet layer takes it. */
  predicate Taken(n: nat, bs: nat)
    requires bs > 0
  {
    1 + (9 + n) + Packet.Padding(bs, 9 + n) <= Packet.MAX_PACKET_LEN
  }

  /** The largest data packet is the same for both block sizes. */
  lemma TakenUpTo(n: nat, bs: nat)
    requires bs == 8 || bs == 16
    ensures Taken(n, bs) <==> n <= 262126
  {
    Packet.PaddingAligns(bs, 9 + n);
    if bs == 8 {
      Padding8(n + 14);
    } else {
      Padding16(n + 14);
    }
  }

  lemma Padding8(m: nat)
    ensures var p := 8 - m % 8; m + (if p < 4 then p + 8 else p) <= 262148 <==> m <= 262140
  {
  }

  lemma Padding16(m: nat)
    ensures var p := 16 - m % 16; m + (if p < 4 then p + 16 else p) <= 262148 <==> m <= 262140
  {
  }

  /** That is the parser's own verdict on the sealed packet, whatever follows it. */
  lemma DataPacketIsTaken(k: Packet.Keys, at: Packet.Place, channel: Uint32, bytes: seq<Byte>, pad: seq<Byte>,
                          tail: seq<Byte>)
    requires Packet.GoodPlace(k, at) && |bytes| < INT32_LIMIT
    requires |pad| == Packet.Padding(Packet.BlockSize(k), 9 + |bytes|)
    ensures var payload := DataPayload(channel, bytes);
      && |pad| < 256 && |Packet.Frame(payload, pad)| % Packet.BlockSize(k) == 0
      && var r := Packet.Parse(k, at, Packet.Seal(k, at, Packet.Frame(payload, pad)) + tail);
      if Taken(|bytes|, Packet.BlockSize(k)) then r.Packet? && r.payload == payload && r.rest == tail
      else r == Packet.Bad
  {
    var payload := DataPayload(channel, bytes);
    Packet.PaddingAligns(Packet.BlockSize(k), |payload|);
    if Taken(|bytes|, Packet.BlockSize(k)) {
      Packet.ParseSealed(k, at, payload, pad, tail);
    } else {
      Packet.OversizedIsRefused(k, at, payload, pad, tail);
    }
  }

  ghost predicate AllTaken(q: seq<Message>, bs: nat)
    requires bs > 0
  {
    forall i :: 0 <= i < |q| && q[i].Data? ==> Taken(|q[i].bytes|, bs)
  }

  /** channel_write ignores the peer's packet limit. Still the receiver takes every data
      packet of every run if and only if the applications read with counts of at most
      131063. */
  lemma DataPacketsAreAccepted(limit: nat, bs: nat)
    requires bs == 8 || bs == 16
    ensures (forall moves :: Run(limit, moves).Some? ==>
               AllTaken(Run(limit, moves).value.ab, bs) && AllTaken(Run(limit, moves).value.ba, bs))
      <==> limit <= 131063
  {
    if limit <= 131063 {
      forall moves | Run(limit, moves).Some?
        ensures AllTaken(Run(limit, moves).value.ab, bs) && AllTaken(Run(limit, moves).value.ba, bs)
      {
        CreditIsConserved(limit, moves);
        ShortPacketsAreTaken(Run(limit, moves).value.ab, bs);
        ShortPacketsAreTaken(Run(limit, moves).value.ba, bs);
      }
    } else {
      var moves := LargeReadsMakeOversizedPackets(limit, bs);
      assert !AllTaken(Run(limit, moves).value.ab, bs);
    }
  }

  lemma ShortPacketsAreTaken(q: seq<Message>, bs: nat)
    requires bs == 8 || bs == 16
    requires forall i :: 0 <= i < |q| && q[i].Data? ==> |q[i].bytes| <= 262126
    ensures AllTaken(q, bs)
  {
    forall i | 0 <= i < |q| && q[i].Data?
      ensures Taken(|q[i].bytes|, bs)
    {
      TakenUpTo(|q[i].bytes|, bs);
    }
  }

  /** The run that breaks it: two reads of 131064, and a write that uses the whole window. */
  lemma LargeReadsMakeOversizedPackets(limit: nat, bs: nat) returns (moves: seq<Move>)
    requires limit >= 131064 && (bs == 8 || bs == 16)
    ensures Run(limit, moves).Some?
    ensures var q := Run(limit, moves).value.ab; q != [] && q[0].Data? && !Taken(|q[0].bytes|, bs)
  {
    var sent, data := Burst(limit, 131064);
    moves :| Run(limit, moves) == Some(AfterBurst(131064, Writing([]), sent, data));
    TakenUpTo(|data|, bs);
  }

  // ----- packets the buffer holds -----

  /** The opener has nothing to do and the other side has read all but at most one octet of
      what it wrote; its buffer still holds every octet written. */
  ghost predicate Resting(s: Net) {
    && s.ab == [] && s.ba == []
    && s.a.act.Idle? && !s.a.localEof && !s.a.remoteEof && s.a.buffered == [] && s.a.localWindow == OPEN_WINDOW
    && s.b.act.Idle? && !s.b.remoteEof && s.b.written == [] && |s.b.buffered| <= 1
    && s.a.remoteWindow == s.b.localWindow && ACCEPT_WINDOW <= s.b.localWindow < WINDOW_LIMIT + WINDOW_BASE
    && |s.a.written| == Used(s.b)
  }

  /** The same, but for an exact read of 2 that waits. */
  ghost predicate Thirsty(s: Net) {
    s.b.act == Reading(2, true) && Resting(Net(s.a, s.b.(act := Idle), s.ab, s.ba))
  }

  lemma TwoTurn(limit: nat, p: Peer)
    requires limit >= 2 && p.act.Idle? && |p.buffered| <= 1 && 2 <= p.localWindow < U32 - 1
    ensures TakeTurn(limit, p, StartRead(2, true), []) == Some(Turn(p.(act := Reading(2, true)), [], []))
  {
    assert !MustGrow(p, 2);
  }

  lemma ReadOfTwo(limit: nat, moves: seq<Move>, s: Net) returns (moves': seq<Move>, s': Net)
    requires limit >= 2 && Run(limit, moves) == Some(s) && Resting(s)
    ensures Run(limit, moves') == Some(s') && Thirsty(s') && s' == Net(s.a, s'.b, [], []) && s'.b.(act := Idle) == s.b
  {
    TwoTurn(limit, s.b);
    moves', s' := Extend(limit, moves, s, Move(false, StartRead(2, true)));
  }

  /** A write of `data` that goes out in one packet. */
  lemma WriteOut(limit: nat, moves: seq<Move>, s: Net, data: seq<Byte>) returns (moves': seq<Move>, s': Net)
    requires Run(limit, moves) == Some(s) && s.ab == [] && s.a.act.Idle? && !s.a.localEof
    requires 0 < |data| <= s.a.remoteWindow
    ensures Run(limit, moves') == Some(s') && s'.b == s.b && s'.ab == [Data(data)] && s'.ba == s.ba
    ensures s'.a == s.a.(remoteWindow := s.a.remoteWindow - |data|, written := s.a.written + data)
  {
    moves', s' := Extend(limit, moves, s, Move(true, StartWrite(data)));
    assert data[..|data|] == data && data[|data|..] == [];
    moves', s' := Extend(limit, moves', s', Move(true, SendChunk));
    moves', s' := Extend(limit, moves', s', Move(true, EndWrite));
  }

  lemma PacketTurn(limit: nat, r: Peer, data: seq<Byte>)
    requires r.act == Reading(2, true) && !r.remoteEof && |r.buffered| <= 1 && |data| <= r.localWindow
    requires Fits(r, Data(data))
    ensures TakeTurn(limit, r, Receive, [Data(data)])
         == Some(Turn(r.(buffered := r.buffered + data, localWindow := r.localWindow - |data|), [], []))
  {
    assert [Data(data)][1..] == [];
  }

  /** What is left of three octets after a read of 2. */
  function AfterTwo(r: Peer): Peer
    requires |r.buffered| == 3
  {
    r.(act := Idle, buffered := r.buffered[2..], delivered := r.delivered + r.buffered[..2], kept := r.kept + 2)
  }

  lemma TwoOfThree(limit: nat, r: Peer)
    requires r.act == Reading(2, true) && |r.buffered| == 3 && r.localWindow < U32 - WINDOW_BASE
    ensures TakeTurn(limit, r, EndRead, []) == Some(
      if r.localWindow < WINDOW_LIMIT
      then Turn(AfterTwo(r).(localWindow := r.localWindow + WINDOW_BASE), [], [Adjust(WINDOW_BASE)])
      else Turn(AfterTwo(r), [], []))
  {
    GrowExact(AfterTwo(r), 0);
  }

  /** The waiting read gets its two octets and leaves one. */
  lemma ReadOut(limit: nat, moves: seq<Move>, s: Net, data: seq<Byte>) returns (moves': seq<Move>, s': Net)
    requires Run(limit, moves) == Some(s) && s.ab == [Data(data)] && s.ba == [] && Fits(s.b, Data(data))
    requires s.b.act == Reading(2, true) && !s.b.remoteEof && |s.b.buffered| + |data| == 3 && |data| >= 2
    requires |data| <= s.b.localWindow < U32 - WINDOW_BASE
    ensures Run(limit, moves') == Some(s') && s'.a == s.a && s'.ab == []
    ensures s'.b.act.Idle? && |s'.b.buffered| == 1 && Used(s'.b) == Used(s.b) + |data|
    ensures s'.b.written == s.b.written && s'.b.remoteEof == s.b.remoteEof
    ensures var left := s.b.localWindow - |data|;
      if left < WINDOW_LIMIT then s'.ba == [Adjust(WINDOW_BASE)] && s'.b.localWindow == left + WINDOW_BASE
      else s'.ba == [] && s'.b.localWindow == left
  {
    PacketTurn(limit, s.b, data);
    moves', s' := Extend(limit, moves, s, Move(false, Receive));
    TwoOfThree(limit, s'.b);
    moves', s' := Extend(limit, moves', s', Move(false, EndRead));
  }

  lemma AdjustIn(limit: nat, moves: seq<Move>, s: Net, grant: Uint32) returns (moves': seq<Move>, s': Net)
    requires Run(limit, moves) == Some(s) && s.ba == [Adjust(grant)] && s.a.act.Idle? && s.a.remoteWindow + grant < U32
    ensures Run(limit, moves') == Some(s')
    ensures s' == Net(s.a.(remoteWindow := s.a.remoteWindow + grant), s.b, s.ab, [])
  {
    AdjustTurn(limit, s.a, grant);
    moves', s' := Extend(limit, moves, s, Move(true, Receive));
    assert s.ab + [] == s.ab;
  }

  /** One round: two octets are read, one is left, and the buffer keeps them all. */
  lemma Drip(limit: nat, moves: seq<Move>, s: Net) returns (moves': seq<Move>, s': Net)
    requires limit >= 2 && Run(limit, moves) == Some(s) && Resting(s)
    requires Used(s.b) + 3 - |s.b.buffered| <= BUFFER_MAX
    ensures Run(limit, moves') == Some(s') && Resting(s')
    ensures |s'.b.buffered| == 1 && Used(s'.b) == Used(s.b) + 3 - |s.b.buffered|
  {
    var data: seq<Byte> := seq(3 - |s.b.buffered|, _ => 0);
    moves', s' := ReadOfTwo(limit, moves, s);
    moves', s' := WriteOut(limit, moves', s', data);
    moves', s' := ReadOut(limit, moves', s', data);
    if s'.ba != [] {
      moves', s' := AdjustIn(limit, moves', s', WINDOW_BASE);
    }
  }

  lemma {:induction false} Drips(limit: nat, rounds: nat) returns (moves: seq<Move>, s: Net)
    requires limit >= 2 && 2 * rounds + 3 <= BUFFER_MAX
    ensures Run(limit, moves) == Some(s) && Resting(s)
    ensures |s.b.buffered| == 1 && Used(s.b) == 2 * rounds + 3
    decreases rounds
  {
    if rounds == 0 {
      moves := Opened(limit);
      s := OpenNet();
    } else {
      moves, s := Drips(limit, rounds - 1);
    }
    moves, s := Drip(limit, moves, s);
  }

  /** One more packet for a buffer that is full but for one octet. */
  lemma LastDrip(limit: nat, moves: seq<Move>, s: Net) returns (moves': seq<Move>, s': Net)
    requires limit >= 2 && Run(limit, moves) == Some(s) && Resting(s) && |s.b.buffered| == 1
    requires Used(s.b) == BUFFER_MAX - 1
    ensures Run(limit, moves') == Some(s') && Stopped(s')
    ensures s'.b.written == [] && |s'.a.written| == BUFFER_MAX + 1 && s'.a.act.Reading?
    ensures |s'.b.buffered| == 1 && |s'.ab| == 1 && s'.ab[0].Data? && |s'.ab[0].bytes| == 2
  {
    moves', s' := ReadOfTwo(limit, moves, s);
    moves', s' := WriteOut(limit, moves', s', [0, 0]);
    OneOctetTurn(limit, s'.a);
    moves', s' := Extend(limit, moves', s', Move(true, StartRead(1, false)));
  }

  lemma OneOctetTurn(limit: nat, p: Peer)
    requires limit > 0 && p.act.Idle? && p.buffered == [] && p.localWindow == OPEN_WINDOW && !p.remoteEof
    ensures TakeTurn(limit, p, StartRead(1, false), []) == Some(Turn(p.(act := Reading(1, false)), [], []))
    ensures Waits(p.(act := Reading(1, false)))
  {
    assert !MustGrow(p, 1);
  }

  /** A stream of 2^30 + 1 octets, read in twos, stops with its last packet on the way: one
      octet is unread all the time, so the buffer never goes back to its start. */
  lemma SmallReadsStall(limit: nat) returns (moves: seq<Move>)
    requires limit >= 2
    ensures OneStreamStops(limit, moves)
    ensures var s := Run(limit, moves).value;
      && s.b.written == [] && |s.a.written| == BUFFER_MAX + 1
      && |s.b.buffered| == 1 && |s.b.delivered| == BUFFER_MAX - 2 && |DataOf(s.ab)| == 2
  {
    var s;
    moves, s := Drips(limit, BUFFER_MAX / 2 - 2);
    moves, s := LastDrip(limit, moves, s);
    StoppedStops(limit, s);
    NoByteIsLost(limit, moves);
    assert s.ab == [Data(s.ab[0].bytes)];
    DataOfOne(s.ab[0].bytes);
    var all := s.b.delivered + s.b.buffered + DataOf(s.ab) + Unsent(s.a);
    assert |all| == |s.b.delivered| + |s.b.buffered| + |DataOf(s.ab)| + |Unsent(s.a)|;
  }

  /** When a stream that is never longer than `n` stops only with nothing on its way. */
  lemma OneStreamLimit(limit: nat, n: nat)
    ensures (forall moves :: OneStreamStops(limit, moves) && StreamLength(Run(limit, moves).value) <= n ==>
               Quiet(Run(limit, moves).value))
      <==> limit <= 1 || n <= BUFFER_MAX
  {
    if limit <= 1 || n <= BUFFER_MAX {
      forall moves | OneStreamStops(limit, moves) && StreamLength(Run(limit, moves).value) <= n
        ensures Quiet(Run(limit, moves).value)
      {
        OneStreamIsQuiet(limit, moves);
      }
    } else {
      var moves := SmallReadsStall(limit);
      assert OneStreamStops(limit, moves) && !Quiet(Run(limit, moves).value);
    }
  }

  // ----- two writers -----

  /** A write that fits the window never waits. */
  lemma SmallWriteNeverWaits(limit: nat, p: Peer, x: Action, inbox: seq<Message>)
    requires p.act.Writing? && |p.act.rest| <= p.remoteWindow
    ensures !Waits(p)
    ensures TakeTurn(limit, p, x, inbox).Some? ==>
      var q := TakeTurn(limit, p, x, inbox).value.peer;
      q.act.Idle? || (q.act.Writing? && |q.act.rest| <= q.remoteWindow)
  {
  }

  ghost predicate OnlyData(q: seq<Message>) {
    forall i :: 0 <= i < |q| ==> q[i].Data?
  }

  /** Both threads are inside a write that is `x` and `y` octets longer than its window. */
  ghost predicate Excess(s: Net, x: int, y: int) {
    && s.a.act.Writing? && |s.a.act.rest| - s.a.remoteWindow == x
    && s.b.act.Writing? && |s.b.act.rest| - s.b.remoteWindow == y
    && OnlyData(s.ab) && OnlyData(s.ba)
  }

  /** How many moves such a pair of writes has left at most. */
  ghost function Work(s: Net): nat {
    (if s.a.remoteWindow > 0 then 2 else 0) + (if s.b.remoteWindow > 0 then 2 else 0) + |s.ab| + |s.ba|
  }

  lemma ExcessStays(limit: nat, s: Net, m: Move, x: int, y: int)
    requires Excess(s, x, y) && x > 0 && y > 0 && Step(limit, s, m).Some?
    ensures Excess(Step(limit, s, m).value, x, y) && Work(Step(limit, s, m).value) < Work(s)
  {
  }

  lemma {:induction false} ExcessRun(limit: nat, moves: seq<Move>, more: seq<Move>, x: int, y: int)
    requires Run(limit, moves).Some? && Excess(Run(limit, moves).value, x, y) && x > 0 && y > 0
    requires Run(limit, moves + more).Some?
    ensures Excess(Run(limit, moves + more).value, x, y)
    ensures |more| + Work(Run(limit, moves + more).value) <= Work(Run(limit, moves).value)
    decreases |more|
  {
    if more == [] {
      assert moves + more == moves;
    } else {
      var n := |more| - 1;
      LastMove(limit, moves, more);
      ExcessRun(limit, moves, more[..n], x, y);
      ExcessStays(limit, Run(limit, moves + more[..n]).value, more[n], x, y);
    }
  }

  /** Every way the run can go on is over after four moves, with both writes unfinished. */
  ghost predicate NeitherReturns(limit: nat, moves: seq<Move>) {
    forall more :: Run(limit, moves + more).Some? ==>
      var t := Run(limit, moves + more).value; t.a.act.Writing? && t.b.act.Writing? && |more| <= 4
  }

  lemma BothBegin(limit: nat, moves: seq<Move>, x: seq<Byte>, y: seq<Byte>) returns (begun: seq<Move>, t: Net)
    requires Run(limit, moves).Some?
    requires var s := Run(limit, moves).value;
      s.a.act.Idle? && !s.a.localEof && s.b.act.Idle? && !s.b.localEof && s.ab == [] && s.ba == []
    ensures begun == moves + [Move(true, StartWrite(x))] + [Move(false, StartWrite(y))]
    ensures Run(limit, begun) == Some(t) && Work(t) <= 4
    ensures var s := Run(limit, moves).value; Excess(t, |x| - s.a.remoteWindow, |y| - s.b.remoteWindow)
  {
    var first := Move(true, StartWrite(x));
    RunOneMore(limit, moves, first);
    RunOneMore(limit, moves + [first], Move(false, StartWrite(y)));
    begun := moves + [first] + [Move(false, StartWrite(y))];
    t := Run(limit, begun).value;
  }

  /** Two idle peers with nothing on its way begin to write: neither write ever returns if
      and only if each is longer than the window of its writer. */
  lemma TwoWritesBlock(limit: nat, moves: seq<Move>, x: seq<Byte>, y: seq<Byte>) returns (begun: seq<Move>)
    requires Run(limit, moves).Some?
    requires var s := Run(limit, moves).value;
      s.a.act.Idle? && !s.a.localEof && s.b.act.Idle? && !s.b.localEof && s.ab == [] && s.ba == []
    ensures begun == moves + [Move(true, StartWrite(x))] + [Move(false, StartWrite(y))]
    ensures Run(limit, begun).Some?
    ensures var s := Run(limit, moves).value;
      NeitherReturns(limit, begun) <==> |x| > s.a.remoteWindow && |y| > s.b.remoteWindow
  {
    var s := Run(limit, moves).value;
    var t;
    begun, t := BothBegin(limit, moves, x, y);
    var dx, dy := |x| - s.a.remoteWindow, |y| - s.b.remoteWindow;
    if dx > 0 && dy > 0 {
      forall more | Run(limit, begun + more).Some?
        ensures var u := Run(limit, begun + more).value; u.a.act.Writing? && u.b.act.Writing? && |more| <= 4
      {
        ExcessRun(limit, begun, more, dx, dy);
      }
    } else {
      var more := ShortWriteReturns(limit, begun, dx <= 0);
      assert Run(limit, begun + more).Some?;
    }
  }

  lemma ShortWriteReturns(limit: nat, moves: seq<Move>, byOpener: bool) returns (more: seq<Move>)
    requires Run(limit, moves).Some?
    requires var p := PeerOf(Run(limit, moves).value, byOpener); p.act.Writing? && |p.act.rest| <= p.remoteWindow
    ensures Run(limit, moves + more).Some? && PeerOf(Run(limit, moves + more).value, byOpener).act.Idle?
  {
    more := [Move(byOpener, EndWrite)];
    var s := Run(limit, moves).value;
    if PeerOf(s, byOpener).act.rest == [] {
      RunOneMore(limit, moves, Move(byOpener, EndWrite));
    } else {
      var sent := Move(byOpener, SendChunk);
      ChunkIsAll(limit, s, byOpener);
      RunOneMore(limit, moves, sent);
      RunOneMore(limit, moves + [sent], Move(byOpener, EndWrite));
      more := [sent] + more;
      assert moves + more == moves + [sent] + [Move(byOpener, EndWrite)];
    }
  }

  lemma ChunkIsAll(limit: nat, s: Net, byOpener: bool)
    requires var p := PeerOf(s, byOpener); p.act.Writing? && p.act.rest != [] && |p.act.rest| <= p.remoteWindow
    ensures Step(limit, s, Move(byOpener, SendChunk)).Some?
    ensures PeerOf(Step(limit, s, Move(byOpener, SendChunk)).value, byOpener).act == Writing([])
  {
  }
}

/** Flow control of one SSH channel between two peers that run the same code
    (libssh/channels.c and the accepting half of libssh/messages.c; section 5.2
    of RFC 4254).

    A peer is a thread that is inside at most one API call at a time. `Turn` gives
    one uninterrupted stretch of that thread: from one point where it can start a
    call, process one incoming packet or send one packet, to the next. Packets of
    one direction are delivered in order. */
module ChannelFlow {
  import opened Bytes

  const WINDOW_BASE := 128000
  const WINDOW_LIMIT := WINDOW_BASE / 2
  const OPEN_WINDOW := 64000
  const ACCEPT_WINDOW := 32000
  const MAX_PACKET_LEN := 262144

  datatype Message =
    | Open(window: Uint32)
    | Confirm(window: Uint32)
    | Data(bytes: seq<Byte>)
    | Adjust(grant: Uint32)
    | Eof

  /** Where the peer's thread is. `exact` tells channel_read_buffer from channel_read. */
  datatype Activity =
    | Closed
    | Opening
    | Idle
    | Writing(rest: seq<Byte>)
    | Reading(count: nat, exact: bool)

  /** `buffered` is the unread part of stdout_buffer and `kept` the number of octets in front
      of it that were read and are still there: the buffer's position. Position and length of
      the buffer go back to 0 only when a read drains it.
      `written` and `delivered` record what the two applications have handed over
      and received; the code does not read them. */
  datatype Peer = Peer(
    opener: bool,
    localWindow: Uint32,
    remoteWindow: Uint32,
    buffered: seq<Byte>,
    kept: nat,
    localEof: bool,
    remoteEof: bool,
    act: Activity,
    written: seq<Byte>,
    delivered: seq<Byte>)

  datatype Action =
    | OpenChannel
    | Receive
    | StartWrite(data: seq<Byte>)
    | SendChunk
    | EndWrite
    | StartRead(count: nat, exact: bool)
    | EndRead
    | EndReadAtEof
    | SendEof

  datatype Turn = Turn(peer: Peer, inbox: seq<Message>, sent: seq<Message>)

  // ----- the code of one peer -----

  /** uint32 length of the unread part of stdout_buffer. */
  function Rest(p: Peer): Uint32 { ToUint32(|p.buffered|) }

  /** grow_window: the argument is an int, the sum wraps at 32 bits. */
  function GrowBy(minimum: Int32): Uint32 {
    if minimum > WINDOW_BASE then minimum else WINDOW_BASE
  }

  function Grow(p: Peer, minimum: Int32): Peer {
    p.(localWindow := ToUint32(p.localWindow + GrowBy(minimum)))
  }

  function MustGrow(p: Peer, count: nat): bool {
    count > ToUint32(Rest(p) + p.localWindow)
  }

  /** The condition of the read loop. */
  predicate ReadLoops(p: Peer)
    requires p.act.Reading?
  {
    if p.act.exact then Rest(p) == 0 || Rest(p) < p.act.count
    else Rest(p) == 0 && p.act.count > 0
  }

  function MaxRead(act: Activity): nat
    requires act.Reading?
  {
    if act.exact && act.count == 0 then MAX_PACKET_LEN else act.count
  }

  /** The read loop returns 0. */
  predicate ReadReturnsZero(p: Peer)
    requires p.act.Reading?
  {
    ReadLoops(p) && p.remoteEof && Rest(p) == 0
  }

  /** The read loop goes on to wait for a packet. */
  predicate ReadWaits(p: Peer)
    requires p.act.Reading?
  {
    ReadLoops(p) && !p.remoteEof && Rest(p) < MaxRead(p.act)
  }

  predicate WriteWaits(p: Peer)
    requires p.act.Writing?
  {
    p.remoteWindow < |p.act.rest| && p.remoteWindow == 0
  }

  /** The thread is blocked until a packet arrives. */
  predicate Waits(p: Peer) {
    match p.act
    case Closed => !p.opener
    case Opening => true
    case Idle => false
    case Writing(_) => WriteWaits(p)
    case Reading(_, _) => ReadWaits(p)
  }

  /** Packets are also parsed while the thread is between reads and writes. */
  predicate Accepts(p: Peer, m: Message) {
    && (Waits(p) || p.act.Idle?)
    && match m {
         case Open(_) => p.act.Closed?
         case Confirm(_) => p.act.Opening?
         case Data(d) => !p.act.Closed? && Fits(p, m)
         case Adjust(_) => !p.act.Closed?
         case Eof => !p.act.Closed?
       }
  }

  /** The octets stdout_buffer uses, read or not. */
  function Used(p: Peer): nat { p.kept + |p.buffered| }

  /** The buffer can still grow to hold the packet; else buffer_add_data never returns. */
  predicate Fits(p: Peer, m: Message) {
    m.Data? ==> Used(p) + |m.bytes| <= BUFFER_MAX
  }

  function Handle(p: Peer, m: Message): Peer {
    match m
    case Open(w) => p.(localWindow := ACCEPT_WINDOW, remoteWindow := w, act := Idle)
    case Confirm(w) => p.(remoteWindow := w, act := Idle)
    case Data(d) =>
      p.(buffered := p.buffered + d,
         localWindow := if |d| <= p.localWindow then p.localWindow - |d| else 0)
    case Adjust(n) => p.(remoteWindow := ToUint32(p.remoteWindow + n))
    case Eof => p.(remoteEof := true)
  }

  function ChunkLength(p: Peer): nat
    requires p.act.Writing?
  {
    if p.remoteWindow < |p.act.rest| then p.remoteWindow else |p.act.rest|
  }

  /** How many buffered bytes a finished read hands over. */
  function ReadLength(p: Peer): nat
    requires p.act.Reading?
  {
    if p.act.exact && p.act.count == 0 then |p.buffered| else Min(|p.buffered|, p.act.count)
  }

  /** One stretch of the peer's thread; None when the action is not the next thing
      the code can do. `limit` bounds the counts the application reads with. */
  function TakeTurn(limit: nat, p: Peer, x: Action, inbox: seq<Message>): Option<Turn> {
    match x
    case OpenChannel =>
      if p.act.Closed? && p.opener
      then Some(Turn(p.(localWindow := OPEN_WINDOW, act := Opening), inbox, [Open(OPEN_WINDOW)]))
      else None
    case Receive =>
      if inbox != [] && Accepts(p, inbox[0])
      then Some(Turn(Handle(p, inbox[0]), inbox[1..],
                     if inbox[0].Open? then [Confirm(ACCEPT_WINDOW)] else []))
      else None
    case StartWrite(data) =>
      if p.act.Idle? && !p.localEof
      then Some(Turn(p.(act := Writing(data), written := p.written + data), inbox, []))
      else None
    case SendChunk =>
      if p.act.Writing? && p.act.rest != [] && !WriteWaits(p)
      then
        var n := ChunkLength(p);
        Some(Turn(p.(remoteWindow := p.remoteWindow - n, act := Writing(p.act.rest[n..])),
                  inbox, [Data(p.act.rest[..n])]))
      else None
    case EndWrite =>
      if p.act.Writing? && p.act.rest == [] then Some(Turn(p.(act := Idle), inbox, [])) else None
    case StartRead(count, exact) =>
      if p.act.Idle? && count <= limit && (exact || count > 0)
      then
        var q := p.(act := Reading(count, exact));
        if MustGrow(p, count)
        then
          var need := ToInt32(count - Rest(p));
          Some(Turn(Grow(q, need), inbox, [Adjust(GrowBy(need))]))
        else Some(Turn(q, inbox, []))
      else None
    case EndRead =>
      if p.act.Reading? && !ReadWaits(p) && !ReadReturnsZero(p)
      then
        var n := ReadLength(p);
        var q := p.(act := Idle, buffered := p.buffered[n..], delivered := p.delivered + p.buffered[..n],
                    kept := if n == |p.buffered| then 0 else p.kept + n);
        if p.localWindow < WINDOW_LIMIT
        then Some(Turn(Grow(q, 0), inbox, [Adjust(GrowBy(0))]))
        else Some(Turn(q, inbox, []))
      else None
    case EndReadAtEof =>
      if p.act.Reading? && ReadReturnsZero(p) then Some(Turn(p.(act := Idle), inbox, [])) else None
    case SendEof =>
      if p.act.Idle? then Some(Turn(p.(localEof := true), inbox, [Eof])) else None
  }

  // ----- two peers -----

  /** `a` opens the channel. `ab` and `ba` are the packets on their way. */
  datatype Net = Net(a: Peer, b: Peer, ab: seq<Message>, ba: seq<Message>)

  datatype Move = Move(byOpener: bool, action: Action)

  function NewPeer(opener: bool): Peer {
    Peer(opener, 0, 0, [], 0, false, false, Closed, [], [])
  }

  const START := Net(NewPeer(true), NewPeer(false), [], [])

  function Step(limit: nat, s: Net, m: Move): Option<Net> {
    if m.byOpener then
      match TakeTurn(limit, s.a, m.action, s.ba)
      case None => None
      case Some(t) => Some(Net(t.peer, s.b, s.ab + t.sent, t.inbox))
    else
      match TakeTurn(limit, s.b, m.action, s.ab)
      case None => None
      case Some(t) => Some(Net(s.a, t.peer, t.inbox, s.ba + t.sent))
  }

  /** The state after a run, None if some move was impossible. */
  function Run(limit: nat, moves: seq<Move>): Option<Net>
    decreases |moves|
  {
    if moves == [] then Some(START)
    else
      match Run(limit, moves[..|moves| - 1])
      case None => None
      case Some(s) => Step(limit, s, moves[|moves| - 1])
  }
}

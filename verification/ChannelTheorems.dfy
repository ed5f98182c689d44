/** The promises of the channel, for every run of two peers whose applications read
    with counts of at most `limit`. */
module ChannelTheorems {
  import opened Bytes
  import opened ChannelFlow
  import opened ChannelSafety

  /** A writer's window plus everything on its way is exactly the reader's window, so
      no packet exceeds what was granted and no 32-bit window wraps. */
  lemma CreditIsConserved(limit: nat, moves: seq<Move>)
    requires limit < INT32_LIMIT && Run(limit, moves).Some?
    ensures var s := Run(limit, moves).value;
      && s.a.remoteWindow + |DataOf(s.ab)| + CreditOf(s.ba) == s.b.localWindow <= WindowBound(limit) < U32
      && s.b.remoteWindow + |DataOf(s.ba)| + CreditOf(s.ab) == s.a.localWindow <= WindowBound(limit)
      && (forall i :: 0 <= i < |s.ab| && s.ab[i].Data? ==> |s.ab[i].bytes| <= s.b.localWindow)
      && (forall i :: 0 <= i < |s.ba| && s.ba[i].Data? ==> |s.ba[i].bytes| <= s.a.localWindow)
  {
    RunKeepsInvariant(limit, moves);
    var s := Run(limit, moves).value;
    forall i | 0 <= i < |s.ab| && s.ab[i].Data?
      ensures |s.ab[i].bytes| <= |DataOf(s.ab)|
    {
      PartOfData(s.ab, i);
    }
    forall i | 0 <= i < |s.ba| && s.ba[i].Data?
      ensures |s.ba[i].bytes| <= |DataOf(s.ba)|
    {
      PartOfData(s.ba, i);
    }
  }

  lemma {:induction false} PartOfData(q: seq<Message>, i: nat)
    requires i < |q| && q[i].Data?
    ensures |q[i].bytes| <= |DataOf(q)|
  {
    if i > 0 {
      PartOfData(q[1..], i - 1);
    }
  }

  /** Read ++ buffered ++ on its way ++ not yet sent is what was written, in both
      directions at once. */
  lemma NoByteIsLost(limit: nat, moves: seq<Move>)
    requires Run(limit, moves).Some?
    ensures var s := Run(limit, moves).value;
      && s.b.delivered + s.b.buffered + DataOf(s.ab) + Unsent(s.a) == s.a.written
      && s.a.delivered + s.a.buffered + DataOf(s.ba) + Unsent(s.b) == s.b.written
  {
    RunKeepsOrder(limit, moves);
  }

  /** A read that returns 0 has the whole stream behind it, and the writer can add
      nothing to it any more. */
  lemma ZeroMeansEndOfStream(limit: nat, moves: seq<Move>, byOpener: bool)
    requires Run(limit, moves).Some?
    requires Step(limit, Run(limit, moves).value, Move(byOpener, EndReadAtEof)).Some?
    ensures var s := Run(limit, moves).value;
      var (r, w) := if byOpener then (s.a, s.b) else (s.b, s.a);
      r.delivered == w.written && w.localEof
  {
    RunKeepsOrder(limit, moves);
    var s := Run(limit, moves).value;
    if byOpener {
      ZeroMeansDrained(s.b, s.a, s.ba);
    } else {
      ZeroMeansDrained(s.a, s.b, s.ab);
    }
  }

  lemma ZeroMeansDrained(w: Peer, r: Peer, fwd: seq<Message>)
    requires Ordered(w, r, fwd) && r.act.Reading? && ReadReturnsZero(r)
    ensures r.delivered == w.written && w.localEof
  {
    NoDataMeansEmpty(fwd);
    assert Rest(r) == |r.buffered|;
    assert r.delivered + [] + [] + [] == r.delivered;
  }

  ghost function PeerOf(s: Net, byOpener: bool): Peer {
    if byOpener then s.a else s.b
  }

  ghost function QueueFrom(s: Net, byOpener: bool): seq<Message> {
    if byOpener then s.ab else s.ba
  }

  /** An end of file is on its way or noticed, in every reachable state and both directions;
      and neither without having been sent. */
  lemma EofIsNotLost(limit: nat, moves: seq<Move>, byOpener: bool)
    requires Run(limit, moves).Some?
    ensures var s := Run(limit, moves).value;
      PeerOf(s, byOpener).localEof <==> PeerOf(s, !byOpener).remoteEof || HasEof(QueueFrom(s, byOpener))
  {
    RunKeepsOrder(limit, moves);
  }

  /** A read that has no packet to take in returns 0 exactly when the other side is at its end
      of file and all it wrote has been read; at that end of file it never waits. */
  lemma ReadsEndAtEof(limit: nat, moves: seq<Move>, byOpener: bool)
    requires Run(limit, moves).Some?
    requires var s := Run(limit, moves).value;
      PeerOf(s, byOpener).act.Reading? && QueueFrom(s, !byOpener) == []
    ensures var s := Run(limit, moves).value;
      var r, w := PeerOf(s, byOpener), PeerOf(s, !byOpener);
      && (Step(limit, s, Move(byOpener, EndReadAtEof)).Some? <==> w.localEof && r.delivered == w.written)
      && (w.localEof ==> !Waits(r))
  {
    RunKeepsOrder(limit, moves);
    var s := Run(limit, moves).value;
    EndIsSeen(PeerOf(s, !byOpener), PeerOf(s, byOpener));
  }

  lemma EndIsSeen(w: Peer, r: Peer)
    requires Ordered(w, r, []) && r.act.Reading?
    ensures ReadReturnsZero(r) <==> w.localEof && r.delivered == w.written
    ensures w.localEof ==> !Waits(r)
  {
    var all := r.delivered + r.buffered + DataOf([]) + Unsent(w);
    assert |all| == |r.delivered| + |r.buffered| + |Unsent(w)|;
    assert Rest(r) == |r.buffered|;
    if w.localEof && r.buffered == [] {
      assert all == r.delivered;
    }
    if ReadReturnsZero(r) {
      ZeroMeansDrained(w, r, []);
    }
  }

  /** Once a peer has sent its end of file it takes in nothing to write for the rest of the
      run, has nothing left to send, and what the other side is still to receive is data
      first and then the end of file. */
  lemma NothingWrittenAfterEof(limit: nat, moves: seq<Move>, more: seq<Move>, byOpener: bool)
    requires Run(limit, moves + more).Some?
    requires Run(limit, moves).Some? && PeerOf(Run(limit, moves).value, byOpener).localEof
    ensures var s, t := Run(limit, moves).value, Run(limit, moves + more).value;
      var p, q := PeerOf(t, byOpener), QueueFrom(t, byOpener);
      && p.localEof && p.written == PeerOf(s, byOpener).written && Unsent(p) == []
      && (forall i, j :: 0 <= i < j < |q| && q[i].Eof? ==> !q[j].Data?)
  {
    EofIsKept(limit, moves, more, byOpener);
    RunKeepsOrder(limit, moves + more);
  }

  lemma {:induction false} EofIsKept(limit: nat, moves: seq<Move>, more: seq<Move>, byOpener: bool)
    requires Run(limit, moves + more).Some?
    requires Run(limit, moves).Some? && PeerOf(Run(limit, moves).value, byOpener).localEof
    ensures var s, t := Run(limit, moves).value, Run(limit, moves + more).value;
      PeerOf(t, byOpener).localEof && PeerOf(t, byOpener).written == PeerOf(s, byOpener).written
    decreases |more|
  {
    if more == [] {
      assert moves + more == moves;
    } else {
      var n := |more| - 1;
      LastMove(limit, moves, more);
      EofIsKept(limit, moves, more[..n], byOpener);
      StepAfterEof(limit, Run(limit, moves + more[..n]).value, more[n], byOpener);
    }
  }

  lemma LastMove(limit: nat, moves: seq<Move>, more: seq<Move>)
    requires more != [] && Run(limit, moves + more).Some?
    ensures var n := |more| - 1;
      && Run(limit, moves + more[..n]).Some?
      && Run(limit, moves + more) == Step(limit, Run(limit, moves + more[..n]).value, more[n])
  {
    CutLast(moves, more);
    assert Run(limit, moves + more).Some? ==> Run(limit, (moves + more)[..|moves + more| - 1]).Some?;
  }

  lemma CutLast<T>(a: seq<T>, b: seq<T>)
    requires b != []
    ensures a + b != [] && (a + b)[..|a + b| - 1] == a + b[..|b| - 1] && (a + b)[|a + b| - 1] == b[|b| - 1]
  {
  }

  lemma StepAfterEof(limit: nat, s: Net, m: Move, byOpener: bool)
    requires Step(limit, s, m).Some? && PeerOf(s, byOpener).localEof
    ensures var p := PeerOf(Step(limit, s, m).value, byOpener);
      p.localEof && p.written == PeerOf(s, byOpener).written
  {
  }

  // ----- progress -----

  ghost predicate CanMove(limit: nat, s: Net) {
    exists m :: Step(limit, s, m).Some?
  }

  ghost predicate Quiet(s: Net) {
    Waits(s.a) && Waits(s.b) && s.ab == [] && s.ba == []
  }

  /** Both threads wait, and a queue is empty or begins with a packet that would make the
      receiver's buffer larger than it can get. */
  ghost predicate Stopped(s: Net) {
    && Waits(s.a) && (s.ba == [] || !Fits(s.a, s.ba[0]))
    && Waits(s.b) && (s.ab == [] || !Fits(s.b, s.ab[0]))
  }

  lemma IdlePeerCanMove(limit: nat, p: Peer, inbox: seq<Message>) returns (x: Action)
    requires !Waits(p) && (p.act.Opening? ==> p.opener)
    ensures TakeTurn(limit, p, x, inbox).Some?
  {
    match p.act {
      case Closed => x := OpenChannel;
      case Opening => assert false;
      case Idle => x := SendEof;
      case Writing(rest) => x := if rest == [] then EndWrite else SendChunk;
      case Reading(_, _) => x := if ReadReturnsZero(p) then EndReadAtEof else EndRead;
    }
  }

  /** A run can go on unless both threads wait and neither finds a packet it can take. */
  lemma OnlyStoppedStops(limit: nat, moves: seq<Move>)
    requires Run(limit, moves).Some?
    ensures CanMove(limit, Run(limit, moves).value) <==> !Stopped(Run(limit, moves).value)
  {
    var s := Run(limit, moves).value;
    if Stopped(s) {
      StoppedStops(limit, s);
    } else {
      RunKeepsOrder(limit, moves);
      var m := SomeMove(limit, s);
      assert Step(limit, s, m).Some?;
    }
  }

  lemma StoppedStops(limit: nat, s: Net)
    requires Stopped(s)
    ensures !CanMove(limit, s)
  {
    forall m ensures Step(limit, s, m).None? {
      WaitingPeerOnlyReceives(limit, s.a, m.action, s.ba);
      WaitingPeerOnlyReceives(limit, s.b, m.action, s.ab);
    }
  }

  lemma SomeMove(limit: nat, s: Net) returns (m: Move)
    requires Handshake(s) && !Stopped(s)
    ensures Step(limit, s, m).Some?
  {
    if !Waits(s.a) {
      var x := IdlePeerCanMove(limit, s.a, s.ba);
      m := Move(true, x);
    } else if !Waits(s.b) {
      var x := IdlePeerCanMove(limit, s.b, s.ab);
      m := Move(false, x);
    } else {
      HeadIsTaken(s);
      m := Move(s.ba != [] && Fits(s.a, s.ba[0]), Receive);
    }
  }

  /** A waiting thread can take the packet at the head of its queue exactly when its buffer
      can hold it; it never finds one out of order, such as data before the confirmation. */
  lemma HeadIsTaken(s: Net)
    requires Handshake(s)
    ensures Waits(s.a) && s.ba != [] ==> (Accepts(s.a, s.ba[0]) <==> Fits(s.a, s.ba[0]))
    ensures Waits(s.b) && s.ab != [] ==> (Accepts(s.b, s.ab[0]) <==> Fits(s.b, s.ab[0]))
  {
  }

  lemma WaitingPeerOnlyReceives(limit: nat, p: Peer, x: Action, inbox: seq<Message>)
    requires Waits(p) && (inbox == [] || !Fits(p, inbox[0]))
    ensures TakeTurn(limit, p, x, inbox).None?
  {
  }

  /** The buffer has not enough for the read: nothing at all, or less than an exact count. */
  predicate TooFew(p: Peer)
    requires p.act.Reading?
  {
    |p.buffered| < if p.act.exact then Max(p.act.count, 1) else 1
  }

  /** Both applications wait for more than the other has written, and neither has ended. */
  ghost predicate BothRead(s: Net) {
    && s.a.act.Reading? && TooFew(s.a) && s.a.delivered + s.a.buffered == s.b.written && !s.b.localEof
    && s.b.act.Reading? && TooFew(s.b) && s.b.delivered + s.b.buffered == s.a.written && !s.a.localEof
  }

  /** No reader waits for a writer that waits for the reader, or for one that is at its end
      of file: in every reachable quiet state either both peers wait for window to write, or
      both wait for data that the other application has not written. */
  lemma NoReaderWriterDeadlock(limit: nat, moves: seq<Move>)
    requires limit < INT32_LIMIT && Run(limit, moves).Some?
    ensures var s := Run(limit, moves).value;
      Quiet(s) ==>
        (s.a.act.Writing? && s.b.act.Writing?) || BothRead(s)
  {
    RunKeepsInvariant(limit, moves);
    var s := Run(limit, moves).value;
    if Quiet(s) {
      if s.a.act.Reading? && s.b.act.Writing? {
        WaitingReaderHasWindow(limit, s.b, s.a, s.ba, s.ab);
        assert false;
      } else if s.a.act.Writing? && s.b.act.Reading? {
        WaitingReaderHasWindow(limit, s.a, s.b, s.ab, s.ba);
        assert false;
      } else if s.a.act.Reading? {
        RunKeepsOrder(limit, moves);
        WaitingReader(s.a, s.b);
        WaitingReader(s.b, s.a);
      }
    }
  }

  lemma WaitingReader(r: Peer, w: Peer)
    requires Ordered(w, r, []) && r.act.Reading? && w.act.Reading? && Waits(r)
    ensures TooFew(r) && r.delivered + r.buffered == w.written && !w.localEof
  {
    EndIsSeen(w, r);
    assert Rest(r) == |r.buffered|;
    assert r.delivered + r.buffered + [] + [] == r.delivered + r.buffered;
  }

  lemma WaitingReaderHasWindow(limit: nat, w: Peer, r: Peer, fwd: seq<Message>, back: seq<Message>)
    requires limit < INT32_LIMIT
    requires Stream(limit, w, r, fwd, back) && fwd == [] && back == []
    requires r.act.Reading? && ReadWaits(r)
    ensures w.remoteWindow > 0
  {
    SumsAreExact(limit, r);
    assert DataOf(fwd) == [] && CreditOf(back) == 0;
  }

  /** The next packet always fits the reader's buffer when the whole stream does. */
  lemma ReaderHasRoom(w: Peer, r: Peer, fwd: seq<Message>)
    requires Ordered(w, r, fwd) && |w.written| <= BUFFER_MAX && fwd != []
    ensures Fits(r, fwd[0])
  {
    var all := r.delivered + r.buffered + DataOf(fwd) + Unsent(w);
    assert |all| == |r.delivered| + |r.buffered| + |DataOf(fwd)| + |Unsent(w)|;
    if fwd[0].Data? {
      assert |fwd[0].bytes| <= |DataOf(fwd)|;
    }
  }

  /** With counts of at most 1 a read that waits has drained the buffer. */
  lemma DrainedReaderHasRoom(limit: nat, w: Peer, r: Peer, fwd: seq<Message>, back: seq<Message>)
    requires limit <= 1 && Stream(limit, w, r, fwd, back)
    requires r.act.Reading? && ReadWaits(r) && fwd != []
    ensures Fits(r, fwd[0])
  {
    if fwd[0].Data? {
      HeadFitsWindow(w, r, fwd, back);
      SumsAreExact(limit, r);
      assert r.buffered == [] && Used(r) == 0;
    }
  }

  /** A peer that was never given a byte to write leaves nothing on its way. */
  lemma SilentPeer(w: Peer, r: Peer, fwd: seq<Message>)
    requires Ordered(w, r, fwd) && w.written == []
    ensures DataOf(fwd) == [] && Unsent(w) == []
    ensures fwd != [] ==> Fits(r, fwd[0])
  {
    var all := r.delivered + r.buffered + DataOf(fwd) + Unsent(w);
    assert |all| == |r.delivered| + |r.buffered| + |DataOf(fwd)| + |Unsent(w)|;
  }

  /** A run in which one side was given nothing to write, and nothing can move any more. */
  ghost predicate OneStreamStops(limit: nat, moves: seq<Move>) {
    && Run(limit, moves).Some?
    && (Run(limit, moves).value.a.written == [] || Run(limit, moves).value.b.written == [])
    && !CanMove(limit, Run(limit, moves).value)
  }

  ghost function StreamLength(s: Net): nat { |s.a.written| + |s.b.written| }

  /** A stream of at most 2^30 octets, or of any length if the counts are at most 1, stops
      with nothing on its way. */
  lemma OneStreamIsQuiet(limit: nat, moves: seq<Move>)
    requires OneStreamStops(limit, moves)
    requires limit <= 1 || StreamLength(Run(limit, moves).value) <= BUFFER_MAX
    ensures var s := Run(limit, moves).value;
      && Quiet(s)
      && (s.b.written == [] ==> !s.b.act.Writing?) && (s.a.written == [] ==> !s.a.act.Writing?)
  {
    var s := Run(limit, moves).value;
    RunKeepsOrder(limit, moves);
    OnlyStoppedStops(limit, moves);
    NoEarlyData(s);
    if limit <= 1 {
      RunKeepsInvariant(limit, moves);
    }
    if s.b.written == [] {
      NothingIsLeft(limit, s.a, s.b, s.ab, s.ba);
    }
    if s.a.written == [] {
      NothingIsLeft(limit, s.b, s.a, s.ba, s.ab);
    }
  }

  lemma NoEarlyData(s: Net)
    requires Handshake(s)
    ensures s.ab != [] && (s.b.act.Closed? || s.b.act.Opening?) ==> !s.ab[0].Data?
    ensures s.ba != [] && (s.a.act.Closed? || s.a.act.Opening?) ==> !s.ba[0].Data?
  {
  }

  lemma NothingIsLeft(limit: nat, w: Peer, r: Peer, fwd: seq<Message>, back: seq<Message>)
    requires Ordered(w, r, fwd) && Ordered(r, w, back) && r.written == []
    requires if limit <= 1 then Stream(limit, w, r, fwd, back) else |w.written| <= BUFFER_MAX
    requires (r.act.Closed? || r.act.Opening?) && fwd != [] ==> !fwd[0].Data?
    requires Waits(w) && (back == [] || !Fits(w, back[0]))
    requires Waits(r) && (fwd == [] || !Fits(r, fwd[0]))
    ensures fwd == [] && back == [] && !r.act.Writing?
  {
    SilentPeer(r, w, back);
    if fwd != [] && r.act.Reading? {
      if limit <= 1 {
        DrainedReaderHasRoom(limit, w, r, fwd, back);
      } else {
        ReaderHasRoom(w, r, fwd);
      }
    }
  }

  /** Then both applications wait for data, and all that was written has been received. */
  lemma OneStreamNeverStalls(limit: nat, moves: seq<Move>)
    requires limit < INT32_LIMIT && OneStreamStops(limit, moves)
    requires limit <= 1 || StreamLength(Run(limit, moves).value) <= BUFFER_MAX
    ensures Quiet(Run(limit, moves).value) && BothRead(Run(limit, moves).value)
  {
    OneStreamIsQuiet(limit, moves);
    NoReaderWriterDeadlock(limit, moves);
  }

  // ----- where the code stops short -----

  lemma RunOneMore(limit: nat, moves: seq<Move>, m: Move)
    requires Run(limit, moves).Some?
    ensures Run(limit, moves + [m]) == Step(limit, Run(limit, moves).value, m)
  {
    assert (moves + [m])[..|moves + [m]| - 1] == moves;
  }

  function OpenNet(): Net {
    Net(NewPeer(true).(act := Idle, localWindow := OPEN_WINDOW, remoteWindow := ACCEPT_WINDOW),
        NewPeer(false).(act := Idle, localWindow := ACCEPT_WINDOW, remoteWindow := OPEN_WINDOW), [], [])
  }

  lemma HandshakeSteps(limit: nat) returns (opening: Net, accepted: Net)
    ensures Step(limit, START, Move(true, OpenChannel)) == Some(opening)
    ensures Step(limit, opening, Move(false, Receive)) == Some(accepted)
    ensures Step(limit, accepted, Move(true, Receive)) == Some(OpenNet())
  {
    var a := NewPeer(true).(act := Opening, localWindow := OPEN_WINDOW);
    opening := Net(a, NewPeer(false), [Open(OPEN_WINDOW)], []);
    accepted := Net(a, OpenNet().b, [], [Confirm(ACCEPT_WINDOW)]);
    assert START.ab + [Open(OPEN_WINDOW)] == opening.ab;
    assert opening.ab[1..] == [] && opening.ba + [Confirm(ACCEPT_WINDOW)] == accepted.ba;
    assert accepted.ba[1..] == [] && accepted.ab + [] == [];
  }

  /** The opening handshake as a run. */
  lemma Opened(limit: nat) returns (moves: seq<Move>)
    ensures Run(limit, moves) == Some(OpenNet())
  {
    var opening, accepted := HandshakeSteps(limit);
    RunOneMore(limit, [], Move(true, OpenChannel));
    moves := [] + [Move(true, OpenChannel)];
    RunOneMore(limit, moves, Move(false, Receive));
    moves := moves + [Move(false, Receive)];
    RunOneMore(limit, moves, Move(true, Receive));
    moves := moves + [Move(true, Receive)];
  }

  /** The other case of NoReaderWriterDeadlock does happen: two writers that each have
      more to send than the other has granted stop for good, because a blocked writer
      stores what arrives but never widens its own window. */
  lemma TwoWritersCanStop(limit: nat) returns (moves: seq<Move>)
    ensures Run(limit, moves).Some? && Quiet(Run(limit, moves).value)
    ensures Run(limit, moves).value.a.act.Writing? && Run(limit, moves).value.b.act.Writing?
  {
    moves := Opened(limit);
    var fromA, fromB: seq<Byte> := seq(ACCEPT_WINDOW + 1, _ => 0), seq(OPEN_WINDOW + 1, _ => 0);
    var s;
    moves, s := OneSends(limit, moves, OpenNet(), true, fromA);
    moves, s := OneSends(limit, moves, s, false, fromB);
    moves, s := OneTakesIn(limit, moves, s, true, fromB[..OPEN_WINDOW]);
    moves, s := OneTakesIn(limit, moves, s, false, fromA[..ACCEPT_WINDOW]);
  }

  /** A blocked writer takes in what arrives and stays blocked. */
  lemma OneTakesIn(limit: nat, moves: seq<Move>, s: Net, byOpener: bool, data: seq<Byte>)
    returns (moves': seq<Move>, s': Net)
    requires Run(limit, moves) == Some(s) && QueueFrom(s, !byOpener) == [Data(data)]
    requires var p := PeerOf(s, byOpener); p.act.Writing? && WriteWaits(p) && Used(p) + |data| <= BUFFER_MAX
    ensures Run(limit, moves') == Some(s') && QueueFrom(s', !byOpener) == []
    ensures PeerOf(s', byOpener).act == PeerOf(s, byOpener).act && WriteWaits(PeerOf(s', byOpener))
    ensures PeerOf(s', !byOpener) == PeerOf(s, !byOpener) && QueueFrom(s', byOpener) == QueueFrom(s, byOpener)
  {
    moves', s' := Extend(limit, moves, s, Move(byOpener, Receive));
    assert QueueFrom(s, byOpener) + [] == QueueFrom(s, byOpener);
  }

  /** A peer begins a write that is too long and sends what the window takes. */
  lemma OneSends(limit: nat, moves: seq<Move>, s: Net, byOpener: bool, data: seq<Byte>)
    returns (moves': seq<Move>, s': Net)
    requires Run(limit, moves) == Some(s) && QueueFrom(s, byOpener) == []
    requires var p := PeerOf(s, byOpener); p.act.Idle? && !p.localEof && 0 < p.remoteWindow < |data|
    ensures Run(limit, moves') == Some(s')
    ensures var p, n := PeerOf(s, byOpener), PeerOf(s, byOpener).remoteWindow;
      && PeerOf(s', byOpener) == p.(remoteWindow := 0, act := Writing(data[n..]), written := p.written + data)
      && PeerOf(s', !byOpener) == PeerOf(s, !byOpener)
      && QueueFrom(s', byOpener) == [Data(data[..n])] && QueueFrom(s', !byOpener) == QueueFrom(s, !byOpener)
  {
    moves', s' := Extend(limit, moves, s, Move(byOpener, StartWrite(data)));
    moves', s' := Extend(limit, moves', s', Move(byOpener, SendChunk));
  }

  lemma Extend(limit: nat, moves: seq<Move>, s: Net, m: Move) returns (moves': seq<Move>, s': Net)
    requires Run(limit, moves) == Some(s) && Step(limit, s, m).Some?
    ensures Run(limit, moves') == Some(s') && Some(s') == Step(limit, s, m)
  {
    RunOneMore(limit, moves, m);
    moves', s' := moves + [m], Step(limit, s, m).value;
  }

  /** Why `limit` must stay below 2^31: grow_window takes its argument as an int. The
      window opened before a read covers the count exactly when the missing part is
      such an int, or the default grant happens to be enough. */
  lemma GrowCoversRead(p: Peer, count: Uint32)
    requires |p.buffered| <= BUFFER_MAX && |p.buffered| + p.localWindow < count
    ensures var q := Grow(p, ToInt32(count - Rest(p)));
      (|q.buffered| + q.localWindow >= count
       <==> || count - |p.buffered| < INT32_LIMIT
            || (p.localWindow + WINDOW_BASE < U32 && |p.buffered| + p.localWindow + WINDOW_BASE >= count))
  {
    assert Rest(p) == |p.buffered|;
    var need := count - |p.buffered|;
    if need < INT32_LIMIT {
      GrowExact(p, need);
    } else {
      assert GrowBy(ToInt32(need)) == WINDOW_BASE;
      if p.localWindow + WINDOW_BASE >= U32 {
        assert ToUint32(p.localWindow + WINDOW_BASE) == p.localWindow + WINDOW_BASE - U32;
      }
    }
  }
}

/** The methods of one channel as libssh/channels.c writes them: loops that send,
    and that block for the next packet. Each is proved to be a run of `TakeTurn`, so
    the theorems about runs of two peers hold of the code. */
module ChannelCode {
  import opened Bytes
  import opened ChannelFlow
  import opened ChannelSafety
  import opened ChannelTheorems

  /** Several turns of one thread; `sent` collects what it sends. */
  ghost function Turns(limit: nat, start: Turn, xs: seq<Action>): Option<Turn>
    decreases |xs|
  {
    if xs == [] then Some(start)
    else
      match Turns(limit, start, xs[..|xs| - 1])
      case None => None
      case Some(t) =>
        match TakeTurn(limit, t.peer, xs[|xs| - 1], t.inbox)
        case None => None
        case Some(u) => Some(Turn(u.peer, u.inbox, t.sent + u.sent))
  }

  lemma OneMoreTurn(limit: nat, start: Turn, xs: seq<Action>, t: Turn, x: Action, u: Turn)
    requires Turns(limit, start, xs) == Some(t)
    requires TakeTurn(limit, t.peer, x, t.inbox) == Some(u)
    ensures Turns(limit, start, xs + [x]) == Some(Turn(u.peer, u.inbox, t.sent + u.sent))
  {
    assert (xs + [x])[..|xs + [x]| - 1] == xs;
  }

  ghost function ByOne(byOpener: bool, xs: seq<Action>): seq<Move> {
    seq(|xs|, i requires 0 <= i < |xs| => Move(byOpener, xs[i]))
  }

  /** The part of a net one thread sees, and the net after that thread has moved on. */
  ghost function View(s: Net, byOpener: bool): Turn {
    if byOpener then Turn(s.a, s.ba, []) else Turn(s.b, s.ab, [])
  }

  ghost function After(s: Net, byOpener: bool, t: Turn): Net {
    if byOpener then Net(t.peer, s.b, s.ab + t.sent, t.inbox)
    else Net(s.a, t.peer, t.inbox, s.ba + t.sent)
  }

  lemma TurnIsAStep(limit: nat, s: Net, byOpener: bool, t: Turn, x: Action, u: Turn)
    requires TakeTurn(limit, t.peer, x, t.inbox) == Some(u)
    ensures Step(limit, After(s, byOpener, t), Move(byOpener, x))
         == Some(After(s, byOpener, Turn(u.peer, u.inbox, t.sent + u.sent)))
  {
    assert s.ab + (t.sent + u.sent) == s.ab + t.sent + u.sent;
    assert s.ba + (t.sent + u.sent) == s.ba + t.sent + u.sent;
  }

  /** Whatever one thread does in several turns is part of a run of both peers. */
  lemma {:induction false} TurnsAreARun(limit: nat, moves: seq<Move>, s: Net, byOpener: bool, xs: seq<Action>, t: Turn)
    requires Run(limit, moves) == Some(s)
    requires Turns(limit, View(s, byOpener), xs) == Some(t)
    ensures Run(limit, moves + ByOne(byOpener, xs)) == Some(After(s, byOpener, t))
    decreases |xs|
  {
    if xs == [] {
      assert moves + ByOne(byOpener, xs) == moves;
      NothingAfter(s, byOpener);
    } else {
      var n := |xs| - 1;
      var u, last := LastTurn(limit, View(s, byOpener), xs, t);
      TurnsAreARun(limit, moves, s, byOpener, xs[..n], u);
      TurnIsAStep(limit, s, byOpener, u, xs[n], last);
      ByOneLast(moves, byOpener, xs);
      RunOneMore(limit, moves + ByOne(byOpener, xs[..n]), Move(byOpener, xs[n]));
    }
  }

  lemma NothingAfter(s: Net, byOpener: bool)
    ensures After(s, byOpener, View(s, byOpener)) == s
  {
    assert s.ab + [] == s.ab && s.ba + [] == s.ba;
  }

  lemma LastTurn(limit: nat, start: Turn, xs: seq<Action>, t: Turn) returns (u: Turn, last: Turn)
    requires xs != [] && Turns(limit, start, xs) == Some(t)
    ensures Turns(limit, start, xs[..|xs| - 1]) == Some(u)
    ensures TakeTurn(limit, u.peer, xs[|xs| - 1], u.inbox) == Some(last)
    ensures t == Turn(last.peer, last.inbox, u.sent + last.sent)
  {
    u := Turns(limit, start, xs[..|xs| - 1]).value;
    last := TakeTurn(limit, u.peer, xs[|xs| - 1], u.inbox).value;
  }

  lemma ByOneLast(moves: seq<Move>, byOpener: bool, xs: seq<Action>)
    requires xs != []
    ensures var n := |xs| - 1;
      moves + ByOne(byOpener, xs) == moves + ByOne(byOpener, xs[..n]) + [Move(byOpener, xs[n])]
  {
  }

  datatype WriteResult = Wrote(n: nat) | WriteDenied | WriteBlocked
  datatype ReadResult = Got(bytes: seq<Byte>) | EndOfFile | ReadBlocked

  /** What an open channel finds in its queue and in its buffer. */
  ghost predicate Readable(p: Peer, q: seq<Message>) {
    Plain(q) && Used(p) <= BUFFER_MAX
  }

  class Channel {
    const opener: bool
    var localWindow: Uint32
    var remoteWindow: Uint32
    // The unread part of stdout_buffer, and its position.
    var stdout: seq<Byte>
    var kept: nat
    var localEof: bool
    var remoteEof: bool
    // What the session has received and not parsed yet, and what it has sent.
    var inbox: seq<Message>
    var outbox: seq<Message>
    ghost var act: Activity
    ghost var written: seq<Byte>
    ghost var delivered: seq<Byte>

    ghost function State(): Peer
      reads this
    {
      Peer(opener, localWindow, remoteWindow, stdout, kept, localEof, remoteEof, act, written, delivered)
    }

    ghost function Now(): Turn
      reads this
    {
      Turn(State(), inbox, [])
    }

    /** A thread that waits gets no further: no packet arrives, or it arrives and
        realloc_buffer does not return. */
    predicate Stuck()
      reads this`inbox, this`stdout, this`kept
      ensures Stuck() <==> inbox == [] || !Fits(State(), inbox[0])
    {
      inbox == [] || (inbox[0].Data? && kept + |stdout| + |inbox[0].bytes| > BUFFER_MAX)
    }

    constructor (opener: bool)
      ensures State() == NewPeer(opener) && inbox == [] && outbox == []
    {
      this.opener := opener;
      localWindow, remoteWindow, stdout, kept := 0, 0, [], 0;
      localEof, remoteEof := false, false;
      inbox, outbox := [], [];
      act, written, delivered := Closed, [], [];
    }

    method GrowWindow(minimum: Int32)
      modifies this`localWindow, this`outbox
      ensures State() == Grow(old(State()), minimum)
      ensures outbox == old(outbox) + [Adjust(GrowBy(minimum))]
    {
      var grant: Uint32 := if minimum > WINDOW_BASE then minimum else WINDOW_BASE;
      outbox := outbox + [Adjust(grant)];
      localWindow := ToUint32(localWindow + grant);
    }

    /** channel_handle: takes one packet off the wire and parses it. */
    method ParsePacket(ghost limit: nat)
      requires Readable(State(), inbox) && !Stuck() && !act.Closed? && (Waits(State()) || act.Idle?)
      modifies this`inbox, this`stdout, this`localWindow, this`remoteWindow, this`remoteEof
      ensures inbox == old(inbox)[1..] && Readable(State(), inbox)
      ensures TakeTurn(limit, old(State()), Receive, old(inbox)) == Some(Now())
      ensures remoteEof <==> old(remoteEof) || old(inbox)[0].Eof?
    {
      match inbox[0] {
        case Data(d) =>
          stdout := stdout + d;
          if |d| <= localWindow {
            localWindow := localWindow - |d|;
          } else {
            localWindow := 0;
          }
        case Adjust(n) => remoteWindow := ToUint32(remoteWindow + n);
        case Eof => remoteEof := true;
      }
      inbox := inbox[1..];
    }

    /** One round of a blocked call: parses a packet and records the turn. */
    method HandleOne(ghost limit: nat, ghost start: Turn, ghost xs: seq<Action>, ghost sent0: seq<Message>)
      returns (ghost ys: seq<Action>)
      requires Readable(State(), inbox) && !Stuck() && !act.Closed? && Waits(State())
      requires Reached(limit, start, xs, Now(), sent0, outbox)
      modifies this`inbox, this`stdout, this`localWindow, this`remoteWindow, this`remoteEof
      ensures |inbox| < |old(inbox)| && Readable(State(), inbox)
      ensures Reached(limit, start, ys, Now(), sent0, outbox)
    {
      ghost var t := Now();
      ParsePacket(limit);
      ys := Next(limit, start, xs, Receive, t, Now(), sent0, outbox, [], outbox);
    }

    method SendEndOfFile(ghost limit: nat)
      requires act.Idle?
      modifies this
      ensures TakeTurn(limit, old(State()), SendEof, old(inbox)) == Some(Turn(State(), inbox, [Eof]))
      ensures outbox == old(outbox) + [Eof]
    {
      outbox := outbox + [Eof];
      localEof := true;
    }

    /** One packet of a write: as much as the remote window takes. */
    method SendData(ghost limit: nat, rest: seq<Byte>) returns (n: nat)
      requires act == Writing(rest) && rest != [] && !WriteWaits(State())
      modifies this`outbox, this`remoteWindow, this`act
      ensures 0 < n <= |rest| && act == Writing(rest[n..]) && inbox == old(inbox)
      ensures outbox == old(outbox) + [Data(rest[..n])]
      ensures TakeTurn(limit, old(State()), SendChunk, inbox) == Some(Turn(State(), inbox, [Data(rest[..n])]))
    {
      n := if |rest| > remoteWindow then remoteWindow else |rest|;
      outbox := outbox + [Data(rest[..n])];
      remoteWindow := remoteWindow - n;
      act := Writing(rest[n..]);
    }

    /** The other round of a write: sends a packet and records the turn. */
    method SendSome(ghost limit: nat, rest: seq<Byte>, ghost start: Turn, ghost xs: seq<Action>, ghost sent0: seq<Message>)
      returns (left: seq<Byte>, ghost ys: seq<Action>)
      requires act == Writing(rest) && rest != [] && !WriteWaits(State())
      requires Reached(limit, start, xs, Now(), sent0, outbox)
      modifies this`outbox, this`remoteWindow, this`act
      ensures act == Writing(left) && |left| < |rest|
      ensures Reached(limit, start, ys, Now(), sent0, outbox)
      ensures DataOf(outbox[|sent0|..]) + left == DataOf(old(outbox)[|sent0|..]) + rest
    {
      ghost var t, out := Now(), outbox;
      var n := SendData(limit, rest);
      ys := Next(limit, start, xs, SendChunk, t, Now(), sent0, out, [Data(rest[..n])], outbox);
      MoreSent(sent0, out, rest, n);
      left := rest[n..];
    }

    /** Writes all of `data`, blocking while the remote window is 0. The queue `inbox`
        stands for the packets that will arrive: when a blocked call finds none it can take
        in, the call has not returned. */
    method Write(ghost limit: nat, data: seq<Byte>) returns (r: WriteResult, ghost xs: seq<Action>)
      requires act.Idle? && Readable(State(), inbox)
      modifies this
      ensures Reached(limit, old(Now()), xs, Now(), old(outbox), outbox)
      ensures r.WriteDenied? <==> old(localEof)
      ensures r.WriteDenied? ==> Now() == old(Now()) && outbox == old(outbox)
      ensures r.Wrote? ==> act.Idle? && r.n == |data|
      ensures r.WriteBlocked? ==> Waits(State()) && Stuck()
      ensures !r.WriteDenied? ==> DataOf(outbox[|old(outbox)|..]) + Unsent(State()) == data
    {
      ghost var start, sent0 := Now(), outbox;
      xs := [];
      NoTurnYet(limit, start, sent0);
      if localEof {
        return WriteDenied, xs;
      }
      written, act := written + data, Writing(data);
      xs := Next(limit, start, xs, StartWrite(data), start, Now(), sent0, outbox, [], outbox);
      var rest := data;
      while |rest| > 0
        invariant act == Writing(rest) && Readable(State(), inbox)
        invariant Reached(limit, start, xs, Now(), sent0, outbox)
        invariant DataOf(outbox[|sent0|..]) + rest == data
        decreases |rest|, |inbox|
      {
        if remoteWindow < |rest| && remoteWindow == 0 {
          if Stuck() {
            return WriteBlocked, xs;
          }
          xs := HandleOne(limit, start, xs, sent0);
        } else {
          rest, xs := SendSome(limit, rest, start, xs, sent0);
        }
      }
      xs := EndCall(limit, start, xs, sent0, EndWrite);
      r := Wrote(|data|);
    }

    /** The part of both read calls before their loop: widens the window when the whole
        count would not fit into it. */
    method BeginRead(ghost limit: nat, count: Uint32, exact: bool)
      requires act.Idle? && count <= limit && (exact || count > 0) && |stdout| <= BUFFER_MAX
      modifies this`localWindow, this`outbox, this`act
      ensures act == Reading(count, exact)
      ensures old(outbox) <= outbox
      ensures TakeTurn(limit, old(State()), StartRead(count, exact), inbox)
           == Some(Turn(State(), inbox, outbox[|old(outbox)|..]))
    {
      act := Reading(count, exact);
      assert Rest(State()) == |stdout| && outbox[|outbox|..] == [];
      if count > ToUint32(|stdout| + localWindow) {
        ghost var out := outbox;
        GrowWindow(ToInt32(count - |stdout|));
        assert outbox[|out|..] == [outbox[|out|]];
      }
    }

    /** buffer_pass_bytes on stdout_buffer. */
    method PassBytes(n: nat)
      requires n <= |stdout|
      modifies this`stdout, this`kept
      ensures stdout == old(stdout)[n..] && kept == if n == |old(stdout)| then 0 else old(kept) + n
    {
      stdout, kept := stdout[n..], kept + n;
      if stdout == [] {
        kept := 0;
      }
    }

    /** The part of both read calls after their loop. */
    method FinishRead(ghost limit: nat, count: Uint32, exact: bool) returns (bytes: seq<Byte>)
      requires act == Reading(count, exact) && (exact || count > 0) && |stdout| <= BUFFER_MAX
      requires !ReadWaits(State()) && !ReadReturnsZero(State())
      modifies this`localWindow, this`outbox, this`act, this`stdout, this`kept, this`delivered
      ensures bytes != [] && (count > 0 ==> |bytes| <= count)
      ensures exact && |bytes| < count ==> remoteEof
      ensures |bytes| < count || count == 0 ==> stdout == []
      ensures act.Idle? && old(outbox) <= outbox
      ensures bytes + stdout == old(stdout) && delivered == old(delivered) + bytes
      ensures TakeTurn(limit, old(State()), EndRead, inbox)
           == Some(Turn(State(), inbox, outbox[|old(outbox)|..]))
    {
      var n := if (exact && count == 0) || |stdout| <= count then |stdout| else count;
      ghost var out := outbox;
      assert outbox[|out|..] == [];
      if localWindow < WINDOW_LIMIT {
        GrowWindow(0);
        assert outbox[|out|..] == [outbox[|out|]];
      }
      bytes := stdout[..n];
      if exact && count == 0 {
        stdout, kept := [], 0;
      } else {
        PassBytes(n);
      }
      delivered, act := delivered + bytes, Idle;
    }

    /** The loop of both read calls, which differ in its condition: false when it is stuck
        first. */
    method AwaitBytes(ghost limit: nat, count: Uint32, exact: bool,
                      ghost start: Turn, ghost xs0: seq<Action>, ghost sent0: seq<Message>)
      returns (done: bool, ghost xs: seq<Action>)
      requires act == Reading(count, exact) && (exact || count > 0) && Readable(State(), inbox)
      requires Reached(limit, start, xs0, Now(), sent0, outbox)
      modifies this`inbox, this`stdout, this`localWindow, this`remoteWindow, this`remoteEof
      ensures act == Reading(count, exact) && Readable(State(), inbox)
      ensures Reached(limit, start, xs, Now(), sent0, outbox)
      ensures if done then !ReadWaits(State()) else Waits(State()) && Stuck()
    {
      xs := xs0;
      var maxRead := if exact && count == 0 then MAX_PACKET_LEN else count;
      while if exact then |stdout| == 0 || |stdout| < count else |stdout| == 0 && count > 0
        invariant act == Reading(count, exact) && Readable(State(), inbox)
        invariant Reached(limit, start, xs, Now(), sent0, outbox)
        decreases |inbox|
      {
        if remoteEof && |stdout| == 0 {
          return true, xs;
        }
        if remoteEof {
          break;
        }
        if |stdout| >= maxRead {
          break;
        }
        if Stuck() {
          return false, xs;
        }
        xs := HandleOne(limit, start, xs, sent0);
      }
      done := true;
    }

    /** channel_read_buffer (`exact`) and channel_read. A result shorter than the count leaves
        nothing buffered, and if the count is exact it comes only at end of file; a call does
        not block with an end of file parsed, or with enough octets. */
    method Read(ghost limit: nat, count: Uint32, exact: bool) returns (r: ReadResult, ghost xs: seq<Action>)
      requires act.Idle? && count <= limit && Readable(State(), inbox)
      modifies this
      ensures Reached(limit, old(Now()), xs, Now(), old(outbox), outbox)
      ensures r.ReadBlocked? ==> Waits(State()) && Stuck()
      ensures r.ReadBlocked? ==> act == Reading(count, exact) && !remoteEof && TooFew(State())
      ensures r.EndOfFile? ==> act.Idle? && remoteEof && stdout == [] && delivered == old(delivered)
      ensures r.Got? ==> act.Idle? && delivered == old(delivered) + r.bytes
      ensures r.Got? && count > 0 ==> 0 < |r.bytes| <= count
      ensures r.Got? && count == 0 ==> (exact <==> r.bytes != [])
      ensures count == 0 && !exact ==> r.Got? && Now() == old(Now()) && outbox == old(outbox)
      ensures r.Got? && exact && |r.bytes| < count ==> remoteEof
      ensures r.Got? && (|r.bytes| < count || (exact && count == 0)) ==> stdout == []
    {
      ghost var start, sent0 := Now(), outbox;
      NoTurnYet(limit, start, sent0);
      if count == 0 && !exact {
        return Got([]), [];
      }
      BeginRead(limit, count, exact);
      xs := Next(limit, start, [], StartRead(count, exact), start, Now(), sent0, sent0, outbox[|sent0|..], outbox);
      var done;
      done, xs := AwaitBytes(limit, count, exact, start, xs, sent0);
      if !done {
        WaitsForMore(State());
        return ReadBlocked, xs;
      }
      r, xs := EndOfRead(limit, count, exact, start, xs, sent0);
    }

    /** What both calls do behind the loop. */
    method EndOfRead(ghost limit: nat, count: Uint32, exact: bool,
                     ghost start: Turn, ghost xs0: seq<Action>, ghost sent0: seq<Message>)
      returns (r: ReadResult, ghost xs: seq<Action>)
      requires act == Reading(count, exact) && (exact || count > 0) && Readable(State(), inbox)
      requires !ReadWaits(State()) && Reached(limit, start, xs0, Now(), sent0, outbox)
      modifies this`localWindow, this`outbox, this`act, this`stdout, this`kept, this`delivered
      ensures !r.ReadBlocked? && act.Idle? && Reached(limit, start, xs, Now(), sent0, outbox)
      ensures r.EndOfFile? ==> remoteEof && stdout == [] && delivered == old(delivered)
      ensures r.Got? ==> r.bytes != [] && delivered == old(delivered) + r.bytes
      ensures r.Got? && count > 0 ==> |r.bytes| <= count
      ensures r.Got? && exact && |r.bytes| < count ==> remoteEof
      ensures r.Got? && (|r.bytes| < count || count == 0) ==> stdout == []
    {
      xs := xs0;
      ZeroAtEnd(State());
      if remoteEof && |stdout| == 0 {
        xs := EndCall(limit, start, xs, sent0, EndReadAtEof);
        return EndOfFile, xs;
      }
      ghost var t, out := Now(), outbox;
      var bytes := FinishRead(limit, count, exact);
      xs := Next(limit, start, xs, EndRead, t, Now(), sent0, out, outbox[|out|..], outbox);
      r := Got(bytes);
    }

    /** The call returns without another effect. */
    ghost method EndCall(limit: nat, start: Turn, xs: seq<Action>, sent0: seq<Message>, x: Action)
      returns (ys: seq<Action>)
      requires x.EndWrite? || x.EndReadAtEof?
      requires TakeTurn(limit, State(), x, inbox).Some?
      requires Reached(limit, start, xs, Now(), sent0, outbox)
      modifies this`act
      ensures act.Idle? && Reached(limit, start, ys, Now(), sent0, outbox)
    {
      ghost var t := Now();
      act := Idle;
      ys := Next(limit, start, xs, x, t, Now(), sent0, outbox, [], outbox);
    }
  }

  lemma WaitsForMore(p: Peer)
    requires p.act.Reading? && Waits(p) && Used(p) <= BUFFER_MAX
    ensures !p.remoteEof && TooFew(p)
  {
    assert Rest(p) == |p.buffered|;
  }

  lemma ZeroAtEnd(p: Peer)
    requires p.act.Reading? && (p.act.exact || p.act.count > 0) && |p.buffered| <= BUFFER_MAX
    ensures ReadReturnsZero(p) <==> p.remoteEof && p.buffered == []
  {
  }

  lemma MoreSent(sent0: seq<Message>, out: seq<Message>, rest: seq<Byte>, n: nat)
    requires sent0 <= out && n <= |rest|
    ensures var out' := out + [Data(rest[..n])];
      sent0 <= out' && DataOf(out'[|sent0|..]) + rest[n..] == DataOf(out[|sent0|..]) + rest
  {
    var out' := out + [Data(rest[..n])];
    assert out'[|sent0|..] == out[|sent0|..] + [Data(rest[..n])];
    AppendOne(out[|sent0|..], Data(rest[..n]));
    assert rest == rest[..n] + rest[n..];
    assert DataOf(out[|sent0|..]) + rest[..n] + rest[n..] == DataOf(out[|sent0|..]) + (rest[..n] + rest[n..]);
  }

  /** The turns `xs` lead from `start` to `t`, with everything after `sent0` sent. */
  ghost predicate Reached(limit: nat, start: Turn, xs: seq<Action>, t: Turn, sent0: seq<Message>, out: seq<Message>) {
    sent0 <= out && t.sent == [] && Turns(limit, start, xs) == Some(t.(sent := out[|sent0|..]))
  }

  lemma NoTurnYet(limit: nat, start: Turn, out: seq<Message>)
    requires start.sent == []
    ensures Reached(limit, start, [], start, out, out)
  {
    assert out[|out|..] == [];
  }

  /** Records one more turn. */
  lemma Next(limit: nat, start: Turn, xs: seq<Action>, x: Action, t: Turn, u: Turn,
             sent0: seq<Message>, out: seq<Message>, sent: seq<Message>, out': seq<Message>)
    returns (ys: seq<Action>)
    requires Reached(limit, start, xs, t, sent0, out) && u.sent == [] && out' == out + sent
    requires TakeTurn(limit, t.peer, x, t.inbox) == Some(u.(sent := sent))
    ensures ys == xs + [x] && Reached(limit, start, ys, u, sent0, out')
  {
    ys := xs + [x];
    OneMoreTurn(limit, start, xs, t.(sent := out[|sent0|..]), x, u.(sent := sent));
    assert out'[|sent0|..] == out[|sent0|..] + sent;
  }
}

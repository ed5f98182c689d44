/** What every run of two peers keeps: window credit is conserved, no byte is lost,
    duplicated or reordered, and end of file is the end. */
module ChannelSafety {
  import opened Bytes
  import opened ChannelFlow

  /** The data bytes on their way in one direction. */
  ghost function DataOf(q: seq<Message>): seq<Byte> {
    if q == [] then [] else (if q[0].Data? then q[0].bytes else []) + DataOf(q[1..])
  }

  /** The window bytes on their way in one direction: the initial windows of the
      opening handshake and every later WINDOW_ADJUST. */
  ghost function CreditOf(q: seq<Message>): nat {
    if q == [] then 0 else Credit(q[0]) + CreditOf(q[1..])
  }

  ghost function Credit(m: Message): nat {
    match m
    case Open(w) => w
    case Confirm(w) => w
    case Adjust(n) => n
    case Data(_) => 0
    case Eof => 0
  }

  ghost function Unsent(p: Peer): seq<Byte> {
    if p.act.Writing? then p.act.rest else []
  }

  // ----- the invariant of one stream, from writer `w` to reader `r` -----

  ghost predicate Conserves(w: Peer, r: Peer, fwd: seq<Message>, back: seq<Message>) {
    w.remoteWindow + |DataOf(fwd)| + CreditOf(back) == r.localWindow
  }

  ghost predicate Intact(w: Peer, r: Peer, fwd: seq<Message>) {
    r.delivered + r.buffered + DataOf(fwd) + Unsent(w) == w.written
  }

  ghost predicate HasEof(q: seq<Message>) {
    exists i :: 0 <= i < |q| && q[i].Eof?
  }

  ghost predicate NoData(q: seq<Message>) {
    forall i :: 0 <= i < |q| ==> !q[i].Data?
  }

  ghost predicate Orderly(w: Peer, r: Peer, fwd: seq<Message>) {
    && (HasEof(fwd) || r.remoteEof <==> w.localEof)
    && (w.localEof ==> Unsent(w) == [])
    && (r.remoteEof ==> NoData(fwd))
    && (forall i, j :: 0 <= i < j < |fwd| && fwd[i].Eof? ==> !fwd[j].Data?)
  }

  /** The largest window a reader ever grants. */
  ghost function WindowBound(limit: nat): nat { 2 * Max(limit, WINDOW_BASE) }

  /** Buffered bytes and open window together, the credit a reader has given and not
      yet taken back: never nothing, and enough for the read in progress. */
  ghost predicate Granted(limit: nat, r: Peer) {
    && Used(r) <= BUFFER_MAX && r.kept <= |r.delivered| && (r.buffered == [] ==> r.kept == 0)
    && (!r.act.Closed? ==> ACCEPT_WINDOW <= |r.buffered| + r.localWindow)
    && (r.localWindow <= WINDOW_LIMIT + WINDOW_BASE
        || |r.buffered| + r.localWindow <= WindowBound(limit))
    && (r.act.Reading? ==>
          r.act.count <= limit && r.act.count <= |r.buffered| + r.localWindow
          && (r.act.exact || r.act.count > 0))
  }

  ghost predicate Fresh(p: Peer) {
    && (p.act.Closed? ==> p.localWindow == 0 && p.remoteWindow == 0 && p.buffered == [])
    && (p.act.Opening? ==> p.opener && p.remoteWindow == 0)
  }

  ghost predicate Stream(limit: nat, w: Peer, r: Peer, fwd: seq<Message>, back: seq<Message>) {
    && Conserves(w, r, fwd, back)
    && Intact(w, r, fwd)
    && Orderly(w, r, fwd)
    && Granted(limit, r)
    && Fresh(w) && Fresh(r)
  }

  ghost predicate Plain(q: seq<Message>) {
    forall i :: 0 <= i < |q| ==> !q[i].Open? && !q[i].Confirm?
  }

  /** How far the opening handshake has come. */
  ghost predicate Handshake(s: Net) {
    && s.a.opener && !s.b.opener
    && (
         || (s.a.act.Closed? && s.b.act.Closed? && s.ab == [] && s.ba == [])
         || (s.a.act.Opening? && s.b.act.Closed? && s.ab == [Open(OPEN_WINDOW)] && s.ba == [])
         || (s.a.act.Opening? && !s.b.act.Closed? && !s.b.act.Opening? && s.ab == []
             && s.ba != [] && s.ba[0].Confirm? && Plain(s.ba[1..]))
         || (!s.a.act.Closed? && !s.a.act.Opening? && !s.b.act.Closed? && !s.b.act.Opening?
             && Plain(s.ab) && Plain(s.ba)))
  }

  ghost predicate Invariant(limit: nat, s: Net) {
    && Handshake(s)
    && Stream(limit, s.a, s.b, s.ab, s.ba)
    && Stream(limit, s.b, s.a, s.ba, s.ab)
  }

  // ----- queues -----

  lemma {:induction false} AppendOne(q: seq<Message>, m: Message)
    ensures DataOf(q + [m]) == DataOf(q) + (if m.Data? then m.bytes else [])
    ensures CreditOf(q + [m]) == CreditOf(q) + Credit(m)
  {
    if q == [] {
      assert q + [m] == [m];
      assert DataOf([m]) == (if m.Data? then m.bytes else []) + DataOf([]);
    } else {
      AppendOne(q[1..], m);
      assert (q + [m])[1..] == q[1..] + [m];
      var first := if q[0].Data? then q[0].bytes else [];
      var last := if m.Data? then m.bytes else [];
      assert first + (DataOf(q[1..]) + last) == first + DataOf(q[1..]) + last;
    }
  }

  lemma AppendSent(q: seq<Message>, sent: seq<Message>)
    requires |sent| <= 1
    ensures DataOf(q + sent) == DataOf(q) + DataOf(sent)
    ensures CreditOf(q + sent) == CreditOf(q) + CreditOf(sent)
  {
    if sent == [] {
      assert q + sent == q;
    } else {
      assert sent == [sent[0]];
      AppendOne(q, sent[0]);
      assert sent[1..] == [];
    }
  }

  lemma {:induction false} NoDataMeansEmpty(q: seq<Message>)
    requires NoData(q)
    ensures DataOf(q) == []
  {
    if q != [] {
      NoDataMeansEmpty(q[1..]);
    }
  }

  // ----- the writer's turn keeps its stream -----

  /** Before the confirmation arrives, nothing else does. */
  ghost predicate ConfirmFirst(p: Peer, inbox: seq<Message>) {
    p.act.Opening? && inbox != [] ==> inbox[0].Confirm?
  }

  lemma WriterReceives(w: Peer, r: Peer, fwd: seq<Message>, back: seq<Message>)
    requires Conserves(w, r, fwd, back) && Fresh(w) && ConfirmFirst(w, back)
    requires back != [] && Accepts(w, back[0])
    ensures Fresh(Handle(w, back[0]))
    ensures Handle(w, back[0]).remoteWindow == w.remoteWindow + Credit(back[0])
  {
    if back[0].Adjust? {
      assert w.remoteWindow + back[0].grant <= r.localWindow < U32;
    }
  }

  lemma WriterConserves(limit: nat, w: Peer, r: Peer, fwd: seq<Message>, back: seq<Message>, x: Action, t: Turn)
    requires Conserves(w, r, fwd, back) && Fresh(w) && ConfirmFirst(w, back)
    requires TakeTurn(limit, w, x, back) == Some(t)
    ensures Conserves(t.peer, r, fwd + t.sent, t.inbox) && Fresh(t.peer)
  {
    AppendSent(fwd, t.sent);
    if x.Receive? {
      WriterReceives(w, r, fwd, back);
    }
    if t.sent != [] {
      assert t.sent[1..] == [];
      assert DataOf(t.sent) == (if t.sent[0].Data? then t.sent[0].bytes else []) + [];
    }
  }

  lemma WriterIntact(limit: nat, w: Peer, r: Peer, fwd: seq<Message>, back: seq<Message>, x: Action, t: Turn)
    requires Intact(w, r, fwd)
    requires TakeTurn(limit, w, x, back) == Some(t)
    ensures Intact(t.peer, r, fwd + t.sent)
  {
    var more := BytesOfTurn(limit, w, back, x, t);
    IntactAfter(w, t.peer, r, fwd, t.sent, more);
  }

  /** The bytes a turn sends leave the front of those not yet sent; a new write adds `more`. */
  lemma BytesOfTurn(limit: nat, w: Peer, back: seq<Message>, x: Action, t: Turn) returns (more: seq<Byte>)
    requires TakeTurn(limit, w, x, back) == Some(t)
    ensures |t.sent| <= 1 && t.peer.written == w.written + more
    ensures DataOf(t.sent) + Unsent(t.peer) == Unsent(w) + more
  {
    if x.SendChunk? {
      more := [];
      ChunkOfTurn(limit, w, back, t);
    } else if x.StartWrite? {
      more := x.data;
      assert t.sent == [] && Unsent(w) == [] && [] + more == more;
    } else {
      more := [];
      NoBytesOfTurn(limit, w, back, x, t);
    }
  }

  lemma ChunkOfTurn(limit: nat, w: Peer, back: seq<Message>, t: Turn)
    requires TakeTurn(limit, w, SendChunk, back) == Some(t)
    ensures |t.sent| == 1 && t.peer.written == w.written
    ensures DataOf(t.sent) + Unsent(t.peer) == Unsent(w)
  {
    var n := ChunkLength(w);
    DataOfOne(w.act.rest[..n]);
    assert w.act.rest == w.act.rest[..n] + w.act.rest[n..];
  }

  lemma NoBytesOfTurn(limit: nat, w: Peer, back: seq<Message>, x: Action, t: Turn)
    requires !x.SendChunk? && !x.StartWrite? && TakeTurn(limit, w, x, back) == Some(t)
    ensures |t.sent| <= 1 && t.peer.written == w.written
    ensures DataOf(t.sent) == [] && Unsent(t.peer) == Unsent(w)
  {
  }

  lemma DataOfOne(bytes: seq<Byte>)
    ensures DataOf([Data(bytes)]) == bytes
  {
    assert [Data(bytes)][1..] == [];
  }

  lemma IntactAfter(w: Peer, w': Peer, r: Peer, fwd: seq<Message>, sent: seq<Message>, more: seq<Byte>)
    requires Intact(w, r, fwd) && w'.written == w.written + more && |sent| <= 1
    requires DataOf(sent) + Unsent(w') == Unsent(w) + more
    ensures Intact(w', r, fwd + sent)
  {
    AppendSent(fwd, sent);
    Regroup(r.delivered + r.buffered, DataOf(fwd), DataOf(sent), Unsent(w'), Unsent(w), more);
  }

  lemma Regroup<T>(a: seq<T>, b: seq<T>, c: seq<T>, d: seq<T>, e: seq<T>, f: seq<T>)
    requires c + d == e + f
    ensures a + (b + c) + d == a + b + e + f
  {
    assert a + (b + c) + d == a + b + (c + d);
    assert a + b + (e + f) == a + b + e + f;
  }

  lemma WriterOrderly(limit: nat, w: Peer, r: Peer, fwd: seq<Message>, back: seq<Message>, x: Action, t: Turn)
    requires Orderly(w, r, fwd)
    requires TakeTurn(limit, w, x, back) == Some(t)
    ensures Orderly(t.peer, r, fwd + t.sent)
  {
    EofSent(fwd, t.sent);
  }

  lemma EofSent(q: seq<Message>, sent: seq<Message>)
    requires |sent| <= 1
    ensures HasEof(q + sent) <==> HasEof(q) || (sent != [] && sent[0].Eof?)
  {
    if i :| 0 <= i < |q| && q[i].Eof? {
      assert (q + sent)[i].Eof?;
    }
    if sent != [] && sent[0].Eof? {
      assert (q + sent)[|q|].Eof?;
    }
  }

  lemma EofTakenOff(q: seq<Message>)
    requires q != []
    ensures HasEof(q) <==> q[0].Eof? || HasEof(q[1..])
  {
    if i :| 0 < i < |q| && q[i].Eof? {
      assert q[1..][i - 1].Eof?;
    }
  }

  lemma WriterKeepsStream(limit: nat, w: Peer, r: Peer, fwd: seq<Message>, back: seq<Message>, x: Action, t: Turn)
    requires Stream(limit, w, r, fwd, back) && ConfirmFirst(w, back)
    requires TakeTurn(limit, w, x, back) == Some(t)
    ensures Stream(limit, t.peer, r, fwd + t.sent, t.inbox)
  {
    WriterConserves(limit, w, r, fwd, back, x, t);
    WriterIntact(limit, w, r, fwd, back, x, t);
    WriterOrderly(limit, w, r, fwd, back, x, t);
  }

  // ----- the reader's turn keeps its stream -----

  /** The packet at the head of the queue never exceeds the open window, so the
      clamp for a remote that ignores the window is not taken. */
  lemma HeadFitsWindow(w: Peer, r: Peer, fwd: seq<Message>, back: seq<Message>)
    requires Conserves(w, r, fwd, back) && fwd != [] && fwd[0].Data?
    ensures |fwd[0].bytes| <= r.localWindow
  {
  }

  /** No sum of the reader's code wraps. */
  lemma SumsAreExact(limit: nat, r: Peer)
    requires limit < INT32_LIMIT && Granted(limit, r)
    ensures Rest(r) == |r.buffered|
    ensures ToUint32(Rest(r) + r.localWindow) == |r.buffered| + r.localWindow
  {
    assert |r.buffered| + r.localWindow < U32;
  }

  lemma GrowExact(r: Peer, need: int)
    requires 0 <= need < INT32_LIMIT
    requires r.localWindow + Max(need, WINDOW_BASE) < U32
    ensures ToInt32(need) == need && GrowBy(need) == Max(need, WINDOW_BASE)
    ensures Grow(r, need) == r.(localWindow := r.localWindow + Max(need, WINDOW_BASE))
  {
  }

  lemma StartReadKeeps(limit: nat, r: Peer, fwd: seq<Message>, x: Action, t: Turn)
    requires limit < INT32_LIMIT && Granted(limit, r)
    requires x.StartRead? && TakeTurn(limit, r, x, fwd) == Some(t)
    ensures Granted(limit, t.peer)
    ensures t.peer.localWindow == r.localWindow + CreditOf(t.sent)
  {
    SumsAreExact(limit, r);
    if MustGrow(r, x.count) {
      GrowExact(r.(act := Reading(x.count, x.exact)), x.count - |r.buffered|);
      assert CreditOf(t.sent) == Credit(t.sent[0]) + CreditOf([]);
    }
  }

  lemma EndReadKeeps(limit: nat, r: Peer, fwd: seq<Message>, x: Action, t: Turn)
    requires limit < INT32_LIMIT && Granted(limit, r) && Fresh(r)
    requires x.EndRead? && TakeTurn(limit, r, x, fwd) == Some(t)
    ensures Granted(limit, t.peer)
    ensures t.peer.localWindow == r.localWindow + CreditOf(t.sent)
    ensures t.peer.delivered + t.peer.buffered == r.delivered + r.buffered
  {
    var n := ReadLength(r);
    assert r.buffered == r.buffered[..n] + r.buffered[n..];
    assert r.delivered + r.buffered[..n] + r.buffered[n..] == r.delivered + r.buffered;
    if r.localWindow < WINDOW_LIMIT {
      assert t.sent[1..] == [];
    }
  }

  lemma ReceiveKeeps(limit: nat, w: Peer, r: Peer, fwd: seq<Message>, back: seq<Message>, t: Turn)
    requires Conserves(w, r, fwd, back) && Granted(limit, r) && Fresh(r)
    requires TakeTurn(limit, r, Receive, fwd) == Some(t)
    ensures Granted(limit, t.peer)
    ensures t.peer.localWindow + |DataOf(fwd)| == r.localWindow + |DataOf(t.inbox)| + CreditOf(t.sent)
    ensures t.peer.buffered + DataOf(t.inbox) == r.buffered + DataOf(fwd)
  {
    if fwd[0].Data? {
      HeadFitsWindow(w, r, fwd, back);
      DataTakenIn(limit, r, fwd[0].bytes, t.peer);
      TakenIn(r.buffered, fwd[0].bytes, DataOf(fwd[1..]));
    } else {
      OtherPacketTakenIn(limit, r, fwd, t);
    }
  }

  lemma OtherPacketTakenIn(limit: nat, r: Peer, fwd: seq<Message>, t: Turn)
    requires Granted(limit, r) && Fresh(r)
    requires TakeTurn(limit, r, Receive, fwd) == Some(t) && !fwd[0].Data?
    ensures Granted(limit, t.peer) && t.peer.buffered == r.buffered && t.inbox == fwd[1..]
    ensures t.peer.localWindow == r.localWindow + CreditOf(t.sent) && DataOf(fwd) == DataOf(t.inbox)
  {
    assert DataOf(fwd) == [] + DataOf(fwd[1..]);
    if t.sent != [] {
      assert t.sent[1..] == [];
    }
  }

  lemma DataTakenIn(limit: nat, r: Peer, d: seq<Byte>, q: Peer)
    requires Granted(limit, r) && Fits(r, Data(d)) && |d| <= r.localWindow
    requires q == Handle(r, Data(d))
    ensures Granted(limit, q) && q.localWindow == r.localWindow - |d| && q.buffered == r.buffered + d
  {
  }

  lemma TakenIn<T>(a: seq<T>, b: seq<T>, c: seq<T>)
    ensures a + b + c == a + (b + c) && |b + c| == |b| + |c|
  {
  }

  lemma ReaderOrderly(limit: nat, w: Peer, r: Peer, fwd: seq<Message>, x: Action, t: Turn)
    requires Orderly(w, r, fwd)
    requires TakeTurn(limit, r, x, fwd) == Some(t)
    ensures Orderly(w, t.peer, t.inbox)
  {
    if x.Receive? {
      EofTakenOff(fwd);
      assert forall i :: 0 <= i < |t.inbox| ==> t.inbox[i] == fwd[i + 1];
      if fwd[0].Eof? {
        assert HasEof(fwd);
        assert forall i :: 0 < i < |fwd| ==> !fwd[i].Data?;
      }
    }
  }

  lemma ReaderKeepsStream(limit: nat, w: Peer, r: Peer, fwd: seq<Message>, back: seq<Message>, x: Action, t: Turn)
    requires limit < INT32_LIMIT
    requires Stream(limit, w, r, fwd, back) && Conserves(r, w, back, fwd) && ConfirmFirst(r, fwd)
    requires TakeTurn(limit, r, x, fwd) == Some(t)
    ensures Stream(limit, w, t.peer, t.inbox, back + t.sent)
  {
    AppendSent(back, t.sent);
    ReaderOrderly(limit, w, r, fwd, x, t);
    ReaderBooks(limit, w, r, fwd, back, x, t);
    assert t.peer.delivered + t.peer.buffered + DataOf(t.inbox) + Unsent(w) == w.written;
  }

  /** The reader's side of the balance: what it grants it books, what it takes in it
      keeps in order. */
  lemma ReaderBooks(limit: nat, w: Peer, r: Peer, fwd: seq<Message>, back: seq<Message>, x: Action, t: Turn)
    requires limit < INT32_LIMIT
    requires Conserves(w, r, fwd, back) && Conserves(r, w, back, fwd)
    requires Granted(limit, r) && Fresh(r) && ConfirmFirst(r, fwd)
    requires TakeTurn(limit, r, x, fwd) == Some(t)
    ensures Granted(limit, t.peer) && Fresh(t.peer)
    ensures t.peer.localWindow + |DataOf(fwd)| == r.localWindow + |DataOf(t.inbox)| + CreditOf(t.sent)
    ensures t.peer.delivered + t.peer.buffered + DataOf(t.inbox) == r.delivered + r.buffered + DataOf(fwd)
  {
    if x.StartRead? {
      StartReadKeeps(limit, r, fwd, x, t);
    } else if x.EndRead? {
      EndReadKeeps(limit, r, fwd, x, t);
    } else if x.Receive? {
      ReceiveKeeps(limit, w, r, fwd, back, t);
      WriterReceives(r, w, back, fwd);
      ReceivedInOrder(r.delivered, r.buffered, DataOf(fwd), t.peer.buffered, DataOf(t.inbox));
    } else {
      OtherTurnsKeep(limit, r, fwd, x, t);
    }
  }

  lemma ReceivedInOrder(done: seq<Byte>, kept: seq<Byte>, coming: seq<Byte>, kept': seq<Byte>, coming': seq<Byte>)
    requires kept' + coming' == kept + coming
    ensures done + kept' + coming' == done + kept + coming
  {
    assert done + kept' + coming' == done + (kept' + coming');
    assert done + kept + coming == done + (kept + coming);
  }

  lemma OtherTurnsKeep(limit: nat, r: Peer, fwd: seq<Message>, x: Action, t: Turn)
    requires Granted(limit, r) && Fresh(r)
    requires !x.StartRead? && !x.EndRead? && !x.Receive?
    requires TakeTurn(limit, r, x, fwd) == Some(t)
    ensures Granted(limit, t.peer) && Fresh(t.peer) && t.inbox == fwd
    ensures t.peer.localWindow == r.localWindow + CreditOf(t.sent)
    ensures t.peer.delivered == r.delivered && t.peer.buffered == r.buffered
  {
    if t.sent != [] {
      assert CreditOf(t.sent) == Credit(t.sent[0]) + CreditOf([]);
    }
  }

  // ----- the bytes alone, however large the reads -----

  /** Unlike the windows, which wrap for reads of 2^31 and more, the bytes stay in order
      whatever the limit is. */
  ghost predicate Ordered(w: Peer, r: Peer, fwd: seq<Message>) {
    && Intact(w, r, fwd) && Orderly(w, r, fwd)
    && r.kept <= |r.delivered| && Used(r) <= BUFFER_MAX
    && (r.act.Reading? ==> r.act.exact || r.act.count > 0)
  }

  lemma ReaderOrdered(limit: nat, w: Peer, r: Peer, fwd: seq<Message>, x: Action, t: Turn)
    requires Ordered(w, r, fwd)
    requires TakeTurn(limit, r, x, fwd) == Some(t)
    ensures Ordered(w, t.peer, t.inbox)
  {
    ReaderOrderly(limit, w, r, fwd, x, t);
    if x.Receive? {
      BytesTakenIn(limit, r, fwd, t);
      ReceivedInOrder(r.delivered, r.buffered, DataOf(fwd), t.peer.buffered, DataOf(t.inbox));
    } else if x.EndRead? {
      BytesHandedOver(limit, r, fwd, t);
    } else {
      NoBytesRead(limit, r, fwd, x, t);
    }
  }

  lemma BytesTakenIn(limit: nat, r: Peer, fwd: seq<Message>, t: Turn)
    requires TakeTurn(limit, r, Receive, fwd) == Some(t)
    ensures t.peer.buffered + DataOf(t.inbox) == r.buffered + DataOf(fwd)
    ensures t.peer.delivered == r.delivered && t.peer.kept == r.kept
    ensures !t.peer.act.Reading? || t.peer.act == r.act
    ensures Used(r) <= BUFFER_MAX ==> Used(t.peer) <= BUFFER_MAX
  {
    if fwd[0].Data? {
      TakenIn(r.buffered, fwd[0].bytes, DataOf(fwd[1..]));
    } else {
      assert DataOf(fwd) == [] + DataOf(fwd[1..]);
    }
  }

  lemma BytesHandedOver(limit: nat, r: Peer, fwd: seq<Message>, t: Turn)
    requires TakeTurn(limit, r, EndRead, fwd) == Some(t) && r.kept <= |r.delivered|
    ensures t.peer.delivered + t.peer.buffered == r.delivered + r.buffered && t.inbox == fwd
    ensures t.peer.kept <= |t.peer.delivered| && Used(t.peer) <= Used(r) && t.peer.act.Idle?
  {
    var n := ReadLength(r);
    assert r.buffered == r.buffered[..n] + r.buffered[n..];
    assert r.delivered + r.buffered[..n] + r.buffered[n..] == r.delivered + r.buffered;
  }

  lemma NoBytesRead(limit: nat, r: Peer, fwd: seq<Message>, x: Action, t: Turn)
    requires TakeTurn(limit, r, x, fwd) == Some(t) && !x.Receive? && !x.EndRead?
    ensures t.peer.delivered == r.delivered && t.peer.buffered == r.buffered && t.peer.kept == r.kept && t.inbox == fwd
    ensures t.peer.act.Reading? ==> t.peer.act.exact || t.peer.act.count > 0
  {
  }

  lemma WriterOrdered(limit: nat, w: Peer, r: Peer, fwd: seq<Message>, back: seq<Message>, x: Action, t: Turn)
    requires Ordered(w, r, fwd)
    requires TakeTurn(limit, w, x, back) == Some(t)
    ensures Ordered(t.peer, r, fwd + t.sent)
  {
    WriterIntact(limit, w, r, fwd, back, x, t);
    WriterOrderly(limit, w, r, fwd, back, x, t);
  }

  lemma StepKeepsOrder(limit: nat, s: Net, m: Move)
    requires Step(limit, s, m).Some?
    requires Ordered(s.a, s.b, s.ab) && Ordered(s.b, s.a, s.ba)
    ensures var t := Step(limit, s, m).value; Ordered(t.a, t.b, t.ab) && Ordered(t.b, t.a, t.ba)
  {
    if m.byOpener {
      var t := TakeTurn(limit, s.a, m.action, s.ba).value;
      WriterOrdered(limit, s.a, s.b, s.ab, s.ba, m.action, t);
      ReaderOrdered(limit, s.b, s.a, s.ba, m.action, t);
    } else {
      var t := TakeTurn(limit, s.b, m.action, s.ab).value;
      WriterOrdered(limit, s.b, s.a, s.ba, s.ab, m.action, t);
      ReaderOrdered(limit, s.a, s.b, s.ab, m.action, t);
    }
  }

  lemma {:induction false} RunKeepsOrder(limit: nat, moves: seq<Move>)
    requires Run(limit, moves).Some?
    ensures var s := Run(limit, moves).value;
      Ordered(s.a, s.b, s.ab) && Ordered(s.b, s.a, s.ba) && Handshake(s)
    decreases |moves|
  {
    if moves != [] {
      var before := moves[..|moves| - 1];
      RunKeepsOrder(limit, before);
      StepKeepsOrder(limit, Run(limit, before).value, moves[|moves| - 1]);
      HandshakeStep(limit, Run(limit, before).value, moves[|moves| - 1]);
    }
  }

  // ----- the handshake -----

  lemma HandshakeStep(limit: nat, s: Net, m: Move)
    requires Handshake(s) && Step(limit, s, m).Some?
    ensures Handshake(Step(limit, s, m).value)
  {
    var t := Step(limit, s, m).value;
    if m.action.Receive? {
      assert m.byOpener ==> t.ba == s.ba[1..];
      assert !m.byOpener ==> t.ab == s.ab[1..];
    }
  }

  lemma StepKeepsInvariant(limit: nat, s: Net, m: Move)
    requires limit < INT32_LIMIT
    requires Invariant(limit, s) && Step(limit, s, m).Some?
    ensures Invariant(limit, Step(limit, s, m).value)
  {
    HandshakeStep(limit, s, m);
    if m.byOpener {
      var t := TakeTurn(limit, s.a, m.action, s.ba).value;
      WriterKeepsStream(limit, s.a, s.b, s.ab, s.ba, m.action, t);
      ReaderKeepsStream(limit, s.b, s.a, s.ba, s.ab, m.action, t);
    } else {
      var t := TakeTurn(limit, s.b, m.action, s.ab).value;
      WriterKeepsStream(limit, s.b, s.a, s.ba, s.ab, m.action, t);
      ReaderKeepsStream(limit, s.a, s.b, s.ab, s.ba, m.action, t);
    }
  }

  lemma {:induction false} RunKeepsInvariant(limit: nat, moves: seq<Move>)
    requires limit < INT32_LIMIT && Run(limit, moves).Some?
    ensures Invariant(limit, Run(limit, moves).value)
    decreases |moves|
  {
    if moves != [] {
      var before := moves[..|moves| - 1];
      RunKeepsInvariant(limit, before);
      StepKeepsInvariant(limit, Run(limit, before).value, moves[|moves| - 1]);
    }
  }
}

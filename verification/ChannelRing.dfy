/** The registry of a session's channels: a circular doubly linked list on the heap
    (libssh/channels.c: channel_new, channel_free, ssh_channel_from_local,
    ssh_channel_new_id). */
module ChannelRing {
  import opened Bytes

  const FIRST_CHANNEL: Uint32 := 42

  class Node {
    var prev: Node?
    var next: Node?
    var localChannel: Uint32

    constructor ()
      ensures localChannel == 0
    {
      prev, next, localChannel := null, null, 0;
    }
  }

  /** The neighbours of a position on a circle of `n`. */
  function Up(i: int, n: int): int { if i == n - 1 then 0 else i + 1 }

  function Down(i: int, n: int): int { if i == 0 then n - 1 else i - 1 }

  /** Ids come from the counter and no two members share one; 0 is a channel that has
      not been numbered yet. */
  ghost predicate Numbered(ids: seq<Uint32>, maxchannel: Uint32) {
    && FIRST_CHANNEL <= maxchannel
    && (forall i :: 0 <= i < |ids| ==> ids[i] <= maxchannel)
    && (forall i, j :: 0 <= i < j < |ids| && ids[i] != 0 ==> ids[i] != ids[j])
  }

  lemma NumberedAfterFree(ids: seq<Uint32>, maxchannel: Uint32, k: nat)
    requires Numbered(ids, maxchannel) && k < |ids|
    ensures Numbered(Without(ids, k), maxchannel)
  {
    var rest := Without(ids, k);
    forall i, j | 0 <= i < j < |rest| && rest[i] != 0
      ensures rest[i] != rest[j]
    {
      assert rest[i] == ids[if i < k then i else i + 1];
      assert rest[j] == ids[if j < k then j else j + 1];
    }
  }

  /** Numbering a member keeps numbers unique and hands out a fresh one exactly until
      the counter wraps to 0. */
  lemma FreshUntilWrap(ids: seq<Uint32>, maxchannel: Uint32, k: nat)
    requires Numbered(ids, maxchannel) && k < |ids|
    ensures var id := ToUint32(maxchannel + 1);
      (Numbered(ids[k := id], id) && id > maxchannel && id !in ids) <==> maxchannel < U32 - 1
  {
  }

  datatype Event = New | Free(k: nat) | Number(k: nat)

  datatype Registry = Registry(ids: seq<Uint32>, maxchannel: Uint32)

  /** What the three operations on the ring do to its ids. */
  function Apply(r: Registry, e: Event): Registry {
    match e
    case New => r.(ids := r.ids + [0])
    case Free(k) => if k < |r.ids| then r.(ids := Without(r.ids, k)) else r
    case Number(k) =>
      if k < |r.ids|
      then var id := ToUint32(r.maxchannel + 1); Registry(r.ids[k := id], id)
      else r
  }

  function ApplyAll(events: seq<Event>): Registry {
    if events == [] then Registry([], FIRST_CHANNEL)
    else Apply(ApplyAll(events[..|events| - 1]), events[|events| - 1])
  }

  /** In any order of creating, numbering and freeing channels, no two numbered members
      ever share an id while the session has used fewer than 2^32 - 42 ids. */
  lemma {:induction false} IdsStayUnique(events: seq<Event>)
    requires |events| < U32 - FIRST_CHANNEL
    ensures Numbered(ApplyAll(events).ids, ApplyAll(events).maxchannel)
    ensures ApplyAll(events).maxchannel <= FIRST_CHANNEL + |events|
  {
    if events != [] {
      var before := events[..|events| - 1];
      IdsStayUnique(before);
      var r, e := ApplyAll(before), events[|events| - 1];
      match e {
        case New =>
        case Free(k) => if k < |r.ids| { NumberedAfterFree(r.ids, r.maxchannel, k); }
        case Number(k) => if k < |r.ids| { FreshUntilWrap(r.ids, r.maxchannel, k); }
      }
    }
  }

  /** The nodes are distinct and `next` and `prev` go around them in order. */
  ghost predicate Linked(r: seq<Node>)
    reads r
  {
    && (forall i, j :: 0 <= i < j < |r| ==> r[i] != r[j])
    && (forall i {:trigger r[i].next} :: 0 <= i < |r| ==> r[i].next == r[Up(i, |r|)])
    && (forall i {:trigger r[i].prev} :: 0 <= i < |r| ==> r[i].prev == r[Down(i, |r|)])
  }

  /** The same except that the links pass over the node at `k`. */
  ghost predicate SkipsOver(r: seq<Node>, k: nat)
    requires k < |r|
    reads r
  {
    var n := |r|;
    && (forall i, j :: 0 <= i < j < n ==> r[i] != r[j])
    && (forall i {:trigger r[i].next} :: 0 <= i < n && i != k ==>
          r[i].next == r[if Up(i, n) == k then Up(k, n) else Up(i, n)])
    && (forall i {:trigger r[i].prev} :: 0 <= i < n && i != k ==>
          r[i].prev == r[if Down(i, n) == k then Down(k, n) else Down(i, n)])
  }

  lemma SkippedIsRemoved(r: seq<Node>, k: nat)
    requires k < |r| && |r| > 1 && SkipsOver(r, k)
    ensures Linked(Without(r, k))
  {
    var s := Without(r, k);
    forall i | 0 <= i < |s|
      ensures s[i].next == s[Up(i, |s|)] && s[i].prev == s[Down(i, |s|)]
    {
      var o := if i < k then i else i + 1;
      assert s[i] == r[o] && o != k;
      assert r[o].next == s[Up(i, |s|)];
      assert r[o].prev == s[Down(i, |s|)];
    }
  }

  class Session {
    var channels: Node?
    var maxchannel: Uint32
    // The members, from the head once around.
    ghost var ring: seq<Node>

    /** One cycle through all members, in both directions. */
    ghost predicate Valid()
      reads this, ring
    {
      && (channels == null <==> ring == [])
      && (ring != [] ==> channels == ring[0])
      && Linked(ring)
    }

    ghost function Ids(): (ids: seq<Uint32>)
      reads this, ring
      ensures |ids| == |ring| && forall i :: 0 <= i < |ring| ==> ids[i] == ring[i].localChannel
    {
      seq(|ring|, i requires 0 <= i < |ring| reads this, ring => ring[i].localChannel)
    }

    constructor ()
      ensures Valid() && ring == [] && maxchannel == FIRST_CHANNEL
    {
      channels, maxchannel, ring := null, FIRST_CHANNEL, [];
    }

    /** channel_new: the new channel becomes the last before the head. */
    method ChannelNew() returns (channel: Node)
      requires Valid()
      modifies this`channels, this`ring, ring
      ensures Valid() && fresh(channel) && ring == old(ring) + [channel]
      ensures Ids() == old(Ids()) + [0]
    {
      channel := new Node();
      if channels == null {
        channels := channel;
        channel.next, channel.prev := channel, channel;
      } else {
        LinkLast(channel);
      }
      ring := ring + [channel];
    }

    method LinkLast(channel: Node)
      requires Valid() && ring != [] && channel !in ring
      modifies channel, ring
      ensures Linked(ring + [channel])
      ensures Ids() == old(Ids()) && channel.localChannel == old(channel.localChannel)
    {
      ghost var n := |ring|;
      assert channels == ring[0] && channels.prev == ring[n - 1];
      channel.next := channels;
      channel.prev := channels.prev;
      channel.next.prev := channel;
      channel.prev.next := channel;
      ghost var s := ring + [channel];
      forall i | 0 <= i < n
        ensures s[i].next == s[Up(i, n + 1)] && s[i].prev == s[Down(i, n + 1)]
      {
        assert s[i] == ring[i];
        assert i != n - 1 ==> ring[i].next == ring[Up(i, n)];
        assert i != 0 ==> ring[i].prev == ring[Down(i, n)];
      }
    }

    /** channel_free, the unlinking part. */
    method ChannelFree(channel: Node, ghost k: nat)
      requires Valid() && k < |ring| && ring[k] == channel
      modifies this`channels, this`ring, ring
      ensures Valid() && ring == Without(old(ring), k)
      ensures Ids() == Without(old(Ids()), k)
    {
      assert channel.next == ring[Up(k, |ring|)];
      if channels == channel {
        channels := channel.next;
      }
      if channel.next == channel {
        channels := null;
      } else {
        Unlink(channel, k);
        SkippedIsRemoved(ring, k);
      }
      ring := Without(ring, k);
    }

    method Unlink(channel: Node, ghost k: nat)
      requires k < |ring| && ring[k] == channel && |ring| > 1
      requires Linked(ring)
      modifies ring
      ensures SkipsOver(ring, k) && Ids() == old(Ids())
    {
      ghost var n := |ring|;
      assert channel.prev == ring[Down(k, n)] && channel.next == ring[Up(k, n)];
      channel.prev.next := channel.next;
      assert forall i {:trigger ring[i].prev} :: 0 <= i < n ==> ring[i].prev == ring[Down(i, n)];
      assert forall i {:trigger ring[i].next} :: 0 <= i < n && i != Down(k, n) ==> ring[i].next == ring[Up(i, n)];
      channel.next.prev := channel.prev;
    }

    /** ssh_channel_new_id */
    method NewId() returns (id: Uint32)
      modifies this`maxchannel
      ensures id == maxchannel == ToUint32(old(maxchannel) + 1)
    {
      maxchannel := ToUint32(maxchannel + 1);
      id := maxchannel;
    }

    /** channel_open and the accepting side give the channel its number. */
    method Number(channel: Node, ghost k: nat) returns (id: Uint32)
      requires Valid() && k < |ring| && ring[k] == channel
      modifies this`maxchannel, channel`localChannel
      ensures Valid() && id == maxchannel == ToUint32(old(maxchannel) + 1)
      ensures Ids() == old(Ids())[k := id]
    {
      id := NewId();
      channel.localChannel := id;
    }

    /** ssh_channel_from_local: the first member from the head with the id, null exactly
        when the ring has none. */
    method FromLocal(id: Uint32) returns (channel: Node?, ghost k: nat)
      requires Valid()
      ensures channel == null <==> forall n :: n in ring ==> n.localChannel != id
      ensures channel != null ==> k < |ring| && ring[k] == channel && channel.localChannel == id
      ensures channel != null ==> forall i :: 0 <= i < k ==> ring[i].localChannel != id
      ensures channel != null && id != 0 && Numbered(Ids(), maxchannel) ==>
        forall i :: 0 <= i < |ring| && ring[i].localChannel == id ==> i == k
    {
      k := 0;
      var initchan := channels;
      if initchan == null {
        return null, 0;
      }
      channel := initchan;
      while channel.localChannel != id
        invariant k < |ring| && channel == ring[k]
        invariant forall i :: 0 <= i < k ==> ring[i].localChannel != id
        decreases |ring| - k
      {
        if channel.next == initchan {
          assert forall i :: 0 <= i < |ring| ==> ring[i].localChannel != id by {
            assert k == |ring| - 1;
          }
          return null, 0;
        }
        channel := channel.next;
        k := k + 1;
      }
    }
  }
}

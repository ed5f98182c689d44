/** The chained hash table of lib/hash.c: entries linked on the heap, a list of
    recycled entries, and growth by relinking. */
module HashTable {
  import opened Bytes

  // The bytes of a key, after a string key has been measured.
  type Key = seq<Byte>

  /** Bitwise conjunction. */
  function And(a: nat, b: nat): (r: nat)
    ensures r <= b
  {
    if b == 0 then 0 else 2 * And(a / 2, b / 2) + (if a % 2 == 1 && b % 2 == 1 then 1 else 0)
  }

  /** A bit is set in the result exactly when it is set in both. */
  lemma {:induction false} AndBits(a: nat, b: nat, i: nat)
    ensures BitSet(And(a, b), i) <==> BitSet(a, i) && BitSet(b, i)
    decreases i
  {
    if b == 0 {
      NoBits(i);
    } else if i > 0 {
      AndBits(a / 2, b / 2, i - 1);
      assert And(a, b) / 2 == And(a / 2, b / 2);
    }
  }

  class Entry<V> {
    var next: Entry?<V>
    var key: Key
    var hash: Uint32
    var val: V

    constructor (key: Key, hash: Uint32, val: V)
      ensures this.key == key && this.hash == hash && this.val == val && next == null
    {
      this.next, this.key, this.hash, this.val := null, key, hash, val;
    }

    method Reuse(key: Key, hash: Uint32, val: V)
      modifies this
      ensures this.key == key && this.hash == hash && this.val == val && next == null
    {
      this.next, this.key, this.hash, this.val := null, key, hash, val;
    }
  }

  /** `s` is the list of distinct entries that starts at `head`. */
  ghost predicate IsList<V>(head: Entry?<V>, s: seq<Entry<V>>)
    reads s`next
  {
    && head == (if s == [] then null else s[0])
    && (forall i {:trigger s[i].next} :: 0 <= i < |s| ==> s[i].next == (if i + 1 < |s| then s[i + 1] else null))
    && (forall i, j :: 0 <= i < j < |s| ==> s[i] != s[j])
  }

  lemma OthersRemain<T>(s: seq<T>, k: nat, x: T)
    requires k < |s| && x in s && x != s[k]
    ensures x in Without(s, k)
  {
    var j :| 0 <= j < |s| && s[j] == x;
    assert Without(s, k)[if j < k then j else j - 1] == x;
  }

  class Table<V> {
    var count: nat
    var max: nat
    var slots: array<Entry?<V>>
    var free: Entry?<V>
    const func: Key -> Uint32
    // What the table stores, for its users.
    ghost var contents: map<Key, V>
    // The live entries by key, the chains by slot, and the recycled entries.
    ghost var live: map<Key, Entry<V>>
    ghost var chains: seq<seq<Entry<V>>>
    ghost var recycled: seq<Entry<V>>
    // The entries in chains, and those on the free list.
    ghost var inUse: set<Entry<V>>
    ghost var spare: set<Entry<V>>

    /** The slot of a key in a table with slots 0 to `m`. */
    ghost function Slot(m: nat, key: Key): nat {
      And(func(key), m)
    }

    /** The entries are live and belong to slot `b` of a table with slots 0 to `m`. */
    ghost predicate Belong(m: nat, s: seq<Entry<V>>, b: nat)
      reads this`live, this`inUse, inUse`key
    {
      && (forall i :: 0 <= i < |s| ==> s[i] in inUse)
      && (forall i :: 0 <= i < |s| ==> s[i].key in live && live[s[i].key] == s[i] && Slot(m, s[i].key) == b)
    }

    /** Chain `b` is linked from slot `b`. */
    ghost predicate ChainOk(b: nat)
      requires b < |chains| && b < slots.Length
      reads this`max, this`slots, this`chains, this`live, this`inUse, slots, inUse`key, inUse`next
    {
      Belong(max, chains[b], b) && IsList(slots[b], chains[b])
    }

    /** The key has its entry, with its value, in the chain of its slot. */
    ghost predicate KeyOk(k: Key)
      requires k in live
      reads this`max, this`chains, this`live, this`contents, this`inUse, inUse`key, inUse`hash, inUse`val
    {
      EntryOk(k) && Slot(max, k) < |chains| && live[k] in chains[Slot(max, k)]
    }

    ghost predicate EntryOk(k: Key)
      requires k in live
      reads this`live, this`contents, this`inUse, inUse`key, inUse`hash, inUse`val
    {
      && live[k] in inUse && live[k].key == k && live[k].hash == func(k)
      && k in contents && live[k].val == contents[k]
    }

    /** Whether every chain but the one at `b` is in order, and so are the keys. */
    ghost predicate OthersOk(b: nat)
      reads this`max, this`slots, this`chains, this`live, this`contents, this`inUse, slots, inUse
    {
      && slots.Length == max + 1 == |chains|
      && (forall c :: 0 <= c <= max && c != b ==> ChainOk(c))
      && (forall k :: k in live ==> KeyOk(k))
      && live.Keys == contents.Keys
    }

    ghost predicate ChainsOk()
      reads this`max, this`slots, this`chains, this`live, this`contents, this`inUse, slots, inUse
    {
      && slots.Length == max + 1 == |chains|
      && (forall c :: 0 <= c <= max ==> ChainOk(c))
      && (forall k :: k in live ==> KeyOk(k))
      && live.Keys == contents.Keys
    }

    ghost predicate RecycledOk()
      reads this`free, this`recycled, this`spare, this`inUse, spare`next
    {
      && inUse !! spare
      && (forall i :: 0 <= i < |recycled| ==> recycled[i] in spare)
      && IsList(free, recycled)
    }

    ghost predicate Linked()
      reads this, slots, inUse, spare
    {
      ChainsOk() && RecycledOk() && count == |contents|
    }

    ghost predicate Valid()
      reads this, slots, inUse, spare
    {
      Linked() && count <= max
    }

    /** Every entry in a chain was held before or is new. */
    twostate predicate NewOrHeld(used: set<Entry<V>>, kept: set<Entry<V>>)
      reads this`inUse
    {
      forall e :: e in inUse ==> e in used || e in kept || fresh(e)
    }

    ghost function Footprint(): set<object>
      reads this
    {
      {this, slots} + inUse + spare
    }

    constructor (max: nat, func: Key -> Uint32)
      ensures Valid() && fresh(Footprint()) && contents == map[] && this.func == func
    {
      var m := if max == 0 then 15 else max;
      count, this.max, this.func := 0, m, func;
      slots := new Entry?<V>[m + 1](_ => null);
      free := null;
      contents, live, chains, recycled := map[], map[], seq(m + 1, _ => []), [];
      inUse, spare := {}, {};
    }

    /** find_entry, the search: `prev` stands for the pointer that leads to `entry`, null
        when that is the slot itself. */
    method Search(key: Key) returns (b: nat, prev: Entry?<V>, entry: Entry?<V>, ghost i: nat)
      requires Linked()
      ensures b == Slot(max, key) <= max && i <= |chains[b]|
      ensures prev == (if i == 0 then null else chains[b][i - 1])
      ensures entry == (if i == |chains[b]| then null else chains[b][i])
      ensures entry == null <==> key !in contents
      ensures entry != null ==> entry == live[key]
    {
      var hash := func(key);
      b := And(hash, max);
      ghost var s := chains[b];
      assert ChainOk(b);
      prev, entry, i := null, slots[b], 0;
      while entry != null
        invariant i <= |s|
        invariant prev == (if i == 0 then null else s[i - 1])
        invariant entry == (if i == |s| then null else s[i])
        invariant forall j :: 0 <= j < i ==> s[j].key != key
        decreases |s| - i
      {
        if entry.hash == hash && entry.key == key {
          return;
        }
        assert KeyOk(entry.key);
        prev, entry, i := entry, entry.next, i + 1;
      }
      if key in live {
        assert KeyOk(key);
      }
    }

    /** hash_get */
    method Get(key: Key) returns (val: Option<V>)
      requires Valid()
      ensures val == if key in contents then Some(contents[key]) else None
    {
      var b, prev, entry, i := Search(key);
      if entry != null {
        assert KeyOk(key);
        return Some(entry.val);
      }
      return None;
    }

    // ----- adding an entry -----

    method PopRecycled() returns (e: Entry<V>)
      requires RecycledOk() && free != null
      modifies this`free, this`recycled, this`spare
      ensures RecycledOk() && e in old(spare) && spare == old(spare) - {e}
    {
      e := free;
      free := e.next;
      recycled := recycled[1..];
      spare := spare - {e};
    }

    /** An entry from the free list, or a new one. */
    method TakeEntry(key: Key, hash: Uint32, val: V) returns (e: Entry<V>)
      requires RecycledOk()
      modifies this`free, this`recycled, this`spare, spare
      ensures RecycledOk() && spare == old(spare) - {e} && (fresh(e) || e in old(spare))
      ensures e.next == null && e.key == key && e.hash == hash && e.val == val
    {
      if free != null {
        e := PopRecycled();
        e.Reuse(key, hash, val);
      } else {
        e := new Entry(key, hash, val);
      }
    }

    /** *ptr = entry, where ptr leads to the end of chain `b`. */
    method LinkAtEnd(e: Entry<V>, b: nat, prev: Entry?<V>)
      requires ChainsOk() && RecycledOk() && b <= max && e !in inUse && e.next == null
      requires prev == (if chains[b] == [] then null else chains[b][|chains[b]| - 1])
      modifies slots, inUse`next
      ensures RecycledOk() && OthersOk(b) && Belong(max, chains[b], b) && IsList(slots[b], chains[b] + [e])
    {
      assert ChainOk(b);
      Attach(e, b, prev, chains[b]);
      forall c | 0 <= c <= max && c != b
        ensures ChainOk(c)
      {
        assert old(ChainOk(c));
      }
    }

    method Attach(e: Entry<V>, b: nat, prev: Entry?<V>, ghost s: seq<Entry<V>>)
      requires b < slots.Length && IsList(slots[b], s) && e !in s && e.next == null
      requires prev == (if s == [] then null else s[|s| - 1]) && (prev != null ==> prev in inUse)
      modifies slots, inUse`next
      ensures IsList(slots[b], s + [e]) && OnlyAt(b, prev)
    {
      if prev == null {
        slots[b] := e;
      } else {
        prev.next := e;
      }
    }

    /** Nothing was linked anew but slot `b`, or the entry `p` if that is not null. */
    twostate predicate OnlyAt(b: nat, p: Entry?<V>)
      reads this`slots, this`inUse, slots, inUse`next
    {
      && slots == old(slots) && inUse == old(inUse)
      && (forall c :: 0 <= c < slots.Length && c != b ==> slots[c] == old(slots[c]))
      && (forall e :: e in inUse && e != p ==> e.next == old(e.next))
    }

    /** Records the entry linked at the end of chain `b`. */
    ghost method Register(e: Entry<V>, b: nat)
      requires OthersOk(b) && b <= max && Belong(max, chains[b], b) && IsList(slots[b], chains[b] + [e])
      requires e !in inUse && e.key !in contents && e.hash == func(e.key) && Slot(max, e.key) == b
      requires RecycledOk() && e !in spare
      modifies this`live, this`chains, this`inUse, this`contents
      ensures RecycledOk() && ChainsOk() && contents == old(contents)[e.key := e.val] && inUse == old(inUse) + {e}
    {
      Adopt(e, b);
      ghost var s := chains[b] + [e];
      assert Belong(max, s, b);
      SetChain(b, s);
      assert KeyOk(e.key);
    }

    /** The record of one chain changes to what is linked from its slot. */
    ghost method SetChain(b: nat, s: seq<Entry<V>>)
      requires slots.Length == max + 1 == |chains| && b <= max
      requires Belong(max, s, b) && IsList(slots[b], s)
      requires forall k :: k in live && KeyOk(k) && Slot(max, k) == b ==> live[k] in s
      requires forall c :: 0 <= c <= max && c != b ==> ChainOk(c)
      modifies this`chains
      ensures |chains| == max + 1 && chains[b] == s
      ensures forall c :: 0 <= c <= max ==> ChainOk(c)
      ensures forall k :: k in live && old(KeyOk(k)) ==> KeyOk(k)
    {
      chains := chains[b := s];
      forall c | 0 <= c <= max
        ensures ChainOk(c)
      {
        if c != b {
          assert old(ChainOk(c));
        }
      }
    }

    /** The key map takes in an entry that no chain holds yet. */
    ghost method Adopt(e: Entry<V>, b: nat)
      requires OthersOk(b) && b <= max && Belong(max, chains[b], b)
      requires e !in inUse && e.key !in contents
      requires RecycledOk() && e !in spare
      modifies this`live, this`inUse, this`contents
      ensures RecycledOk() && Belong(max, chains[b], b) && live == old(live)[e.key := e]
      ensures contents == old(contents)[e.key := e.val] && inUse == old(inUse) + {e}
      ensures forall c :: 0 <= c <= max && c != b ==> ChainOk(c)
      ensures forall k :: k in live && k != e.key ==> KeyOk(k)
    {
      live, contents, inUse := live[e.key := e], contents[e.key := e.val], inUse + {e};
      forall c | 0 <= c <= max && c != b
        ensures ChainOk(c)
      {
        assert old(ChainOk(c));
      }
      forall k | k in live && k != e.key
        ensures KeyOk(k)
      {
        assert old(KeyOk(k));
      }
    }

    /** find_entry, the part that stores an entry at the end of the chain searched. */
    /** `prev` is where a new entry for the key is linked, at the end of chain `b`. */
    ghost predicate AtEnd(key: Key, b: nat, prev: Entry?<V>)
      reads this`max, this`chains
    {
      && b == Slot(max, key) <= max && b < |chains|
      && prev == (if chains[b] == [] then null else chains[b][|chains[b]| - 1])
    }

    /** An entry for the key that is in no list yet. */
    ghost predicate Loose(e: Entry<V>, key: Key, val: V)
      reads this`inUse, this`spare, e
    {
      e !in inUse && e !in spare && e.next == null && e.key == key && e.hash == func(key) && e.val == val
    }

    method AddEntry(key: Key, val: V, e: Entry<V>, b: nat, prev: Entry?<V>)
      requires Linked() && Loose(e, key, val) && key !in contents && AtEnd(key, b, prev)
      modifies this`count, this`live, this`chains, this`inUse, this`contents, slots, inUse`next
      ensures Linked() && count == old(count) + 1 && inUse == old(inUse) + {e}
      ensures contents == old(contents)[key := val]
    {
      LinkAtEnd(e, b, prev);
      Register(e, b);
      CountUp();
    }

    method CountUp()
      requires ChainsOk() && RecycledOk()
      modifies this`count
      ensures ChainsOk() && RecycledOk() && count == old(count) + 1
    {
      count := count + 1;
    }

    method Insert(key: Key, val: V, b: nat, prev: Entry?<V>) returns (e: Entry<V>)
      requires Linked() && key !in contents && AtEnd(key, b, prev)
      modifies this`count, this`free, this`live, this`chains, this`recycled, this`inUse, this`spare, this`contents
      modifies slots, inUse`next, spare
      ensures Linked() && count == old(count) + 1
      ensures contents == old(contents)[key := val]
      ensures spare == old(spare) - {e} && inUse == old(inUse) + {e} && (fresh(e) || e in old(spare))
    {
      e := TakeUnlinked(key, val);
      AddEntry(key, val, e, b, prev);
    }

    /** The same, without the entry. */
    method Append(key: Key, val: V, b: nat, prev: Entry?<V>)
      requires Linked() && key !in contents && AtEnd(key, b, prev)
      modifies this`count, this`free, this`live, this`chains, this`recycled, this`inUse, this`spare, this`contents
      modifies slots, inUse`next, spare
      ensures Linked() && count == old(count) + 1 && contents == old(contents)[key := val]
      ensures spare <= old(spare) && NewOrHeld(old(inUse), old(spare))
    {
      var e := Insert(key, val, b, prev);
    }

    method TakeUnlinked(key: Key, val: V) returns (e: Entry<V>)
      requires Linked()
      modifies this`free, this`recycled, this`spare, spare
      ensures Linked() && Loose(e, key, val) && spare == old(spare) - {e} && (fresh(e) || e in old(spare))
    {
      e := TakeEntry(key, func(key), val);
      assert ChainsOk();
    }

    // ----- changing and removing an entry -----

    method Overwrite(key: Key, entry: Entry<V>, val: V)
      requires Linked() && key in contents && entry == live[key]
      modifies this`contents, inUse`val
      ensures Linked() && contents == old(contents)[key := val]
    {
      assert KeyOk(key);
      SetVal(key, entry, val);
      RecordVal(key, val);
    }

    ghost method RecordVal(key: Key, val: V)
      requires slots.Length == max + 1 == |chains| && live.Keys == contents.Keys && key in live
      requires forall c :: 0 <= c <= max ==> ChainOk(c)
      requires forall k :: k in live && k != key ==> KeyOk(k)
      requires live[key] in inUse && live[key].key == key && live[key].hash == func(key) && live[key].val == val
      requires Slot(max, key) <= max && live[key] in chains[Slot(max, key)]
      modifies this`contents
      ensures ChainsOk() && contents == old(contents)[key := val] && |contents| == |old(contents)|
    {
      contents := contents[key := val];
      assert contents.Keys == old(contents).Keys;
      forall k | k in live
        ensures KeyOk(k)
      {
        assert k != key ==> old(KeyOk(k));
      }
    }

    method SetVal(key: Key, entry: Entry<V>, val: V)
      requires ChainsOk() && RecycledOk() && key in live && entry == live[key]
      modifies entry`val
      ensures RecycledOk() && entry.val == val
      ensures entry.key == key && entry.hash == func(key) && entry in inUse
      ensures Slot(max, key) <= max && entry in chains[Slot(max, key)]
      ensures forall c :: 0 <= c <= max ==> ChainOk(c)
      ensures forall k :: k in live && k != key ==> KeyOk(k)
    {
      assert KeyOk(key);
      entry.val := val;
      forall c | 0 <= c <= max
        ensures ChainOk(c)
      {
        assert old(ChainOk(c));
      }
      forall k | k in live && k != key
        ensures KeyOk(k)
      {
        assert old(KeyOk(k));
      }
    }

    /** *ptr = old->next */
    method Unlink(entry: Entry<V>, b: nat, prev: Entry?<V>, ghost i: nat)
      requires ChainsOk() && RecycledOk() && b <= max && i < |chains[b]| && chains[b][i] == entry
      requires prev == (if i == 0 then null else chains[b][i - 1])
      modifies slots, inUse`next
      ensures RecycledOk() && OthersOk(b) && Belong(max, chains[b], b) && IsList(slots[b], Without(chains[b], i))
    {
      assert ChainOk(b);
      ghost var s, rest := chains[b], Without(chains[b], i);
      Bypass(entry, b, prev, s, rest, i);
      forall c | 0 <= c <= max && c != b
        ensures ChainOk(c)
      {
        assert old(ChainOk(c));
        if prev != null {
          assert live[prev.key] == prev && Slot(max, prev.key) == b;
        }
        assert forall j :: 0 <= j < |chains[c]| ==> chains[c][j] != prev;
      }
    }

    method Bypass(entry: Entry<V>, b: nat, prev: Entry?<V>, ghost s: seq<Entry<V>>,
                  ghost rest: seq<Entry<V>>, ghost i: nat)
      requires b < slots.Length && IsList(slots[b], s) && i < |s| && s[i] == entry && rest == Without(s, i)
      requires prev == (if i == 0 then null else s[i - 1]) && (prev != null ==> prev in inUse)
      modifies slots, inUse`next
      ensures IsList(slots[b], rest) && OnlyAt(b, prev) && (prev != null ==> prev in s)
    {
      if prev == null {
        slots[b] := entry.next;
      } else {
        prev.next := entry.next;
      }
    }

    /** Strikes the entry just unlinked from chain `b` off the records. */
    ghost method Strike(entry: Entry<V>, b: nat, i: nat)
      requires RecycledOk() && OthersOk(b) && b <= max && i < |chains[b]| && chains[b][i] == entry
      requires Belong(max, chains[b], b) && IsList(slots[b], Without(chains[b], i))
      requires forall j :: 0 <= j < |chains[b]| && j != i ==> chains[b][j] != entry
      modifies this`live, this`chains, this`inUse, this`contents
      ensures RecycledOk() && ChainsOk() && contents == old(contents) - {entry.key} && inUse == old(inUse) - {entry}
    {
      ghost var s := Without(chains[b], i);
      Drop(entry, b, s);
      forall k | k in live && KeyOk(k) && Slot(max, k) == b
        ensures live[k] in s
      {
        OthersRemain(chains[b], i, live[k]);
      }
      SetChain(b, s);
    }

    /** The key map gives up an entry that its chain, now `s`, no longer holds. */
    ghost method Drop(entry: Entry<V>, b: nat, s: seq<Entry<V>>)
      requires RecycledOk() && OthersOk(b) && b <= max && entry in chains[b] && Belong(max, chains[b], b)
      requires forall j :: 0 <= j < |s| ==> s[j] in chains[b] && s[j] != entry
      modifies this`live, this`inUse, this`contents
      ensures RecycledOk() && Belong(max, s, b) && entry.key in old(live) && live == old(live) - {entry.key}
      ensures contents == old(contents) - {entry.key} && inUse == old(inUse) - {entry}
      ensures forall c :: 0 <= c <= max && c != b ==> ChainOk(c)
      ensures forall k :: k in live ==> KeyOk(k) && live[k] != entry
    {
      ghost var key := entry.key;
      assert KeyOk(key);
      live, contents, inUse := live - {key}, contents - {key}, inUse - {entry};
      forall c | 0 <= c <= max && c != b
        ensures ChainOk(c)
      {
        assert old(ChainOk(c));
      }
      forall k | k in live
        ensures KeyOk(k)
      {
        assert old(KeyOk(k));
      }
    }

    method Recycle(entry: Entry<V>)
      requires ChainsOk() && RecycledOk() && entry !in inUse && entry !in spare && count == |contents| + 1
      modifies this`free, this`recycled, this`spare, this`count, entry`next
      ensures Linked() && spare == old(spare) + {entry} && count == old(count) - 1
    {
      PushRecycled(entry);
      CountDown();
    }

    method PushRecycled(entry: Entry<V>)
      requires ChainsOk() && RecycledOk() && entry !in inUse && entry !in spare
      modifies this`free, this`recycled, this`spare, entry`next
      ensures ChainsOk() && RecycledOk() && spare == old(spare) + {entry}
    {
      entry.next := free;
      free := entry;
      recycled := [entry] + recycled;
      spare := spare + {entry};
    }

    method CountDown()
      requires ChainsOk() && RecycledOk() && count == |contents| + 1
      modifies this`count
      ensures Linked() && count == old(count) - 1
    {
      count := count - 1;
    }

    // ----- growing -----

    /** Chain `c` of the new array `wide` with slots 0 to `m` is in order, and its
        entries come from chains up to `b` and are not among those still to move. */
    ghost predicate WideOk(m: nat, wide: array<Entry?<V>>, grown: seq<seq<Entry<V>>>, b: nat, rest: seq<Entry<V>>, c: nat)
      requires c < |grown| && c < wide.Length
      reads this`max, this`live, this`inUse, inUse`key, inUse`next, wide
    {
      Belong(m, grown[c], c) && IsList(wide[c], grown[c]) && Past(grown[c], b, rest)
    }

    ghost predicate Past(s: seq<Entry<V>>, b: nat, rest: seq<Entry<V>>)
      reads this`max, this`inUse, inUse`key
    {
      forall i :: 0 <= i < |s| ==> s[i] in inUse && Slot(max, s[i].key) <= b && s[i] !in rest
    }

    /** The entry of the key is in its new chain, next to move, or in a later chain. */
    ghost predicate Placed(m: nat, grown: seq<seq<Entry<V>>>, b: nat, rest: seq<Entry<V>>, k: Key)
      requires k in live
      reads this`max, this`chains, this`live, this`contents, this`inUse, inUse`key, inUse`hash, inUse`val
    {
      && EntryOk(k)
      && (|| (Slot(m, k) < |grown| && live[k] in grown[Slot(m, k)])
          || live[k] in rest
          || (b < Slot(max, k) < |chains| && live[k] in chains[Slot(max, k)]))
    }

    /** Relinking has reached chain `b`, of which `rest` is still to move. */
    ghost predicate Moving(m: nat, wide: array<Entry?<V>>, grown: seq<seq<Entry<V>>>, b: nat, rest: seq<Entry<V>>)
      reads this`max, this`slots, this`chains, this`live, this`contents, this`inUse, inUse, slots, wide
    {
      && slots.Length == max + 1 == |chains| && wide.Length == m + 1 == |grown| && wide != slots
      && (forall c :: 0 <= c <= m ==> WideOk(m, wide, grown, b, rest, c))
      && (forall c :: b < c <= max ==> ChainOk(c))
      && (forall k :: k in live ==> Placed(m, grown, b, rest, k))
      && live.Keys == contents.Keys
      && Belong(max, rest, b)
    }

    /** entry->next = *ptr; *ptr = entry, where ptr is the entry's slot in the new array. */
    method PushLinks(wide: array<Entry?<V>>, ghost grown: seq<seq<Entry<V>>>, c: nat,
                     entry: Entry<V>, ghost rest: seq<Entry<V>>)
      returns (next: Entry?<V>)
      requires wide.Length == |grown| && c < |grown| && rest != [] && entry == rest[0] && IsList(entry, rest)
      requires forall d :: 0 <= d < |grown| ==> IsList(wide[d], grown[d]) && entry !in grown[d]
      modifies wide, entry`next
      ensures IsList(next, rest[1..]) && IsList(wide[c], [entry] + grown[c])
      ensures forall d :: 0 <= d < |grown| && d != c ==> IsList(wide[d], grown[d])
    {
      next := entry.next;
      entry.next := wide[c];
      wide[c] := entry;
      forall d | 0 <= d < |grown| && d != c
        ensures IsList(wide[d], grown[d])
      {
        assert old(IsList(wide[d], grown[d]));
      }
    }

    /** The same, and nothing else is disturbed. */
    method Push(m: nat, wide: array<Entry?<V>>, ghost grown: seq<seq<Entry<V>>>, ghost b: nat,
                c: nat, entry: Entry<V>, ghost rest: seq<Entry<V>>)
      returns (next: Entry?<V>)
      requires Moving(m, wide, grown, b, rest) && rest != [] && entry == rest[0] && IsList(entry, rest)
      requires c <= m
      modifies wide, entry`next
      ensures IsList(next, rest[1..]) && IsList(wide[c], [entry] + grown[c])
      ensures Belong(m, grown[c], c) && Past(grown[c], b, rest)
      ensures forall d :: 0 <= d <= m && d != c ==> WideOk(m, wide, grown, b, rest, d)
      ensures forall d :: b < d <= max ==> ChainOk(d)
    {
      forall d | 0 <= d <= m
        ensures IsList(wide[d], grown[d]) && entry !in grown[d]
      {
        assert WideOk(m, wide, grown, b, rest, d) && entry in rest;
      }
      next := PushLinks(wide, grown, c, entry, rest);
      forall d | 0 <= d <= m
        ensures Belong(m, grown[d], d) && Past(grown[d], b, rest)
      {
        assert old(WideOk(m, wide, grown, b, rest, d));
      }
      forall d | b < d <= max
        ensures ChainOk(d)
      {
        assert old(ChainOk(d));
      }
    }

    method MoveOne(m: nat, wide: array<Entry?<V>>, ghost grown: seq<seq<Entry<V>>>, ghost b: nat,
                   entry: Entry<V>, ghost rest: seq<Entry<V>>)
      returns (next: Entry?<V>, ghost grown': seq<seq<Entry<V>>>)
      requires Moving(m, wide, grown, b, rest) && rest != [] && entry == rest[0] && IsList(entry, rest)
      modifies wide, entry`next
      ensures Moving(m, wide, grown', b, rest[1..]) && IsList(next, rest[1..])
    {
      assert Placed(m, grown, b, rest, entry.key);
      var c := And(entry.hash, m);
      next := Push(m, wide, grown, b, c, entry, rest);
      grown' := grown[c := [entry] + grown[c]];
      forall d | 0 <= d <= m
        ensures WideOk(m, wide, grown', b, rest[1..], d)
      {
        if d != c {
          assert WideOk(m, wide, grown, b, rest, d);
        }
      }
      forall k | k in live
        ensures Placed(m, grown', b, rest[1..], k)
      {
        assert old(Placed(m, grown, b, rest, k));
      }
    }

    /** The inner loop of hash_expand: relinks one chain. */
    method MoveChain(m: nat, wide: array<Entry?<V>>, ghost grown: seq<seq<Entry<V>>>, b: nat)
      returns (ghost grown': seq<seq<Entry<V>>>)
      requires b < |chains| && b < slots.Length && Moving(m, wide, grown, b, chains[b])
      requires IsList(slots[b], chains[b]) && RecycledOk()
      modifies wide, inUse`next
      ensures Moving(m, wide, grown', b, []) && RecycledOk()
    {
      var entry := slots[b];
      ghost var rest := chains[b];
      grown' := grown;
      while entry != null
        invariant Moving(m, wide, grown', b, rest) && IsList(entry, rest) && RecycledOk()
        decreases |rest|
      {
        entry, grown' := MoveOne(m, wide, grown', b, entry, rest);
        rest := rest[1..];
      }
    }

    lemma NextChain(m: nat, wide: array<Entry?<V>>, grown: seq<seq<Entry<V>>>, b: nat, next: nat)
      requires Moving(m, wide, grown, b, []) && b < max && next == b + 1
      ensures Moving(m, wide, grown, next, chains[next]) && IsList(slots[next], chains[next])
    {
      assert ChainOk(next);
      forall c | 0 <= c <= m
        ensures WideOk(m, wide, grown, next, chains[next], c)
      {
        assert WideOk(m, wide, grown, b, [], c);
      }
      forall k | k in live
        ensures Placed(m, grown, next, chains[next], k)
      {
        assert Placed(m, grown, b, [], k);
      }
    }

    lemma FirstChain(m: nat, wide: array<Entry?<V>>, grown: seq<seq<Entry<V>>>)
      requires ChainsOk() && wide != slots && wide.Length == m + 1 == |grown|
      requires forall c :: 0 <= c <= m ==> wide[c] == null && grown[c] == []
      ensures Moving(m, wide, grown, 0, chains[0]) && IsList(slots[0], chains[0])
    {
      assert ChainOk(0);
      forall k | k in live
        ensures Placed(m, grown, 0, chains[0], k)
      {
        assert KeyOk(k);
      }
    }

    method MoveFirst(m: nat, wide: array<Entry?<V>>, ghost grown: seq<seq<Entry<V>>>)
      returns (ghost grown': seq<seq<Entry<V>>>)
      requires ChainsOk() && RecycledOk() && wide != slots && wide.Length == m + 1 == |grown|
      requires forall c :: 0 <= c <= m ==> wide[c] == null && grown[c] == []
      modifies wide, inUse`next
      ensures Moving(m, wide, grown', 0, []) && RecycledOk()
    {
      FirstChain(m, wide, grown);
      grown' := MoveChain(m, wide, grown, 0);
    }

    /** The outer loop of hash_expand. */
    method MoveAll(m: nat, wide: array<Entry?<V>>, ghost grown: seq<seq<Entry<V>>>)
      returns (ghost grown': seq<seq<Entry<V>>>)
      requires ChainsOk() && RecycledOk() && wide != slots && wide.Length == m + 1 == |grown|
      requires forall c :: 0 <= c <= m ==> wide[c] == null && grown[c] == []
      modifies wide, inUse`next
      ensures Moving(m, wide, grown', max, []) && RecycledOk()
    {
      grown' := MoveFirst(m, wide, grown);
      var i := 1;
      while i <= max
        invariant 1 <= i <= max + 1
        invariant Moving(m, wide, grown', i - 1, []) && RecycledOk()
      {
        grown' := MoveNext(m, wide, grown', i);
        i := i + 1;
      }
    }

    method MoveNext(m: nat, wide: array<Entry?<V>>, ghost grown: seq<seq<Entry<V>>>, b: nat)
      returns (ghost grown': seq<seq<Entry<V>>>)
      requires 0 < b <= max && Moving(m, wide, grown, b - 1, []) && RecycledOk()
      modifies wide, inUse`next
      ensures Moving(m, wide, grown', b, []) && RecycledOk()
    {
      NextChain(m, wide, grown, b - 1, b);
      grown' := MoveChain(m, wide, grown, b);
    }

    /** hash_expand */
    method Expand()
      requires Linked() && max < INT32_LIMIT - 1
      modifies this`max, this`slots, this`chains, inUse`next
      ensures Linked() && contents == old(contents) && max == 2 * old(max) + 1 && fresh(slots)
    {
      var m := 2 * max + 1;
      var wide := new Entry?<V>[m + 1](_ => null);
      ghost var grown := seq(m + 1, _ => []);
      assert Linked();
      MoveInto(m, wide, grown);
    }

    method MoveInto(m: nat, wide: array<Entry?<V>>, ghost grown: seq<seq<Entry<V>>>)
      requires Linked() && wide != slots && wide.Length == m + 1 == |grown|
      requires forall c :: 0 <= c <= m ==> wide[c] == null && grown[c] == []
      modifies this`max, this`slots, this`chains, wide, inUse`next
      ensures Linked() && max == m && slots == wide
    {
      ghost var grown' := MoveAll(m, wide, grown);
      SwitchTo(m, wide, grown');
    }

    method SwitchTo(m: nat, wide: array<Entry?<V>>, ghost grown: seq<seq<Entry<V>>>)
      requires Moving(m, wide, grown, max, []) && RecycledOk() && count == |contents|
      modifies this`max, this`slots, this`chains
      ensures Linked() && max == m && slots == wide
    {
      max := m;
      slots := wide;
      chains := grown;
      forall c | 0 <= c <= max
        ensures ChainOk(c)
      {
        assert old(WideOk(m, wide, grown, max, [], c));
      }
      forall k | k in live
        ensures KeyOk(k)
      {
        assert old(Placed(m, grown, max, [], k));
      }
    }

    // ----- the public operation -----

    /** hash_set; None is the NULL value that deletes. */
    method Set(key: Key, val: Option<V>)
      requires Valid() && max < INT32_LIMIT - 1
      modifies Footprint()
      ensures Valid() && fresh(Footprint() - old(Footprint()))
      ensures contents == match val
                          case Some(v) => old(contents)[key := v]
                          case None => old(contents) - {key}
    {
      match val {
        case Some(v) => Put(key, v);
        case None => Remove(key);
      }
    }

    method Put(key: Key, val: V)
      requires Valid() && max < INT32_LIMIT - 1
      modifies this, slots, inUse, spare
      ensures Valid() && contents == old(contents)[key := val]
      ensures spare <= old(spare) && NewOrHeld(old(inUse), old(spare)) && (slots == old(slots) || fresh(slots))
    {
      Store(key, val);
      if count > max {
        Expand();
      }
    }

    method Store(key: Key, val: V)
      requires Linked()
      modifies this`count, this`free, this`live, this`chains, this`recycled, this`inUse, this`spare, this`contents
      modifies slots, inUse`next, inUse`val, spare
      ensures Linked() && count <= old(count) + 1 && contents == old(contents)[key := val]
      ensures spare <= old(spare) && NewOrHeld(old(inUse), old(spare))
    {
      var b, prev, entry, i := Search(key);
      if entry == null {
        Append(key, val, b, prev);
      } else {
        Overwrite(key, entry, val);
      }
    }

    method Remove(key: Key)
      requires Valid()
      modifies this, slots, inUse, spare
      ensures Valid() && contents == old(contents) - {key}
      ensures inUse <= old(inUse) && spare <= old(inUse + spare) && slots == old(slots)
    {
      var b, prev, entry, i := Search(key);
      if entry != null {
        assert KeyOk(key);
        Delete(b, prev, entry, i);
      }
    }

    /** hash_set, the deletion. */
    method Delete(b: nat, prev: Entry?<V>, entry: Entry<V>, ghost i: nat)
      requires Linked() && b <= max && i < |chains[b]| && chains[b][i] == entry && entry in inUse
      requires prev == (if i == 0 then null else chains[b][i - 1])
      modifies this`count, this`free, this`live, this`chains, this`recycled, this`inUse, this`spare, this`contents
      modifies slots, inUse`next
      ensures Linked() && contents == old(contents) - {old(entry.key)} && count <= old(count)
      ensures inUse == old(inUse) - {entry} && spare == old(spare) + {entry}
    {
      TakeOut(b, prev, entry, i);
      Recycle(entry);
    }

    method TakeOut(b: nat, prev: Entry?<V>, entry: Entry<V>, ghost i: nat)
      requires ChainsOk() && RecycledOk() && b <= max && i < |chains[b]| && chains[b][i] == entry
      requires prev == (if i == 0 then null else chains[b][i - 1])
      modifies this`live, this`chains, this`inUse, this`contents, slots, inUse`next
      ensures ChainsOk() && RecycledOk() && inUse == old(inUse) - {entry}
      ensures contents == old(contents) - {entry.key} && entry.key in old(contents)
      ensures |contents| == |old(contents)| - 1
    {
      assert ChainOk(b) && KeyOk(entry.key);
      Unlink(entry, b, prev, i);
      Strike(entry, b, i);
      assert old(contents).Keys == contents.Keys + {entry.key};
    }
  }

  // ----- iteration -----

  ghost function Flatten<T>(cs: seq<seq<T>>): seq<T> {
    if cs == [] then [] else cs[0] + Flatten(cs[1..])
  }

  /** From chain `c` on, every live entry of those chains comes exactly once. */
  lemma {:induction false} FlattenFrom<V>(ht: Table<V>, c: nat)
    requires ht.ChainsOk() && c <= |ht.chains|
    ensures forall e :: e in Flatten(ht.chains[c..]) ==>
      e in ht.inUse && e.key in ht.live && ht.live[e.key] == e && c <= ht.Slot(ht.max, e.key)
    ensures forall d :: c <= d < |ht.chains| ==> forall e :: e in ht.chains[d] ==> e in Flatten(ht.chains[c..])
    ensures forall i, j :: 0 <= i < j < |Flatten(ht.chains[c..])| ==>
      Flatten(ht.chains[c..])[i] != Flatten(ht.chains[c..])[j]
    decreases |ht.chains| - c
  {
    if c < |ht.chains| {
      FlattenFrom(ht, c + 1);
      assert ht.ChainOk(c);
      assert ht.chains[c..][0] == ht.chains[c] && ht.chains[c..][1..] == ht.chains[c + 1..];
    }
  }

  class Iter<V> {
    const ht: Table<V>
    var entry: Entry?<V>
    var next: Entry?<V>
    var index: nat
    // The rest of the current chain, and all that is still to come.
    ghost var tail: seq<Entry<V>>
    ghost var rest: seq<Entry<V>>

    ghost predicate Valid()
      reads this, ht`chains, ht`inUse, ht.inUse`next
    {
      && index <= |ht.chains|
      && (forall i :: 0 <= i < |tail| ==> tail[i] in ht.inUse) && IsList(next, tail)
      && rest == tail + Flatten(ht.chains[index..])
    }

    constructor (ht: Table<V>)
      requires ht.ChainsOk()
      ensures Valid() && ht.ChainsOk() && this.ht == ht && rest == Flatten(ht.chains)
    {
      this.ht := ht;
      entry, next, index := null, null, 0;
      tail, rest := [], Flatten(ht.chains);
      new;
      assert ht.chains[0..] == ht.chains;
    }

    /** One step of the loop that looks for the next chain that is not empty. */
    method NextSlot()
      requires Valid() && next == null && ht.ChainsOk() && index <= ht.max
      modifies this
      ensures Valid() && ht.ChainsOk() && entry == next && rest == old(rest) && index == old(index) + 1
    {
      assert ht.ChainOk(index);
      assert ht.chains[index..][0] == ht.chains[index] && ht.chains[index..][1..] == ht.chains[index + 1..];
      tail, next := ht.chains[index], ht.slots[index];
      entry := ht.slots[index];
      index := index + 1;
    }

    /** hash_next: false stands for the null iterator. */
    method Advance() returns (more: bool)
      requires Valid() && ht.ChainsOk()
      modifies this
      ensures Valid() && ht.ChainsOk() && (more <==> old(rest) != [])
      ensures more ==> entry == old(rest)[0] && old(rest) == [entry] + rest
    {
      entry := next;
      while entry == null
        invariant Valid() && ht.ChainsOk() && entry == next && rest == old(rest)
        decreases |ht.chains| - index
      {
        if index > ht.max {
          return false;
        }
        NextSlot();
      }
      next := entry.next;
      tail, rest := tail[1..], rest[1..];
      more := true;
    }
  }

  /** hash_begin, and hash_next to the end. */
  method Enumerate<V>(ht: Table<V>) returns (entries: seq<Entry<V>>)
    requires ht.Valid()
    ensures entries == Flatten(ht.chains)
  {
    entries := [];
    var iter := new Iter(ht);
    ghost var all, left := iter.rest, iter.rest;
    var more := iter.Advance();
    while more
      invariant ht.ChainsOk() && iter.Valid() && iter.ht == ht && fresh(iter)
      invariant more <==> left != []
      invariant more ==> iter.entry == left[0] && left == [iter.entry] + iter.rest
      invariant entries + left == all
      decreases |left|
    {
      var e: Entry<V> := iter.entry;
      Associate(entries, [e], iter.rest);
      entries := entries + [e];
      left := iter.rest;
      more := iter.Advance();
    }
  }

  /** An iteration meets every stored pair exactly once. */
  lemma EveryPairOnce<V>(ht: Table<V>, entries: seq<Entry<V>>)
    requires ht.Valid() && entries == Flatten(ht.chains)
    ensures |entries| == |ht.contents|
    ensures forall i :: 0 <= i < |entries| ==> entries[i].key in ht.contents && entries[i].val == ht.contents[entries[i].key]
    ensures forall i, j :: 0 <= i < j < |entries| ==> entries[i].key != entries[j].key
    ensures forall k :: k in ht.contents ==> exists i :: 0 <= i < |entries| && entries[i].key == k
  {
    FlattenIsLive(ht, entries);
    var keys := seq(|entries|, i requires 0 <= i < |entries| reads entries => entries[i].key);
    forall k
      ensures k in keys <==> k in ht.contents.Keys
    {
      if k in ht.contents {
        var i :| 0 <= i < |entries| && entries[i] == ht.live[k];
        assert keys[i] == k;
      }
    }
    DistinctCount(keys, ht.contents.Keys);
  }

  lemma FlattenIsLive<V>(ht: Table<V>, entries: seq<Entry<V>>)
    requires ht.ChainsOk() && entries == Flatten(ht.chains)
    ensures forall i :: 0 <= i < |entries| ==>
      entries[i].key in ht.contents && ht.live[entries[i].key] == entries[i] && entries[i].val == ht.contents[entries[i].key]
    ensures forall i, j :: 0 <= i < j < |entries| ==> entries[i].key != entries[j].key
    ensures forall k :: k in ht.contents ==> k in ht.live && ht.live[k] in entries && ht.live[k].key == k
  {
    FlattenFrom(ht, 0);
    assert ht.chains[0..] == ht.chains;
    forall i | 0 <= i < |entries|
      ensures entries[i].key in ht.contents && entries[i].val == ht.contents[entries[i].key]
      ensures ht.live[entries[i].key] == entries[i]
    {
      assert entries[i] in entries && ht.KeyOk(entries[i].key);
    }
    forall k | k in ht.contents
      ensures ht.live[k] in entries && ht.live[k].key == k
    {
      assert ht.KeyOk(k);
    }
  }

  lemma {:induction false} DistinctCount<T>(s: seq<T>, all: set<T>)
    requires forall i, j :: 0 <= i < j < |s| ==> s[i] != s[j]
    requires forall x :: x in s <==> x in all
    ensures |s| == |all|
  {
    if s == [] {
      assert all == {};
    } else {
      assert forall x :: x in s ==> x == s[0] || x in s[1..];
      DistinctCount(s[1..], all - {s[0]});
    }
  }
}

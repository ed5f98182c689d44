/** One page of a board's index (www/bbsdoc.c: get_bbsdoc). Threads are selected in one
    pass through a ring of `count` slots, before their number is known. */
module DocPage {
  import opened Bytes

  datatype Post = Post(id: Uint32, gid: Uint32)

  datatype Mode = Normal | Digest | Thread

  /** select_bbsdoc */
  predicate Selected(p: Post, mode: Mode) {
    mode.Thread? ==> p.id == p.gid
  }

  function Filter(index: seq<Post>, mode: Mode): (r: seq<Post>)
    ensures |r| <= |index|
  {
    if index == [] then []
    else
      var last := index[|index| - 1];
      Filter(index[..|index| - 1], mode) + if Selected(last, mode) then [last] else []
  }

  // ----- the plain description of a page -----

  /** The start, from 1, after the range check. */
  function NormStart(total: nat, start: int, count: nat): int {
    var s := if start <= 0 || start > total - count then total - count + 1 else start;
    if s < 1 then 1 else s
  }

  /** The page of a list that begins at `start`, or its last page. */
  function Page(items: seq<Post>, start: int, count: nat): seq<Post> {
    var s := NormStart(|items|, start, count);
    items[s - 1..s - 1 + Min(count, |items|)]
  }

  /** A page that lies in the list is shown from where it was asked for; else it is the last
      page, or all there is. */
  lemma PageMeaning(items: seq<Post>, start: int, count: nat)
    requires count > 0
    ensures var page := Page(items, start, count); var n := NormStart(|items|, start, count);
      && |page| == Min(count, |items|) && 1 <= n && page <= items[n - 1..]
      && (1 <= start && start + count <= |items| + 1 ==> n == start)
      && (!(1 <= start && start + count <= |items| + 1) ==> page == items[|items| - Min(count, |items|)..])
  {
  }

  /** The page shows exactly these posts; None stands for a slot that was never filled. */
  ghost predicate Shows(page: seq<Option<Post>>, items: seq<Post>) {
    |page| == |items| && forall k :: 0 <= k < |page| ==> page[k] == Some(items[k])
  }

  ghost predicate Blank(page: seq<Option<Post>>, n: nat) {
    |page| == n && forall k :: 0 <= k < |page| ==> page[k] == None
  }

  // ----- the ring -----

  /** The sum of an int and a positive int, with wrap-around. */
  function IntSum(a: Int32, b: nat): Int32
    requires b < INT32_LIMIT
  {
    if a + b >= INT32_LIMIT then a + b - U32 else a + b
  }

  /** How many selected posts the pass stores; `limit` is start + count as an int. */
  ghost function Stored(n: nat, start: int, limit: int): nat {
    if start > 0 && n >= limit then Max(limit - 1, 0) else n
  }

  /** The ring holds the last |ring| of `f`, with f[base] in slot 0 of the current lap. */
  ghost predicate RingHolds(ring: seq<Option<Post>>, f: seq<Post>, base: nat) {
    && |ring| > 0 && base <= |f| < base + |ring| && (base == 0 || base >= |ring|)
    && (forall k :: 0 <= k < |f| - base ==> ring[k] == Some(f[base + k]))
    && (forall k :: |f| - base <= k < |ring| ==>
          ring[k] == if base == 0 then None else Some(f[base - |ring| + k]))
  }

  /** One post stored, with the slot to use next and the lap it belongs to. */
  lemma RingStep(ring: seq<Option<Post>>, f: seq<Post>, base: nat, p: Post)
    requires RingHolds(ring, f, base)
    ensures var all := |f| - base;
      var base' := if all + 1 == |ring| then base + |ring| else base;
      RingHolds(ring[all := Some(p)], f + [p], base')
  {
  }

  /** array[all++] = fh, with the wrap. */
  method StoreOne(ring: array<Option<Post>>, p: Post, all: nat, ghost f: seq<Post>, ghost base: nat)
    returns (all': nat, ghost base': nat)
    requires RingHolds(ring[..], f, base) && all == |f| - base
    modifies ring
    ensures RingHolds(ring[..], f + [p], base') && all' == |f| + 1 - base'
  {
    RingStep(ring[..], f, base, p);
    ring[all] := Some(p);
    all', base' := all + 1, base;
    if all' == ring.Length {
      all' := 0;
      base' := base + ring.Length;
    }
  }

  /** What one more selected post does to the stored part. */
  lemma StoredStep(f: seq<Post>, p: Post, start: int, limit: int)
    ensures var f' := f + [p];
      && Stored(|f|, start, limit) <= |f|
      && f'[..Stored(|f'|, start, limit)]
         == f[..Stored(|f|, start, limit)] + if start > 0 && |f'| >= limit then [] else [p]
  {
  }

  /** How many posts end up stored: up to the end of the page, or all. */
  ghost function StoredInAll(n: nat, start: int, count: nat): nat {
    if start + count >= INT32_LIMIT then 0
    else if n >= count then NormStart(n, start, count) - 1 + count
    else n
  }

  lemma StoredAmount(n: nat, start: Int32, count: nat)
    requires 0 < count < INT32_LIMIT && n < INT32_LIMIT
    ensures Stored(n, start, IntSum(start, count)) == StoredInAll(n, start, count) <= n
  {
  }

  /** The pass over the index. */
  method Collect(index: seq<Post>, start: Int32, ring: array<Option<Post>>) returns (total: nat, all: nat, ghost base: nat)
    requires 0 < ring.Length < INT32_LIMIT && |index| < INT32_LIMIT
    requires forall k :: 0 <= k < ring.Length ==> ring[k] == None
    modifies ring
    ensures var f := Filter(index, Thread); var m := StoredInAll(|f|, start, ring.Length);
      && total == |f| && m <= |f| && RingHolds(ring[..], f[..m], base) && all == m - base
  {
    var limit := IntSum(start, ring.Length);
    total, all, base := 0, 0, 0;
    ghost var f: seq<Post> := [];
    for i := 0 to |index|
      invariant f == Filter(index[..i], Thread) && total == |f| && Stored(|f|, start, limit) <= |f|
      invariant RingHolds(ring[..], f[..Stored(|f|, start, limit)], base)
      invariant all == Stored(|f|, start, limit) - base
    {
      assert index[..i + 1][..i] == index[..i];
      if Selected(index[i], Thread) {
        StoredStep(f, index[i], start, limit);
        total := total + 1;
        if start > 0 && total >= limit {
          // the ring already holds the page
        } else {
          all, base := StoreOne(ring, index[i], all, f[..Stored(|f|, start, limit)], base);
        }
        f := f + [index[i]];
      }
    }
    assert index[..|index|] == index;
    StoredAmount(|f|, start, ring.Length);
  }

  /** What the copy loop reads, slot by slot from `all` and around. */
  ghost function FromRing(ring: seq<Option<Post>>, all: nat, count: nat): seq<Option<Post>>
    requires count <= |ring| && all < count
  {
    ring[all..count] + ring[..all]
  }

  /** The posts that these pointers lead to; None when one of them is null. */
  ghost function Deref(slots: seq<Option<Post>>): Option<seq<Post>> {
    if slots == [] then Some([])
    else
      var n := |slots| - 1;
      var front := Deref(slots[..n]);
      if front.None? || slots[n].None? then None else Some(front.value + [slots[n].value])
  }

  lemma {:induction false} DerefNull(slots: seq<Option<Post>>, i: nat)
    requires i < |slots| && slots[i].None?
    ensures Deref(slots).None?
  {
    if i < |slots| - 1 {
      DerefNull(slots[..|slots| - 1], i);
    }
  }

  lemma {:induction false} DerefShown(slots: seq<Option<Post>>, items: seq<Post>)
    requires Shows(slots, items)
    ensures Deref(slots) == Some(items)
  {
    if slots != [] {
      var n := |slots| - 1;
      DerefShown(slots[..n], items[..n]);
      assert items == items[..n] + [items[n]];
    }
  }

  /** The copy loop. None is the end of the program: it reads through a null pointer. */
  method CopyOut(ring: array<Option<Post>>, all0: nat, count: nat) returns (page: Option<seq<Post>>)
    requires 0 < count <= ring.Length && all0 < count
    ensures page == Deref(FromRing(ring[..], all0, count))
  {
    ghost var slots := FromRing(ring[..], all0, count);
    var copied: seq<Post> := [];
    var all := all0;
    for i := 0 to count
      invariant all == (if all0 + i < count then all0 + i else all0 + i - count) < count
      invariant Deref(slots[..i]) == Some(copied)
    {
      assert slots[i] == ring[all];
      if ring[all].None? {
        DerefNull(slots, i);
        return None;
      }
      assert slots[..i + 1][..i] == slots[..i];
      copied := copied + [ring[all].value];
      all := all + 1;
      if all == count {
        all := 0;
      }
    }
    assert slots[..count] == slots;
    return Some(copied);
  }

  /** The ring read around from the next slot is the last `count` posts stored. */
  lemma FullRing(ring: seq<Option<Post>>, f: seq<Post>, base: nat)
    requires RingHolds(ring, f, base) && |f| >= |ring|
    ensures Shows(FromRing(ring, |f| - base, |ring|), f[|f| - |ring|..])
  {
  }

  lemma ShortRing(ring: seq<Option<Post>>, f: seq<Post>, base: nat)
    requires RingHolds(ring, f, base) && 0 < |f| < |ring|
    ensures Shows(FromRing(ring, 0, |f|), f)
  {
  }

  lemma EmptyRing(ring: seq<Option<Post>>, base: nat, count: nat)
    requires RingHolds(ring, [], base) && 0 < count <= |ring|
    ensures base == 0 && Blank(FromRing(ring, 0, count), count)
  {
  }

  /** What becomes of a page: the slice of the selected posts, unless the mode is the one
      that adds start and count, the sum does not fit an int and there is a post to show. */
  ghost function Outcome(index: seq<Post>, start: Int32, count: nat, mode: Mode): Option<seq<Post>> {
    var f := Filter(index, mode);
    if mode.Thread? && start + count >= INT32_LIMIT && f != [] then None else Some(Page(f, start, count))
  }

  /** get_bbsdoc */
  method GetBbsdoc(index: seq<Post>, start0: Int32, count0: nat, mode: Mode)
    returns (total: nat, start: int, page: Option<seq<Post>>)
    requires 0 < count0 < INT32_LIMIT && |index| < INT32_LIMIT
    ensures total == |Filter(index, mode)| && start == NormStart(total, start0, count0)
    ensures page == Outcome(index, start0, count0, mode)
  {
    if mode.Thread? {
      total, start, page := ThreadPage(index, start0, count0);
      return;
    }
    FilterAll(index, mode);
    total, start := |index|, start0;
    var count := count0;
    if start <= 0 || start > total - count {
      start := total - count + 1;
    }
    if start < 1 {
      start := 1;
      count := total;
    }
    page := Some(index[start - 1..start - 1 + count]);
  }

  method ThreadPage(index: seq<Post>, start0: Int32, count0: nat)
    returns (total: nat, start: int, page: Option<seq<Post>>)
    requires 0 < count0 < INT32_LIMIT && |index| < INT32_LIMIT
    ensures total == |Filter(index, Thread)| && start == NormStart(total, start0, count0)
    ensures page == Outcome(index, start0, count0, Thread)
  {
    var ring := new Option<Post>[count0](_ => None);
    var all;
    ghost var base;
    total, all, base := Collect(index, start0, ring);
    start := start0;
    var count := count0;
    if start <= 0 || start > total - count {
      start := total - count + 1;
    }
    if start < 1 {
      start := 1;
      count := total;
      all := 0;
    }
    page := Some([]);
    NextSlot(ring[..], Filter(index, Thread), start0, count0, base);
    if count > 0 {
      page := CopyOut(ring, all, count);
    }
  }

  /** Where the copy begins, and that it then reads the page. */
  lemma NextSlot(ring: seq<Option<Post>>, f: seq<Post>, start: Int32, count: nat, base: nat)
    requires |ring| == count > 0 && StoredInAll(|f|, start, count) <= |f|
    requires RingHolds(ring, f[..StoredInAll(|f|, start, count)], base)
    ensures |f| >= count ==> StoredInAll(|f|, start, count) - base < count
    ensures var overflow := start + count >= INT32_LIMIT;
      var from := if |f| >= count then StoredInAll(|f|, start, count) - base else 0;
      var page := if f == [] then [] else FromRing(ring, from, Min(count, |f|));
      Deref(page) == if overflow && f != [] then None else Some(Page(f, start, count))
  {
    var m := StoredInAll(|f|, start, count);
    if f == [] {
      assert Page(f, start, count) == [];
    } else if start + count >= INT32_LIMIT {
      assert f[..m] == [];
      EmptyRing(ring, base, Min(count, |f|));
      DerefNull(FromRing(ring, 0, Min(count, |f|)), 0);
    } else if |f| >= count {
      FullRing(ring, f[..m], base);
      LastPart(f, m, count, NormStart(|f|, start, count));
      DerefShown(FromRing(ring, m - base, count), Page(f, start, count));
    } else {
      assert f[..m] == f && Page(f, start, count) == f;
      ShortRing(ring, f, base);
      DerefShown(FromRing(ring, 0, |f|), f);
    }
  }

  lemma LastPart(f: seq<Post>, m: nat, count: nat, s: int)
    requires count <= m <= |f| && m == s - 1 + count
    ensures f[..m][m - count..] == f[s - 1..s - 1 + count]
  {
  }

  lemma {:induction false} FilterAll(index: seq<Post>, mode: Mode)
    requires !mode.Thread?
    ensures Filter(index, mode) == index
  {
    if index != [] {
      FilterAll(index[..|index| - 1], mode);
    }
  }

  /** The one-pass page is the page that normal mode gives on the filtered list exactly
      unless start + count overflows an int while there is something to show. */
  lemma ThreadPageIsPlainPage(index: seq<Post>, start: Int32, count: nat)
    ensures Outcome(index, start, count, Thread) == Outcome(Filter(index, Thread), start, count, Normal)
      <==> start + count < INT32_LIMIT || Filter(index, Thread) == []
  {
    FilterAll(Filter(index, Thread), Normal);
  }
}

/** Reading a thread page by page (www/bbstcon.c) and post by post (www/bbscon.c) in an
    index that is sorted by post id. */
module ThreadView {
  import opened Bytes
  import opened DocPage

  /** Posts are appended with growing ids, and a thread is named after its first post. */
  ghost predicate IsIndex(index: seq<Post>) {
    && (forall i, j :: 0 <= i < j < |index| ==> index[i].id < index[j].id)
    && (forall i :: 0 <= i < |index| ==> index[i].gid <= index[i].id)
  }

  /** The posts of a thread with lo < id < hi, in order. */
  ghost function Select(s: seq<Post>, gid: int, lo: int, hi: int): seq<Post> {
    if s == [] then []
    else
      var p := s[|s| - 1];
      Select(s[..|s| - 1], gid, lo, hi) + if p.gid == gid && lo < p.id < hi then [p] else []
  }

  ghost function After(index: seq<Post>, gid: int, fid: int): seq<Post> {
    Select(index, gid, fid, U32)
  }

  ghost function Before(index: seq<Post>, gid: int, fid: int): seq<Post> {
    Select(index, gid, -1, fid)
  }

  ghost function ThreadOf(index: seq<Post>, gid: int): seq<Post> {
    Select(index, gid, -1, U32)
  }

  // ----- facts about selecting -----

  lemma {:induction false} SelectAppend(s: seq<Post>, t: seq<Post>, gid: int, lo: int, hi: int)
    ensures Select(s + t, gid, lo, hi) == Select(s, gid, lo, hi) + Select(t, gid, lo, hi)
  {
    if t == [] {
      assert s + t == s;
    } else {
      var n := |t| - 1;
      SelectAppend(s, t[..n], gid, lo, hi);
      assert (s + t)[..|s + t| - 1] == s + t[..n];
      var last := if t[n].gid == gid && lo < t[n].id < hi then [t[n]] else [];
      assert Select(s, gid, lo, hi) + Select(t[..n], gid, lo, hi) + last
          == Select(s, gid, lo, hi) + (Select(t[..n], gid, lo, hi) + last);
    }
  }

  lemma {:induction false} SelectNone(s: seq<Post>, gid: int, lo: int, hi: int)
    requires forall i :: 0 <= i < |s| ==> s[i].gid == gid ==> !(lo < s[i].id < hi)
    ensures Select(s, gid, lo, hi) == []
  {
    if s != [] {
      SelectNone(s[..|s| - 1], gid, lo, hi);
    }
  }

  lemma {:induction false} SelectSame(s: seq<Post>, gid: int, lo: int, hi: int, lo': int, hi': int)
    requires forall i :: 0 <= i < |s| ==> (lo < s[i].id < hi <==> lo' < s[i].id < hi')
    ensures Select(s, gid, lo, hi) == Select(s, gid, lo', hi')
  {
    if s != [] {
      SelectSame(s[..|s| - 1], gid, lo, hi, lo', hi');
    }
  }

  lemma {:induction false} SelectMembers(s: seq<Post>, gid: int, lo: int, hi: int)
    ensures |Select(s, gid, lo, hi)| <= |s|
    ensures forall p :: p in Select(s, gid, lo, hi) <==> p in s && p.gid == gid && lo < p.id < hi
  {
    if s != [] {
      SelectMembers(s[..|s| - 1], gid, lo, hi);
      assert s == s[..|s| - 1] + [s[|s| - 1]];
    }
  }

  /** The posts after `fid` are those of the part of the index behind it. */
  lemma AfterIsSuffix(index: seq<Post>, gid: int, fid: int, a: nat)
    requires a <= |index|
    requires forall i :: 0 <= i < a ==> index[i].id <= fid
    requires forall i :: a <= i < |index| ==> index[i].id > fid
    ensures After(index, gid, fid) == ThreadOf(index[a..], gid)
  {
    SelectAppend(index[..a], index[a..], gid, fid, U32);
    assert index == index[..a] + index[a..];
    SelectNone(index[..a], gid, fid, U32);
    SelectSame(index[a..], gid, fid, U32, -1, U32);
    assert [] + ThreadOf(index[a..], gid) == ThreadOf(index[a..], gid);
  }

  lemma BeforeIsPrefix(index: seq<Post>, gid: int, fid: int, a: nat)
    requires a <= |index|
    requires forall i :: 0 <= i < a ==> index[i].id < fid
    requires forall i :: a <= i < |index| ==> index[i].id >= fid
    ensures Before(index, gid, fid) == ThreadOf(index[..a], gid)
  {
    SelectAppend(index[..a], index[a..], gid, -1, fid);
    assert index == index[..a] + index[a..];
    SelectNone(index[a..], gid, -1, fid);
    SelectSame(index[..a], gid, -1, fid, -1, U32);
    assert ThreadOf(index[..a], gid) + [] == ThreadOf(index[..a], gid);
  }

  // ----- the code -----

  /** dir_bsearch: the first post whose id is not below `fid`. */
  method Bsearch(index: seq<Post>, fid: Uint32) returns (f: nat)
    requires IsIndex(index)
    ensures f <= |index|
    ensures forall i :: 0 <= i < f ==> index[i].id < fid
    ensures forall i :: f <= i < |index| ==> index[i].id >= fid
  {
    var begin, end := 0, |index|;
    while begin < end
      invariant begin <= end <= |index|
      invariant forall i :: 0 <= i < begin ==> index[i].id < fid
      invariant forall i :: end <= i < |index| ==> index[i].id >= fid
    {
      var mid := begin + (end - begin) / 2;
      if index[mid].id == fid {
        return mid;
      }
      if index[mid].id < fid {
        begin := mid + 1;
      } else {
        end := mid;
      }
    }
    return begin;
  }

  /** The forward loop of bbstcon_search: fills `fh` from the front. */
  method Forward(index: seq<Post>, gid: Uint32, start: nat, fh: array<Post>) returns (c: nat)
    requires start <= |index| && fh.Length > 0
    modifies fh
    ensures var all := ThreadOf(index[start..], gid); c == Min(fh.Length, |all|) && fh[..c] == all[..c]
  {
    c := 0;
    var f := start;
    ghost var all := ThreadOf(index[start..], gid);
    while f < |index|
      invariant start <= f <= |index| && c < fh.Length
      invariant fh[..c] == ThreadOf(index[start..f], gid)
    {
      SplitAt(index, start, f + 1, gid);
      if index[f].gid == gid {
        fh[c] := index[f];
        c := c + 1;
        assert fh[..c] == ThreadOf(index[start..f + 1], gid);
        if c == fh.Length {
          return;
        }
      }
      f := f + 1;
    }
    SplitAt(index, start, f, gid);
  }

  lemma SplitAt(index: seq<Post>, a: nat, f: nat, gid: int)
    requires a <= f <= |index|
    ensures ThreadOf(index[a..], gid) == ThreadOf(index[a..f], gid) + ThreadOf(index[f..], gid)
    ensures a < f ==>
      ThreadOf(index[a..f], gid) == ThreadOf(index[a..f - 1], gid) + if index[f - 1].gid == gid then [index[f - 1]] else []
  {
    SelectAppend(index[a..f], index[f..], gid, -1, U32);
    assert index[a..] == index[a..f] + index[f..];
    if a < f {
      assert index[a..f][..f - a - 1] == index[a..f - 1];
    }
  }

  /** The backward loop: fills `fh` from the end, and stops below the thread's first id. */
  method Backward(index: seq<Post>, gid: Uint32, end: nat, fh: array<Post>) returns (n: nat)
    requires IsIndex(index) && end <= |index| && fh.Length > 0
    modifies fh
    ensures var all := ThreadOf(index[..end], gid);
      n == Min(fh.Length, |all|) && fh[fh.Length - n..] == all[|all| - n..]
  {
    var c := fh.Length;
    var f := end - 1;
    ghost var all := ThreadOf(index[..end], gid);
    while f >= 0 && index[f].id >= gid
      invariant -1 <= f < end && 0 < c <= fh.Length
      invariant all == ThreadOf(index[..f + 1], gid) + fh[c..]
    {
      assert index[..f + 1][..f] == index[..f];
      ghost var had := fh[c..];
      if index[f].gid == gid {
        c := c - 1;
        fh[c] := index[f];
        assert fh[c..] == [index[f]] + had;
        assert ThreadOf(index[..f], gid) + ([index[f]] + had) == ThreadOf(index[..f], gid) + [index[f]] + had;
        if c == 0 {
          n := fh.Length;
          return;
        }
      }
      f := f - 1;
    }
    SelectNone(index[..f + 1], gid, -1, U32);
    n := fh.Length - c;
  }

  /** bbstcon_search: the array filled, and how many posts of it count - from the front for
      'n', at the end otherwise. None is the null result. */
  method ThreadSearch(index: seq<Post>, gid: Uint32, fid: Uint32, action: char, count: int)
    returns (fh: Option<array<Post>>, c: nat)
    requires IsIndex(index)
    ensures fh.None? <==> count < 1
    ensures fh.Some? ==> fresh(fh.value) && fh.value.Length == count
    ensures fh.Some? && action == 'n' ==>
      var all := After(index, gid, fid); c == Min(count, |all|) && fh.value[..c] == all[..c]
    ensures fh.Some? && action != 'n' ==>
      var all := Before(index, gid, fid); c == Min(count, |all|) && fh.value[count - c..] == all[|all| - c..]
  {
    if count < 1 {
      return None, 0;
    }
    var a := new Post[count](_ => Post(0, 0));
    var f := Bsearch(index, fid);
    if action == 'n' {
      if f != |index| && index[f].id == fid {
        f := f + 1;
      }
      AfterIsSuffix(index, gid, fid, f);
      c := Forward(index, gid, f, a);
    } else {
      BeforeIsPrefix(index, gid, fid, f);
      c := Backward(index, gid, f, a);
    }
    fh := Some(a);
  }

  /** What bbstcon_main makes of its parameters: without a thread it starts one at `fid`. */
  function Request(gid: Uint32, fid: Uint32, action: char): (Uint32, Uint32, char) {
    if gid == 0 then (fid, ToUint32(fid - 1), 'n') else (gid, fid, action)
  }

  /** Only a request without a thread is changed: it asks for all posts of the thread named
      after the post that come behind the one before it. */
  lemma RequestMeaning(gid: Uint32, fid: Uint32, action: char)
    ensures gid != 0 ==> Request(gid, fid, action) == (gid, fid, action)
    ensures gid == 0 ==> Request(gid, fid, action) == (fid, if fid == 0 then U32 - 1 else fid - 1, 'n')
  {
  }

  // ----- pages in a row -----

  lemma {:induction false} SelectSorted(s: seq<Post>, gid: int, lo: int, hi: int)
    requires IsIndex(s)
    ensures var r := Select(s, gid, lo, hi); forall i, j :: 0 <= i < j < |r| ==> r[i].id < r[j].id
  {
    if s != [] {
      var n := |s| - 1;
      SelectSorted(s[..n], gid, lo, hi);
      SelectMembers(s[..n], gid, lo, hi);
    }
  }

  lemma FirstAbove(index: seq<Post>, x: int) returns (a: nat)
    requires IsIndex(index)
    ensures a <= |index|
    ensures forall i :: 0 <= i < a ==> index[i].id <= x
    ensures forall i :: a <= i < |index| ==> index[i].id > x
  {
    a := 0;
    while a < |index| && index[a].id <= x
      invariant a <= |index|
      invariant forall i :: 0 <= i < a ==> index[i].id <= x
    {
      a := a + 1;
    }
  }

  /** Going on from a post of a thread, what comes after is what came after it before. */
  lemma AfterPost(index: seq<Post>, gid: int, fid: int, k: nat)
    requires IsIndex(index) && k < |After(index, gid, fid)|
    ensures var p := After(index, gid, fid)[k];
      p.id > fid && After(index, gid, p.id) == After(index, gid, fid)[k + 1..]
  {
    var all := After(index, gid, fid);
    var p := all[k];
    SelectMembers(index, gid, fid, U32);
    SelectSorted(index, gid, fid, U32);
    SplitSelect(index, gid, fid, p.id, U32);
    var low := Select(index, gid, fid, p.id + 1);
    SelectMembers(index, gid, fid, p.id + 1);
    SelectMembers(index, gid, p.id, U32);
    CutAt(low, After(index, gid, p.id), k, p.id + 1);
  }

  /** Where a sorted list, cut below `x`, has the entry before the cut. */
  lemma CutAt(low: seq<Post>, high: seq<Post>, k: nat, x: int)
    requires var all := low + high; forall i, j :: 0 <= i < j < |all| ==> all[i].id < all[j].id
    requires forall p :: p in low ==> p.id < x
    requires forall p :: p in high ==> p.id >= x
    requires k < |low + high|
    ensures (low + high)[k].id == x - 1 ==> |low| == k + 1 && (low + high)[k + 1..] == high
    ensures (low + high)[k].id == x ==> |low| == k && (low + high)[..k] == low
  {
    var all := low + high;
    if k < |low| {
      assert all[k] in low;
      if k + 1 < |low| {
        assert all[k + 1] in low;
      }
    } else {
      assert all[k] in high;
      if k > |low| {
        assert all[|low|] in high;
      }
    }
  }

  /** A sorted index gives the part up to `mid` and then the part above it. */
  lemma SplitSelect(index: seq<Post>, gid: int, lo: int, mid: int, hi: int)
    requires IsIndex(index) && lo <= mid < hi
    ensures Select(index, gid, lo, hi) == Select(index, gid, lo, mid + 1) + Select(index, gid, mid, hi)
  {
    var a := FirstAbove(index, mid);
    var s, t := index[..a], index[a..];
    assert index == s + t;
    SelectAppend(s, t, gid, lo, hi);
    SelectAppend(s, t, gid, lo, mid + 1);
    SelectAppend(s, t, gid, mid, hi);
    SelectSame(s, gid, lo, hi, lo, mid + 1);
    SelectSame(t, gid, lo, hi, mid, hi);
    SelectNone(t, gid, lo, mid + 1);
    SelectNone(s, gid, mid, hi);
  }

  function FirstOf<T>(s: seq<T>, n: nat): seq<T> {
    s[..Min(n, |s|)]
  }

  function LastOf<T>(s: seq<T>, n: nat): seq<T> {
    s[|s| - Min(n, |s|)..]
  }

  /** The pages a reader gets who always asks for what follows the last post shown. */
  ghost function NextPages(index: seq<Post>, gid: int, fid: int, count: nat): seq<seq<Post>>
    requires IsIndex(index) && count > 0
    decreases |After(index, gid, fid)|
  {
    var page := FirstOf(After(index, gid, fid), count);
    if page == [] then []
    else
      AfterPost(index, gid, fid, |page| - 1);
      [page] + NextPages(index, gid, page[|page| - 1].id, count)
  }

  ghost function Concat<T>(ss: seq<seq<T>>): seq<T> {
    if ss == [] then [] else ss[0] + Concat(ss[1..])
  }

  /** Page after page gives the rest of the thread once, without a gap or a repeat. */
  lemma {:induction false} NextPagesEnumerate(index: seq<Post>, gid: int, fid: int, count: nat)
    requires IsIndex(index) && count > 0
    ensures Concat(NextPages(index, gid, fid, count)) == After(index, gid, fid)
    decreases |After(index, gid, fid)|
  {
    var all := After(index, gid, fid);
    var page := FirstOf(all, count);
    if page != [] {
      AfterPost(index, gid, fid, |page| - 1);
      NextPagesEnumerate(index, gid, page[|page| - 1].id, count);
      assert all == page + all[|page|..];
      var rest := NextPages(index, gid, page[|page| - 1].id, count);
      assert ([page] + rest)[1..] == rest;
    }
  }

  /** A thread opened by its first post is shown from that post on, to its end - unless its
      number is 0, when the request asks for what follows id 2^32 - 1. */
  lemma OpenedThreadIsWhole(index: seq<Post>, first: Uint32, count: nat)
    requires IsIndex(index) && count > 0
    ensures var (gid, fid, action) := Request(0, first, '?');
      action == 'n' &&
      (Concat(NextPages(index, gid, fid, count)) == ThreadOf(index, gid) <==> first != 0 || ThreadOf(index, gid) == [])
  {
    var (gid, fid, _) := Request(0, first, '?');
    NextPagesEnumerate(index, gid, fid, count);
    if first != 0 {
      OwnPostsOnly(index, gid);
    } else {
      SelectNone(index, gid, fid, U32);
    }
  }

  lemma OwnPostsOnly(index: seq<Post>, gid: int)
    requires IsIndex(index) && gid <= U32
    ensures After(index, gid, gid - 1) == ThreadOf(index, gid)
  {
    if gid > 0 {
      SplitSelect(index, gid, -1, gid - 1, U32);
      SelectNone(index, gid, -1, gid);
      assert [] + After(index, gid, gid - 1) == After(index, gid, gid - 1);
    } else {
      SelectSame(index, gid, gid - 1, U32, -1, U32);
    }
  }

  /** The same backwards: what comes before a post shown is what came before it. */
  lemma BeforePost(index: seq<Post>, gid: int, fid: int, k: nat)
    requires IsIndex(index) && fid <= U32 && k < |Before(index, gid, fid)|
    ensures var p := Before(index, gid, fid)[k];
      p.id < fid && Before(index, gid, p.id) == Before(index, gid, fid)[..k]
  {
    var p := Before(index, gid, fid)[k];
    BeforeIsSorted(index, gid, fid, k);
    BeforeInTwo(index, gid, p.id, fid);
    CutAt(Before(index, gid, p.id), Select(index, gid, p.id - 1, fid), k, p.id);
  }

  lemma BeforeIsSorted(index: seq<Post>, gid: int, fid: int, k: nat)
    requires IsIndex(index) && k < |Before(index, gid, fid)|
    ensures var all := Before(index, gid, fid);
      all[k].id < fid && forall i, j :: 0 <= i < j < |all| ==> all[i].id < all[j].id
  {
    SelectMembers(index, gid, -1, fid);
    SelectSorted(index, gid, -1, fid);
    assert Before(index, gid, fid)[k] in Before(index, gid, fid);
  }

  lemma BeforeInTwo(index: seq<Post>, gid: int, x: int, fid: int)
    requires IsIndex(index) && 0 <= x <= fid
    ensures Before(index, gid, fid) == Before(index, gid, x) + Select(index, gid, x - 1, fid)
    ensures forall p :: p in Before(index, gid, x) ==> p.id < x
    ensures forall p :: p in Select(index, gid, x - 1, fid) ==> p.id >= x
  {
    SplitSelect(index, gid, -1, x - 1, fid);
    SelectMembers(index, gid, -1, x);
    SelectMembers(index, gid, x - 1, fid);
  }

  ghost function PreviousPages(index: seq<Post>, gid: int, fid: int, count: nat): seq<seq<Post>>
    requires IsIndex(index) && count > 0 && fid <= U32
    decreases |Before(index, gid, fid)|
  {
    var all := Before(index, gid, fid);
    var page := LastOf(all, count);
    if page == [] then []
    else
      BeforePost(index, gid, fid, |all| - |page|);
      PreviousPages(index, gid, page[0].id, count) + [page]
  }

  lemma {:induction false} ConcatLast<T>(ss: seq<seq<T>>, s: seq<T>)
    ensures Concat(ss + [s]) == Concat(ss) + s
  {
    if ss == [] {
      assert [] + [s] == [s] && [s][1..] == [];
      assert s + [] == s && [] + s == s;
    } else {
      ConcatLast(ss[1..], s);
      assert (ss + [s])[1..] == ss[1..] + [s];
      assert ss[0] + (Concat(ss[1..]) + s) == ss[0] + Concat(ss[1..]) + s;
    }
  }

  lemma {:induction false} PreviousPagesEnumerate(index: seq<Post>, gid: int, fid: int, count: nat)
    requires IsIndex(index) && count > 0 && fid <= U32
    ensures Concat(PreviousPages(index, gid, fid, count)) == Before(index, gid, fid)
    decreases |Before(index, gid, fid)|
  {
    var all := Before(index, gid, fid);
    var page := LastOf(all, count);
    if page != [] {
      var k := |all| - |page|;
      BeforePost(index, gid, fid, k);
      PreviousPagesEnumerate(index, gid, page[0].id, count);
      ConcatLast(PreviousPages(index, gid, page[0].id, count), page);
      assert all == all[..k] + page;
    }
  }

  // ----- the list of threads -----

  /** The thread page lists the posts that name their thread, in the order of the index: each
      is the first of its thread, and no thread is listed twice. */
  lemma ThreadListMeaning(index: seq<Post>)
    requires IsIndex(index)
    ensures var f := Filter(index, Thread);
      && (forall p :: p in f <==> p in index && p.id == p.gid)
      && (forall p :: p in f ==> Before(index, p.gid, p.id) == [] && [p] <= ThreadOf(index, p.gid))
      && (forall i, j :: 0 <= i < j < |f| ==> f[i].id < f[j].id && f[i].gid != f[j].gid)
  {
    var f := Filter(index, Thread);
    FilterMembers(index);
    forall p | p in f
      ensures Before(index, p.gid, p.id) == [] && [p] <= ThreadOf(index, p.gid)
    {
      FirstOfThread(index, p);
    }
    forall i, j | 0 <= i < j < |f|
      ensures f[i].id < f[j].id && f[i].gid != f[j].gid
    {
      assert f[i] in f && f[j] in f;
    }
  }

  lemma {:induction false} FilterMembers(index: seq<Post>)
    requires IsIndex(index)
    ensures var f := Filter(index, Thread);
      && (forall p :: p in f <==> p in index && p.id == p.gid)
      && (forall i, j :: 0 <= i < j < |f| ==> f[i].id < f[j].id)
  {
    if index != [] {
      var n := |index| - 1;
      FilterMembers(index[..n]);
      assert index == index[..n] + [index[n]];
    }
  }

  lemma FirstOfThread(index: seq<Post>, p: Post)
    requires IsIndex(index) && p in index && p.id == p.gid
    ensures Before(index, p.gid, p.id) == [] && [p] <= ThreadOf(index, p.gid)
  {
    SelectNone(index, p.gid, -1, p.id);
    var all := ThreadOf(index, p.gid);
    SelectMembers(index, p.gid, -1, U32);
    SelectSorted(index, p.gid, -1, U32);
    assert p in all;
    var q := all[0];
    assert q in all && q in index && q.gid <= q.id <= p.id;
  }

  // ----- single posts -----

  ghost predicate At(index: seq<Post>, k: int, fid: int) {
    0 <= k < |index| && index[k].id == fid
  }

  /** The post that bbscon_search is to find, next to the one at `k`. */
  ghost function Wanted(index: seq<Post>, k: nat, action: char): Option<Post>
    requires k < |index|
  {
    var p := index[k];
    var earlier, later := Before(index, p.gid, p.id), After(index, p.gid, p.id);
    if action == 'p' then (if k > 0 then Some(index[k - 1]) else None)
    else if action == 'n' then (if k + 1 < |index| then Some(index[k + 1]) else None)
    else if action == 'b' then (if earlier != [] then Some(earlier[|earlier| - 1]) else None)
    else if action == 'a' then (if later != [] then Some(later[0]) else None)
    else Some(p)
  }

  /** 'n' and 'p' are the nearest posts of the board above and below, none exactly for the last
      and the first one; an action that is not known gives the post itself. */
  lemma NearestInBoard(index: seq<Post>, k: nat)
    requires IsIndex(index) && k < |index|
    ensures var fid := index[k].id; var n := Wanted(index, k, 'n');
      && (n == None <==> forall p :: p in index ==> p.id <= fid)
      && (n.Some? ==> n.value in index && n.value.id > fid
                      && forall p :: p in index && p.id > fid ==> p.id >= n.value.id)
    ensures var fid := index[k].id; var b := Wanted(index, k, 'p');
      && (b == None <==> forall p :: p in index ==> p.id >= fid)
      && (b.Some? ==> b.value in index && b.value.id < fid
                      && forall p :: p in index && p.id < fid ==> p.id <= b.value.id)
    ensures forall action :: action !in "pnba" ==> Wanted(index, k, action) == Some(index[k])
  {
  }

  /** 'a' is the nearest post of the thread above. */
  lemma NextInThread(index: seq<Post>, k: nat)
    requires IsIndex(index) && k < |index|
    ensures var q := index[k]; var n := Wanted(index, k, 'a');
      && (n == None <==> forall p :: p in index && p.gid == q.gid ==> p.id <= q.id)
      && (n.Some? ==> n.value in index && n.value.gid == q.gid && n.value.id > q.id
                      && forall p :: p in index && p.gid == q.gid && p.id > q.id ==> p.id >= n.value.id)
  {
    var q := index[k];
    SelectMembers(index, q.gid, q.id, U32);
    SelectSorted(index, q.gid, q.id, U32);
    var later := After(index, q.gid, q.id);
    if later != [] {
      assert later[0] in later;
    }
  }

  /** 'b' is the nearest post of the thread below. */
  lemma PreviousInThread(index: seq<Post>, k: nat)
    requires IsIndex(index) && k < |index|
    ensures var q := index[k]; var b := Wanted(index, k, 'b');
      && (b == None <==> forall p :: p in index && p.gid == q.gid ==> p.id >= q.id)
      && (b.Some? ==> b.value in index && b.value.gid == q.gid && b.value.id < q.id
                      && forall p :: p in index && p.gid == q.gid && p.id < q.id ==> p.id <= b.value.id)
  {
    var q := index[k];
    SelectMembers(index, q.gid, -1, q.id);
    SelectSorted(index, q.gid, -1, q.id);
    var earlier := Before(index, q.gid, q.id);
    if earlier != [] {
      assert earlier[|earlier| - 1] in earlier;
    }
  }

  /** bbscon_search: its return value, and the post it has written, if any. When no post has
      the id the code returns true and writes nothing. */
  method PostSearch(index: seq<Post>, fid: Uint32, action: char) returns (ok: bool, fp: Option<Post>)
    requires IsIndex(index)
    ensures forall k :: At(index, k, fid) ==> fp == Wanted(index, k, action) && (ok <==> fp.Some?)
    ensures (forall k :: !At(index, k, fid)) ==> ok && fp == None
  {
    var n := Bsearch(index, fid);
    if n == |index| || index[n].id != fid {
      return true, None;
    }
    assert At(index, n, fid);
    var f: int := n;
    var gid := index[n].gid;
    match action {
      case 'p' => f := f - 1;
      case 'n' => f := f + 1;
      case 'b' => f := PreviousOf(index, n, gid);
      case 'a' => f := NextOf(index, n, gid);
      case _ =>
    }
    if 0 <= f < |index| {
      return true, Some(index[f]);
    }
    return false, None;
  }

  method PreviousOf(index: seq<Post>, n: nat, gid: Uint32) returns (f: int)
    requires IsIndex(index) && n < |index|
    ensures -1 <= f < n
    ensures var b := Before(index, gid, index[n].id);
      if f < 0 then b == [] else b != [] && b[|b| - 1] == index[f]
  {
    BeforeIsPrefix(index, gid, index[n].id, n);
    f := n - 1;
    while f >= 0 && index[f].gid != gid
      invariant -1 <= f < n
      invariant ThreadOf(index[..n], gid) == ThreadOf(index[..f + 1], gid)
    {
      assert index[..f + 1][..f] == index[..f];
      f := f - 1;
    }
    if f >= 0 {
      assert index[..f + 1][..f] == index[..f];
    }
  }

  method NextOf(index: seq<Post>, n: nat, gid: Uint32) returns (f: nat)
    requires IsIndex(index) && n < |index|
    ensures n < f <= |index|
    ensures var b := After(index, gid, index[n].id);
      if f == |index| then b == [] else b != [] && b[0] == index[f]
  {
    AfterIsSuffix(index, gid, index[n].id, n + 1);
    f := n + 1;
    while f < |index| && index[f].gid != gid
      invariant n < f <= |index|
      invariant ThreadOf(index[n + 1..], gid) == ThreadOf(index[f..], gid)
    {
      DropFirst(index, f, gid);
      f := f + 1;
    }
    if f < |index| {
      DropFirst(index, f, gid);
    }
  }

  lemma DropFirst(index: seq<Post>, f: nat, gid: int)
    requires f < |index|
    ensures ThreadOf(index[f..], gid)
         == (if index[f].gid == gid then [index[f]] else []) + ThreadOf(index[f + 1..], gid)
  {
    SplitAt(index, f, f + 1, gid);
    assert index[f..f] == [];
  }

  /** The next post of a thread and the previous one undo each other. */
  lemma NextThenPrevious(index: seq<Post>, k: nat, k': nat)
    requires IsIndex(index) && k < |index| && k' < |index|
    ensures Wanted(index, k, 'a') == Some(index[k']) <==> Wanted(index, k', 'b') == Some(index[k])
  {
    NextInThread(index, k);
    PreviousInThread(index, k');
    assert index[k] in index && index[k'] in index;
  }
}

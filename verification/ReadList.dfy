/** The list of read posts of one board (lib/boardrc.c): at most 60 post times, newest
    first, kept in an array. */
module ReadList {
  import opened Bytes

  const BRC_MAXNUM := 60

  /** A post's file name `M.<time>.<suffix>`, with the number already read. */
  datatype FileName = FileName(kind: char, sep: char, time: Int32)

  predicate IsPost(f: FileName) {
    (f.kind == 'M' || f.kind == 'G') && f.sep == '.'
  }

  ghost predicate Descending(s: seq<int>) {
    forall i, j :: 0 <= i < j < |s| ==> s[i] > s[j]
  }

  /** The scan of brc_addlist: before the first smaller entry, unless met. */
  function Inserted(s: seq<int>, t: int): (r: seq<int>)
    ensures r == s || |r| == |s| + 1
  {
    if s == [] then [t]
    else if t == s[0] then s
    else if t > s[0] then [t] + s
    else [s[0]] + Inserted(s[1..], t)
  }

  lemma {:induction false} PlaceOf(s: seq<int>, t: int, n: nat)
    requires n <= |s| && (forall k :: 0 <= k < n ==> s[k] > t) && (n < |s| ==> t >= s[n])
    ensures Inserted(s, t) == if n < |s| && s[n] == t then s else s[..n] + [t] + s[n..]
  {
    if n > 0 {
      PlaceOf(s[1..], t, n - 1);
      assert s == [s[0]] + s[1..];
    }
  }

  function Clip<T>(s: seq<T>): seq<T> {
    if |s| > BRC_MAXNUM then s[..BRC_MAXNUM] else s
  }

  function Add(s: seq<int>, t: int): seq<int> {
    Clip(Inserted(s, t))
  }

  function AddAll(s: seq<int>, ts: seq<int>): seq<int>
    decreases |ts|
  {
    if ts == [] then s else Add(AddAll(s, ts[..|ts| - 1]), ts[|ts| - 1])
  }

  /** The scan of brc_unread. */
  function ScanUnread(s: seq<int>, t: int): bool {
    if s == [] then false else t > s[0] || (t != s[0] && ScanUnread(s[1..], t))
  }

  function Unread(s: seq<int>, t: int): bool {
    s == [] || ScanUnread(s, t)
  }

  /** The 60 times brc_clear adds, ending with `t`. */
  function Window(t: int): seq<int> {
    seq(BRC_MAXNUM, i => t - BRC_MAXNUM + 1 + i)
  }

  lemma InsertedIn(was: seq<Int32>, n: nat, t: Int32, now: seq<Int32>)
    requires n < |was| <= BRC_MAXNUM && |now| == Min(|was| + 1, BRC_MAXNUM)
    requires forall k {:trigger now[k]} :: 0 <= k < |now| ==>
      now[k] == if k < n then was[k] else if k == n then t else was[k - 1]
    ensures now == Clip(was[..n] + [t] + was[n..])
  {
    var all := was[..n] + [t] + was[n..];
    assert |all| == |was| + 1;
    assert forall k :: 0 <= k < |now| ==> now[k] == all[k];
    assert now == all[..|now|];
  }

  class Marks {
    const list: array<Int32>
    var num: nat
    var changed: bool

    ghost predicate Valid()
      reads this
    {
      list.Length == BRC_MAXNUM && num <= BRC_MAXNUM
    }

    ghost function Contents(): seq<Int32>
      requires Valid()
      reads this, list
    {
      list[..num]
    }

    constructor ()
      ensures Valid() && Contents() == [] && !changed && fresh(list)
    {
      list := new Int32[BRC_MAXNUM](_ => 0);
      num, changed := 0, false;
    }

    /** Takes over a stored list. */
    method Load(times: seq<Int32>)
      requires Valid() && |times| <= BRC_MAXNUM
      modifies this`num, list
      ensures Valid() && Contents() == times
    {
      num := |times|;
      for i := 0 to num
        invariant num == |times| && list[..i] == times[..i]
      {
        list[i] := times[i];
      }
    }

    /** Makes room at `n`, dropping the last entry of a full list, and writes `t` there. */
    method InsertAt(n: nat, t: Int32)
      requires Valid() && n < num
      modifies this`num, list
      ensures Valid() && Contents() == Clip(old(Contents())[..n] + [t] + old(Contents())[n..])
    {
      ghost var was := Contents();
      if num < BRC_MAXNUM {
        num := num + 1;
      }
      ShiftUp(n, was);
      list[n] := t;
      InsertedIn(was, n, t, Contents());
    }

    /** The loop that moves the entries from `n` on up by one. */
    method ShiftUp(n: nat, ghost was: seq<Int32>)
      requires Valid() && n < num && n <= |was| && num <= |was| + 1
      requires forall k :: 0 <= k < |was| && k < num ==> list[k] == was[k]
      modifies list
      ensures forall k :: 0 <= k < n ==> list[k] == was[k]
      ensures forall k :: n < k < num ==> list[k] == was[k - 1]
    {
      var i := num - 1;
      while i > n
        invariant n <= i < num
        invariant forall k :: 0 <= k <= i && k < |was| ==> list[k] == was[k]
        invariant forall k :: i < k < num ==> list[k] == was[k - 1]
      {
        list[i] := list[i - 1];
        i := i - 1;
      }
    }

    /** brc_addlist */
    method AddList(f: FileName, guest: bool)
      requires Valid()
      modifies this, list
      ensures Valid()
      ensures Contents() == if guest || !IsPost(f) then old(Contents()) else Add(old(Contents()), f.time)
      ensures changed <==> old(changed) || Contents() != old(Contents())
    {
      if guest {
        return;
      }
      var ftime := f.time;
      if (f.kind != 'M' && f.kind != 'G') || f.sep != '.' {
        return;
      }
      if num <= 0 {
        Append(ftime);
        return;
      }
      var n, met := Scan(ftime);
      if met {
        return;
      }
      if n < num {
        InsertAt(n, ftime);
        assert Contents()[n] == ftime;
        changed := true;
      } else if num < BRC_MAXNUM {
        Append(ftime);
      }
    }

    /** The loop of brc_addlist: where the time is, or where it belongs. */
    method Scan(ftime: Int32) returns (n: nat, met: bool)
      requires Valid()
      ensures n <= num
      ensures Inserted(Contents(), ftime) ==
        if met then Contents() else Contents()[..n] + [ftime] + Contents()[n..]
      ensures !met && n < num ==> ftime > list[n]
    {
      ghost var s := Contents();
      n := 0;
      while n < num
        invariant n <= num
        invariant forall k :: 0 <= k < n ==> s[k] > ftime
      {
        if ftime == list[n] {
          PlaceOf(s, ftime, n);
          return n, true;
        } else if ftime > list[n] {
          PlaceOf(s, ftime, n);
          return n, false;
        }
        n := n + 1;
      }
      PlaceOf(s, ftime, n);
      met := false;
    }

    method Append(t: Int32)
      requires Valid() && num < BRC_MAXNUM
      modifies this, list
      ensures Valid() && changed && Contents() == old(Contents()) + [t]
    {
      list[num] := t;
      num := num + 1;
      changed := true;
    }

    /** brc_unread */
    method IsUnread(f: FileName) returns (unread: bool)
      requires Valid()
      ensures unread <==> IsPost(f) && Unread(Contents(), f.time)
    {
      var ftime := f.time;
      if (f.kind != 'M' && f.kind != 'G') || f.sep != '.' {
        return false;
      }
      if num <= 0 {
        return true;
      }
      var n := 0;
      ghost var s := Contents();
      assert s[0..] == s;
      while n < num
        invariant n <= num
        invariant ScanUnread(s, ftime) == ScanUnread(s[n..], ftime)
      {
        if ftime > list[n] {
          return true;
        } else if ftime == list[n] {
          return false;
        }
        assert s[n..][1..] == s[n + 1..];
        n := n + 1;
      }
      return false;
    }

    /** brc_clear: adds the 60 times that end with `posttime`, oldest first. */
    method Clear(posttime: int, guest: bool)
      requires Valid() && -INT32_LIMIT + BRC_MAXNUM <= posttime < INT32_LIMIT - 1
      modifies this, list
      ensures Valid()
      ensures Contents() == if guest then old(Contents()) else AddAll(old(Contents()), Window(posttime))
    {
      var t := posttime - BRC_MAXNUM + 1;
      for i := 0 to BRC_MAXNUM
        invariant Valid() && t == posttime - BRC_MAXNUM + 1 + i
        invariant Contents() == if guest then old(Contents()) else AddAll(old(Contents()), Window(posttime)[..i])
      {
        assert Window(posttime)[..i + 1][..i] == Window(posttime)[..i];
        AddList(FileName('M', '.', t), guest);
        t := t + 1;
      }
      assert Window(posttime)[..BRC_MAXNUM] == Window(posttime);
    }
  }

  // ----- a bounded set -----

  ghost function Elements(s: seq<int>): set<int> {
    set x | x in s
  }

  /** `s` lists the 60 largest elements of `all`, or all of them, largest first. */
  ghost predicate IsTop(s: seq<int>, all: set<int>) {
    && Descending(s) && |s| <= BRC_MAXNUM
    && (forall x :: x in s ==> x in all)
    && (forall x :: x in all ==> x in s || Beaten(s, x))
  }

  /** A full list whose every entry is larger. */
  ghost predicate Beaten(s: seq<int>, x: int) {
    |s| == BRC_MAXNUM && x < s[BRC_MAXNUM - 1]
  }

  lemma {:induction false} InsertedIsDescending(s: seq<int>, t: int)
    requires Descending(s)
    ensures Descending(Inserted(s, t))
    ensures forall x :: x in Inserted(s, t) <==> x in s || x == t
  {
    if s != [] && t < s[0] {
      var rest := Inserted(s[1..], t);
      InsertedIsDescending(s[1..], t);
      HeadAndTail(s);
      PutInFront(s[0], rest);
    }
  }

  lemma HeadAndTail(s: seq<int>)
    requires Descending(s) && s != []
    ensures Descending(s[1..])
    ensures forall x :: x in s <==> x == s[0] || x in s[1..]
    ensures forall x :: x in s[1..] ==> x < s[0]
  {
    assert s == [s[0]] + s[1..];
  }

  lemma PutInFront(x: int, s: seq<int>)
    requires Descending(s) && forall y :: y in s ==> y < x
    ensures Descending([x] + s)
    ensures forall y :: y in [x] + s <==> y == x || y in s
  {
    assert forall i :: 0 <= i < |s| ==> s[i] in s;
  }

  lemma AddKeepsTop(s: seq<int>, all: set<int>, t: int)
    requires IsTop(s, all)
    ensures IsTop(Add(s, t), all + {t})
  {
    InsertedIsDescending(s, t);
    var r := Inserted(s, t);
    if |r| > BRC_MAXNUM {
      assert |s| == BRC_MAXNUM;
      var c := r[..BRC_MAXNUM];
      forall x | x in all + {t}
        ensures x in c || Beaten(c, x)
      {
        if x in r {
          var i :| 0 <= i < |r| && r[i] == x;
          assert i < BRC_MAXNUM ==> c[i] == x;
        } else {
          InsertedNotBelow(s, t, BRC_MAXNUM - 1);
        }
      }
    }
  }

  lemma {:induction false} InsertedNotBelow(s: seq<int>, t: int, i: nat)
    requires Descending(s) && i < |s|
    ensures i < |Inserted(s, t)| && Inserted(s, t)[i] >= s[i]
  {
    if t < s[0] && i > 0 {
      InsertedNotBelow(s[1..], t, i - 1);
    }
  }

  lemma TopIsUnique(s: seq<int>, s': seq<int>, all: set<int>)
    requires IsTop(s, all) && IsTop(s', all)
    ensures s == s'
  {
    NotShorter(s, s', all);
    NotShorter(s', s, all);
    SamePrefix(s, s', all, |s|);
    assert s[..|s|] == s && s'[..|s|] == s';
  }

  lemma NotShorter(s: seq<int>, s': seq<int>, all: set<int>)
    requires IsTop(s, all) && IsTop(s', all)
    ensures |s| >= |s'|
  {
    if |s| < |s'| {
      SamePrefix(s, s', all, |s|);
      var x := s'[|s|];
      assert x in all;
      forall j | 0 <= j < |s|
        ensures s[j] != x
      {
        assert s[..|s|][j] == s'[..|s|][j];
      }
    }
  }

  lemma {:induction false} SamePrefix(s: seq<int>, s': seq<int>, all: set<int>, n: nat)
    requires IsTop(s, all) && IsTop(s', all) && n <= |s| && n <= |s'|
    ensures s[..n] == s'[..n]
  {
    if n > 0 {
      SamePrefix(s, s', all, n - 1);
      NotAbove(s, s', all, n - 1);
      NotAbove(s', s, all, n - 1);
      assert s[..n] == s[..n - 1] + [s[n - 1]] && s'[..n] == s'[..n - 1] + [s'[n - 1]];
    }
  }

  lemma NotAbove(s: seq<int>, s': seq<int>, all: set<int>, i: nat)
    requires IsTop(s, all) && IsTop(s', all) && i < |s| && i < |s'| && s[..i] == s'[..i]
    ensures s[i] <= s'[i]
  {
    if s[i] > s'[i] {
      assert s[i] in all;
      forall j | 0 <= j < |s'|
        ensures s'[j] != s[i]
      {
        if j < i {
          assert s[..i][j] == s'[..i][j];
        }
      }
    }
  }

  /** After any run of additions the list holds the 60 largest times ever added. */
  lemma {:induction false} AddAllIsTop(s: seq<int>, ts: seq<int>)
    requires Descending(s) && |s| <= BRC_MAXNUM
    ensures IsTop(AddAll(s, ts), Elements(s) + Elements(ts))
    decreases |ts|
  {
    if ts == [] {
      assert Elements(s) + Elements(ts) == Elements(s);
    } else {
      var before, t := ts[..|ts| - 1], ts[|ts| - 1];
      AddAllIsTop(s, before);
      AddKeepsTop(AddAll(s, before), Elements(s) + Elements(before), t);
      assert ts == before + [t];
      assert Elements(s) + Elements(ts) == Elements(s) + Elements(before) + {t};
    }
  }

  lemma OrderOfAddingDoesNotMatter(s: seq<int>, ts: seq<int>, us: seq<int>)
    requires Descending(s) && |s| <= BRC_MAXNUM && Elements(ts) == Elements(us)
    ensures AddAll(s, ts) == AddAll(s, us)
  {
    AddAllIsTop(s, ts);
    AddAllIsTop(s, us);
    TopIsUnique(AddAll(s, ts), AddAll(s, us), Elements(s) + Elements(ts));
  }

  // ----- which posts are unread -----

  /** In a list of read times everything older than the last entry counts as read. */
  lemma {:induction false} UnreadMeaning(s: seq<int>, t: int)
    requires Descending(s)
    ensures Unread(s, t) <==> s == [] || (t !in s && t > s[|s| - 1])
  {
    if s != [] {
      UnreadMeaning(s[1..], t);
      assert t in s <==> t == s[0] || t in s[1..];
      assert ScanUnread(s, t) <==> t > s[0] || (t != s[0] && ScanUnread(s[1..], t));
      assert s[1..] == [] ==> !ScanUnread(s[1..], t) && |s| == 1;
    }
  }

  /** What brc_clear at time `t` leaves: the window itself, below any later entries. */
  lemma ClearedIsTop(s: seq<int>, t: int)
    requires Descending(s) && |s| <= BRC_MAXNUM
    ensures IsTop(AddAll(s, Window(t)), Elements(s) + Elements(Window(t)))
    ensures forall x :: x in Elements(Window(t)) <==> t - BRC_MAXNUM < x <= t
  {
    AddAllIsTop(s, Window(t));
    forall x
      ensures x in Window(t) <==> t - BRC_MAXNUM < x <= t
    {
      if t - BRC_MAXNUM < x <= t {
        assert Window(t)[x - (t - BRC_MAXNUM + 1)] == x;
      }
    }
  }

  /** With no entry beyond `t`, clearing at `t` leaves exactly the later posts unread. */
  lemma ClearLeavesLaterUnread(s: seq<int>, t: int, post: int)
    requires Descending(s) && |s| <= BRC_MAXNUM && forall x :: x in s ==> x <= t
    ensures Unread(AddAll(s, Window(t)), post) <==> post > t
  {
    ClearedIsTop(s, t);
    var all := Elements(s) + Elements(Window(t));
    var w := seq(BRC_MAXNUM, i => t - i);
    forall x | x in all
      ensures x in w || Beaten(w, x)
    {
      if t - BRC_MAXNUM < x {
        assert w[t - x] == x;
      }
    }
    TopIsUnique(AddAll(s, Window(t)), w, all);
    UnreadMeaning(w, post);
    if w[BRC_MAXNUM - 1] < post <= t {
      assert w[t - post] == post;
    }
  }

  /** Clearing at `t` makes every post up to `t` read. Later posts are unread unless they
      are in the list - for every post, exactly when the list is not full of entries
      that lie beyond t + 1. */
  lemma ClearWithLaterEntries(s: seq<int>, t: int)
    requires Descending(s) && |s| <= BRC_MAXNUM
    ensures forall post :: post <= t ==> !Unread(AddAll(s, Window(t)), post)
    ensures (forall post :: Unread(AddAll(s, Window(t)), post) <==> post > t && post !in s)
      <==> !(|s| == BRC_MAXNUM && s[BRC_MAXNUM - 1] > t + 1)
  {
    ClearedIsTop(s, t);
    var r := AddAll(s, Window(t));
    assert r != [] by {
      assert t in Elements(s) + Elements(Window(t));
    }
    forall post
      ensures Unread(r, post) <==> post !in r && post > r[|r| - 1]
    {
      UnreadMeaning(r, post);
    }
    forall post | post <= t
      ensures !Unread(r, post)
    {
      UpToClearIsRead(s, t, r, post);
    }
    if |s| == BRC_MAXNUM && s[BRC_MAXNUM - 1] > t + 1 {
      FullListUnchanged(s, t, r);
      assert !Unread(r, t + 1);
      assert t + 1 !in s;
    } else {
      forall post | post > t
        ensures Unread(r, post) <==> post !in s
      {
        LaterOnlyIfListed(s, t, r, post);
      }
    }
  }

  lemma UpToClearIsRead(s: seq<int>, t: int, r: seq<int>, post: int)
    requires r != [] && IsTop(r, Elements(s) + Elements(Window(t))) && post <= t
    requires forall x :: x in Elements(Window(t)) <==> t - BRC_MAXNUM < x <= t
    ensures post in r || post <= r[|r| - 1]
  {
    var all, oldest := Elements(s) + Elements(Window(t)), t - BRC_MAXNUM + 1;
    if oldest <= post {
      assert post in all;
    } else if oldest in r {
      forall x | oldest <= x <= t
        ensures x in r
      {
        assert x in all;
      }
      var k := IndexInRun(r, t, BRC_MAXNUM - 1);
    } else {
      assert oldest in all;
    }
  }

  /** In a descending list that has t, t-1, ..., t-i, the last of them is not before i. */
  lemma {:induction false} IndexInRun(r: seq<int>, t: int, i: nat) returns (k: nat)
    requires Descending(r) && forall x :: t - i <= x <= t ==> x in r
    ensures i <= k < |r| && r[k] == t - i
  {
    assert t - i in r;
    k :| 0 <= k < |r| && r[k] == t - i;
    if i > 0 {
      var j := IndexInRun(r, t, i - 1);
      assert r[j] > r[k];
    }
  }

  lemma FullListUnchanged(s: seq<int>, t: int, r: seq<int>)
    requires Descending(s) && |s| == BRC_MAXNUM && s[BRC_MAXNUM - 1] > t
    requires IsTop(r, Elements(s) + Elements(Window(t)))
    requires forall x :: x in Elements(Window(t)) <==> t - BRC_MAXNUM < x <= t
    ensures r == s
  {
    TopIsUnique(r, s, Elements(s) + Elements(Window(t)));
  }

  lemma LaterOnlyIfListed(s: seq<int>, t: int, r: seq<int>, post: int)
    requires Descending(s) && |s| <= BRC_MAXNUM && post > t
    requires !(|s| == BRC_MAXNUM && s[BRC_MAXNUM - 1] > t + 1)
    requires r != [] && IsTop(r, Elements(s) + Elements(Window(t)))
    requires forall x :: x in Elements(Window(t)) <==> t - BRC_MAXNUM < x <= t
    ensures post !in r && post > r[|r| - 1] <==> post !in s
  {
    var all := Elements(s) + Elements(Window(t));
    assert post in s ==> post in all;
    assert t in all;
    if post !in s && post <= r[|r| - 1] {
      forall x | x in r
        ensures x in s
      {
        assert x in all;
      }
      assert IsTop(s, Elements(s));
      TopIsUnique(r, s, Elements(s));
    }
  }

  // ----- read stays read -----

  lemma AddedAtEnd(s: seq<int>, t: int)
    requires Descending(s) && 0 < |s| < BRC_MAXNUM && t < s[|s| - 1]
    ensures Add(s, t) == s + [t] && Descending(s + [t])
  {
    PlaceOf(s, t, |s|);
    assert s[..|s|] + [t] + s[|s|..] == s + [t];
  }

  lemma LowTimeUnreads(s: seq<int>, t: int)
    requires Descending(s) && 0 < |s| < BRC_MAXNUM && t + 1 < s[|s| - 1]
    ensures !Unread(s, t + 1) && Unread(Add(s, t), t + 1)
  {
    AddedAtEnd(s, t);
    assert t + 1 !in s;
    UnreadMeaning(s, t + 1);
    UnreadMeaning(s + [t], t + 1);
  }

  /** Adding a time un-reads some post exactly when the list is neither empty nor full and
      the time lies more than 1 below its end. */
  lemma AddKeepsRead(s: seq<int>, t: int)
    requires Descending(s) && |s| <= BRC_MAXNUM
    ensures (forall post :: !Unread(s, post) ==> !Unread(Add(s, t), post))
      <==> s == [] || |s| == BRC_MAXNUM || t + 1 >= s[|s| - 1]
  {
    if s != [] && |s| < BRC_MAXNUM && t + 1 < s[|s| - 1] {
      LowTimeUnreads(s, t);
    } else if s != [] {
      forall post | !Unread(s, post)
        ensures !Unread(Add(s, t), post)
      {
        StaysRead(s, t, post);
      }
    }
  }

  lemma StaysRead(s: seq<int>, t: int, post: int)
    requires Descending(s) && 0 < |s| <= BRC_MAXNUM
    requires |s| == BRC_MAXNUM || t + 1 >= s[|s| - 1]
    requires !Unread(s, post)
    ensures !Unread(Add(s, t), post)
  {
    UnreadMeaning(s, post);
    AddGoesDownByOne(s, t);
    NotUnreadIn(s, Add(s, t), post);
  }

  /** A list that ends at most one lower, and then still has the old end. */
  lemma NotUnreadIn(s: seq<int>, r: seq<int>, post: int)
    requires s != [] && (post in s || post <= s[|s| - 1])
    requires Descending(r) && r != [] && r[|r| - 1] + 1 >= s[|s| - 1]
    requires forall x :: x in s ==> x in r || x < r[|r| - 1]
    requires r[|r| - 1] < s[|s| - 1] ==> s[|s| - 1] in r
    ensures !Unread(r, post)
  {
    UnreadMeaning(r, post);
  }

  /** Adding keeps or raises the end of the list, or it was not full and takes the time in. */
  lemma AddGoesDownByOne(s: seq<int>, t: int)
    requires Descending(s) && 0 < |s| <= BRC_MAXNUM
    requires |s| == BRC_MAXNUM || t + 1 >= s[|s| - 1]
    ensures var r := Add(s, t);
      Descending(r) && r != [] && r[|r| - 1] + 1 >= s[|s| - 1]
      && (forall x :: x in s ==> x in r || x < r[|r| - 1])
      && (r[|r| - 1] < s[|s| - 1] ==> s[|s| - 1] in r)
  {
    var r, all := Add(s, t), Elements(s) + {t};
    assert IsTop(s, Elements(s));
    AddKeepsTop(s, Elements(s), t);
    InsertedNotBelow(s, t, |s| - 1);
    forall x | x in s
      ensures x in r || x < r[|r| - 1]
    {
      assert x in all;
    }
    assert r[|r| - 1] in all;
  }

  /** From the list of a board never visited, with positive times, a post once read stays
      read for ever: the list is full or still ends with its first entry. */
  lemma {:induction false} ReadForEver(ts: seq<int>, n: nat, post: int)
    requires (forall i :: 0 <= i < |ts| ==> ts[i] > 0) && n <= |ts|
    requires !Unread(AddAll([1], ts[..n]), post)
    ensures !Unread(AddAll([1], ts), post)
    decreases |ts|
  {
    if n < |ts| {
      var before, t := ts[..|ts| - 1], ts[|ts| - 1];
      assert before[..n] == ts[..n];
      ReadForEver(before, n, post);
      FullOrFromOne(before);
      AddKeepsRead(AddAll([1], before), t);
    } else {
      assert ts[..n] == ts;
    }
  }

  lemma {:induction false} FullOrFromOne(ts: seq<int>)
    requires forall i :: 0 <= i < |ts| ==> ts[i] > 0
    ensures var s := AddAll([1], ts);
      Descending(s) && 0 < |s| <= BRC_MAXNUM && (|s| == BRC_MAXNUM || s[|s| - 1] == 1)
    decreases |ts|
  {
    AddAllIsTop([1], ts);
    assert 1 in Elements([1]) + Elements(ts);
    var s := AddAll([1], ts);
    forall x | x in s
      ensures x >= 1
    {
      assert x in Elements([1]) + Elements(ts);
    }
    assert 1 in s || Beaten(s, 1);
    assert s[|s| - 1] in s;
  }
}

/** The wildcard matcher of libssh/match.c. */
module Glob {
  import opened Bytes

  /** What a pattern with `*` and `?` means. */
  ghost predicate Matches(s: string, p: string)
    decreases |p|
  {
    if p == [] then s == []
    else if p[0] == '*' then exists k :: 0 <= k <= |s| && Matches(s[k..], p[1..])
    else s != [] && (p[0] == '?' || p[0] == s[0]) && Matches(s[1..], p[1..])
  }

  /** What a character of a pattern stands for: a star for any string, a question mark for any
      character, another for itself. */
  lemma OneCharacter(s: string, c: char)
    ensures Matches(s, [c]) <==> c == '*' || (|s| == 1 && (c == '?' || c == s[0]))
  {
    assert [c][1..] == [];
    if c == '*' {
      NothingLeft(s[|s|..]);
    } else if s != [] {
      NothingLeft(s[1..]);
    }
  }

  lemma NothingLeft(s: string)
    ensures Matches(s, []) <==> |s| == 0
  {
  }

  /** Patterns one after the other match exactly what their parts match one after the other. */
  lemma {:induction false} MatchesBoth(s: string, p: string, q: string)
    ensures Matches(s, p + q) <==> exists k :: 0 <= k <= |s| && Matches(s[..k], p) && Matches(s[k..], q)
    decreases |p|
  {
    if p == [] {
      assert p + q == q && s[0..] == s && s[..0] == [];
    } else if p[0] == '*' {
      StarThenBoth(s, p, q);
    } else {
      CharacterThenBoth(s, p, q);
    }
  }

  lemma {:induction false} StarThenBoth(s: string, p: string, q: string)
    requires p != [] && p[0] == '*'
    ensures Matches(s, p + q) <==> exists k :: 0 <= k <= |s| && Matches(s[..k], p) && Matches(s[k..], q)
    decreases |p|, 0
  {
    var rest := p[1..];
    assert (p + q)[0] == '*' && (p + q)[1..] == rest + q;
    if Matches(s, p + q) {
      var j :| 0 <= j <= |s| && Matches(s[j..], rest + q);
      MatchesBoth(s[j..], rest, q);
      var k :| 0 <= k <= |s[j..]| && Matches(s[j..][..k], rest) && Matches(s[j..][k..], q);
      assert s[j..][..k] == s[..j + k][j..] && s[j..][k..] == s[j + k..];
    }
    if k :| 0 <= k <= |s| && Matches(s[..k], p) && Matches(s[k..], q) {
      var j :| 0 <= j <= k && Matches(s[..k][j..], rest);
      assert s[..k][j..] == s[j..][..k - j] && s[k..] == s[j..][k - j..];
      MatchesBoth(s[j..], rest, q);
    }
  }

  lemma {:induction false} CharacterThenBoth(s: string, p: string, q: string)
    requires p != [] && p[0] != '*'
    ensures Matches(s, p + q) <==> exists k :: 0 <= k <= |s| && Matches(s[..k], p) && Matches(s[k..], q)
    decreases |p|, 0
  {
    var rest := p[1..];
    assert (p + q)[0] == p[0] && (p + q)[1..] == rest + q;
    if s != [] {
      MatchesBoth(s[1..], rest, q);
    }
    if Matches(s, p + q) {
      var k :| 0 <= k <= |s[1..]| && Matches(s[1..][..k], rest) && Matches(s[1..][k..], q);
      assert s[1..][..k] == s[..k + 1][1..] && s[1..][k..] == s[k + 1..];
    }
    if k :| 0 <= k <= |s| && Matches(s[..k], p) && Matches(s[k..], q) {
      assert s[..k][1..] == s[1..][..k - 1] && s[k..] == s[1..][k - 1..];
    }
  }

  predicate AllStars(p: string) {
    forall i :: 0 <= i < |p| ==> p[i] == '*'
  }

  predicate EndsInTwoStars(p: string) {
    |p| >= 2 && p[|p| - 1] == '*' && p[|p| - 2] == '*'
  }

  /** The pattern the code really tests for: a run of two or more stars at the end
      demands one character. */
  function Tighten(p: string): string {
    if AllStars(p) && |p| >= 2 then "?*"
    else if p == [] then []
    else [p[0]] + Tighten(p[1..])
  }

  // ----- the matcher -----

  /** match_pattern: the recursion and the loops of the code, on C strings. */
  method MatchPattern(string0: string, pattern0: string) returns (r: bool)
    ensures r <==> Matches(string0, Tighten(pattern0))
    decreases |pattern0|, 0
  {
    var s, pattern := string0, pattern0;
    while true
      invariant |pattern| <= |pattern0|
      invariant Matches(string0, Tighten(pattern0)) <==> Matches(s, Tighten(pattern))
      decreases |pattern|
    {
      if pattern == [] {
        return s == [];
      }
      if pattern[0] == '*' {
        assert pattern == "*" + pattern[1..];
        pattern := pattern[1..];
        if pattern == [] {
          StarTakesAll(s);
          return true;
        }
        if pattern[0] != '?' && pattern[0] != '*' {
          r := FindLiteral(s, pattern);
        } else {
          r := FindAnywhere(s, pattern);
        }
        return r;
      }
      if s == [] {
        return false;
      }
      if pattern[0] != '?' && pattern[0] != s[0] {
        return false;
      }
      s, pattern := s[1..], pattern[1..];
    }
  }

  /** The loop after `*` when a literal follows: tries the places where it occurs. */
  method FindLiteral(string0: string, pattern: string) returns (r: bool)
    requires pattern != [] && pattern[0] != '?' && pattern[0] != '*'
    ensures r <==> Matches(string0, Tighten("*" + pattern))
    decreases |pattern|, 0
  {
    var s := string0;
    TightenSkips('*', pattern);
    ghost var rest := Tighten(pattern);
    while s != []
      invariant |s| <= |string0| && s == string0[|string0| - |s|..]
      invariant forall k :: 0 <= k < |string0| - |s| ==> !Matches(string0[k..], rest)
      decreases |s|
    {
      if s[0] == pattern[0] {
        r := MatchPattern(s[1..], pattern[1..]);
        if r {
          return true;
        }
      }
      s := s[1..];
    }
    assert !Matches([], rest);
    assert string0[|string0|..] == [];
    r := false;
  }

  /** The loop after `*` when another wildcard follows: tries every place but the end. */
  method FindAnywhere(string0: string, pattern: string) returns (r: bool)
    requires pattern != [] && (pattern[0] == '?' || pattern[0] == '*')
    ensures r <==> Matches(string0, Tighten("*" + pattern))
    decreases |pattern|, 1
  {
    SomePlaceButTheEnd(string0, pattern);
    var i := 0;
    while i < |string0|
      invariant i <= |string0|
      invariant forall k :: 0 <= k < i ==> !Matches(string0[k..], Tighten(pattern))
    {
      r := MatchPattern(string0[i..], pattern);
      if r {
        return true;
      }
      i := i + 1;
    }
    r := false;
  }

  // ----- facts about patterns -----

  lemma StarTakesAll(s: string)
    ensures Matches(s, Tighten("*"))
  {
    assert Tighten("*") == "*" + Tighten("*"[1..]);
    assert s[|s|..] == [];
  }

  /** Only a trailing run of stars is changed. */
  lemma TightenSkips(c: char, p: string)
    requires c != '*' || !AllStars(p)
    ensures Tighten([c] + p) == [c] + Tighten(p)
  {
    assert ([c] + p)[1..] == p;
    if c == '*' {
      var i :| 0 <= i < |p| && p[i] != '*';
      assert ([c] + p)[i + 1] != '*';
    }
  }

  lemma {:induction false} EmptyMatchesStars(p: string)
    ensures Matches([], p) <==> AllStars(p)
  {
    if p != [] && p[0] == '*' {
      EmptyMatchesStars(p[1..]);
      var none: string := [];
      assert none[0..] == none;
      assert AllStars(p[1..]) ==> AllStars(p) by {
        assert p == "*" + p[1..];
      }
      assert AllStars(p) ==> AllStars(p[1..]);
    }
  }

  lemma {:induction false} TightenKeepsLetters(p: string)
    requires !AllStars(p)
    ensures !AllStars(Tighten(p))
  {
    if p[0] == '*' {
      assert p == "*" + p[1..];
      TightenKeepsLetters(p[1..]);
      assert Tighten(p)[1..] == Tighten(p[1..]);
    } else {
      assert Tighten(p)[0] == p[0];
    }
  }

  /** The code never tries the end of the string for what follows `*`: nothing is lost
      unless that is a run of stars alone. */
  lemma SomePlaceButTheEnd(s: string, p: string)
    requires p != [] && (p[0] == '?' || p[0] == '*')
    ensures Matches(s, Tighten("*" + p)) <==> exists k :: 0 <= k < |s| && Matches(s[k..], Tighten(p))
  {
    if AllStars(p) {
      OnlyStars(s, p);
    } else {
      TightenSkips('*', p);
      TightenKeepsLetters(p);
      EmptyMatchesStars(Tighten(p));
      assert s[|s|..] == [];
    }
  }

  lemma OnlyStars(s: string, p: string)
    requires p != [] && AllStars(p)
    ensures Tighten("*" + p) == "?*" && (Matches(s, "?*") <==> s != [])
    ensures s != [] ==> Matches(s[0..], Tighten(p))
  {
    assert AllStars("*" + p);
    if s != [] {
      StarTakesAll(s[1..]);
      assert Tighten("*") == "*";
      assert "?*"[1..] == "*";
      if |p| == 1 {
        assert p == "*";
        StarTakesAll(s[0..]);
      } else {
        assert s[0..][1..] == s[1..];
      }
    }
  }

  // ----- when the code tests for the pattern itself -----

  /** A match found is a match. */
  lemma {:induction false} TightMatchIsMatch(s: string, p: string)
    requires Matches(s, Tighten(p))
    ensures Matches(s, p)
    decreases |p|
  {
    if AllStars(p) && |p| >= 2 {
      StarsTakeAll(s, p);
    } else if p != [] {
      assert Tighten(p)[1..] == Tighten(p[1..]);
      if p[0] == '*' {
        var k :| 0 <= k <= |s| && Matches(s[k..], Tighten(p)[1..]);
        TightMatchIsMatch(s[k..], p[1..]);
      } else {
        TightMatchIsMatch(s[1..], p[1..]);
      }
    }
  }

  lemma {:induction false} StarsTakeAll(s: string, p: string)
    requires p != [] && AllStars(p)
    ensures Matches(s, p)
  {
    if |p| == 1 {
      assert s[|s|..] == [] && p[1..] == [];
    } else {
      StarsTakeAll(s, p[1..]);
      assert s[0..] == s;
    }
  }

  lemma {:induction false} TightenIsIdentity(p: string)
    requires !EndsInTwoStars(p)
    ensures Tighten(p) == p
  {
    if p != [] {
      TightenIsIdentity(p[1..]);
    }
  }

  /** The number of characters every match needs, and a match of that length. */
  function Letters(p: string): nat {
    if p == [] then 0 else (if p[0] == '*' then 0 else 1) + Letters(p[1..])
  }

  function Shortest(p: string): string {
    if p == [] then []
    else (if p[0] == '*' then [] else if p[0] == '?' then "x" else [p[0]]) + Shortest(p[1..])
  }

  lemma {:induction false} ShortestMatches(p: string)
    ensures Matches(Shortest(p), p) && |Shortest(p)| == Letters(p)
  {
    if p != [] {
      ShortestMatches(p[1..]);
      if p[0] == '*' {
        assert Shortest(p)[0..] == Shortest(p[1..]);
      } else {
        assert Shortest(p)[1..] == Shortest(p[1..]);
      }
    }
  }

  lemma {:induction false} MatchesNeedLetters(s: string, p: string)
    requires Matches(s, p)
    ensures |s| >= Letters(p)
    decreases |p|
  {
    if p != [] {
      if p[0] == '*' {
        var k :| 0 <= k <= |s| && Matches(s[k..], p[1..]);
        MatchesNeedLetters(s[k..], p[1..]);
      } else {
        MatchesNeedLetters(s[1..], p[1..]);
      }
    }
  }

  lemma {:induction false} TightenAddsALetter(p: string)
    requires EndsInTwoStars(p)
    ensures Letters(Tighten(p)) == Letters(p) + 1
  {
    if AllStars(p) {
      NoLetters(p);
      assert "?*"[1..] == "*" && "*"[1..] == "";
      assert Letters("*") == 0;
    } else {
      TightenAddsALetter(p[1..]);
      assert Tighten(p)[1..] == Tighten(p[1..]);
    }
  }

  lemma {:induction false} NoLetters(p: string)
    requires AllStars(p)
    ensures Letters(p) == 0
  {
    if p != [] {
      NoLetters(p[1..]);
    }
  }

  /** match_pattern decides the meaning of a pattern for every string exactly when the
      pattern does not end in two stars. */
  lemma ExactUnlessTwoStarsEnd(p: string)
    ensures (forall s :: Matches(s, Tighten(p)) <==> Matches(s, p)) <==> !EndsInTwoStars(p)
  {
    if EndsInTwoStars(p) {
      var s := Shortest(p);
      ShortestMatches(p);
      TightenAddsALetter(p);
      if Matches(s, Tighten(p)) {
        MatchesNeedLetters(s, Tighten(p));
      }
      assert !(Matches(s, Tighten(p)) <==> Matches(s, p));
    } else {
      TightenIsIdentity(p);
    }
  }

  // ----- pattern lists -----

  /** One element of a list: what stands between two commas, without its `!`. */
  datatype Sub = Sub(negated: bool, text: string)

  const SUB_MAX := 1023

  function Lower(c: char): char {
    if 'A' <= c <= 'Z' then c - 'A' + 'a' else c
  }

  /** tolower in the C locale: the capital letters, 65 to 90, become the small ones, 97 to 122,
      and nothing else changes. */
  lemma LowerMeaning(c: char)
    ensures Lower(c) as int == if 65 <= c as int <= 90 then c as int + 32 else c as int
  {
  }

  function LowerAll(s: string): string {
    seq(|s|, i requires 0 <= i < |s| => Lower(s[i]))
  }

  /** The length of the part before the first comma. */
  function UpToComma(p: string): (n: nat)
    ensures n <= |p| && (n < |p| ==> p[n] == ',') && ',' !in p[..n]
  {
    if p == [] || p[0] == ',' then 0
    else
      var n := 1 + UpToComma(p[1..]);
      assert p[..n] == [p[0]] + p[1..][..n - 1];
      n
  }

  function Unbang(p: string): string {
    if p != [] && p[0] == '!' then p[1..] else p
  }

  /** The elements of a list; a trailing comma adds none. */
  function Subs(p: string, dolower: bool): seq<Sub>
    decreases |p|
  {
    if p == [] then []
    else
      var q := Unbang(p);
      var n := UpToComma(q);
      var text := if dolower then LowerAll(q[..n]) else q[..n];
      [Sub(p[0] == '!', text)] + Subs(if n < |q| then q[n + 1..] else [], dolower)
  }

  /** The text of a list of elements. */
  function Joined(subs: seq<Sub>): string {
    if subs == [] then ""
    else (if subs[0].negated then "!" else "") + subs[0].text + "," + Joined(subs[1..])
  }

  /** An element that a list can have: no comma in it, and no exclamation mark in front of one
      that is not negated. */
  predicate Writable(x: Sub) {
    ',' !in x.text && (x.text != [] && x.text[0] == '!' ==> x.negated)
  }

  /** The elements of a list are those it was put together from, in order. */
  lemma {:induction false} SubsOfJoined(subs: seq<Sub>)
    requires forall x <- subs :: Writable(x)
    ensures Subs(Joined(subs), false) == subs
  {
    if subs != [] {
      var x, rest := subs[0], Joined(subs[1..]);
      assert x in subs;
      ElementInFront(x, rest);
      SubsStep(Joined(subs), x.text + "," + rest, rest, false);
      SubsOfJoined(subs[1..]);
    }
  }

  lemma ElementInFront(x: Sub, rest: string)
    requires Writable(x)
    ensures var q := x.text + "," + rest; var p := (if x.negated then "!" else "") + x.text + "," + rest;
      && p != [] && (p[0] == '!' <==> x.negated) && Unbang(p) == q
      && UpToComma(q) == |x.text| < |q| && q[..|x.text|] == x.text && q[|x.text| + 1..] == rest
  {
    var q := x.text + "," + rest;
    assert q[..|x.text|] == x.text;
    forall i | 0 <= i < |x.text| ensures q[i] != ',' {
      assert q[i] == x.text[i] && x.text[i] in x.text;
    }
    CommaAt(q, |x.text|);
    if x.negated {
      assert ("!" + x.text + "," + rest)[1..] == q;
    } else {
      assert "" + x.text + "," + rest == q;
    }
  }

  ghost predicate Hit(s: string, x: Sub) {
    Matches(s, Tighten(x.text))
  }

  /** -1 for a negated element that matches, else 1 if some element matches, else 0; an
      element that is too long ends the search without a match. */
  ghost function Verdict(s: string, subs: seq<Sub>, positive: bool): int
    decreases |subs|
  {
    if subs == [] then (if positive then 1 else 0)
    else if |subs[0].text| >= SUB_MAX then 0
    else if !Hit(s, subs[0]) then Verdict(s, subs[1..], positive)
    else if subs[0].negated then -1
    else Verdict(s, subs[1..], true)
  }

  ghost function Text(q: string, dolower: bool): string {
    var n := UpToComma(q);
    if dolower then LowerAll(q[..n]) else q[..n]
  }

  /** Copies the element at `start` into `sub`, as far as that has room. */
  method ExtractSub(pattern: string, start: nat, dolower: bool, sub: array<char>) returns (subi: nat, i: nat)
    requires start <= |pattern| && sub.Length == SUB_MAX + 1
    modifies sub
    ensures i == start + subi <= |pattern|
    ensures subi == Min(UpToComma(pattern[start..]), SUB_MAX)
    ensures subi < SUB_MAX ==> sub[..subi] == Text(pattern[start..], dolower)
  {
    ghost var q := pattern[start..];
    subi, i := 0, start;
    while i < |pattern| && subi < SUB_MAX && pattern[i] != ','
      invariant subi <= SUB_MAX && i == start + subi <= |pattern|
      invariant ',' !in q[..subi]
      invariant sub[..subi] == if dolower then LowerAll(q[..subi]) else q[..subi]
    {
      sub[subi] := if dolower then Lower(pattern[i]) else pattern[i];
      subi, i := subi + 1, i + 1;
    }
    CommaAt(q, subi);
  }

  /** Where the text of the element at `start` begins, and where the next element does. */
  ghost function TextStart(pattern: string, start: nat): (i: nat)
    requires start < |pattern|
    ensures start <= i <= |pattern|
  {
    if pattern[start] == '!' then start + 1 else start
  }

  ghost function NextStart(pattern: string, start: nat): (i: nat)
    requires start < |pattern|
    ensures start < i <= |pattern|
  {
    var t := TextStart(pattern, start);
    var n := UpToComma(pattern[t..]);
    if t + n < |pattern| then t + n + 1 else t + n
  }

  ghost function SubAt(pattern: string, start: nat, dolower: bool): Sub
    requires start < |pattern|
  {
    Sub(pattern[start] == '!', Text(pattern[TextStart(pattern, start)..], dolower))
  }

  lemma FirstSub(pattern: string, start: nat, dolower: bool)
    requires start < |pattern|
    ensures Subs(pattern[start..], dolower)
         == [SubAt(pattern, start, dolower)] + Subs(pattern[NextStart(pattern, start)..], dolower)
  {
    var p, t := pattern[start..], TextStart(pattern, start);
    var q := pattern[t..];
    DropTwice(pattern, start, t - start);
    var n := UpToComma(q);
    if n < |q| {
      DropTwice(pattern, t, n + 1);
    }
    SubsStep(p, q, pattern[NextStart(pattern, start)..], dolower);
  }

  lemma DropTwice(s: string, a: nat, b: nat)
    requires a + b <= |s|
    ensures s[a..][b..] == s[a + b..]
  {
  }

  lemma SubsStep(p: string, q: string, rest: string, dolower: bool)
    requires p != [] && q == Unbang(p) && rest == (if UpToComma(q) < |q| then q[UpToComma(q) + 1..] else [])
    ensures Subs(p, dolower) == [Sub(p[0] == '!', Text(q, dolower))] + Subs(rest, dolower)
  {
  }

  /** One round of the loop of match_pattern_list. */
  method TrySub(string0: string, pattern: string, start: nat, dolower: bool, sub: array<char>)
    returns (long: bool, negated: bool, hit: bool, i: nat)
    requires start < |pattern| && sub.Length == SUB_MAX + 1
    modifies sub
    ensures var x := SubAt(pattern, start, dolower);
      && negated == x.negated && (long <==> |x.text| >= SUB_MAX)
      && (!long ==> i == NextStart(pattern, start) && (hit <==> Hit(string0, x)))
  {
    i := start;
    negated := pattern[i] == '!';
    if negated {
      i := i + 1;
    }
    ghost var q := pattern[i..];
    assert |Text(q, dolower)| == UpToComma(q);
    var subi;
    subi, i := ExtractSub(pattern, i, dolower, sub);
    if subi >= SUB_MAX {
      return true, negated, false, i;
    }
    if i < |pattern| && pattern[i] == ',' {
      i := i + 1;
    }
    hit := MatchPattern(string0, sub[..subi]);
    long := false;
  }

  /** match_pattern_list */
  method MatchPatternList(string0: string, pattern: string, dolower: bool) returns (r: int)
    ensures r == Verdict(string0, Subs(pattern, dolower), false)
  {
    var sub := new char[SUB_MAX + 1];
    var gotPositive := false;
    var i := 0;
    assert pattern[0..] == pattern;
    while i < |pattern|
      invariant i <= |pattern|
      invariant Verdict(string0, Subs(pattern, dolower), false)
             == Verdict(string0, Subs(pattern[i..], dolower), gotPositive)
    {
      var long, negated, hit, next := TrySub(string0, pattern, i, dolower, sub);
      FirstSub(pattern, i, dolower);
      if long {
        return 0;
      }
      if hit {
        if negated {
          return -1;
        } else {
          gotPositive := true;
        }
      }
      i := next;
    }
    r := if gotPositive then 1 else 0;
  }

  lemma {:induction false} CommaAt(q: string, n: nat)
    requires n <= |q| && ',' !in q[..n]
    ensures UpToComma(q) >= n && (n == |q| || q[n] == ',' ==> UpToComma(q) == n)
  {
    if n > 0 {
      assert q[..n] == [q[0]] + q[1..][..n - 1];
      CommaAt(q[1..], n - 1);
    }
  }

  ghost predicate Short(subs: seq<Sub>) {
    forall i :: 0 <= i < |subs| ==> |subs[i].text| < SUB_MAX
  }

  ghost predicate SomeHit(s: string, subs: seq<Sub>, negated: bool) {
    exists i :: 0 <= i < |subs| && subs[i].negated == negated && Hit(s, subs[i])
  }

  lemma SomeHitSplits(s: string, subs: seq<Sub>, negated: bool)
    requires subs != []
    ensures SomeHit(s, subs, negated)
      <==> (subs[0].negated == negated && Hit(s, subs[0])) || SomeHit(s, subs[1..], negated)
  {
    if i :| 0 <= i < |subs| && subs[i].negated == negated && Hit(s, subs[i]) {
      if i > 0 {
        assert subs[1..][i - 1] == subs[i];
      }
    }
  }

  /** What a verdict says, whatever the list's order: a negated element decides, then a
      positive one. */
  lemma {:induction false} VerdictMeaning(s: string, subs: seq<Sub>, positive: bool)
    requires Short(subs)
    ensures Verdict(s, subs, positive) ==
      if SomeHit(s, subs, true) then -1
      else if positive || SomeHit(s, subs, false) then 1
      else 0
    decreases |subs|
  {
    if subs != [] {
      SomeHitSplits(s, subs, true);
      SomeHitSplits(s, subs, false);
      VerdictMeaning(s, subs[1..], positive);
      VerdictMeaning(s, subs[1..], true);
    }
  }

  lemma OrderDoesNotMatter(s: string, a: seq<Sub>, b: seq<Sub>)
    requires Short(a) && multiset(a) == multiset(b)
    ensures Verdict(s, a, false) == Verdict(s, b, false)
  {
    forall x
      ensures x in a <==> x in b
    {
      assert x in multiset(a) <==> x in multiset(b);
    }
    forall i | 0 <= i < |b|
      ensures |b[i].text| < SUB_MAX
    {
      assert b[i] in a;
    }
    SameHits(s, a, b, true);
    SameHits(s, a, b, false);
    VerdictMeaning(s, a, false);
    VerdictMeaning(s, b, false);
  }

  lemma SameHits(s: string, a: seq<Sub>, b: seq<Sub>, negated: bool)
    requires forall x :: x in a <==> x in b
    ensures SomeHit(s, a, negated) <==> SomeHit(s, b, negated)
  {
    if i :| 0 <= i < |a| && a[i].negated == negated && Hit(s, a[i]) {
      assert a[i] in b;
    }
    if i :| 0 <= i < |b| && b[i].negated == negated && Hit(s, b[i]) {
      assert b[i] in a;
    }
  }

  /** An element of 1023 characters or more hides everything from there on, and the
      positive matches before it too. */
  lemma {:induction false} LongElementEndsSearch(s: string, subs: seq<Sub>, positive: bool, k: nat)
    requires k < |subs| && |subs[k].text| >= SUB_MAX && Short(subs[..k])
    ensures Verdict(s, subs, positive) == if SomeHit(s, subs[..k], true) then -1 else 0
    decreases |subs|
  {
    if k > 0 {
      SomeHitSplits(s, subs[..k], true);
      assert subs[..k][0] == subs[0] && subs[..k][1..] == subs[1..][..k - 1];
      LongElementEndsSearch(s, subs[1..], positive, k - 1);
      LongElementEndsSearch(s, subs[1..], true, k - 1);
    }
  }

  /** The verdict over all elements, however long. */
  ghost function RightVerdict(s: string, subs: seq<Sub>): int {
    if SomeHit(s, subs, true) then -1 else if SomeHit(s, subs, false) then 1 else 0
  }

  /** With the first long element at `k` the verdict is still right if and only if a negated
      element before it matches, or no element of the list does. */
  lemma RightDespiteLongElement(s: string, subs: seq<Sub>, k: nat)
    requires k < |subs| && |subs[k].text| >= SUB_MAX && Short(subs[..k])
    ensures Verdict(s, subs, false) == RightVerdict(s, subs)
      <==> SomeHit(s, subs[..k], true) || forall i :: 0 <= i < |subs| ==> !Hit(s, subs[i])
  {
    LongElementEndsSearch(s, subs, false, k);
    if i :| 0 <= i < k && subs[..k][i].negated && Hit(s, subs[..k][i]) {
      assert subs[i] == subs[..k][i];
    }
  }
}

/** The record file that keeps every board's list of read posts (lib/boardrc.c):
    packed records of a 20-byte name field, a count and the times, rebuilt in a static
    buffer of 50000 bytes. */
module RecordFile {
  import opened Bytes
  import opened ReadList

  const BRC_MAXSIZE := 50000
  const BRC_STRLEN := 20
  const BRC_ITEMSIZE := BRC_STRLEN + 1 + BRC_MAXNUM * 4

  type Name = seq<Byte>

  datatype Record = Record(name: Name, times: seq<Int32>)

  // ----- bytes -----

  /** The C string that starts at `s`, as strlcpy reads it. */
  function CName(s: seq<Byte>): Name {
    if s == [] || s[0] == 0 then [] else [s[0]] + CName(s[1..])
  }

  /** What strlcpy into a field of 20 bytes keeps of a name. */
  function Field(name: Name): Name {
    if |name| < BRC_STRLEN then name else name[..BRC_STRLEN - 1]
  }

  function IntBytes(t: Int32): (s: seq<Byte>)
    ensures |s| == 4
  {
    U32ToBytes(ToUint32(t))
  }

  function TimesBytes(ts: seq<Int32>): (s: seq<Byte>)
    ensures |s| == 4 * |ts|
  {
    if ts == [] then [] else IntBytes(ts[0]) + TimesBytes(ts[1..])
  }

  function BytesTimes(s: seq<Byte>, n: nat): (ts: seq<Int32>)
    requires |s| == 4 * n
    ensures |ts| == n
  {
    if n == 0 then [] else [ToInt32(BytesToU32(s[..4]))] + BytesTimes(s[4..], n - 1)
  }

  lemma {:induction false} TimesRoundTrip(ts: seq<Int32>)
    ensures BytesTimes(TimesBytes(ts), |ts|) == ts
  {
    if ts != [] {
      TimesRoundTrip(ts[1..]);
      TimesStep(ts[0], TimesBytes(ts[1..]), |ts| - 1);
    }
  }

  lemma TimesStep(t: Int32, rest: seq<Byte>, n: nat)
    requires |rest| == 4 * n
    ensures BytesTimes(IntBytes(t) + rest, n + 1) == [t] + BytesTimes(rest, n)
  {
    var s := IntBytes(t) + rest;
    assert s[..4] == IntBytes(t) && s[4..] == rest;
    IntRoundTrip(t);
  }

  lemma IntRoundTrip(t: Int32)
    ensures ToInt32(BytesToU32(IntBytes(t))) == t
  {
    U32RoundTrip(ToUint32(t));
    assert ToUint32(t) == if t < 0 then t + U32 else t;
  }

  /** A scan takes a record only if its first byte is in this range. */
  predicate Starts(b: Byte) {
    32 <= b <= 122
  }

  predicate Readable(name: Name) {
    name != [] && Starts(name[0]) && 0 !in name
  }

  /** The bytes begin with a whole record as brc_putrecord writes them. */
  predicate HasRecord(f: seq<Byte>) {
    |f| > BRC_STRLEN && Starts(f[0]) && 1 <= f[BRC_STRLEN] <= BRC_MAXNUM && RecordLength(f) <= |f|
  }

  function RecordLength(f: seq<Byte>): nat
    requires |f| > BRC_STRLEN
  {
    var num: int := f[BRC_STRLEN];
    BRC_STRLEN + 1 + num * 4
  }

  function FirstRecord(f: seq<Byte>): Record
    requires HasRecord(f)
  {
    Record(CName(f[..BRC_STRLEN - 1]), BytesTimes(f[BRC_STRLEN + 1..RecordLength(f)], f[BRC_STRLEN]))
  }

  predicate WellFormed(f: seq<Byte>) {
    f == [] || (HasRecord(f) && WellFormed(f[RecordLength(f)..]))
  }

  function Records(f: seq<Byte>): seq<Record>
    requires WellFormed(f)
  {
    if f == [] then [] else [FirstRecord(f)] + Records(f[RecordLength(f)..])
  }

  lemma FirstOfAppend(f: seq<Byte>, g: seq<Byte>)
    requires HasRecord(f)
    ensures HasRecord(f + g) && RecordLength(f + g) == RecordLength(f) && FirstRecord(f + g) == FirstRecord(f)
    ensures (f + g)[RecordLength(f)..] == f[RecordLength(f)..] + g
  {
    var n := RecordLength(f);
    assert (f + g)[..BRC_STRLEN - 1] == f[..BRC_STRLEN - 1];
    assert (f + g)[BRC_STRLEN + 1..n] == f[BRC_STRLEN + 1..n];
  }

  lemma {:induction false} RecordsAppend(f: seq<Byte>, g: seq<Byte>)
    requires WellFormed(f) && WellFormed(g)
    ensures WellFormed(f + g) && Records(f + g) == Records(f) + Records(g)
    decreases |f|
  {
    if f == [] {
      assert f + g == g;
    } else {
      FirstOfAppend(f, g);
      var rest := f[RecordLength(f)..];
      RecordsAppend(rest, g);
      assert [FirstRecord(f)] + Records(rest) + Records(g) == [FirstRecord(f)] + (Records(rest) + Records(g));
    }
  }

  lemma {:induction false} CNameOf(name: Name, rest: seq<Byte>)
    requires 0 !in name
    ensures CName(name + [0] + rest) == name && CName(name) == name
  {
    if name == [] {
      assert name + [0] + rest == [0] + rest;
    } else {
      assert (name + [0] + rest)[1..] == name[1..] + [0] + rest;
      CNameOf(name[1..], rest);
    }
  }

  // ----- the two record routines, on the static buffers -----

  /** memcpy into a buffer. */
  method CopyIn(buf: array<Byte>, p: nat, bytes: seq<Byte>)
    requires p + |bytes| <= buf.Length
    modifies buf
    ensures buf[p..p + |bytes|] == bytes
    ensures forall k :: 0 <= k < buf.Length && !(p <= k < p + |bytes|) ==> buf[k] == old(buf[k])
  {
    ghost var was := buf[..];
    for i := 0 to |bytes|
      invariant buf[p..p + i] == bytes[..i]
      invariant forall k :: 0 <= k < buf.Length && !(p <= k < p + i) ==> buf[k] == was[k]
    {
      buf[p + i] := bytes[i];
    }
    assert bytes[..|bytes|] == bytes;
  }

  /** brc_getrecord: at most 60 times are read, but the step is over all there are. */
  method GetRecord(buf: array<Byte>, p: nat) returns (name: Name, times: seq<Int32>, next: nat)
    requires p + BRC_STRLEN < buf.Length
    requires p + BRC_STRLEN + 1 + 4 * Min(buf[p + BRC_STRLEN], BRC_MAXNUM) <= buf.Length
    ensures next == p + RecordLength(buf[p..]) && name == CName(buf[p..p + BRC_STRLEN - 1])
    ensures var n := Min(buf[p + BRC_STRLEN], BRC_MAXNUM);
      times == BytesTimes(buf[p + BRC_STRLEN + 1..p + BRC_STRLEN + 1 + 4 * n], n)
    ensures HasRecord(buf[p..]) ==> next <= buf.Length && Record(name, times) == FirstRecord(buf[p..])
  {
    name := CName(buf[p..p + BRC_STRLEN - 1]);
    var ptr := p + BRC_STRLEN;
    var num: int := buf[ptr];
    ptr := ptr + 1;
    next := ptr + num * 4;
    if num > BRC_MAXNUM {
      num := BRC_MAXNUM;
    }
    times := BytesTimes(buf[ptr..ptr + num * 4], num);
    assert buf[..][p..] == buf[p..];
    if HasRecord(buf[p..]) {
      RecordAt(buf[..], p);
      assert buf[..][p..p + BRC_STRLEN - 1] == buf[p..p + BRC_STRLEN - 1];
      assert buf[..][ptr..ptr + num * 4] == buf[ptr..ptr + num * 4];
    }
  }

  lemma RecordAt(s: seq<Byte>, p: nat)
    requires p + BRC_STRLEN < |s| && HasRecord(s[p..])
    ensures s[p + BRC_STRLEN] == s[p..][BRC_STRLEN]
    ensures var n := s[p + BRC_STRLEN];
      && p + BRC_STRLEN + 1 + 4 * n <= |s|
      && FirstRecord(s[p..]) == Record(CName(s[p..p + BRC_STRLEN - 1]),
                                       BytesTimes(s[p + BRC_STRLEN + 1..p + BRC_STRLEN + 1 + 4 * n], n))
  {
    var f := s[p..];
    assert f[..BRC_STRLEN - 1] == s[p..p + BRC_STRLEN - 1];
    assert f[BRC_STRLEN + 1..RecordLength(f)] == s[p + BRC_STRLEN + 1..p + RecordLength(f)];
  }

  method LayRecord(buf: array<Byte>, p: nat, name: Name, times: seq<Int32>) returns (next: nat)
    requires p + BRC_STRLEN + 1 + 4 * |times| <= buf.Length && 0 < |times| <= BRC_MAXNUM
    modifies buf
    ensures next == p + BRC_STRLEN + 1 + 4 * |times| && buf[p + BRC_STRLEN] == |times|
    ensures buf[p..p + |Field(name)| + 1] == Field(name) + [0]
    ensures buf[p + BRC_STRLEN + 1..next] == TimesBytes(times)
    ensures forall k :: 0 <= k < p ==> buf[k] == old(buf[k])
  {
    CopyIn(buf, p, Field(name) + [0]);
    ghost var n := |Field(name)| + 1;
    ghost var field := buf[p..p + n];
    next := p + BRC_STRLEN;
    buf[next] := |times|;
    next := next + 1;
    CopyIn(buf, next, TimesBytes(times));
    assert buf[p..p + n] == field;
    next := next + 4 * |times|;
  }

  /** brc_putrecord; bytes of the name field behind the terminating 0 stay as they were. */
  method PutRecord(buf: array<Byte>, p: nat, name: Name, times: seq<Int32>) returns (next: nat)
    requires p + (if times == [] then 0 else BRC_STRLEN + 1 + 4 * |times|) <= buf.Length
    requires Readable(name) && |times| <= BRC_MAXNUM
    modifies buf
    ensures next == p + (if times == [] then 0 else BRC_STRLEN + 1 + 4 * |times|)
    ensures buf[..p] == old(buf[..p])
    ensures WellFormed(buf[p..next])
    ensures Records(buf[p..next]) == if times == [] then [] else [Record(Field(name), times)]
  {
    next := p;
    if |times| > 0 {
      next := LayRecord(buf, p, name, times);
      ghost var w, n := buf[p..next], |Field(name)| + 1;
      assert w[..n] == buf[p..p + n] && w[BRC_STRLEN + 1..] == buf[p + BRC_STRLEN + 1..next];
      RecordLaidOut(w, name, times);
    }
  }

  /** The layout of one record, whatever follows the 0 in its name field. */
  lemma RecordLaidOut(w: seq<Byte>, name: Name, times: seq<Int32>)
    requires Readable(name) && 0 < |times| <= BRC_MAXNUM
    requires |w| == BRC_STRLEN + 1 + 4 * |times| && w[BRC_STRLEN] == |times|
    requires w[..|Field(name)| + 1] == Field(name) + [0] && w[BRC_STRLEN + 1..] == TimesBytes(times)
    ensures WellFormed(w) && Records(w) == [Record(Field(name), times)]
  {
    var field := Field(name);
    assert w[0] == (field + [0])[0];
    var head := w[..BRC_STRLEN - 1];
    if |field| < BRC_STRLEN - 1 {
      assert w[..|field| + 1][..] == head[..|field| + 1];
      assert head == field + [0] + head[|field| + 1..];
      CNameOf(field, head[|field| + 1..]);
    } else {
      assert head == w[..|field| + 1][..|field|] == field;
      CNameOf(field, []);
    }
    assert w[BRC_STRLEN + 1..RecordLength(w)] == TimesBytes(times);
    TimesRoundTrip(times);
    assert w[RecordLength(w)..] == [];
  }

  // ----- saving and loading -----

  ghost function Others(rs: seq<Record>, board: Name): seq<Record> {
    if rs == [] then []
    else (if rs[0].name != board then [rs[0]] else []) + Others(rs[1..], board)
  }

  /** The records a scan meets when it stops at byte `limit`. */
  ghost function RecordsBefore(f: seq<Byte>, limit: int): seq<Record>
    requires WellFormed(f)
    decreases |f|
  {
    if f == [] || limit <= 0 then []
    else [FirstRecord(f)] + RecordsBefore(f[RecordLength(f)..], limit - RecordLength(f))
  }

  /** The records it does not meet. */
  ghost function RecordsFrom(f: seq<Byte>, limit: int): seq<Record>
    requires WellFormed(f)
    decreases |f|
  {
    if f == [] then []
    else if limit <= 0 then Records(f)
    else RecordsFrom(f[RecordLength(f)..], limit - RecordLength(f))
  }

  lemma {:induction false} ScanSplits(f: seq<Byte>, limit: int)
    requires WellFormed(f)
    ensures Records(f) == RecordsBefore(f, limit) + RecordsFrom(f, limit)
    decreases |f|
  {
    if f != [] && limit > 0 {
      var n := RecordLength(f);
      ScanSplits(f[n..], limit - n);
      assert Records(f) == [FirstRecord(f)] + Records(f[n..]);
      assert RecordsFrom(f, limit) == RecordsFrom(f[n..], limit - n);
      Associate([FirstRecord(f)], RecordsBefore(f[n..], limit - n), RecordsFrom(f[n..], limit - n));
    } else {
      assert [] + Records(f) == Records(f);
    }
  }

  /** How much of a file of this size brc_update looks at. */
  function ScanLimit(size: nat): nat {
    if size > BRC_MAXSIZE - BRC_ITEMSIZE then BRC_MAXSIZE - BRC_ITEMSIZE * 2 + 1 else size
  }

  /** One record in the loop of brc_update. */
  method CopyNext(buf: array<Byte>, ptr0: nat, p: nat, tmp: array<Byte>, size: nat, t: nat, board: Name)
    returns (ptr: nat, next: nat)
    requires buf != tmp && buf.Length == tmp.Length == BRC_MAXSIZE
    requires ptr0 <= BRC_ITEMSIZE && t < ScanLimit(size) && size <= BRC_MAXSIZE && t < size
    requires ptr0 <= p <= ptr0 + t && Scanned(buf[ptr0..p], tmp[..size], t, ScanLimit(size), board)
    modifies buf
    ensures t < next <= size && next <= t + BRC_ITEMSIZE && ptr0 <= ptr <= ptr0 + next
    ensures buf[..ptr0] == old(buf[..ptr0])
    ensures Scanned(buf[ptr0..ptr], tmp[..size], next, ScanLimit(size), board)
  {
    ghost var f, out := tmp[..size], buf[ptr0..p];
    ghost var rest := f[t..];
    RecordFits(f, t, ScanLimit(size), ptr0, p);
    ptr, next := CopyOne(buf, ptr0, p, tmp, size, t, board, rest);
    assert tmp[..size] == f;
    ScanGoesOn(out, buf[ptr0..ptr], f, t, ScanLimit(size), board);
  }

  /** The loop of brc_update: copies the other boards' records behind `ptr0`. */
  method CopyOthers(buf: array<Byte>, ptr0: nat, tmp: array<Byte>, size: nat, board: Name) returns (ptr: nat)
    requires buf != tmp && buf.Length == tmp.Length == BRC_MAXSIZE
    requires ptr0 <= BRC_ITEMSIZE && size <= BRC_MAXSIZE && WellFormed(tmp[..size])
    modifies buf
    ensures ptr0 <= ptr <= BRC_MAXSIZE
    ensures buf[..ptr0] == old(buf[..ptr0])
    ensures WellFormed(buf[ptr0..ptr])
    ensures Records(buf[ptr0..ptr]) == Others(RecordsBefore(tmp[..size], ScanLimit(size)), board)
  {
    ghost var f := tmp[..size];
    var limit := ScanLimit(size);
    ptr := ptr0;
    var t := 0;
    ScanBegins(f, limit, board);
    assert buf[ptr0..ptr] == [];
    while t < limit && Starts(tmp[t])
      invariant t <= size && ptr0 <= ptr <= ptr0 + t && t <= limit + BRC_ITEMSIZE - 1
      invariant tmp[..size] == f && buf[..ptr0] == old(buf[..ptr0])
      invariant Scanned(buf[ptr0..ptr], f, t, limit, board)
      decreases size - t
    {
      ptr, t := CopyNext(buf, ptr0, ptr, tmp, size, t, board);
    }
    ScanEnds(buf[ptr0..ptr], f, t, limit, board);
  }

  /** With the file read up to byte `t`, `out` has the records to keep so far. */
  ghost predicate Scanned(out: seq<Byte>, f: seq<Byte>, t: nat, limit: int, board: Name) {
    && WellFormed(out) && WellFormed(f) && t <= |f| && WellFormed(f[t..])
    && Records(out) + Others(RecordsBefore(f[t..], limit - t), board) == Others(RecordsBefore(f, limit), board)
  }

  lemma ScanBegins(f: seq<Byte>, limit: int, board: Name)
    requires WellFormed(f)
    ensures Scanned([], f, 0, limit, board)
  {
    assert f[0..] == f;
  }

  lemma RecordFits(f: seq<Byte>, t: nat, limit: int, ptr0: nat, ptr: nat)
    requires t < limit <= |f| <= BRC_MAXSIZE && limit == ScanLimit(|f|) && WellFormed(f[t..])
    requires ptr0 <= BRC_ITEMSIZE && ptr <= ptr0 + t
    ensures |f[t..]| > BRC_STRLEN && ptr + RecordLength(f[t..]) <= BRC_MAXSIZE
    ensures RecordLength(f[t..]) <= BRC_ITEMSIZE
  {
  }

  lemma ScanGoesOn(out: seq<Byte>, out': seq<Byte>, f: seq<Byte>, t: nat, limit: int, board: Name)
    requires Scanned(out, f, t, limit, board) && t < limit && t < |f| && HasRecord(f[t..])
    requires WellFormed(out') && Records(out') == Records(out) + Kept(FirstRecord(f[t..]), board)
    ensures Scanned(out', f, t + RecordLength(f[t..]), limit, board)
  {
    OneMoreRecord(Records(out), f, t, limit, board);
  }

  lemma ScanEnds(out: seq<Byte>, f: seq<Byte>, t: nat, limit: int, board: Name)
    requires Scanned(out, f, t, limit, board) && (t < |f| && t < limit ==> !Starts(f[t]))
    requires limit <= |f|
    ensures Records(out) == Others(RecordsBefore(f, limit), board)
  {
    assert t < |f| ==> f[t..][0] == f[t];
    assert Records(out) + [] == Records(out);
  }

  ghost function Kept(r: Record, board: Name): seq<Record> {
    if r.name != board then [r] else []
  }

  /** One round of that loop. */
  method CopyOne(buf: array<Byte>, start: nat, p: nat, tmp: array<Byte>, size: nat, t: nat, board: Name,
                 ghost rest: seq<Byte>)
    returns (p': nat, next: nat)
    requires buf != tmp && t < size <= tmp.Length && rest == tmp[..size][t..] && WellFormed(rest)
    requires start <= p && p + RecordLength(rest) <= buf.Length && WellFormed(buf[start..p])
    modifies buf
    ensures next == t + RecordLength(rest) <= size && p <= p' <= p + (next - t)
    ensures buf[..start] == old(buf[..start]) && WellFormed(buf[start..p'])
    ensures Records(buf[start..p']) == old(Records(buf[start..p])) + Kept(FirstRecord(rest), board)
  {
    AtRecord(tmp[..], size, t);
    assert tmp[..][t..] == tmp[t..];
    var name, times;
    name, times, next := GetRecord(tmp, t);
    p' := p;
    if name != board {
      p' := PutBehind(buf, start, p, name, times);
    }
  }

  /** brc_putrecord behind the records that start at `start`. */
  method PutBehind(buf: array<Byte>, start: nat, p: nat, name: Name, times: seq<Int32>) returns (next: nat)
    requires start <= p && p + (if times == [] then 0 else BRC_STRLEN + 1 + 4 * |times|) <= buf.Length
    requires Readable(name) && |times| <= BRC_MAXNUM && WellFormed(buf[start..p])
    modifies buf
    ensures next == p + (if times == [] then 0 else BRC_STRLEN + 1 + 4 * |times|)
    ensures buf[..start] == old(buf[..start]) && WellFormed(buf[start..next])
    ensures Records(buf[start..next]) ==
      old(Records(buf[start..p])) + if times == [] then [] else [Record(Field(name), times)]
  {
    ghost var was, had := buf[..p], buf[start..p];
    assert was[start..] == had;
    next := PutRecord(buf, p, name, times);
    ghost var now := buf[..];
    assert now[start..next] == buf[start..next] && now[p..next] == buf[p..next];
    SameParts(was, now, start, p);
    TwoParts(now, start, p, next);
  }

  lemma SameParts(was: seq<Byte>, s: seq<Byte>, start: nat, p: nat)
    requires start <= p == |was| <= |s| && s[..p] == was
    ensures s[..start] == was[..start] && s[start..p] == was[start..p]
  {
  }

  lemma TwoParts(s: seq<Byte>, start: nat, m: nat, n: nat)
    requires start <= m <= n <= |s| && WellFormed(s[start..m]) && WellFormed(s[m..n])
    ensures WellFormed(s[start..n]) && Records(s[start..n]) == Records(s[start..m]) + Records(s[m..n])
  {
    assert s[start..n] == s[start..m] + s[m..n];
    RecordsAppend(s[start..m], s[m..n]);
  }

  /** Behind whole records of a file the buffer again begins with a record. */
  lemma AtRecord(tmp: seq<Byte>, size: nat, t: nat)
    requires t < size <= |tmp| && WellFormed(tmp[..size][t..])
    ensures HasRecord(tmp[t..]) && FirstRecord(tmp[t..]) == FirstRecord(tmp[..size][t..])
    ensures RecordLength(tmp[t..]) == RecordLength(tmp[..size][t..]) <= size - t
    ensures GoodRecord(FirstRecord(tmp[t..]))
    ensures RecordLength(tmp[t..]) == BRC_STRLEN + 1 + 4 * |FirstRecord(tmp[t..]).times|
  {
    var f := tmp[..size][t..];
    assert tmp[t..] == f + tmp[size..];
    FirstOfAppend(f, tmp[size..]);
    FirstIsGood(f);
  }

  ghost predicate GoodRecord(r: Record) {
    Readable(r.name) && |r.name| < BRC_STRLEN && 0 < |r.times| <= BRC_MAXNUM
  }

  lemma FirstIsGood(f: seq<Byte>)
    requires HasRecord(f)
    ensures GoodRecord(FirstRecord(f))
  {
    CNameFacts(f[..BRC_STRLEN - 1]);
  }

  lemma {:induction false} CNameFacts(s: seq<Byte>)
    ensures 0 !in CName(s) && |CName(s)| <= |s|
  {
    if s != [] && s[0] != 0 {
      CNameFacts(s[1..]);
    }
  }

  lemma OneMoreRecord(kept: seq<Record>, f: seq<Byte>, t: nat, limit: int, board: Name)
    requires t < |f| && t < limit && WellFormed(f[t..])
    ensures var r := FirstRecord(f[t..]); var next := t + RecordLength(f[t..]);
      next <= |f| && WellFormed(f[next..])
      && kept + Others(RecordsBefore(f[t..], limit - t), board)
         == kept + Kept(r, board) + Others(RecordsBefore(f[next..], limit - next), board)
  {
    var next := t + RecordLength(f[t..]);
    assert f[t..][RecordLength(f[t..])..] == f[next..];
    var r, rest := FirstRecord(f[t..]), RecordsBefore(f[next..], limit - next);
    assert RecordsBefore(f[t..], limit - t) == [r] + rest;
    assert ([r] + rest)[1..] == rest;
    assert kept + ([r] + Others(rest, board)) == kept + [r] + Others(rest, board);
  }

  ghost function Lookup(rs: seq<Record>, board: Name): Option<seq<Int32>> {
    if rs == [] then None
    else if rs[0].name == board then Some(rs[0].times)
    else Lookup(rs[1..], board)
  }

  /** The record brc_update writes first. */
  ghost function Own(name: Name, times: seq<Int32>): seq<Record> {
    if times == [] then [] else [Record(name, times)]
  }

  class Store {
    const buf: array<Byte>
    const marks: Marks
    var size: nat
    var name: Name
    // The user's .boardrc, None when there is none.
    var file: Option<seq<Byte>>

    ghost predicate Valid()
      reads this, buf, marks
    {
      && buf.Length == BRC_MAXSIZE && size <= BRC_MAXSIZE && marks.Valid()
      && (buf[0] == 0 || WellFormed(buf[..size]))
      && WellFormed(Stored()) && |Stored()| <= BRC_MAXSIZE
      && (marks.changed ==> Readable(name) && |name| < BRC_STRLEN)
    }

    constructor (file: Option<seq<Byte>>)
      requires file.Some? ==> WellFormed(file.value) && |file.value| <= BRC_MAXSIZE
      ensures Valid() && fresh(buf) && fresh(marks) && fresh(marks.list) && this.file == file
    {
      buf := new Byte[BRC_MAXSIZE](_ => 0);
      marks := new Marks();
      size, name, this.file := 0, [], file;
    }

    function Stored(): seq<Byte>
      reads this
    {
      match file
      case None => []
      case Some(bytes) => bytes
    }

    /** The part of brc_update that fills the buffer, from the old file's contents. The
        rebuilt records never outgrow its 50000 bytes. */
    method Rebuild(stored: seq<Byte>, board: Name) returns (ptr: nat)
      requires Valid() && Readable(name) && |name| < BRC_STRLEN
      requires WellFormed(stored) && |stored| <= BRC_MAXSIZE
      modifies buf
      ensures ptr <= BRC_MAXSIZE && WellFormed(buf[..ptr])
      ensures Records(buf[..ptr]) == Rebuilt(name, marks.Contents(), stored, board)
    {
      var tmp := new Byte[BRC_MAXSIZE](_ => 0);
      CopyIn(tmp, 0, stored);
      assert tmp[..|stored|] == stored;
      var ptr0 := PutRecord(buf, 0, name, marks.list[..marks.num]);
      ghost var own := buf[..ptr0];
      assert buf[0..ptr0] == own;
      ptr := CopyOthers(buf, ptr0, tmp, |stored|, board);
      assert buf[..ptr0] == own;
      TwoParts(buf[..], 0, ptr0, ptr);
      assert buf[..][0..ptr] == buf[..ptr] && buf[..][ptr0..ptr] == buf[ptr0..ptr];
    }

    /** brc_update: saves a pending list. */
    method Update(board: Name)
      requires Valid()
      modifies this`size, this`file, buf, marks`changed
      ensures Valid() && !marks.changed
      ensures !old(marks.changed) ==> buf[..] == old(buf[..]) && size == old(size) && file == old(file)
      ensures old(marks.changed) ==>
                && file == Some(buf[..size]) && WellFormed(buf[..size])
                && Records(Stored()) == Rebuilt(name, marks.Contents(), old(Stored()), board)
    {
      if !marks.changed {
        return;
      }
      size := Rebuild(Stored(), board);
      file := Some(buf[..size]);
      marks.changed := false;
    }

    /** The loop of brc_initial: whether a record of the board is there, and its list. */
    method Find(board: Name) returns (found: bool)
      requires Valid() && WellFormed(buf[..size]) && |board| < BRC_STRLEN
      modifies this`name, marks`num, marks.list
      ensures marks.Valid()
      ensures Lookup(Records(buf[..size]), board) == if found then Some(marks.Contents()) else None
      ensures found ==> name == board
    {
      var ptr := 0;
      ghost var f := buf[..size];
      assert f[0..] == f;
      while ptr < size && Starts(buf[ptr])
        invariant ptr <= size && WellFormed(f[ptr..]) && marks.Valid() && buf[..size] == f
        invariant Lookup(Records(f), board) == Lookup(Records(f[ptr..]), board)
        decreases size - ptr
      {
        AtRecord(buf[..], size, ptr);
        assert buf[..][ptr..] == buf[ptr..];
        var times, next;
        name, times, next := GetRecord(buf, ptr);
        marks.Load(times);
        assert f[ptr..][RecordLength(f[ptr..])..] == f[next..];
        if name == board {
          return true;
        }
        ptr := next;
      }
      found := false;
    }

    /** brc_initial: saves what is pending, then loads the list of `board`, from the buffer
        if that is filled and else from the file; a board without a record starts with 1. */
    method Initial(board: Name) returns (num: nat)
      requires Valid() && Readable(board) && |board| < BRC_STRLEN
      modifies this`size, this`file, this`name, buf, marks, marks.list
      ensures Valid() && !marks.changed && name == board
      ensures old(!marks.changed && (buf[0] == 0 || buf[..size] == Stored())) ==>
                && file == old(file)
                && marks.Contents() == Loaded(old(Stored()), board)
      ensures old(marks.changed) ==>
                marks.Contents() == Pick(Rebuilt(old(name), old(marks.Contents()), old(Stored()), board), board)
    {
      Update(board);
      marks.changed := false;
      num := LoadList(board);
    }

    /** brc_fcgi_init: forgets the buffer first, so that the list comes from the file, or
        from what a pending list makes of it. */
    method FcgiInit(board: Name) returns (num: nat)
      requires Valid() && Readable(board) && |board| < BRC_STRLEN
      modifies this`size, this`file, this`name, buf, marks, marks.list
      ensures Valid() && !marks.changed && name == board
      ensures !old(marks.changed) ==> file == old(file) && marks.Contents() == Loaded(Stored(), board)
      ensures old(marks.changed) ==>
                marks.Contents() == Pick(Rebuilt(old(name), old(marks.Contents()), old(Stored()), board), board)
    {
      buf[0] := 0;
      num := Initial(board);
    }

    /** brc_update and then brc_initial, at once or on the next visit, give the list back. */
    method SaveThenLoad(board: Name, nextVisit: bool)
      requires Valid() && marks.changed && name == board && marks.Contents() != []
      modifies this`size, this`file, this`name, buf, marks, marks.list
      ensures Valid() && name == board && marks.Contents() == old(marks.Contents())
      ensures forall b :: b != board && |old(Stored())| <= BRC_MAXSIZE - BRC_ITEMSIZE ==>
                Loaded(Stored(), b) == Loaded(old(Stored()), b)
    {
      Update(board);
      OwnListIsSaved(name, marks.Contents(), old(Stored()));
      forall b | b != board && |old(Stored())| <= BRC_MAXSIZE - BRC_ITEMSIZE
        ensures Loaded(Stored(), b) == Loaded(old(Stored()), b)
      {
        OtherListsAreKept(name, marks.Contents(), old(Stored()), b);
      }
      var num;
      if nextVisit {
        num := FcgiInit(board);
      } else {
        num := Initial(board);
      }
    }

    method LoadList(board: Name) returns (num: nat)
      requires Valid() && !marks.changed && Readable(board) && |board| < BRC_STRLEN
      modifies this`size, this`name, buf, marks`num, marks.list
      ensures Valid() && name == board
      ensures old(buf[0] == 0 || buf[..size] == Stored()) ==> marks.Contents() == Loaded(Stored(), board)
    {
      if buf[0] == 0 {
        ReadFile();
      }
      var found := Find(board);
      if found {
        return marks.num;
      }
      name := Field(board);
      marks.Load([1]);
      num := 0;
    }

    method ReadFile()
      requires Valid()
      modifies this`size, buf
      ensures Valid() && buf[..size] == Stored()
    {
      var stored := Stored();
      CopyIn(buf, 0, stored);
      size := |stored|;
      assert buf[0..size] == buf[..size];
    }
  }

  /** The list a board gets from these records. */
  ghost function Pick(rs: seq<Record>, board: Name): seq<Int32> {
    match Lookup(rs, board)
    case Some(times) => times
    case None => [1]
  }

  ghost function Loaded(f: seq<Byte>, board: Name): seq<Int32>
    requires WellFormed(f)
  {
    Pick(Records(f), board)
  }

  /** The records after saving the list `times` of board `name`. */
  ghost function Rebuilt(name: Name, times: seq<Int32>, stored: seq<Byte>, board: Name): seq<Record>
    requires WellFormed(stored)
  {
    Own(name, times) + Others(RecordsBefore(stored, ScanLimit(|stored|)), board)
  }

  /** A board without a record has read nothing: of its posts those later than time 1 are unread. */
  lemma FirstVisit(f: seq<Byte>, board: Name, t: int)
    requires WellFormed(f) && forall i :: 0 <= i < |Records(f)| ==> Records(f)[i].name != board
    ensures Loaded(f, board) == [1] && (Unread(Loaded(f, board), t) <==> t > 1)
  {
    var one: seq<int> := [1];
    assert one[0] == 1 && one[1..] == [];
    assert !ScanUnread(one[1..], t);
    if Lookup(Records(f), board).Some? {
      var i := FoundIsThere(Records(f), board);
    }
  }

  lemma OwnListIsSaved(board: Name, times: seq<Int32>, stored: seq<Byte>)
    requires WellFormed(stored) && times != []
    ensures Pick(Rebuilt(board, times, stored, board), board) == times
  {
  }

  lemma {:induction false} WholeScan(f: seq<Byte>, limit: int)
    requires WellFormed(f) && limit >= |f|
    ensures RecordsBefore(f, limit) == Records(f)
    decreases |f|
  {
    if f != [] {
      var n := RecordLength(f);
      WholeScan(f[n..], limit - n);
      assert Records(f) == [FirstRecord(f)] + Records(f[n..]);
      assert RecordsBefore(f, limit) == [FirstRecord(f)] + RecordsBefore(f[n..], limit - n);
    }
  }

  lemma {:induction false} LookupInBoth(rs: seq<Record>, more: seq<Record>, b: Name)
    ensures Lookup(rs + more, b) == if Lookup(rs, b).Some? then Lookup(rs, b) else Lookup(more, b)
  {
    if rs == [] {
      assert rs + more == more;
    } else {
      assert (rs + more)[1..] == rs[1..] + more;
      LookupInBoth(rs[1..], more, b);
    }
  }

  lemma {:induction false} LookupFinds(rs: seq<Record>, i: nat)
    requires i < |rs|
    ensures Lookup(rs, rs[i].name).Some?
  {
    if i > 0 {
      LookupFinds(rs[1..], i - 1);
    }
  }

  lemma {:induction false} FoundIsThere(rs: seq<Record>, b: Name) returns (i: nat)
    requires Lookup(rs, b).Some?
    ensures i < |rs| && rs[i].name == b
  {
    if rs[0].name == b {
      i := 0;
    } else {
      i := FoundIsThere(rs[1..], b);
      i := i + 1;
    }
  }

  lemma {:induction false} LookupInOthers(rs: seq<Record>, board: Name, b: Name)
    ensures Lookup(Others(rs, board), b) == if b == board then None else Lookup(rs, b)
  {
    if rs != [] {
      LookupInOthers(rs[1..], board, b);
      if rs[0].name != board {
        assert Others(rs, board)[1..] == Others(rs[1..], board);
      } else {
        assert Others(rs, board) == Others(rs[1..], board);
      }
    }
  }

  lemma LookupRebuilt(board: Name, times: seq<Int32>, stored: seq<Byte>, b: Name)
    requires WellFormed(stored) && b != board
    ensures Lookup(Rebuilt(board, times, stored, board), b) == Lookup(RecordsBefore(stored, ScanLimit(|stored|)), b)
  {
    var met := RecordsBefore(stored, ScanLimit(|stored|));
    LookupInOthers(met, board, b);
    LookupInBoth(Own(board, times), Others(met, board), b);
  }

  /** When the file is short enough to be read to its end, saving changes the list of no
      board but those of the pending list and of the call. */
  lemma OtherListsAreKept(board: Name, times: seq<Int32>, stored: seq<Byte>, b: Name)
    requires WellFormed(stored) && |stored| <= BRC_MAXSIZE - BRC_ITEMSIZE && b != board
    ensures Pick(Rebuilt(board, times, stored, board), b) == Pick(Records(stored), b)
  {
    WholeScan(stored, |stored|);
    LookupRebuilt(board, times, stored, b);
  }

  /** A long file always loses records: a whole one begins behind the part looked at. */
  lemma LongFilesLoseRecords(stored: seq<Byte>)
    requires WellFormed(stored)
    ensures RecordsFrom(stored, ScanLimit(|stored|)) != [] <==> |stored| > BRC_MAXSIZE - BRC_ITEMSIZE
  {
    if |stored| > BRC_MAXSIZE - BRC_ITEMSIZE {
      LastRecordIsBehind(stored, ScanLimit(|stored|));
    } else {
      WholeScan(stored, |stored|);
      ScanSplits(stored, |stored|);
      assert |Records(stored)| == |Records(stored)| + |RecordsFrom(stored, |stored|)|;
    }
  }

  lemma {:induction false} LastRecordIsBehind(f: seq<Byte>, limit: int)
    requires WellFormed(f) && f != [] && limit <= |f| - BRC_ITEMSIZE
    ensures RecordsFrom(f, limit) != []
    decreases |f|
  {
    if limit > 0 {
      LastRecordIsBehind(f[RecordLength(f)..], limit - RecordLength(f));
    }
  }

  ghost predicate OthersSurvive(board: Name, times: seq<Int32>, stored: seq<Byte>)
    requires WellFormed(stored)
  {
    forall b :: b != board ==> Lookup(Rebuilt(board, times, stored, board), b) == Lookup(Records(stored), b)
  }

  /** Whatever the size of the file: no other board loses its record if and only if each
      record that is not looked at is the board's own or repeats a name that was met. */
  lemma WhoLosesRecords(board: Name, times: seq<Int32>, stored: seq<Byte>)
    requires WellFormed(stored)
    ensures var limit := ScanLimit(|stored|);
      var met, dropped := RecordsBefore(stored, limit), RecordsFrom(stored, limit);
      OthersSurvive(board, times, stored)
      <==> forall i :: 0 <= i < |dropped| ==> dropped[i].name == board || Lookup(met, dropped[i].name).Some?
  {
    var limit := ScanLimit(|stored|);
    var met, dropped := RecordsBefore(stored, limit), RecordsFrom(stored, limit);
    forall b | b != board
      ensures Lookup(Rebuilt(board, times, stored, board), b) == Lookup(met, b)
      ensures Lookup(Records(stored), b) == if Lookup(met, b).Some? then Lookup(met, b) else Lookup(dropped, b)
    {
      LookupRebuilt(board, times, stored, b);
      ScanSplits(stored, limit);
      LookupInBoth(met, dropped, b);
    }
    if OthersSurvive(board, times, stored) {
      forall i | 0 <= i < |dropped| && dropped[i].name != board
        ensures Lookup(met, dropped[i].name).Some?
      {
        LookupFinds(dropped, i);
      }
    } else {
      var b :| b != board && Lookup(Rebuilt(board, times, stored, board), b) != Lookup(Records(stored), b);
      var i := FoundIsThere(dropped, b);
    }
  }

  /** Saving while another board is being opened loses that board's record. */
  lemma PendingListOfAnotherBoard(name: Name, times: seq<Int32>, stored: seq<Byte>, board: Name)
    requires WellFormed(stored)
    ensures Lookup(Rebuilt(name, times, stored, board), board)
         == if name == board && times != [] then Some(times) else None
  {
    var met := RecordsBefore(stored, ScanLimit(|stored|));
    LookupInOthers(met, board, board);
    LookupInBoth(Own(name, times), Others(met, board), board);
  }
}

/** The growable buffer (libssh/buffer.c): data is appended at `used` and read at `pos`. */
module Buffer {
  import opened Bytes
  import opened Fields

  predicate IsPow2(n: nat) {
    n == 1 || (n > 1 && n % 2 == 0 && IsPow2(n / 2))
  }

  lemma {:induction false} NextPow2(a: nat, b: nat)
    requires IsPow2(a) && IsPow2(b) && a < b
    ensures 2 * a <= b
  {
    if a > 1 {
      NextPow2(a / 2, b / 2);
    }
  }

  lemma Twice(n: nat)
    requires IsPow2(n)
    ensures IsPow2(2 * n)
  {
    assert 2 * n / 2 == n && 2 * n % 2 == 0;
  }

  lemma Times32(n: nat)
    requires IsPow2(n)
    ensures IsPow2(32 * n)
  {
    Twice(n);
    Twice(2 * n);
    Twice(4 * n);
    Twice(8 * n);
    Twice(16 * n);
  }

  lemma LargestIsPow2()
    ensures IsPow2(BUFFER_MAX)
  {
    Times32(1);
    Times32(0x20);
    Times32(0x400);
    Times32(0x8000);
    Times32(0x10_0000);
    Times32(0x200_0000);
  }

  /** Unsigned 32-bit addition. */
  function Add32(a: Uint32, b: Uint32): Uint32 {
    if a + b < U32 then a + b else a + b - U32
  }

  /** memcpy(data + at, d, len) */
  method CopyTo(data: array<Byte>, at: nat, d: seq<Byte>)
    requires at + |d| <= data.Length
    modifies data
    ensures data[..at] == old(data[..at]) && data[at..at + |d|] == d && data[at + |d|..] == old(data[at + |d|..])
  {
    forall i | 0 <= i < |d| {
      data[at + i] := d[i];
    }
  }

  /** memmove(data + by, data, len) */
  method MoveUp(data: array<Byte>, len: nat, shift: nat)
    requires len + shift <= data.Length
    modifies data
    ensures data[shift..shift + len] == old(data[..len])
  {
    forall i | 0 <= i < len {
      data[shift + i] := data[i];
    }
  }

  lemma SliceOfSum<T>(a: seq<T>, b: seq<T>, k: nat)
    requires k <= |a|
    ensures (a + b)[k..] == a[k..] + b
  {
  }

  class Buffer {
    var data: array<Byte>
    var used: Uint32
    var pos: Uint32
    var capacity: Uint32

    ghost predicate Valid()
      reads this
    {
      && pos <= used <= capacity == data.Length <= BUFFER_MAX
      && (capacity == 0 || IsPow2(capacity))
    }

    ghost function Contents(): (s: seq<Byte>)
      requires Valid()
      reads this, data
      ensures |s| == used
    {
      data[..used]
    }

    /** The octets not read yet. */
    ghost function Rest(): (s: seq<Byte>)
      requires Valid()
      reads this, data
      ensures |s| == used - pos
    {
      Contents()[pos..]
    }

    constructor ()
      ensures Valid() && Contents() == [] && Rest() == [] && fresh(data)
    {
      data := new Byte[0];
      used, pos, capacity := 0, 0, 0;
    }

    /** realloc_buffer: the new size is the least power of two that is enough. */
    method Realloc(needed: int)
      requires Valid() && needed <= BUFFER_MAX && (used <= needed || used == 0)
      modifies this`data, this`capacity
      ensures Valid() && fresh(data)
      ensures needed <= capacity && (capacity == 1 || capacity / 2 < needed)
      ensures forall i :: 0 <= i < old(data).Length && i < data.Length ==> data[i] == old(data[i])
    {
      var smallest := 1;
      while smallest < needed
        invariant 1 <= smallest <= BUFFER_MAX && IsPow2(smallest)
        invariant smallest == 1 || smallest / 2 < needed
        invariant data == old(data) && capacity == old(capacity)
      {
        LargestIsPow2();
        NextPow2(smallest, BUFFER_MAX);
        smallest := smallest * 2;
      }
      var block := new Byte[smallest];
      forall i | 0 <= i < data.Length && i < smallest {
        block[i] := data[i];
      }
      data, capacity := block, smallest;
    }

    /** buffer_reinit */
    method Reinit()
      requires Valid()
      modifies this, data
      ensures Valid() && Contents() == [] && pos == 0
      ensures capacity == if old(capacity) > 127 then 128 else old(capacity)
      ensures forall i :: 0 <= i < old(used) && i < capacity ==> data[i] == 0
      ensures data == old(data) || fresh(data)
    {
      forall i | 0 <= i < used {
        data[i] := 0;
      }
      used, pos := 0, 0;
      if capacity > 127 {
        Realloc(127);
        assert IsPow2(128);
        Least(capacity);
      }
    }

    static lemma Least(n: nat)
      requires IsPow2(n) && 127 <= n && n / 2 < 127
      ensures n == 128
    {
      assert IsPow2(128);
      if n < 128 {
        NextPow2(n, 128);
      } else if n > 128 {
        NextPow2(128, n);
      }
    }

    /** Room for `n` more octets. */
    method MakeRoom(n: nat)
      requires Valid() && used + n <= BUFFER_MAX
      modifies this`data, this`capacity
      ensures Valid() && (data == old(data) || fresh(data)) && used + n <= capacity
      ensures Contents() == old(Contents())
    {
      if capacity < used + n {
        Realloc(used + n);
        assert Contents() == old(Contents());
      }
    }

    method AddData(d: seq<Byte>)
      requires Valid() && used + |d| <= BUFFER_MAX
      modifies this, data
      ensures Valid() && (data == old(data) || fresh(data))
      ensures pos == old(pos) && Contents() == old(Contents()) + d
      ensures Rest() == old(Rest()) + d
    {
      ghost var before := Contents();
      MakeRoom(|d|);
      CopyTo(data, used, d);
      used := used + |d|;
      assert Contents() == before + d by {
        assert data[..used - |d|] == before;
      }
      SliceOfSum(before, d, pos);
    }

    /** The position is not moved, so unread octets keep their place only if none was read. */
    method PrependData(d: seq<Byte>)
      requires Valid() && used + |d| <= BUFFER_MAX
      modifies this, data
      ensures Valid() && (data == old(data) || fresh(data))
      ensures pos == old(pos) && Contents() == d + old(Contents())
      ensures Rest() == (d + old(Contents()))[pos..]
      ensures pos == 0 ==> Rest() == d + old(Rest())
    {
      ghost var before := Contents();
      MakeRoom(|d|);
      MoveUp(data, used, |d|);
      CopyTo(data, 0, d);
      used := used + |d|;
      assert Contents() == d + before by {
        assert data[..|d|] == d && data[|d|..used] == before;
      }
    }

    /** Skips `len` octets, unless fewer are left. The check is on the wrapped sum, so a length
        that wraps it moves the position backwards instead. */
    method PassBytes(len: Uint32) returns (n: Uint32)
      requires Valid()
      modifies this`pos, this`used
      ensures Valid()
      ensures old(pos) + len < U32 ==> n == if len <= |old(Rest())| then len else 0
      ensures old(pos) + len < U32 ==> Rest() == old(Rest())[n..]
      ensures old(pos) + len < U32 && len == |old(Rest())| ==> pos == used == 0
      ensures old(pos) + len >= U32 ==> n == len && pos == old(pos) + len - U32 < old(pos) && used == old(used)
    {
      if used < Add32(pos, len) {
        return 0;
      }
      pos := Add32(pos, len);
      if pos == used {
        pos := 0;
        used := 0;
      }
      return len;
    }

    /** Drops `len` octets from the end, unless fewer are left; a length that wraps the sum of
        the check makes the buffer claim more octets than it had. */
    method PassBytesEnd(len: Uint32) returns (n: Uint32)
      requires Valid()
      modifies this`used
      ensures old(pos) + len < U32 ==> Valid() && n == if len <= |old(Rest())| then len else 0
      ensures old(pos) + len < U32 ==> Rest() == old(Rest())[..|old(Rest())| - n]
      ensures old(pos) + len >= U32 ==> n == len && used == old(used) + (U32 - len) > old(used)
    {
      if used < Add32(pos, len) {
        return 0;
      }
      ghost var rest := Rest();
      used := if len <= used then used - len else used - len + U32;
      assert pos + len < U32 ==> Rest() == rest[..|rest| - len];
      return len;
    }

    /** buffer_get_data: here a sum that wraps is refused. */
    method GetData(len: Uint32) returns (n: Uint32, d: seq<Byte>)
      requires Valid()
      modifies this`pos
      ensures Valid()
      ensures n == if len <= |old(Rest())| then len else 0
      ensures d == old(Rest())[..n] && Rest() == old(Rest())[n..]
    {
      if Add32(pos, len) < len || Add32(pos, len) > used {
        return 0, [];
      }
      d := data[pos..pos + len];
      pos := pos + len;
      return len, d;
    }

    method AddU8(b: Byte)
      requires Valid() && used + 1 <= BUFFER_MAX
      modifies this, data
      ensures Valid() && (data == old(data) || fresh(data))
      ensures Rest() == old(Rest()) + U8(b).Encode()
      ensures used == old(used) + 1
    {
      AddData([b]);
    }

    method AddU32(n: Uint32)
      requires Valid() && used + 4 <= BUFFER_MAX
      modifies this, data
      ensures Valid() && (data == old(data) || fresh(data))
      ensures Rest() == old(Rest()) + Word(n).Encode()
      ensures used == old(used) + 4
    {
      AddData(U32ToBytes(n));
    }

    method AddU64(n: Uint64)
      requires Valid() && used + 8 <= BUFFER_MAX
      modifies this, data
      ensures Valid() && (data == old(data) || fresh(data))
      ensures Rest() == old(Rest()) + Long(n).Encode()
      ensures used == old(used) + 8
    {
      AddData(U64ToBytes(n));
    }

    method AddSshString(s: seq<Byte>)
      requires Valid() && used + 4 + |s| <= BUFFER_MAX
      modifies this, data
      ensures Valid() && (data == old(data) || fresh(data))
      ensures Rest() == old(Rest()) + Text(s).Encode()
      ensures used == old(used) + 4 + |s|
    {
      AddData(WireString(s));
    }

    method GetU8() returns (r: Option<Field>)
      requires Valid()
      modifies this`pos
      ensures Valid() && r == Take(KindU8, old(Rest()))
      ensures Rest() == if r.None? then old(Rest()) else old(Rest())[1..]
    {
      var n, d := GetData(1);
      return if n == 0 then None else Some(U8(d[0]));
    }

    method GetU32() returns (r: Option<Field>)
      requires Valid()
      modifies this`pos
      ensures Valid() && r == Take(KindU32, old(Rest()))
      ensures Rest() == if r.None? then old(Rest()) else old(Rest())[4..]
    {
      var n, d := GetData(4);
      return if n == 0 then None else Some(Word(BytesToU32(d)));
    }

    method GetU64() returns (r: Option<Field>)
      requires Valid()
      modifies this`pos
      ensures Valid() && r == Take(KindU64, old(Rest()))
      ensures Rest() == if r.None? then old(Rest()) else old(Rest())[8..]
    {
      var n, d := GetData(8);
      return if n == 0 then None else Some(Long(BytesToU64(d)));
    }

    /** A string is returned exactly when it is all there. A length without its octets is
        consumed. The first test passes a sum that wraps; the read behind it refuses that. */
    method GetSshString() returns (r: Option<Field>)
      requires Valid()
      modifies this`pos
      ensures Valid() && r == Take(KindString, old(Rest()))
      ensures r.Some? ==> Rest() == old(Rest())[4 + |r.value.text|..]
      ensures r.None? ==> Rest() == if |old(Rest())| < 4 then old(Rest()) else old(Rest())[4..]
    {
      var length := GetU32();
      if length.None? {
        return None;
      }
      var hostlen := length.value.word;
      if Add32(pos, hostlen) > used {
        return None;
      }
      var n, d := GetData(hostlen);
      if n != hostlen {
        return None;
      }
      assert d == old(Rest())[4..4 + hostlen];
      return Some(Text(d));
    }
  }

  method AddField(b: Buffer, f: Field)
    requires b.Valid() && f.Fits() && b.used + |f.Encode()| <= BUFFER_MAX
    modifies b, b.data
    ensures b.Valid() && (b.data == old(b.data) || fresh(b.data))
    ensures b.Rest() == old(b.Rest()) + f.Encode() && b.used == old(b.used) + |f.Encode()|
  {
    match f
    case U8(octet) => b.AddU8(octet);
    case Word(n) => b.AddU32(n);
    case Long(n) => b.AddU64(n);
    case Text(s) => b.AddSshString(s);
  }

  method GetField(b: Buffer, kind: Kind) returns (r: Option<Field>)
    requires b.Valid()
    modifies b`pos
    ensures b.Valid() && r == Take(kind, old(b.Rest()))
    ensures r.Some? ==> r.value.Encode() <= old(b.Rest()) && b.Rest() == old(b.Rest())[|r.value.Encode()|..]
  {
    ghost var rest := b.Rest();
    match kind {
      case KindU8 => r := b.GetU8();
      case KindU32 => r := b.GetU32();
      case KindU64 => r := b.GetU64();
      case KindString => r := b.GetSshString();
    }
    if r.Some? {
      TakenIsEncoded(kind, rest, r.value);
    }
  }

  /** A caller that appends fields one after the other. */
  method AddFields(b: Buffer, fields: seq<Field>)
    requires b.Valid() && AllFit(fields) && b.used + |EncodeAll(fields)| <= BUFFER_MAX
    modifies b, b.data
    ensures b.Valid() && (b.data == old(b.data) || fresh(b.data))
    ensures b.Rest() == old(b.Rest()) + EncodeAll(fields)
    decreases |fields|
  {
    if fields != [] {
      AddField(b, fields[0]);
      AddFields(b, fields[1..]);
      Associate(old(b.Rest()), fields[0].Encode(), EncodeAll(fields[1..]));
    }
  }

  /** A caller that reads fields one after the other and stops at the first that is not there. */
  method GetFields(b: Buffer, kinds: seq<Kind>) returns (r: Option<seq<Field>>)
    requires b.Valid()
    modifies b`pos
    ensures b.Valid() && r == TakeAll(kinds, old(b.Rest()))
    ensures r.Some? ==> old(b.Rest()) == EncodeAll(r.value) + b.Rest()
    decreases |kinds|
  {
    if kinds == [] {
      return Some([]);
    }
    ghost var rest := b.Rest();
    var first := GetField(b, kinds[0]);
    if first.None? {
      return None;
    }
    var others := GetFields(b, kinds[1..]);
    if others.None? {
      return None;
    }
    r := Some([first.value] + others.value);
    TakenInFront(kinds, rest, first.value, others.value, b.Rest());
  }

  /** Whatever list of fields is appended to a buffer that was read to its end is read back
      unchanged, and then nothing is left, however often the buffer had to grow. */
  method RoundTrip(b: Buffer, fields: seq<Field>) returns (r: Option<seq<Field>>)
    requires b.Valid() && b.Rest() == [] && AllFit(fields)
    requires b.used + |EncodeAll(fields)| <= BUFFER_MAX
    modifies b, b.data
    ensures b.Valid() && r == Some(fields) && b.Rest() == []
  {
    AddFields(b, fields);
    TakeAllEncoded(fields, []);
    assert EncodeAll(fields) + [] == EncodeAll(fields) == b.Rest();
    r := GetFields(b, Kinds(fields));
  }
}

/** Dynamic strings: a length, the free room behind it, and a terminating NUL. */
module SdsStrings {
  import opened Bytes

  class Sds {
    var len: nat
    var free: nat
    var buf: array<byte>
    ghost var content: seq<byte>
    ghost var moved: nat // bytes copied by reallocations so far

    ghost predicate Valid()
      reads this, buf
    {
      buf.Length == len + free + 1 && buf[len] == NUL && content == buf[..len]
    }

    /** `sdsnewlen`; with an empty `init` it is `sdsempty`. */
    constructor (init: seq<byte>)
      ensures Valid() && content == init && free == 0 && moved == 0 && fresh(buf)
    {
      var n := |init|;
      var b := new byte[n + 1](i requires 0 <= i < n + 1 => if i < n then init[i] else NUL);
      len, free, buf, moved, content := n, 0, b, 0, init;
      new;
      assert buf[..len] == init;
    }

    /** `sdsMakeRoomFor`: the capacity becomes twice the length that is asked for. */
    method MakeRoomFor(addlen: nat)
      requires Valid()
      modifies this
      ensures Valid() && content == old(content) && free >= addlen
      ensures buf == old(buf) || fresh(buf)
      ensures buf != old(buf) ==> old(free) < addlen
      ensures old(free) >= addlen ==> free == old(free) && moved == old(moved)
      ensures old(free) < addlen ==> len + free == 2 * (len + addlen) && moved == old(moved) + len
    {
      if free >= addlen {
        return;
      }
      var newlen := (len + addlen) * 2;
      var n, from := len, buf;
      var newbuf := new byte[newlen + 1](
        i requires 0 <= i < newlen + 1 reads from => if i <= n && i < from.Length then from[i] else NUL);
      free := newlen - len;
      buf := newbuf;
      moved := moved + n;
      assert buf[..len] == from[..len];
    }

    /** `sdscatlen`. */
    method CatLen(t: seq<byte>)
      requires Valid()
      modifies this, buf
      ensures Valid() && content == old(content) + t
      ensures buf == old(buf) || fresh(buf)
      ensures (len + free, moved) == Grow(old(len), old(len + free), old(moved), |t|)
    {
      var curlen := len;
      MakeRoomFor(|t|);
      ghost var before := buf[..curlen];
      forall i | 0 <= i < |t| {
        buf[curlen + i] := t[i];
      }
      assert buf[..curlen] == before;
      assert buf[..curlen + |t|] == before + t;
      len := curlen + |t|;
      free := free - |t|;
      buf[curlen + |t|] := NUL;
      content := content + t;
    }

    /** The `memmove` of `sdsrange` and what it does to the header. */
    method Keep(from: nat, n: nat)
      requires Valid() && from + n <= len
      modifies this, buf
      ensures Valid() && content == old(content)[from..from + n]
      ensures buf == old(buf) && len + free == old(len + free) && moved == old(moved)
    {
      ghost var kept := buf[from..from + n];
      forall i | 0 <= i < n {
        buf[i] := buf[from + i];
      }
      assert buf[..n] == kept;
      buf[n] := NUL;
      free := free + (len - n);
      len := n;
      content := kept;
    }

    /** `sdsrange`: keeps the bytes `start..end`, both inclusive, negative positions
        counting from the end. */
    method Range(start: int, end: int)
      requires Valid()
      modifies this, buf
      ensures Valid() && content == RangeOf(old(content), start, end)
      ensures buf == old(buf) && len + free == old(len + free) && moved == old(moved)
    {
      if len == 0 {
        return;
      }
      var from, n := ClampRange(len, start, end, content);
      Keep(from, n);
    }
  }

  /** The position arithmetic of `sdsrange`. */
  method ClampRange(len: nat, start: int, end: int, ghost s: seq<byte>) returns (from: nat, n: nat)
    requires len > 0 && |s| == len
    ensures from + n <= len && s[from..from + n] == RangeOf(s, start, end)
  {
    var b, e := start, end;
    if b < 0 {
      b := len + b;
      if b < 0 {
        b := 0;
      }
    }
    if e < 0 {
      e := len + e;
      if e < 0 {
        e := 0;
      }
    }
    var newlen := if b > e then 0 else e - b + 1;
    if newlen != 0 {
      if b >= len {
        b := len - 1;
      }
      if e >= len {
        e := len - 1;
      }
      newlen := if b > e then 0 else e - b + 1;
    } else {
      b := 0;
    }
    from, n := b, newlen;
  }

  function Max(a: int, b: int): int { if a < b then b else a }
  function Min(a: int, b: int): int { if a < b then a else b }

  /** Where a possibly negative position points. */
  function Position(len: nat, p: int): nat {
    if p < 0 then Max(len + p, 0) else p
  }

  /** The bytes of `s` between two inclusive positions, clamped to the string. */
  function RangeOf(s: seq<byte>, start: int, end: int): seq<byte> {
    var from, to := Position(|s|, start), Position(|s|, end);
    if s == [] || from > to then [] else s[Min(from, |s| - 1)..Min(to, |s| - 1) + 1]
  }

  /** The positions one by one: a range inside the string, an empty one, an end beyond the
      string, a start beyond it, which keeps the last byte, and positions from the end. */
  lemma {:induction false} RangeMeans(s: seq<byte>, start: int, end: int)
    ensures 0 <= start <= end < |s| ==> RangeOf(s, start, end) == s[start..end + 1]
    ensures s == [] || 0 <= end < start ==> RangeOf(s, start, end) == []
    ensures 0 <= start < |s| <= end ==> RangeOf(s, start, end) == s[start..]
    ensures s != [] && |s| <= start <= end ==> RangeOf(s, start, end) == [s[|s| - 1]]
    ensures start < 0 ==> RangeOf(s, start, end) == RangeOf(s, if start < -|s| then 0 else |s| + start, end)
    ensures end < 0 ==> RangeOf(s, start, end) == RangeOf(s, start, if end < -|s| then 0 else |s| + end)
  {
    if 0 <= start < |s| <= end {
      assert RangeOf(s, start, end) == s[start..|s|];
    }
    if s != [] && |s| <= start <= end {
      assert s[|s| - 1..|s|] == [s[|s| - 1]];
    }
  }

  /** How a consumed prefix of `n` bytes is dropped. With the length as end position it
      works exactly when something remains, or nothing was there to begin with: when
      everything was consumed the last byte survives. */
  lemma {:induction false} RangeDropsPrefix(s: seq<byte>, n: nat)
    requires n <= |s|
    ensures RangeOf(s, n, |s|) == s[n..] <==> n < |s| || s == []
    ensures RangeOf(s, n, -1) == s[n..]
  {
  }

  // Amortised growth

  /** Capacity and bytes moved after appending `add` bytes to `len` bytes. */
  function Grow(len: nat, capacity: nat, moved: nat, add: nat): (nat, nat)
    requires len <= capacity
  {
    if capacity - len >= add then (capacity, moved) else (2 * (len + add), moved + len)
  }

  function Total(sizes: seq<nat>): nat {
    if sizes == [] then 0 else sizes[0] + Total(sizes[1..])
  }

  /** Capacity and bytes moved after a sequence of appends. */
  function GrowAll(len: nat, capacity: nat, moved: nat, sizes: seq<nat>): (nat, nat)
    requires len <= capacity
    decreases |sizes|
  {
    if sizes == [] then (capacity, moved)
    else
      var (c, m) := Grow(len, capacity, moved, sizes[0]);
      GrowAll(len + sizes[0], c, m, sizes[1..])
  }

  /** Fewer than two bytes moved for each byte of content, and no more than half the room unused. */
  predicate Amortised(len: nat, capacity: nat, moved: nat) {
    len <= capacity <= 2 * len && moved <= capacity && (len > 0 ==> moved < 2 * len)
  }

  /** Appending `n > 0` bytes in any portions to an empty string moves fewer than
      `2 * n` bytes in reallocations, and never leaves more than half the room unused. */
  lemma {:induction false} AppendsAreAmortised(sizes: seq<nat>)
    requires Total(sizes) > 0
    ensures GrowAll(0, 0, 0, sizes).1 < 2 * Total(sizes)
    ensures Total(sizes) <= GrowAll(0, 0, 0, sizes).0 <= 2 * Total(sizes)
  {
    GrowthInvariant(0, 0, 0, sizes);
  }

  lemma {:induction false} GrowthInvariant(len: nat, capacity: nat, moved: nat, sizes: seq<nat>)
    requires Amortised(len, capacity, moved)
    ensures var (c, m) := GrowAll(len, capacity, moved, sizes); Amortised(len + Total(sizes), c, m)
    decreases |sizes|
  {
    if sizes != [] {
      var (c, m) := Grow(len, capacity, moved, sizes[0]);
      GrowthInvariant(len + sizes[0], c, m, sizes[1..]);
    }
  }

  /** Any run of appends to a string that started empty. */
  method AppendAll(s: Sds, chunks: seq<seq<byte>>)
    requires s.Valid() && Amortised(s.len, s.len + s.free, s.moved)
    modifies s, s.buf
    ensures s.Valid() && s.content == old(s.content) + Flat(chunks)
    ensures Amortised(s.len, s.len + s.free, s.moved) && s.len == |s.content|
    ensures s.buf == old(s.buf) || fresh(s.buf)
  {
    ghost var goal := s.content + Flat(chunks);
    assert chunks[0..] == chunks;
    for i := 0 to |chunks|
      invariant s.Valid() && goal == s.content + Flat(chunks[i..])
      invariant Amortised(s.len, s.len + s.free, s.moved) && (s.buf == old(s.buf) || fresh(s.buf))
    {
      assert chunks[i..][1..] == chunks[i + 1..];
      Associates(s.content, chunks[i], Flat(chunks[i + 1..]));
      s.CatLen(chunks[i]);
    }
    assert s.content + [] == s.content;
  }
}

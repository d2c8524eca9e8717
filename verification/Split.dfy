/** `sdssplitlen`: splitting a string at a separator of any length. */
module Split {
  import opened Bytes

  predicate OccursAt(s: seq<byte>, sep: seq<byte>, k: nat) {
    k + |sep| <= |s| && s[k..k + |sep|] == sep
  }

  ghost predicate Contains(s: seq<byte>, sep: seq<byte>) {
    exists k: nat :: OccursAt(s, sep, k)
  }

  /** Where `sep` occurs first in `s`, at or after `k`. */
  function Find(s: seq<byte>, sep: seq<byte>, k: nat): (r: Option<nat>)
    ensures r.Some? ==>
      (k <= r.value && OccursAt(s, sep, r.value) && forall i: nat :: k <= i < r.value ==> !OccursAt(s, sep, i))
    ensures r.None? ==> forall i: nat :: k <= i ==> !OccursAt(s, sep, i)
    decreases |s| - k
  {
    if k + |sep| > |s| then None else if OccursAt(s, sep, k) then Some(k) else Find(s, sep, k + 1)
  }

  /** Tokens between separators, found from left to right without overlap. */
  function Tokens(s: seq<byte>, sep: seq<byte>): (ts: seq<seq<byte>>)
    requires sep != []
    ensures ts != []
    decreases |s|
  {
    var k := Find(s, sep, 0);
    if k.None? then [s] else [s[..k.value]] + Tokens(s[k.value + |sep|..], sep)
  }

  /** The tokens found so far end at `start`, and none starts between there and `j`. */
  ghost predicate UpTo(s: seq<byte>, sep: seq<byte>, goal: seq<seq<byte>>, found: seq<seq<byte>>, start: nat, j: nat)
    requires sep != []
  {
    start <= j && start <= |s| && goal == found + Tokens(s[start..], sep) && NoneBetween(s, sep, start, j)
  }

  /** `sdssplitlen`: NULL without a separator, no tokens for an empty string, and otherwise
      the leftmost tokens that join to the string. The array of tokens grows ahead of the next and the final token, so
      every write to it is in range. */
  method SplitLen(s: seq<byte>, sep: seq<byte>) returns (tokens: array?<seq<byte>>, count: nat)
    ensures tokens == null <==> sep == []
    ensures tokens != null ==> count <= tokens.Length && (count == 0 <==> s == [])
    ensures sep != [] && s != [] ==>
      tokens[..count] == Tokens(s, sep) && Join(tokens[..count], sep) == s && Leftmost(tokens[..count], sep)
  {
    var elements: nat, start: nat, j: nat := 0, 0, 0;
    var slots := new seq<byte>[5];
    if sep == [] {
      return null, 0;
    }
    if s == [] {
      return slots, 0;
    }
    ghost var goal := Tokens(s, sep);
    TokensJoin(s, sep);
    assert s[0..] == s;
    while j < |s| - (|sep| - 1)
      invariant elements < slots.Length && fresh(slots) && UpTo(s, sep, goal, slots[..elements], start, j)
      decreases |s| - j
    {
      slots := Room(slots, elements);
      elements, start, j := Look(s, sep, slots, elements, start, j, goal);
      j := j + 1;
    }
    LastToken(s, sep, start, j);
    Put(slots, elements, s[start..]);
    tokens, count := slots, elements + 1;
  }

  /** Looks for the separator at `j`; `at` is the last position dealt with. */
  method Look(
    s: seq<byte>, sep: seq<byte>, slots: array<seq<byte>>, elements: nat, start: nat, j: nat,
    ghost goal: seq<seq<byte>>)
    returns (count: nat, next: nat, at: nat)
    requires sep != [] && j + |sep| <= |s| && elements < slots.Length && UpTo(s, sep, goal, slots[..elements], start, j)
    modifies slots
    ensures j <= at && count <= elements + 1 && count <= slots.Length
    ensures UpTo(s, sep, goal, slots[..count], next, at + 1)
  {
    count, next, at := elements, start, j;
    if s[j..j + |sep|] == sep {
      TokenFound(s, sep, start, j, goal, slots[..elements]);
      Put(slots, elements, s[start..j]);
      count := elements + 1;
      next := j + |sep|;
      at := j + |sep| - 1;
    }
  }

  method Put(slots: array<seq<byte>>, n: nat, token: seq<byte>)
    requires n < slots.Length
    modifies slots
    ensures slots[..n + 1] == old(slots[..n]) + [token]
  {
    slots[n] := token;
    assert slots[..n] == old(slots[..n]);
  }

  /** Room for the next token and the final one. */
  method Room(slots: array<seq<byte>>, n: nat) returns (more: array<seq<byte>>)
    requires n < slots.Length
    ensures n + 2 <= more.Length && more[..n] == slots[..n] && (more == slots || fresh(more))
  {
    more := slots;
    if slots.Length < n + 2 {
      more := new seq<byte>[2 * slots.Length];
      forall i | 0 <= i < n {
        more[i] := slots[i];
      }
    }
  }

  lemma {:induction false} TokensAt(s: seq<byte>, sep: seq<byte>, k: nat)
    requires sep != [] && OccursAt(s, sep, k) && forall i: nat :: i < k ==> !OccursAt(s, sep, i)
    ensures Tokens(s, sep) == [s[..k]] + Tokens(s[k + |sep|..], sep)
  {
    assert Find(s, sep, 0) == Some(k);
  }

  ghost predicate NoneBetween(s: seq<byte>, sep: seq<byte>, start: nat, end: nat) {
    forall i: nat :: start <= i < end ==> !OccursAt(s, sep, i)
  }

  lemma {:induction false} OccursShifted(s: seq<byte>, sep: seq<byte>, start: nat, i: nat)
    requires start <= i && start <= |s|
    ensures OccursAt(s[start..], sep, i - start) <==> OccursAt(s, sep, i)
  {
    if i + |sep| <= |s| {
      assert s[start..][i - start..i - start + |sep|] == s[i..i + |sep|];
    }
  }

  /** The next token ends where the separator occurs next. */
  lemma {:induction false} TokenFound(
    s: seq<byte>, sep: seq<byte>, start: nat, j: nat, goal: seq<seq<byte>>, found: seq<seq<byte>>)
    requires sep != [] && start <= j && OccursAt(s, sep, j) && NoneBetween(s, sep, start, j)
    requires goal == found + Tokens(s[start..], sep)
    ensures goal == found + [s[start..j]] + Tokens(s[j + |sep|..], sep)
  {
    forall i: nat | i < j - start
      ensures !OccursAt(s[start..], sep, i)
    {
      OccursShifted(s, sep, start, start + i);
    }
    OccursShifted(s, sep, start, j);
    TokenSliced(s, sep, start, j);
    Associates(found, [s[start..j]], Tokens(s[j + |sep|..], sep));
  }

  lemma {:induction false} TokenSliced(s: seq<byte>, sep: seq<byte>, start: nat, j: nat)
    requires sep != [] && start <= j <= |s| - |sep| && OccursAt(s[start..], sep, j - start)
    requires forall i: nat :: i < j - start ==> !OccursAt(s[start..], sep, i)
    ensures Tokens(s[start..], sep) == [s[start..j]] + Tokens(s[j + |sep|..], sep)
  {
    var b, k := s[start..], j - start;
    assert b[..k] == s[start..j];
    assert b[k + |sep|..] == s[j + |sep|..];
    TokensAt(b, sep, k);
  }

  lemma {:induction false} LastToken(s: seq<byte>, sep: seq<byte>, start: nat, j: nat)
    requires sep != [] && start <= |s| && j + |sep| > |s| && NoneBetween(s, sep, start, j)
    ensures Tokens(s[start..], sep) == [s[start..]]
  {
    var k := Find(s[start..], sep, 0);
    if k.Some? {
      OccursShifted(s, sep, start, start + k.value);
    }
  }

  // Splitting and joining

  function Join(ts: seq<seq<byte>>, sep: seq<byte>): seq<byte>
    requires ts != []
  {
    if |ts| == 1 then ts[0] else ts[0] + sep + Join(ts[1..], sep)
  }

  /** Behind each token but the last the separator is found no earlier than it starts, and
      the last token is free of it. */
  ghost predicate Leftmost(ts: seq<seq<byte>>, sep: seq<byte>)
    requires ts != []
  {
    if |ts| == 1 then !Contains(ts[0], sep)
    else (forall i: nat ::
        i < |ts[0]| ==> !OccursAt(ts[0] + sep + Join(ts[1..], sep), sep, i)) && Leftmost(ts[1..], sep)
  }

  /** Joining the tokens gives back the string, and they are the leftmost ones. */
  lemma {:induction false} TokensJoin(s: seq<byte>, sep: seq<byte>)
    requires sep != []
    ensures Join(Tokens(s, sep), sep) == s && Leftmost(Tokens(s, sep), sep)
    decreases |s|
  {
    var k := Find(s, sep, 0);
    if k.Some? {
      var rest := s[k.value + |sep|..];
      TokensJoin(rest, sep);
      assert s == s[..k.value] + sep + rest;
      assert Tokens(s, sep)[1..] == Tokens(rest, sep);
    }
  }

  /** Splitting undoes joining exactly for the leftmost lists of tokens. */
  lemma {:induction false} SplitInvertsJoin(ts: seq<seq<byte>>, sep: seq<byte>)
    requires ts != [] && sep != []
    ensures Tokens(Join(ts, sep), sep) == ts <==> Leftmost(ts, sep)
  {
    if Leftmost(ts, sep) {
      LeftmostSplits(ts, sep);
    } else {
      TokensJoin(Join(ts, sep), sep);
    }
  }

  lemma {:induction false} LeftmostSplits(ts: seq<seq<byte>>, sep: seq<byte>)
    requires ts != [] && sep != [] && Leftmost(ts, sep)
    ensures Tokens(Join(ts, sep), sep) == ts
    decreases |ts|
  {
    if |ts| > 1 {
      var s, k, rest := Join(ts, sep), |ts[0]|, Join(ts[1..], sep);
      assert s[k..k + |sep|] == sep && s[..k] == ts[0] && s[k + |sep|..] == rest;
      TokensAt(s, sep, k);
      LeftmostSplits(ts[1..], sep);
    }
  }

  /** No token contains the separator. */
  lemma {:induction false} TokensAreFree(s: seq<byte>, sep: seq<byte>)
    requires sep != []
    ensures forall t :: t in Tokens(s, sep) ==> !Contains(t, sep)
    decreases |s|
  {
    var k := Find(s, sep, 0);
    if k.Some? {
      var first := s[..k.value];
      forall i: nat
        ensures !OccursAt(first, sep, i)
      {
        if i + |sep| <= |first| {
          assert first[i..i + |sep|] == s[i..i + |sep|];
          assert !OccursAt(s, sep, i);
        }
      }
      TokensAreFree(s[k.value + |sep|..], sep);
    }
  }

  /** A separator of one byte: the leftmost lists are those free of it. */
  lemma {:induction false} OneByteSplits(ts: seq<seq<byte>>, sep: byte)
    requires ts != []
    ensures (forall t :: t in ts ==> sep !in t) <==> Tokens(Join(ts, [sep]), [sep]) == ts
  {
    if forall t :: t in ts ==> sep !in t {
      FreeIsLeftmost(ts, sep);
      LeftmostSplits(ts, [sep]);
    }
    if Tokens(Join(ts, [sep]), [sep]) == ts {
      TokensAreFree(Join(ts, [sep]), [sep]);
      forall t | t in ts
        ensures sep !in t
      {
        if i :| 0 <= i < |t| && t[i] == sep {
          assert OccursAt(t, [sep], i);
        }
      }
    }
  }

  lemma {:induction false} FreeIsLeftmost(ts: seq<seq<byte>>, sep: byte)
    requires ts != [] && forall t :: t in ts ==> sep !in t
    ensures Leftmost(ts, [sep])
    decreases |ts|
  {
    var first := ts[0];
    assert first in ts;
    if |ts| == 1 {
      forall i: nat
        ensures !OccursAt(first, [sep], i)
      {
        assert i < |first| ==> first[i..i + 1][0] == first[i];
      }
    } else {
      var s := first + [sep] + Join(ts[1..], [sep]);
      forall i: nat | i < |first|
        ensures !OccursAt(s, [sep], i)
      {
        assert s[i..i + 1][0] == s[i] == first[i];
      }
      FreeIsLeftmost(ts[1..], sep);
    }
  }
}

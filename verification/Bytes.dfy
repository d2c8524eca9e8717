/** Bytes, the few characters the wire protocol gives a meaning to, and the
    search for the line terminator. */
module Bytes {

  type byte = b: int | 0 <= b < 256

  const NUL: byte := 0
  const BELL: byte := 7
  const BACKSPACE: byte := 8
  const TAB: byte := 9
  const LF: byte := 10
  const CR: byte := 13
  const SPACE: byte := 32
  const QUOTE: byte := 34
  const DOLLAR: byte := 36
  const PERCENT: byte := 37
  const STAR: byte := 42
  const PLUS: byte := 43
  const MINUS: byte := 45
  const ZERO: byte := 48
  const COLON: byte := 58
  const BACKSLASH: byte := 92

  const CRLF: seq<byte> := [CR, LF]

  datatype Option<+T> = None | Some(value: T)

  /** Chunks of bytes, one behind the other. */
  function Flat<T>(chunks: seq<seq<T>>): seq<T> {
    if chunks == [] then [] else chunks[0] + Flat(chunks[1..])
  }

  lemma {:induction false} Associates<T>(a: seq<T>, b: seq<T>, c: seq<T>)
    ensures a + (b + c) == a + b + c
  {
  }

  lemma {:induction false} FlatEnds<T>(xs: seq<seq<T>>, x: seq<T>)
    ensures Flat(xs + [x]) == Flat(xs) + x
  {
    if xs == [] {
      assert Flat([x]) == x + Flat([x][1..]);
    } else {
      assert (xs + [x])[1..] == xs[1..] + [x];
      FlatEnds(xs[1..], x);
      Associates(xs[0], Flat(xs[1..]), x);
    }
  }

  predicate CrlfAt(b: seq<byte>, i: int) {
    0 <= i < |b| - 1 && b[i] == CR && b[i + 1] == LF
  }

  ghost predicate NoCrlf(b: seq<byte>) {
    forall i :: !CrlfAt(b, i)
  }

  /** `k` is where the first CRLF of `b` starts. */
  ghost predicate IsFirstCrlf(b: seq<byte>, k: int) {
    CrlfAt(b, k) && forall i :: 0 <= i < k ==> !CrlfAt(b, i)
  }

  /** Position of the first CRLF at or after `from`. */
  function FindCrlf(b: seq<byte>, from: nat): (r: Option<nat>)
    ensures r.Some? ==> from <= r.value && CrlfAt(b, r.value)
    ensures forall i :: from <= i < (if r.Some? then r.value else |b|) ==> !CrlfAt(b, i)
    decreases |b| - from
  {
    if from + 1 >= |b| then None
    else if CrlfAt(b, from) then Some(from)
    else FindCrlf(b, from + 1)
  }

  function FirstCrlf(b: seq<byte>): (r: Option<nat>)
    ensures r.Some? ==> IsFirstCrlf(b, r.value)
    ensures r.None? ==> NoCrlf(b)
  {
    FindCrlf(b, 0)
  }

  lemma {:induction false} FirstCrlfUnique(b: seq<byte>, k: nat)
    requires IsFirstCrlf(b, k)
    ensures FirstCrlf(b) == Some(k)
  {
    assert CrlfAt(b, k);
  }

  /** A line that has ended stays the same line when more bytes arrive. */
  lemma {:induction false} FirstCrlfExtends(b: seq<byte>, c: seq<byte>)
    requires FirstCrlf(b).Some?
    ensures FirstCrlf(b + c) == FirstCrlf(b)
  {
    var k := FirstCrlf(b).value;
    forall i | 0 <= i < k
      ensures !CrlfAt(b + c, i)
    {
      assert !CrlfAt(b, i);
    }
    FirstCrlfUnique(b + c, k);
  }

  /** Text without CRLF, even one that ends in CR, is delimited exactly. */
  lemma {:induction false} FirstCrlfAfterText(text: seq<byte>, rest: seq<byte>)
    ensures NoCrlf(text) <==> FirstCrlf(text + CRLF + rest) == Some(|text|)
  {
    var b := text + CRLF + rest;
    assert CrlfAt(b, |text|);
    if NoCrlf(text) {
      forall i | 0 <= i < |text|
        ensures !CrlfAt(b, i)
      {
        assert !CrlfAt(text, i);
      }
      FirstCrlfUnique(b, |text|);
    } else {
      var i :| CrlfAt(text, i);
      assert CrlfAt(b, i);
    }
  }
}

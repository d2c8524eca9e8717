/** Quoting a string for a command line (`sdscatrepr`) and splitting a command line into
    arguments (`sdssplitargs`). */
module Quote {
  import opened Bytes
  import opened SdsStrings

  const LETTER_A: byte := 97
  const LETTER_B: byte := 98
  const LETTER_N: byte := 110
  const LETTER_R: byte := 114
  const LETTER_T: byte := 116
  const LETTER_X: byte := 120

  /** `isprint` in the C locale. */
  predicate IsPrint(b: byte) {
    32 <= b <= 126
  }

  predicate AllPrint(s: seq<byte>) {
    forall i :: 0 <= i < |s| ==> IsPrint(s[i])
  }

  /** `isspace` in the C locale. */
  predicate IsSpace(b: byte) {
    b == SPACE || 9 <= b <= 13
  }

  /** The bytes with an escape of their own. */
  predicate IsControl(b: byte) {
    b == LF || b == CR || b == TAB || b == BELL || b == BACKSPACE
  }

  function HexDigit(n: int): byte
    requires 0 <= n < 16
  {
    if n < 10 then 48 + n else 87 + n
  }

  /** What `sdscatrepr` writes for one byte. Of the two bytes of a control escape only the
      backslash is written. */
  function Escaped(b: byte): (e: seq<byte>)
    ensures e != []
  {
    if b == BACKSLASH || b == QUOTE then [BACKSLASH, b]
    else if IsControl(b) then [BACKSLASH]
    else if IsPrint(b) then [b]
    else [BACKSLASH, LETTER_X, HexDigit(b / 16), HexDigit(b % 16)]
  }

  function EscapedAll(s: seq<byte>): seq<byte> {
    if s == [] then [] else Escaped(s[0]) + EscapedAll(s[1..])
  }

  function Quoted(s: seq<byte>): seq<byte> {
    [QUOTE] + EscapedAll(s) + [QUOTE]
  }

  /** `sdscatrepr`. */
  method CatRepr(s: Sds, p: seq<byte>)
    requires s.Valid()
    modifies s, s.buf
    ensures s.Valid() && s.content == old(s.content) + Quoted(p)
    ensures s.buf == old(s.buf) || fresh(s.buf)
  {
    s.CatLen([QUOTE]);
    ghost var goal := s.content + EscapedAll(p);
    assert p[0..] == p;
    for i := 0 to |p|
      invariant s.Valid() && (s.buf == old(s.buf) || fresh(s.buf))
      invariant goal == s.content + EscapedAll(p[i..])
    {
      EscapedNext(goal, s.content, p, i);
      s.CatLen(Escaped(p[i]));
    }
    assert goal == s.content;
    s.CatLen([QUOTE]);
    QuotedJoins(old(s.content), p);
  }

  lemma {:induction false} EscapedNext(goal: seq<byte>, done: seq<byte>, p: seq<byte>, i: nat)
    requires i < |p| && goal == done + EscapedAll(p[i..])
    ensures goal == done + Escaped(p[i]) + EscapedAll(p[i + 1..])
  {
    assert p[i..][1..] == p[i + 1..];
  }

  lemma {:induction false} QuotedJoins(s: seq<byte>, p: seq<byte>)
    ensures s + [QUOTE] + EscapedAll(p) + [QUOTE] == s + Quoted(p)
  {
  }

  /** The value of a lower-case hexadecimal digit, and -1 for any other byte. */
  function HexValue(c: byte): int {
    if 48 <= c <= 57 then c - 48 else if 97 <= c <= 102 then c - 87 else -1
  }

  /** What one byte spells inside the quotes, byte by byte. */
  ghost predicate ReprOf(b: byte, e: seq<byte>) {
    && (b in [34, 92] ==> e == [92, b])
    && (b in [7, 8, 9, 10, 13] ==> e == [92])
    && (32 <= b <= 126 && b !in [34, 92] ==> e == [b])
    && (b !in [7, 8, 9, 10, 13] && !(32 <= b <= 126) ==>
      (|e| == 4 && e[..2] == [92, 120] && 0 <= HexValue(e[2]) && 0 <= HexValue(e[3])
        && HexValue(e[2]) * 16 + HexValue(e[3]) == b))
  }

  lemma {:induction false} ByteSpelled(b: byte)
    ensures ReprOf(b, Escaped(b))
  {
    HexDigits(b);
  }

  /** Every byte is spelled on its own, in the order of the string, between two quotes. */
  lemma {:induction false} QuotedSpells(front: seq<byte>, b: byte, back: seq<byte>)
    ensures ReprOf(b, Escaped(b))
    ensures Quoted(front + [b] + back) == [34] + (EscapedAll(front) + Escaped(b) + EscapedAll(back)) + [34]
  {
    ByteSpelled(b);
    EscapedJoins(front + [b], back);
    EscapedOne(front, b);
  }

  lemma {:induction false} EscapedOne(front: seq<byte>, b: byte)
    ensures EscapedAll(front + [b]) == EscapedAll(front) + Escaped(b)
  {
    EscapedJoins(front, [b]);
    assert [b][1..] == [];
    assert EscapedAll([b]) == Escaped(b) + [];
  }

  lemma {:induction false} HexDigits(b: byte)
    ensures HexValue(HexDigit(b / 16)) == b / 16 && HexValue(HexDigit(b % 16)) == b % 16
    ensures b / 16 * 16 + b % 16 == b
  {
  }

  lemma {:induction false} EscapedJoins(s: seq<byte>, t: seq<byte>)
    ensures EscapedAll(s + t) == EscapedAll(s) + EscapedAll(t)
    decreases |s|
  {
    if s == [] {
      assert s + t == t;
    } else {
      assert (s + t)[1..] == s[1..] + t;
      EscapedJoins(s[1..], t);
    }
  }

  /** Text of printable bytes without quotes and backslashes is quoted as it stands. */
  lemma {:induction false} PlainQuoted(s: seq<byte>)
    requires forall i :: 0 <= i < |s| ==> 32 <= s[i] <= 126 && s[i] !in [34, 92]
    ensures Quoted(s) == [34] + s + [34] && EscapedAll(s) == s
    decreases |s|
  {
    if s != [] {
      PlainQuoted(s[1..]);
      assert [s[0]] + s[1..] == s;
    }
  }

  // Reading arguments

  function Unescape(c: byte): byte {
    if c == LETTER_N then LF
    else if c == LETTER_R then CR
    else if c == LETTER_T then TAB
    else if c == LETTER_B then BACKSPACE
    else if c == LETTER_A then BELL
    else c
  }

  /** The line is a C string: it ends at its first NUL. */
  predicate Ends(b: seq<byte>) {
    b == [] || b[0] == NUL
  }

  /** One argument and the bytes it takes up, or an error. */
  datatype Word = Broken | Word(text: seq<byte>, size: nat)

  function Longer(w: Word, text: seq<byte>, size: nat): Word {
    if w.Broken? then Broken else Word(text + w.text, size + w.size)
  }

  /** The rest of an argument inside quotes; the closing quote must be followed by a blank
      or by the end of the line. */
  function InQuotes(b: seq<byte>): (w: Word)
    ensures w.Word? ==> w.size <= |b|
    decreases |b|
  {
    if Ends(b) then Broken
    else if b[0] == BACKSLASH && !Ends(b[1..]) then Longer(InQuotes(b[2..]), [Unescape(b[1])], 2)
    else if b[0] == QUOTE then (if Ends(b[1..]) || IsSpace(b[1]) then Word([], 1) else Broken)
    else Longer(InQuotes(b[1..]), [b[0]], 1)
  }

  /** The rest of an argument outside quotes. */
  function Bare(b: seq<byte>): (w: Word)
    ensures w.Word? ==> w.size <= |b| && (Ends(b) || 1 <= w.size)
    decreases |b|
  {
    if Ends(b) then Word([], 0)
    else if b[0] == SPACE || b[0] == LF || b[0] == CR || b[0] == TAB then Word([], 1)
    else if b[0] == QUOTE then Longer(InQuotes(b[1..]), [], 1)
    else Longer(Bare(b[1..]), [b[0]], 1)
  }

  function Blanks(b: seq<byte>): (n: nat)
    ensures n <= |b| && (Ends(b[n..]) || !IsSpace(b[n]))
    decreases |b|
  {
    if Ends(b) || !IsSpace(b[0]) then 0 else 1 + Blanks(b[1..])
  }

  /** The arguments of a line; None for unbalanced quotes. */
  function LineArguments(line: seq<byte>): Option<seq<seq<byte>>>
    decreases |line|
  {
    var b := line[Blanks(line)..];
    if Ends(b) then Some([])
    else
      var w := Bare(b);
      if w.Broken? then None
      else
        var others := LineArguments(b[w.size..]);
        if others.None? then None else Some([w.text] + others.value)
  }

  /** `*p`. */
  function Peek(line: seq<byte>, p: nat): byte {
    if p < |line| then line[p] else NUL
  }

  lemma {:induction false} LongerJoins(w: Word, s: seq<byte>, m: nat, t: seq<byte>, n: nat)
    ensures Longer(Longer(w, t, n), s, m) == Longer(w, s + t, m + n) && Longer(w, [], 0) == w
  {
    if w.Word? {
      assert s + (t + w.text) == s + t + w.text;
      assert [] + w.text == w.text;
    }
  }

  function Rest(line: seq<byte>, p: nat, inq: bool): Word
    requires p <= |line|
  {
    if inq then InQuotes(line[p..]) else Bare(line[p..])
  }

  /** Where one round of the inner loop leads when it does not finish the argument: what has
      been read of it so far is `was`, and the whole argument is `goal`. */
  lemma {:induction false} RestContinues(line: seq<byte>, p: nat, inq: bool, goal: Word, was: seq<byte>, size: nat)
    requires p < |line| && line[p] != NUL && goal == Longer(Rest(line, p, inq), was, size)
    ensures inq && line[p] == BACKSLASH && Peek(line, p + 1) != NUL ==>
      goal == Longer(Rest(line, p + 2, true), was + [Unescape(line[p + 1])], size + 2)
    ensures (if inq then (line[p] == BACKSLASH && Peek(line, p + 1) == NUL) || line[p] !in [BACKSLASH, QUOTE]
             else line[p] !in [SPACE, LF, CR, TAB, QUOTE]) ==>
      goal == Longer(Rest(line, p + 1, inq), was + [line[p]], size + 1)
    ensures !inq && line[p] == QUOTE ==> goal == Longer(Rest(line, p + 1, true), was, size + 1)
  {
    var b := line[p..];
    assert b[1..] == line[p + 1..] && (p + 1 < |line| ==> b[2..] == line[p + 2..]);
    if inq {
      if line[p] == BACKSLASH && Peek(line, p + 1) != NUL {
        LongerJoins(Rest(line, p + 2, true), was, size, [Unescape(line[p + 1])], 2);
      } else if line[p] != QUOTE {
        LongerJoins(Rest(line, p + 1, true), was, size, [line[p]], 1);
      }
    } else if line[p] == QUOTE {
      LongerJoins(Rest(line, p + 1, true), was, size, [], 1);
      assert was + [] == was;
    } else if line[p] !in [SPACE, LF, CR, TAB] {
      LongerJoins(Rest(line, p + 1, false), was, size, [line[p]], 1);
    }
  }

  lemma {:induction false} RestStops(line: seq<byte>, p: nat)
    requires p <= |line|
    ensures Peek(line, p) == NUL ==> Rest(line, p, true) == Broken && Rest(line, p, false) == Word([], 0)
    ensures Peek(line, p) in [SPACE, LF, CR, TAB] ==> Rest(line, p, false) == Word([], 1)
    ensures Peek(line, p) == QUOTE ==>
      Rest(line, p, true) == if Peek(line, p + 1) == NUL || IsSpace(Peek(line, p + 1)) then Word([], 1) else Broken
  {
    if p < |line| {
      assert line[p..][1..] == line[p + 1..];
    }
  }

  /** The inner loop of `sdssplitargs`. */
  method ReadArgument(line: seq<byte>, start: nat, ghost rest: seq<byte>) returns (ok: bool, current: seq<byte>, p: nat)
    requires start <= |line| && rest == line[start..]
    ensures start <= p <= |line| && Bare(rest) == if ok then Word(current, p - start) else Broken
  {
    var inq, done := false, false;
    ghost var goal := Rest(line, start, false);
    ok, current, p := true, [], start;
    LongerJoins(goal, [], 0, [], 0);
    while !done
      invariant start <= p <= |line| && ok
      invariant !done ==> goal == Longer(Rest(line, p, inq), current, p - start)
      invariant done ==> goal == Word(current, p - start)
      decreases |line| - p, !done
    {
      RestStops(line, p);
      var c := Peek(line, p);
      if c == NUL {
        if inq {
          return false, current, p;
        }
        done := true;
        assert current + [] == current;
      } else {
        RestContinues(line, p, inq, goal, current, p - start);
        assert current + [] == current;
        if inq {
          if c == BACKSLASH && Peek(line, p + 1) != NUL {
            p := p + 1;
            current := current + [Unescape(line[p])];
          } else if c == QUOTE {
            if Peek(line, p + 1) != NUL && !IsSpace(Peek(line, p + 1)) {
              return false, current, p;
            }
            done := true;
          } else {
            current := current + [c];
          }
        } else {
          if c == SPACE || c == LF || c == CR || c == TAB {
            done := true;
          } else if c == QUOTE {
            inq := true;
          } else {
            current := current + [c];
          }
        }
        p := p + 1;
      }
    }
  }

  method SkipBlanks(line: seq<byte>, start: nat, ghost rest: seq<byte>) returns (p: nat, ghost b: seq<byte>)
    requires start <= |line| && rest == line[start..]
    ensures p == start + Blanks(rest) <= |line| && b == line[p..] && b == rest[Blanks(rest)..]
  {
    p, b := start, rest;
    while p < |line| && line[p] != NUL && IsSpace(line[p])
      invariant start <= p <= |line| && b == line[p..] && start + Blanks(rest) == p + Blanks(b)
    {
      BlanksNext(b, b[1..]);
      p, b := p + 1, b[1..];
    }
    BlanksEnd(b);
    SliceOfSlice(line, start, p - start, rest);
  }

  lemma {:induction false} BlanksNext(b: seq<byte>, c: seq<byte>)
    requires !Ends(b) && IsSpace(b[0]) && c == b[1..]
    ensures Blanks(b) == 1 + Blanks(c)
  {
  }

  lemma {:induction false} BlanksEnd(b: seq<byte>)
    requires Ends(b) || !IsSpace(b[0])
    ensures Blanks(b) == 0
  {
  }

  function Prefixed(found: seq<seq<byte>>, r: Option<seq<seq<byte>>>): Option<seq<seq<byte>>> {
    if r.None? then None else Some(found + r.value)
  }

  lemma {:induction false} PrefixedJoins(found: seq<seq<byte>>, t: seq<byte>, r: Option<seq<seq<byte>>>)
    ensures Prefixed(found, Prefixed([t], r)) == Prefixed(found + [t], r) && Prefixed([], r) == r
  {
    if r.Some? {
      assert found + ([t] + r.value) == found + [t] + r.value;
      assert [] + r.value == r.value;
    }
  }

  /** A line `a` by its first blanks, before `b`, and its first argument, before `c`. */
  lemma {:induction false} ArgumentsFrom(a: seq<byte>, b: seq<byte>, w: Word, c: seq<byte>)
    requires b == a[Blanks(a)..] && w == Bare(b) && !Ends(b) && (w.Word? ==> c == b[w.size..])
    ensures w.Broken? ==> LineArguments(a) == None
    ensures w.Word? ==> 0 < w.size && LineArguments(a) == Prefixed([w.text], LineArguments(c))
  {
  }

  lemma {:induction false} NoArguments(a: seq<byte>, b: seq<byte>)
    requires b == a[Blanks(a)..] && Ends(b)
    ensures LineArguments(a) == Some([])
  {
  }

  lemma {:induction false} SliceOfSlice(line: seq<byte>, p: nat, n: nat, a: seq<byte>)
    requires p <= |line| && a == line[p..] && n <= |a|
    ensures a[n..] == line[p + n..]
  {
  }

  method TakeArgument(line: seq<byte>, start: nat, ghost rest: seq<byte>)
    returns (ok: bool, current: seq<byte>, next: nat, ghost c: seq<byte>)
    requires start <= |line| && rest == line[start..]
    ensures start <= next <= |line| && Bare(rest) == if ok then Word(current, next - start) else Broken
    ensures c == rest[next - start..] && c == line[next..]
  {
    ok, current, next := ReadArgument(line, start, rest);
    c := line[next..];
    SliceOfSlice(line, start, next - start, rest);
  }

  /** One round of the outer loop; the rest of the line is `a` before and `c` after it. */
  method NextArgument(line: seq<byte>, p: nat, ghost a: seq<byte>)
    returns (more: bool, ok: bool, current: seq<byte>, next: nat, ghost c: seq<byte>)
    requires p <= |line| && a == line[p..]
    ensures !more ==> LineArguments(a) == Some([])
    ensures more && !ok ==> LineArguments(a) == None
    ensures more && ok ==>
      (p < next <= |line| && c == line[next..] && LineArguments(a) == Prefixed([current], LineArguments(c)))
  {
    var q;
    ghost var b;
    q, b := SkipBlanks(line, p, a);
    more, ok, current, next, c := Peek(line, q) != NUL, true, [], q, [];
    if more {
      ok, current, next, c := TakeArgument(line, q, b);
      ArgumentsFrom(a, b, if ok then Word(current, next - q) else Broken, c);
    } else {
      NoArguments(a, b);
    }
  }

  /** `sdssplitargs`: the vector, which is NULL both for a line that cannot be split and for
      one without arguments, and the count, which tells them apart: the loop that frees the
      arguments found so far leaves -1 in it. */
  method SplitArgs(line: seq<byte>) returns (vector: Option<seq<seq<byte>>>, argc: int)
    ensures argc == if LineArguments(line).Some? then |LineArguments(line).value| else -1
    ensures vector == if argc > 0 then LineArguments(line) else None
  {
    var p: nat, argv: seq<seq<byte>> := 0, [];
    ghost var rest := line;
    PrefixedJoins([], [], LineArguments(line));
    while true
      invariant p <= |line| && rest == line[p..] && LineArguments(line) == Prefixed(argv, LineArguments(rest))
      decreases |line| - p
    {
      var more, ok, current, next;
      ghost var c;
      more, ok, current, next, c := NextArgument(line, p, rest);
      if !more {
        assert argv + [] == argv;
        return if argv == [] then None else Some(argv), |argv|;
      }
      if !ok {
        return None, -1;
      }
      PrefixedJoins(argv, current, LineArguments(c));
      argv, p, rest := argv + [current], next, c;
    }
  }

  // What a line spells, byte by byte

  /** The byte an escape stands for: newline, carriage return, tab, backspace and bell have
      letters, and any other byte stands for itself. */
  ghost predicate EscapeMeans(c: byte, b: byte) {
    && (c == 110 ==> b == 10) && (c == 114 ==> b == 13) && (c == 116 ==> b == 9)
    && (c == 98 ==> b == 8) && (c == 97 ==> b == 7)
    && (c != 110 && c != 114 && c != 116 && c != 98 && c != 97 ==> b == c)
  }

  /** The inside of a pair of quotes. */
  ghost predicate QuotedText(body: seq<byte>, text: seq<byte>)
    decreases |body|
  {
    if body == [] then text == []
    else if body[0] == 92 then
      && |body| > 1 && body[1] != 0 && text != [] && EscapeMeans(body[1], text[0]) && QuotedText(body[2..], text[1..])
    else
      && body[0] != 0 && body[0] != 34 && text != [] && text[0] == body[0] && QuotedText(body[1..], text[1..])
  }

  predicate IsBlank(b: byte) {
    b == 32 || 9 <= b <= 13
  }

  /** Bytes outside quotes: no blank in front, and no terminator or quote anywhere. */
  ghost predicate BareText(w: seq<byte>) {
    && (forall i :: 0 <= i < |w| ==> w[i] !in [0, 9, 10, 13, 32, 34])
    && (w != [] ==> !IsBlank(w[0]))
  }

  ghost predicate OnlyBlanks(b: seq<byte>) {
    forall i :: 0 <= i < |b| ==> IsBlank(b[i])
  }

  lemma {:induction false} InQuotesReads(body: seq<byte>, text: seq<byte>, rest: seq<byte>)
    requires QuotedText(body, text)
    ensures InQuotes(body + [34] + rest) ==
      if rest == [] || rest[0] == 0 || IsBlank(rest[0]) then Word(text, |body| + 1) else Broken
    decreases |body|
  {
    var b := body + [34] + rest;
    if body == [] {
      assert b[0] == 34 && b[1..] == rest;
    } else if body[0] == 92 {
      assert b[2..] == body[2..] + [34] + rest && b[1] == body[1];
      InQuotesReads(body[2..], text[1..], rest);
      assert text == [text[0]] + text[1..];
    } else {
      assert b[1..] == body[1..] + [34] + rest;
      InQuotesReads(body[1..], text[1..], rest);
      assert text == [text[0]] + text[1..];
    }
  }

  lemma {:induction false} BareReads(w: seq<byte>, rest: seq<byte>)
    requires forall i :: 0 <= i < |w| ==> w[i] !in [0, 9, 10, 13, 32, 34]
    ensures Bare(w + rest) == Longer(Bare(rest), w, |w|)
    decreases |w|
  {
    var b := w + rest;
    if w == [] {
      assert b == rest;
      LongerJoins(Bare(rest), [], 0, [], 0);
    } else {
      assert b[1..] == w[1..] + rest;
      BareReads(w[1..], rest);
      LongerJoins(Bare(rest), [w[0]], 1, w[1..], |w[1..]|);
      assert w == [w[0]] + w[1..];
    }
  }

  lemma {:induction false} BlanksSkipped(blanks: seq<byte>, b: seq<byte>)
    requires OnlyBlanks(blanks)
    ensures LineArguments(blanks + b) == LineArguments(b)
    decreases |blanks|
  {
    var line := blanks + b;
    if blanks == [] {
      assert line == b;
    } else {
      assert line[1..] == blanks[1..] + b;
      BlanksSkipped(blanks[1..], b);
      assert line[Blanks(line)..] == line[1..][Blanks(line[1..])..];
    }
  }

  /** An argument in quotes, behind any bare bytes: it is what the quotes hold, and an error
      if the closing quote is not the end of it. */
  lemma {:induction false} QuotedArgument(
    blanks: seq<byte>, w: seq<byte>, body: seq<byte>, text: seq<byte>, rest: seq<byte>)
    requires OnlyBlanks(blanks) && BareText(w) && QuotedText(body, text)
    ensures LineArguments(blanks + (w + [34] + (body + [34] + rest))) ==
      if rest == [] || rest[0] == 0 || IsBlank(rest[0]) then Prefixed([w + text], LineArguments(rest)) else None
  {
    var behind := body + [34] + rest;
    var b := w + [34] + behind;
    InQuotesReads(body, text, rest);
    QuoteBehind(w, behind);
    BlanksSkipped(blanks, b);
    BehindQuotes(w, body, rest);
    TextJoins(InQuotes(behind), w, text, |body| + 1);
    FirstArgument(b, rest, |w| + |body| + 2);
  }

  lemma {:induction false} BehindQuotes(w: seq<byte>, body: seq<byte>, rest: seq<byte>)
    ensures var b := w + [34] + (body + [34] + rest);
      |w| + |body| + 2 <= |b| && b[|w| + |body| + 2..] == rest
  {
  }

  lemma {:induction false} TextJoins(v: Word, w: seq<byte>, text: seq<byte>, n: nat)
    requires v == Broken || v == Word(text, n)
    ensures Longer(Longer(v, [], 1), w, |w|) == if v == Broken then Broken else Word(w + text, |w| + n + 1)
  {
    assert [] + text == text;
  }

  /** Quotes that are never closed, with or without a lone backslash at the end. */
  lemma {:induction false} UnclosedArgument(
    blanks: seq<byte>, w: seq<byte>, body: seq<byte>, text: seq<byte>, end: seq<byte>)
    requires OnlyBlanks(blanks) && BareText(w) && QuotedText(body, text)
    requires end == [] || end[0] == 0 || (end[0] == 92 && (|end| == 1 || end[1] == 0))
    ensures LineArguments(blanks + (w + [34] + (body + end))) == None
  {
    var behind := body + end;
    var b := w + [34] + behind;
    UnclosedReads(body, text, end);
    QuoteBehind(w, behind);
    BlanksSkipped(blanks, b);
    FirstArgument(b, [], 0);
  }

  lemma {:induction false} UnclosedReads(body: seq<byte>, text: seq<byte>, end: seq<byte>)
    requires QuotedText(body, text)
    requires end == [] || end[0] == 0 || (end[0] == 92 && (|end| == 1 || end[1] == 0))
    ensures InQuotes(body + end) == Broken
    decreases |body|
  {
    var b := body + end;
    if body == [] {
      assert b == end;
      assert end != [] && end[0] == 92 ==> Ends(end[1..]);
    } else if body[0] == 92 {
      assert b[2..] == body[2..] + end && b[1..][0] == body[1];
      UnclosedReads(body[2..], text[1..], end);
    } else {
      assert b[1..] == body[1..] + end;
      UnclosedReads(body[1..], text[1..], end);
    }
  }

  lemma {:induction false} QuoteBehind(w: seq<byte>, behind: seq<byte>)
    requires BareText(w)
    ensures Bare(w + [34] + behind) == Longer(Longer(InQuotes(behind), [], 1), w, |w|)
    ensures var b := w + [34] + behind; b[0] != 0 && !IsBlank(b[0])
  {
    var b := [34] + behind;
    assert w + [34] + behind == w + b && b[1..] == behind;
    BareReads(w, b);
  }

  /** The first argument of a line that starts with it. */
  lemma {:induction false} FirstArgument(b: seq<byte>, rest: seq<byte>, size: nat)
    requires b != [] && b[0] != 0 && !IsBlank(b[0])
    requires Bare(b).Word? ==> Bare(b).size == size && size <= |b| && rest == b[size..]
    ensures LineArguments(b) == if Bare(b).Broken? then None else Prefixed([Bare(b).text], LineArguments(rest))
  {
    assert Blanks(b) == 0 && b[0..] == b;
  }

  /** An argument without quotes ends at a blank of its own kind or at the end. */
  lemma {:induction false} BareArgument(blanks: seq<byte>, w: seq<byte>, rest: seq<byte>)
    requires OnlyBlanks(blanks) && BareText(w) && w != []
    requires rest == [] || rest[0] in [0, 9, 10, 13, 32]
    ensures LineArguments(blanks + (w + rest)) == Prefixed([w], LineArguments(rest))
  {
    var b := w + rest;
    BlanksSkipped(blanks, b);
    BareReads(w, rest);
    assert b[0] == w[0] && w + [] == w;
    if rest == [] || rest[0] == 0 {
      SliceBehind(w, rest, 0);
      FirstArgument(b, rest, |w|);
    } else {
      SliceBehind(w, rest, 1);
      FirstArgument(b, rest[1..], |w| + 1);
      BlankSkipped(rest, rest[1..]);
    }
  }

  lemma {:induction false} SliceBehind(w: seq<byte>, rest: seq<byte>, n: nat)
    requires n <= |rest|
    ensures |w| + n <= |w + rest| && (w + rest)[|w| + n..] == rest[n..]
    ensures rest[0..] == rest
  {
  }

  lemma {:induction false} BlankSkipped(b: seq<byte>, c: seq<byte>)
    requires b != [] && IsBlank(b[0]) && c == b[1..]
    ensures LineArguments(b) == LineArguments(c)
  {
    assert b == [b[0]] + c;
    BlanksSkipped([b[0]], c);
  }

  lemma {:induction false} NothingOnLine(blanks: seq<byte>, rest: seq<byte>)
    requires OnlyBlanks(blanks) && (rest == [] || rest[0] == 0)
    ensures LineArguments(blanks + rest) == Some([])
  {
    BlanksSkipped(blanks, rest);
    assert Blanks(rest) == 0 && rest[0..] == rest;
  }

  // Quoting and reading back

  /** The rest of a quoted string, up to the closing quote, and what follows it. */
  function Tail(s: seq<byte>, more: seq<byte>): (b: seq<byte>)
    ensures b != []
  {
    EscapedAll(s) + [QUOTE] + more
  }

  lemma {:induction false} TailNext(s: seq<byte>, more: seq<byte>, rest: seq<byte>)
    requires s != [] && rest == Tail(s[1..], more)
    ensures Tail(s, more) == Escaped(s[0]) + rest
  {
  }

  lemma {:induction false} TailStarts(s: seq<byte>, more: seq<byte>)
    ensures Tail(s, more)[0] == (if s == [] then QUOTE else Escaped(s[0])[0])
    ensures IsPrint(Tail(s, more)[0])
  {
  }

  /** How the reader sees one escaped byte. */
  lemma {:induction false} ReadsEscaped(c: byte, rest: seq<byte>, b: seq<byte>)
    requires b == Escaped(c) + rest && !Ends(rest)
    ensures IsPrint(c) ==> InQuotes(b) == Longer(InQuotes(rest), [c], |Escaped(c)|)
    ensures !IsPrint(c) && !IsControl(c) ==> InQuotes(b) == Longer(InQuotes(b[2..]), [LETTER_X], 2)
    ensures IsControl(c) ==> InQuotes(b) == Longer(InQuotes(rest[1..]), [Unescape(rest[0])], 2)
  {
    if c == BACKSLASH || c == QUOTE {
      assert b[1..][0] == c && b[2..] == rest;
    } else if IsControl(c) {
      assert b[1..] == rest && b[2..] == rest[1..];
    } else if IsPrint(c) {
      assert b[1..] == rest;
    } else {
      assert b[1..][0] == LETTER_X;
    }
  }

  lemma {:induction false} PrintableReadsBack(s: seq<byte>, more: seq<byte>)
    requires AllPrint(s) && (Ends(more) || IsSpace(more[0]))
    ensures InQuotes(Tail(s, more)) == Word(s, |EscapedAll(s)| + 1)
    decreases |s|
  {
    if s == [] {
      assert Tail(s, more)[1..] == more;
    } else {
      var rest := Tail(s[1..], more);
      TailNext(s, more, rest);
      TailStarts(s[1..], more);
      ReadsEscaped(s[0], rest, Tail(s, more));
      PrintableReadsBack(s[1..], more);
      assert [s[0]] + s[1..] == s;
    }
  }

  predicate IsEscapeLetter(c: byte) {
    c == LETTER_N || c == LETTER_R || c == LETTER_T || c == LETTER_B || c == LETTER_A
  }

  /** Once a letter has been swallowed by an escape, the rest cannot make up for it. */
  lemma {:induction false} NeverCatchesUp(t: seq<byte>, letter: byte, more: seq<byte>)
    requires IsEscapeLetter(letter)
    ensures var w := InQuotes(Tail(t, more)); w.Broken? || w.text != [letter] + t
    decreases |t|
  {
    if t == [] {
      assert Tail(t, more)[0] == QUOTE;
    } else {
      var c, rest, w := t[0], Tail(t[1..], more), InQuotes(Tail(t, more));
      TailNext(t, more, rest);
      TailStarts(t[1..], more);
      ReadsEscaped(c, rest, Tail(t, more));
      if IsPrint(c) {
        NeverCatchesUp(t[1..], letter, more);
        StillBehind(InQuotes(rest), c, letter, t, |Escaped(c)|);
      } else {
        assert w.Word? ==> w.text[0] != letter;
      }
    }
  }

  /** One more byte read as itself does not make up for the letter. */
  lemma {:induction false} StillBehind(v: Word, c: byte, letter: byte, t: seq<byte>, n: nat)
    requires t != [] && t[0] == c && (v.Broken? || v.text != [letter] + t[1..])
    ensures var w := Longer(v, [c], n); w.Broken? || w.text != [letter] + t
  {
    assert v.Word? ==> ([c] + v.text)[1..] == v.text;
    assert ([letter] + t)[0] == letter && ([letter] + t)[1..] == t && t == [c] + t[1..];
  }

  lemma {:induction false} Heads(v: Word, w: Word, c: byte, s: seq<byte>)
    requires s != []
    ensures forall n: nat :: w == Longer(v, [c], n) && w.Word? && w.text == s ==> c == s[0] && v.text == s[1..]
  {
  }

  /** A string with an unprintable byte is never read back. */
  lemma {:induction false} UnprintableIsLost(s: seq<byte>, more: seq<byte>)
    requires !AllPrint(s)
    ensures var w := InQuotes(Tail(s, more)); w.Broken? || w.text != s
    decreases |s|
  {
    var c, rest := s[0], Tail(s[1..], more);
    TailNext(s, more, rest);
    TailStarts(s[1..], more);
    ReadsEscaped(c, rest, Tail(s, more));
    if IsPrint(c) {
      UnprintableIsLost(s[1..], more);
      Heads(InQuotes(rest), InQuotes(Tail(s, more)), c, s);
    } else if IsControl(c) {
      Swallowed(s, more, rest);
    }
  }

  /** A control escape reads the byte behind it. That gives the control byte back only if
      the string goes on with the letter of the escape, which is then missing. */
  lemma {:induction false} Swallowed(s: seq<byte>, more: seq<byte>, rest: seq<byte>)
    requires s != [] && IsControl(s[0]) && rest == Tail(s[1..], more)
    ensures var w := Longer(InQuotes(rest[1..]), [Unescape(rest[0])], 2); w.Broken? || w.text != s
  {
    TailStarts(s[1..], more);
    if Unescape(rest[0]) == s[0] {
      var letter := rest[0];
      assert IsEscapeLetter(letter) && |s| > 1 && s[1] == letter;
      TailNext(s[1..], more, Tail(s[1..][1..], more));
      assert s[1..][1..] == s[2..] && rest[1..] == Tail(s[2..], more);
      NeverCatchesUp(s[2..], letter, more);
      var w := InQuotes(rest[1..]);
      assert s == [s[0]] + ([letter] + s[2..]);
    }
  }

  /** Quoted strings, separated by single spaces. */
  function QuotedAll(ss: seq<seq<byte>>): seq<byte> {
    if ss == [] then []
    else if |ss| == 1 then Quoted(ss[0])
    else Quoted(ss[0]) + [SPACE] + QuotedAll(ss[1..])
  }

  /** The first argument of a line of quoted strings. */
  lemma {:induction false} FirstQuoted(s: seq<byte>, more: seq<byte>, line: seq<byte>)
    requires line == Quoted(s) + more && (Ends(more) || IsSpace(more[0]))
    ensures AllPrint(s) ==> LineArguments(line) == Prefixed([s], LineArguments(more))
    ensures !AllPrint(s) ==> LineArguments(line).None? || LineArguments(line).value[0] != s
  {
    assert line[0] == QUOTE && line[1..] == Tail(s, more);
    assert line[Blanks(line)..] == line;
    if AllPrint(s) {
      PrintableReadsBack(s, more);
      assert Bare(line) == Word([] + s, |Quoted(s)|) && [] + s == s;
      assert line[|Quoted(s)|..] == more;
    } else {
      UnprintableIsLost(s, more);
      var w := InQuotes(line[1..]);
      assert w.Word? ==> [] + w.text == w.text;
    }
  }

  /** Quoting and splitting is the identity exactly for lists of printable strings. */
  lemma {:induction false} QuoteRoundTrip(ss: seq<seq<byte>>)
    ensures LineArguments(QuotedAll(ss)) == Some(ss) <==> forall s :: s in ss ==> AllPrint(s)
    ensures (forall s :: s in ss ==> AllPrint(s)) <==> forall s, b :: s in ss && b in s ==> 32 <= b <= 126
    decreases |ss|
  {
    PrintableBytes(ss);
    if ss != [] {
      var tail := ss[1..];
      var more := if tail == [] then [] else [SPACE] + QuotedAll(tail);
      assert QuotedAll(ss) == Quoted(ss[0]) + more;
      FirstQuoted(ss[0], more, QuotedAll(ss));
      QuoteRoundTrip(tail);
      SpaceSkipped(tail, more);
      assert ss == [ss[0]] + tail;
      RoundTripStep(ss, LineArguments(QuotedAll(ss)), LineArguments(more));
    }
  }

  lemma {:induction false} PrintableBytes(ss: seq<seq<byte>>)
    ensures (forall s :: s in ss ==> AllPrint(s)) <==> forall s, b :: s in ss && b in s ==> 32 <= b <= 126
  {
    if forall s, b :: s in ss && b in s ==> 32 <= b <= 126 {
      forall s | s in ss
        ensures AllPrint(s)
      {
        assert forall i :: 0 <= i < |s| ==> s[i] in s;
      }
    }
  }

  lemma {:induction false} SpaceSkipped(tail: seq<seq<byte>>, more: seq<byte>)
    requires more == if tail == [] then [] else [SPACE] + QuotedAll(tail)
    ensures LineArguments(more) == LineArguments(QuotedAll(tail))
  {
    if tail != [] {
      var b := QuotedAll(tail);
      assert b[0] == QUOTE && more[1..] == b;
      assert Blanks(b) == 0 && Blanks(more) == 1;
      assert more[1..] == b[0..];
    }
  }

  lemma {:induction false} RoundTripStep(
    ss: seq<seq<byte>>, all: Option<seq<seq<byte>>>, others: Option<seq<seq<byte>>>)
    requires ss != []
    requires AllPrint(ss[0]) ==> all == Prefixed([ss[0]], others)
    requires !AllPrint(ss[0]) ==> all != Some(ss)
    requires others == Some(ss[1..]) <==> forall s :: s in ss[1..] ==> AllPrint(s)
    ensures all == Some(ss) <==> forall s :: s in ss ==> AllPrint(s)
  {
    assert ss == [ss[0]] + ss[1..];
    assert forall s :: s in ss <==> s == ss[0] || s in ss[1..];
    if AllPrint(ss[0]) && others.Some? {
      assert ([ss[0]] + others.value)[1..] == others.value;
    }
  }
}

/** Decimal numerals: what `intlen`, `sprintf("%d")` and `sdsfromlonglong` print
    and what `readLongLong` reads back. */
module Numerals {
  import opened Bytes

  const LONG_LONG_LIMIT := 0x8000_0000_0000_0000 // 2^63
  const INT_MAX := 0x7fff_ffff

  predicate IsDigit(c: byte) { 48 <= c <= 57 }

  predicate AllDigits(s: seq<byte>) {
    forall i :: 0 <= i < |s| ==> IsDigit(s[i])
  }

  /** Decimal digits of `n`, most significant first, without leading zeros. */
  function Decimal(n: nat): (d: seq<byte>)
    ensures AllDigits(d) && |d| >= 1
  {
    if n < 10 then [48 + n] else Decimal(n / 10) + [48 + n % 10]
  }

  function Numeral(v: int): (s: seq<byte>)
    ensures |s| >= 1
  {
    if v < 0 then [MINUS] + Decimal(-v) else Decimal(v)
  }

  /** The accumulator of `readLongLong` after the digits `s`. */
  function Accumulate(acc: nat, s: seq<byte>): nat
    requires AllDigits(s)
    decreases |s|
  {
    if s == [] then acc else Accumulate(acc * 10 + (s[0] - 48), s[1..])
  }

  /** The digit loop of `readLongLong`: it stops at the first CR, or gives up
      with -1 at anything that is not a digit. */
  function ReadDigits(mult: int, acc: nat, s: seq<byte>): int
    decreases |s|
  {
    if s == [] || s[0] == CR then mult * acc
    else if IsDigit(s[0]) then ReadDigits(mult, acc * 10 + (s[0] - 48), s[1..])
    else -1
  }

  /** `readLongLong` on a line whose terminating CRLF is not included. */
  function ReadLongLong(line: seq<byte>): int {
    if line != [] && line[0] == MINUS then ReadDigits(-1, 0, line[1..])
    else if line != [] && line[0] == PLUS then ReadDigits(1, 0, line[1..])
    else ReadDigits(1, 0, line)
  }

  lemma {:induction false} AccumulateAppend(acc: nat, s: seq<byte>, t: seq<byte>)
    requires AllDigits(s) && AllDigits(t)
    ensures AllDigits(s + t)
    ensures Accumulate(acc, s + t) == Accumulate(Accumulate(acc, s), t)
    decreases |s|
  {
    if s == [] {
      assert s + t == t;
    } else {
      assert (s + t)[1..] == s[1..] + t;
      AccumulateAppend(acc * 10 + (s[0] - 48), s[1..], t);
    }
  }

  lemma {:induction false} AccumulateDecimal(n: nat)
    ensures Accumulate(0, Decimal(n)) == n
  {
    if n >= 10 {
      AccumulateDecimal(n / 10);
      AccumulateAppend(0, Decimal(n / 10), [48 + n % 10]);
    }
  }

  lemma {:induction false} ReadDigitsAccumulates(mult: int, acc: nat, s: seq<byte>)
    requires AllDigits(s)
    ensures ReadDigits(mult, acc, s) == mult * Accumulate(acc, s)
    decreases |s|
  {
    if s != [] {
      ReadDigitsAccumulates(mult, acc * 10 + (s[0] - 48), s[1..]);
    }
  }

  /** Reading any numeral, with or without a sign and leading zeros, gives its value. */
  lemma {:induction false} ReadSigned(digits: seq<byte>)
    requires AllDigits(digits)
    ensures ReadLongLong([MINUS] + digits) == -1 * Accumulate(0, digits)
    ensures ReadLongLong([PLUS] + digits) == Accumulate(0, digits)
    ensures ReadLongLong(digits) == Accumulate(0, digits)
  {
    assert ([MINUS] + digits)[1..] == digits;
    assert ([PLUS] + digits)[1..] == digits;
    ReadDigitsAccumulates(-1, 0, digits);
    ReadDigitsAccumulates(1, 0, digits);
  }

  lemma {:induction false} ReadNumeral(v: int)
    ensures ReadLongLong(Numeral(v)) == v
  {
    var n: nat := if v < 0 then -v else v;
    ReadSigned(Decimal(n));
    AccumulateDecimal(n);
  }

  // What a line means, without the loop that reads it

  /** The value of digits by their positions, least significant last. */
  function Value(digits: seq<byte>): nat
    requires AllDigits(digits)
  {
    if digits == [] then 0 else 10 * Value(digits[..|digits| - 1]) + (digits[|digits| - 1] - 48)
  }

  /** A line is an optional sign, as many digits as follow it, and the rest. */
  ghost predicate Consists(line: seq<byte>, sign: seq<byte>, digits: seq<byte>, rest: seq<byte>) {
    && line == sign + digits + rest
    && (sign == [43] || sign == [45] || (sign == [] && (line == [] || (line[0] != 43 && line[0] != 45))))
    && (forall i :: 0 <= i < |digits| ==> 48 <= digits[i] <= 57) && (rest == [] || !(48 <= rest[0] <= 57))
  }

  /** The number in front of the end of the line or a CR; anything else behind the digits
      makes it -1. No digits at all make zero. */
  function Meaning(sign: seq<byte>, digits: seq<byte>, rest: seq<byte>): int
    requires AllDigits(digits)
  {
    var n: int := Value(digits);
    if rest != [] && rest[0] != 13 then -1 else if sign == [45] then -n else n
  }

  ghost predicate Denotes(line: seq<byte>, v: int) {
    exists sign, digits, rest :: Consists(line, sign, digits, rest) && v == Meaning(sign, digits, rest)
  }

  lemma {:induction false} AccumulateIsValue(digits: seq<byte>)
    requires AllDigits(digits)
    ensures Accumulate(0, digits) == Value(digits)
    decreases |digits|
  {
    if digits != [] {
      var n := |digits| - 1;
      AccumulateIsValue(digits[..n]);
      AccumulateAppend(0, digits[..n], [digits[n]]);
      assert digits == digits[..n] + [digits[n]];
    }
  }

  lemma {:induction false} ReadDigitsStops(mult: int, acc: nat, digits: seq<byte>, rest: seq<byte>)
    requires AllDigits(digits) && (rest == [] || !IsDigit(rest[0]))
    ensures ReadDigits(mult, acc, digits + rest) ==
      if rest != [] && rest[0] != CR then -1 else mult * Accumulate(acc, digits)
    decreases |digits|
  {
    if digits == [] {
      assert digits + rest == rest;
    } else {
      assert (digits + rest)[1..] == digits[1..] + rest;
      ReadDigitsStops(mult, acc * 10 + (digits[0] - 48), digits[1..], rest);
    }
  }

  lemma {:induction false} ReadsMeaning(line: seq<byte>, sign: seq<byte>, digits: seq<byte>, rest: seq<byte>)
    requires Consists(line, sign, digits, rest)
    ensures ReadLongLong(line) == Meaning(sign, digits, rest)
  {
    var body := digits + rest;
    assert line == sign + body;
    ReadDigitsStops(-1, 0, digits, rest);
    ReadDigitsStops(1, 0, digits, rest);
    AccumulateIsValue(digits);
    if sign == [] {
      assert line == body;
    } else {
      assert line[0] == sign[0] && line[1..] == body;
    }
  }

  lemma {:induction false} Segments(line: seq<byte>) returns (sign: seq<byte>, digits: seq<byte>, rest: seq<byte>)
    ensures Consists(line, sign, digits, rest)
  {
    sign := if line != [] && (line[0] == MINUS || line[0] == PLUS) then [line[0]] else [];
    var n := |sign|;
    digits := [];
    while n < |line| && IsDigit(line[n])
      invariant |sign| <= n <= |line| && digits == line[|sign|..n] && AllDigits(digits)
    {
      digits, n := digits + [line[n]], n + 1;
    }
    rest := line[n..];
    assert line == sign + line[|sign|..n] + line[n..];
  }

  lemma {:induction false} PartsAreUnique(line: seq<byte>, sign: seq<byte>, digits: seq<byte>, rest: seq<byte>)
    requires Consists(line, sign, digits, rest)
    ensures forall s, d, r :: Consists(line, s, d, r) ==> s == sign && d == digits && r == rest
  {
    forall s, d, r | Consists(line, s, d, r)
      ensures s == sign && d == digits && r == rest
    {
      var body, b := digits + rest, d + r;
      assert line == sign + body == s + b;
      assert (sign == [] ==> body == line) && (s == [] ==> b == line);
      SamePart(sign, s, body, b);
      SameDigits(digits, rest, d, r);
    }
  }

  lemma {:induction false} SamePart(sign: seq<byte>, s: seq<byte>, body: seq<byte>, b: seq<byte>)
    requires sign + body == s + b
    requires sign == [MINUS] || sign == [PLUS] || (sign == [] && (body == [] || (body[0] != MINUS && body[0] != PLUS)))
    requires s == [MINUS] || s == [PLUS] || (s == [] && (b == [] || (b[0] != MINUS && b[0] != PLUS)))
    ensures sign == s && body == b
  {
    assert |sign| == |s| by {
      assert sign != [] ==> (sign + body)[0] == sign[0];
      assert s != [] ==> (s + b)[0] == s[0];
      assert sign == [] ==> sign + body == body;
      assert s == [] ==> s + b == b;
    }
    assert sign == (sign + body)[..|sign|] && body == (sign + body)[|sign|..];
    assert s == (s + b)[..|s|] && b == (s + b)[|s|..];
  }

  lemma {:induction false} SameDigits(digits: seq<byte>, rest: seq<byte>, d: seq<byte>, r: seq<byte>)
    requires digits + rest == d + r && AllDigits(digits) && AllDigits(d)
    requires (rest == [] || !IsDigit(rest[0])) && (r == [] || !IsDigit(r[0]))
    ensures digits == d && rest == r
  {
    var body := digits + rest;
    assert |digits| < |body| ==> body[|digits|] == rest[0];
    assert |d| < |body| ==> body[|d|] == r[0];
    assert forall i :: 0 <= i < |digits| ==> body[i] == digits[i];
    assert forall i :: 0 <= i < |d| ==> body[i] == d[i];
    assert digits == body[..|digits|] && d == body[..|d|] && rest == body[|digits|..] && r == body[|d|..];
  }

  /** The reader takes every line for exactly what it denotes. */
  lemma {:induction false} ReadsWhatItDenotes(line: seq<byte>, v: int)
    ensures ReadLongLong(line) == v <==> Denotes(line, v)
  {
    var sign, digits, rest := Segments(line);
    ReadsMeaning(line, sign, digits, rest);
    if Denotes(line, v) {
      var s, d, r :| Consists(line, s, d, r) && v == Meaning(s, d, r);
      ReadsMeaning(line, s, d, r);
    }
  }

  /** Decimal notation: one more digit behind others, and the signs. */
  lemma {:induction false} PositionalNotation(digits: seq<byte>, n: int, d: nat)
    requires (forall i :: 0 <= i < |digits| ==> 48 <= digits[i] <= 57) && Denotes(digits, n) && d <= 9
    ensures Denotes([], 0) && Denotes(digits + [48 + d], 10 * n + d)
    ensures Denotes([45] + digits, -n) && Denotes([43] + digits, n)
  {
    DigitsDenote([], [], []);
    DigitsMean(digits, n);
    NextDigit(digits, d, digits + [48 + d]);
    DigitsDenote([45], digits, [45] + digits);
    DigitsDenote([43], digits, [43] + digits);
  }

  lemma {:induction false} NextDigit(digits: seq<byte>, d: nat, longer: seq<byte>)
    requires AllDigits(digits) && d <= 9 && longer == digits + [48 + d]
    ensures Denotes(longer, 10 * Value(digits) + d)
  {
    assert longer[..|digits|] == digits && [] + longer == longer;
    DigitsDenote([], longer, longer);
  }

  lemma {:induction false} DigitsDenote(sign: seq<byte>, digits: seq<byte>, line: seq<byte>)
    requires AllDigits(digits) && sign in [[], [43], [45]] && line == sign + digits
    ensures Denotes(line, if sign == [45] then 0 - Value(digits) else Value(digits))
  {
    assert line == sign + digits + [];
    assert Consists(line, sign, digits, []);
  }

  lemma {:induction false} DigitsMean(digits: seq<byte>, n: int)
    requires AllDigits(digits) && Denotes(digits, n)
    ensures n == Value(digits)
  {
    ReadsWhatItDenotes(digits, n);
    assert digits == [] + digits + [];
    assert Consists(digits, [], digits, []);
    ReadsMeaning(digits, [], digits, []);
  }

  /** One digit more: the accumulator before and after it stays within the whole value. */
  lemma {:induction false} ValueOfPrefix(digits: seq<byte>, k: nat)
    requires AllDigits(digits) && k < |digits|
    ensures Value(digits[..k + 1]) == Value(digits[..k]) * 10 + (digits[k] - 48) <= Value(digits)
    decreases |digits| - k
  {
    assert digits[..k + 1][..k] == digits[..k];
    if k + 1 < |digits| {
      ValueOfPrefix(digits, k + 1);
    } else {
      assert digits[..k + 1] == digits;
    }
  }

  /** A decimal numeral without a plus sign or leading zeros. */
  ghost predicate IsDecimal(t: seq<byte>, n: int) {
    var digits := if n < 0 && t != [] then t[1..] else t;
    && (n < 0 ==> t != [] && t[0] == 45) && digits != []
    && (forall i :: 0 <= i < |digits| ==> 48 <= digits[i] <= 57)
    && (digits[0] == 48 ==> n == 0 && |digits| == 1)
    && Denotes(t, n)
  }

  lemma {:induction false} DecimalDigits(n: nat)
    ensures Decimal(n)[0] == 48 ==> n == 0 && |Decimal(n)| == 1
  {
    if n >= 10 {
      DecimalDigits(n / 10);
    }
  }

  lemma {:induction false} NumeralIsDecimal(n: int)
    ensures IsDecimal(Numeral(n), n)
  {
    ReadNumeral(n);
    ReadsWhatItDenotes(Numeral(n), n);
    DecimalDigits(if n < 0 then -n else n);
  }

  /** The numeral is the only one. */
  lemma {:induction false} DecimalIsUnique(t: seq<byte>, n: int)
    requires IsDecimal(t, n)
    ensures t == Numeral(n)
  {
    var digits := if n < 0 then t[1..] else t;
    assert AllDigits(digits);
    ReadsWhatItDenotes(t, n);
    var sign := if n < 0 then [MINUS] else [];
    assert t == sign + digits + [];
    PlainValue(t, sign, digits, n);
    DigitsAreDecimal(digits);
  }

  lemma {:induction false} PlainValue(t: seq<byte>, sign: seq<byte>, digits: seq<byte>, n: int)
    requires t == sign + digits && sign == (if n < 0 then [MINUS] else []) && AllDigits(digits)
    requires ReadLongLong(t) == n
    ensures Value(digits) == if n < 0 then -n else n
  {
    assert Consists(t, sign, digits, []);
    ReadsMeaning(t, sign, digits, []);
  }

  lemma {:induction false} DigitsAreDecimal(digits: seq<byte>)
    requires AllDigits(digits) && digits != [] && (digits[0] == 48 ==> |digits| == 1)
    ensures Decimal(Value(digits)) == digits
    decreases |digits|
  {
    var n := |digits| - 1;
    ValueOfPrefix(digits, n);
    assert digits[..n + 1] == digits && digits == digits[..n] + [digits[n]];
    if n > 0 {
      DigitsAreDecimal(digits[..n]);
      LeadingDigit(digits[..n]);
    } else {
      assert digits[..0] == [];
    }
  }

  lemma {:induction false} LeadingDigit(digits: seq<byte>)
    requires AllDigits(digits) && digits != [] && digits[0] != 48
    ensures Value(digits) > 0
    decreases |digits|
  {
    var n := |digits| - 1;
    ValueOfPrefix(digits, n);
    assert digits[..n + 1] == digits;
    if n > 0 {
      LeadingDigit(digits[..n]);
    }
  }

  /** If the value of a numeral fits `long long`, so does every intermediate
      value of the accumulator, before and after the digit is added. */
  lemma {:induction false} AccumulatorNeverOverflows(digits: seq<byte>, k: nat)
    requires AllDigits(digits) && k < |digits| && Value(digits) < LONG_LONG_LIMIT
    ensures Value(digits[..k]) * 10 < LONG_LONG_LIMIT && Value(digits[..k + 1]) < LONG_LONG_LIMIT
  {
    ValueOfPrefix(digits, k);
  }

  lemma {:induction false} NumeralHasNoCrlf(v: int)
    ensures NoCrlf(Numeral(v))
    ensures CR !in Numeral(v)
  {
    var s := Numeral(v);
    var d := Decimal(if v < 0 then -v else v);
    assert forall i :: 0 <= i < |d| ==> IsDigit(d[i]);
    assert forall i :: 0 <= i < |s| ==> s[i] == MINUS || IsDigit(s[i]);
    forall i
      ensures !CrlfAt(s, i)
    {
    }
  }

  /** Fewer digits than the power of ten that bounds the number. */
  lemma {:induction false} DecimalLength(n: nat, digits: nat)
    requires digits >= 1 && n < Power10(digits)
    ensures |Decimal(n)| <= digits
  {
    if n >= 10 {
      assert digits > 1;
      DecimalLength(n / 10, digits - 1);
    }
  }

  function Power10(e: nat): (p: nat)
    ensures p >= 1
  {
    if e == 0 then 1 else 10 * Power10(e - 1)
  }

  /** `intlen`: the length of the printed form, found by counting divisions. */
  method IntLen(i: int) returns (len: nat)
    ensures len == |Numeral(i)|
  {
    len := 0;
    var rest := i;
    if i < 0 {
      len := 1;
      rest := -i;
    }
    ghost var sign, whole := len, rest;
    len := len + 1;
    rest := rest / 10;
    while rest != 0
      invariant rest >= 0
      invariant len + (if rest == 0 then 0 else |Decimal(rest)|) == sign + |Decimal(whole)|
      decreases rest
    {
      len := len + 1;
      rest := rest / 10;
    }
  }

  /** The digits still to be written. */
  function Pending(v: nat): seq<byte> {
    if v == 0 then [] else Decimal(v)
  }

  lemma {:induction false} PendingStep(v: nat, tail: seq<byte>)
    requires v > 0
    ensures Pending(v) + tail == Pending(v / 10) + ([48 + v % 10] + tail) && |Pending(v / 10)| == |Pending(v)| - 1
  {
    if v < 10 {
      assert [48 + v] + tail == [] + ([48 + v % 10] + tail);
    } else {
      assert Decimal(v / 10) + [48 + v % 10] + tail == Decimal(v / 10) + ([48 + v % 10] + tail);
    }
  }

  /** 19 digits are enough for every magnitude below 2^63. */
  lemma {:induction false} LongLongDigits(n: nat)
    requires n < LONG_LONG_LIMIT
    ensures |Decimal(n)| <= 19
  {
    assert Power10(2) == 100 && Power10(4) == 10_000;
    assert Power10(6) == 1_000_000 && Power10(8) == 100_000_000;
    assert Power10(10) == 10_000_000_000 && Power10(12) == 1_000_000_000_000;
    assert Power10(14) == 100_000_000_000_000 && Power10(16) == 10_000_000_000_000_000;
    assert Power10(19) == 10_000_000_000_000_000_000;
    DecimalLength(n, 19);
  }

  /** `*p-- = ...` */
  method PutBefore(buf: array<byte>, p: nat, b: byte)
    requires p < buf.Length
    modifies buf
    ensures buf[p..] == [b] + old(buf[p + 1..])
  {
    buf[p] := b;
    assert buf[p + 1..] == old(buf[p + 1..]);
  }

  /** `sdsfromlonglong`: digits are written backwards into a 32-byte scratch buffer.
      The array bounds prove that the buffer is never underrun. */
  method FromLongLong(value: int) returns (s: seq<byte>)
    requires -LONG_LONG_LIMIT < value < LONG_LONG_LIMIT
    ensures s == Numeral(value)
  {
    var buf := new byte[32];
    var whole: nat := if value < 0 then -value else value;
    LongLongDigits(whole);
    var p := 31;
    PutBefore(buf, p, 48 + whole % 10);
    p := p - 1;
    var v: nat := whole / 10;
    assert Decimal(whole) == Pending(v) + buf[p + 1..];
    while v != 0
      invariant 0 <= p <= 30 && |Pending(v)| <= p
      invariant Decimal(whole) == Pending(v) + buf[p + 1..]
    {
      PendingStep(v, buf[p + 1..]);
      PutBefore(buf, p, 48 + v % 10);
      p := p - 1;
      v := v / 10;
    }
    assert buf[p + 1..] == Decimal(whole);
    if value < 0 {
      PutBefore(buf, p, MINUS);
      p := p - 1;
    }
    s := buf[p + 1..];
  }

  /** `readLongLong`: walks the buffer until the CR that ends the line. `peak` is the largest
      value the accumulator takes; it stays within the number that the digits make. */
  method ReadLongLongAt(s: array<byte>, start: nat, ghost end: nat) returns (value: int, ghost peak: nat)
    requires start <= end < s.Length && s[end] == CR
    ensures value == ReadLongLong(s[start..end])
    ensures forall sign, digits, rest :: Consists(s[start..end], sign, digits, rest) ==> peak <= Value(digits)
  {
    ghost var line := s[start..end];
    ghost var sign, digits, rest := Segments(line);
    PartsAreUnique(line, sign, digits, rest);
    ReadsMeaning(line, sign, digits, rest);
    var p, mult := start, 1;
    if s[p] == MINUS {
      mult := -1;
      p := p + 1;
    } else if s[p] == PLUS {
      p := p + 1;
    }
    var v: nat := 0;
    peak := 0;
    ghost var n := 0;
    while s[p] != CR
      invariant start <= p <= end && n <= |digits| && p == start + |sign| + n
      invariant v == Value(digits[..n]) && v <= peak <= Value(digits)
      decreases end - p
    {
      assert p < end ==> s[p] == line[p - start];
      if !IsDigit(s[p]) {
        return -1, peak;
      }
      ValueOfPrefix(digits, n);
      v := v * 10;
      peak := if peak < v then v else peak;
      v := v + (s[p] - 48);
      peak := if peak < v then v else peak;
      p, n := p + 1, n + 1;
    }
    assert p < end ==> s[p] == line[p - start];
    assert digits[..n] == digits;
    value := mult * v;
  }
}

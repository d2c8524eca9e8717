/** `redisvFormatCommand`: a format string with interpolated values, split into the
    arguments of a command. */
module Format {
  import opened Bytes
  import opened Numerals
  import opened Machine
  import opened Printing
  import opened Commands

  /** A value from the argument list: a C string (the memory it points to), memory with a
      length, an `int`, or a `double` as `printf` renders it. */
  datatype Arg =
    | StrArg(memory: seq<byte>)
    | BinArg(memory: seq<byte>, len: nat)
    | IntArg(n: int)
    | DoubleArg(rendered: seq<byte>)

  const S_CODE: byte := 115
  const B_CODE: byte := 98
  const D_CODE: byte := 100
  const I_CODE: byte := 105
  const F_CODE: byte := 102

  /** Whether the conversion `c` takes a value from the argument list. */
  predicate Converts(c: byte) {
    c == S_CODE || c == B_CODE || c == D_CODE || c == I_CODE || c == F_CODE
  }

  predicate Suits(c: byte, a: Arg) {
    && (c == S_CODE ==> a.StrArg? && NUL in a.memory)
    && (c == B_CODE ==> a.BinArg? && a.len <= |a.memory|)
    && (c == D_CODE || c == I_CODE ==> a.IntArg?)
    && (c == F_CODE ==> a.DoubleArg?)
  }

  function Render(a: Arg): seq<byte>
    requires (a.StrArg? ==> NUL in a.memory) && (a.BinArg? ==> a.len <= |a.memory|)
  {
    match a
    case StrArg(m) => CString(m)
    case BinArg(m, n) => m[..n]
    case IntArg(n) => Numeral(n)
    case DoubleArg(r) => r
  }

  /** What `snprintf` and `sdscatlen` make of a value. */
  method Rendered(a: Arg) returns (t: seq<byte>)
    requires (a.StrArg? ==> NUL in a.memory) && (a.BinArg? ==> a.len <= |a.memory|)
    ensures t == Render(a)
  {
    match a
    case StrArg(m) =>
      var n := StrLen(m);
      t := m[..n];
    case BinArg(m, n) => t := m[..n];
    case IntArg(n) => t := Numeral(n);
    case DoubleArg(r) => t := r;
  }

  /** What a format consists of: separating spaces, literal bytes, interpolated values. */
  datatype Piece = Gap | Text(b: byte) | Value(s: seq<byte>)

  /** Whether a percent sign here starts a conversion; the last byte never does. */
  predicate Conversion(format: seq<byte>) {
    |format| >= 2 && format[0] == PERCENT
  }

  /** The argument list has a value of the right type for every conversion, which is what
      a variadic function needs of its callers. */
  predicate Supplies(format: seq<byte>, args: seq<Arg>)
    decreases |format|
  {
    if format == [] then true
    else if !Conversion(format) then Supplies(format[1..], args)
    else if Converts(format[1]) then args != [] && Suits(format[1], args[0]) && Supplies(format[2..], args[1..])
    else Supplies(format[2..], args)
  }

  /** The pieces of a format. An unknown conversion stands for nothing. */
  function Pieces(format: seq<byte>, args: seq<Arg>): seq<Piece>
    requires Supplies(format, args)
    decreases |format|
  {
    if format == [] then []
    else if !Conversion(format) then [if format[0] == SPACE then Gap else Text(format[0])] + Pieces(format[1..], args)
    else if Converts(format[1]) then [Value(Render(args[0]))] + Pieces(format[2..], args[1..])
    else if format[1] == PERCENT then [Text(PERCENT)] + Pieces(format[2..], args)
    else Pieces(format[2..], args)
  }

  // The declarative split

  /** The words between the gaps; there is always a last one. */
  function Words(ps: seq<Piece>): (ws: seq<seq<Piece>>)
    ensures |ws| >= 1
    decreases |ps|
  {
    if ps == [] then [[]]
    else
      var ws, p := Words(ps[..|ps| - 1]), ps[|ps| - 1];
      if p.Gap? then ws + [[]] else ws[..|ws| - 1] + [ws[|ws| - 1] + [p]]
  }

  function Spell(w: seq<Piece>): seq<byte>
    decreases |w|
  {
    if w == [] then []
    else
      var p := w[|w| - 1];
      Spell(w[..|w| - 1]) + (match p case Gap => [] case Text(b) => [b] case Value(s) => s)
  }

  predicate HasValue(w: seq<Piece>) {
    exists i :: 0 <= i < |w| && w[i].Value?
  }

  /** The texts of the words that are not empty. */
  function NonEmpty(ws: seq<seq<Piece>>): seq<seq<byte>>
    decreases |ws|
  {
    if ws == [] then []
    else
      var t := Spell(ws[|ws| - 1]);
      NonEmpty(ws[..|ws| - 1]) + (if t == [] then [] else [t])
  }

  /** A value in word `i`, and from there on nothing before word `n`. */
  predicate PendingFrom(ws: seq<seq<Piece>>, n: nat, i: nat)
    requires n <= |ws|
  {
    i < |ws| && HasValue(ws[i]) && forall j :: i <= j < n ==> Spell(ws[j]) == []
  }

  /** Some value was interpolated after the last non-empty word before word `n`. */
  predicate ValuePending(ws: seq<seq<Piece>>, n: nat)
    requires n <= |ws|
  {
    exists i :: 0 <= i < |ws| && PendingFrom(ws, n, i)
  }

  /** The arguments of a format: one per non-empty word, and an empty one at the end if
      the words after the last non-empty one contain a value. */
  function SplitFormat(ps: seq<Piece>): seq<seq<byte>> {
    var ws := Words(ps);
    NonEmpty(ws) + (if ValuePending(ws, |ws|) then [[]] else [])
  }

  // The loop of redisvFormatCommand

  /** `argv`, `current` and `interpolated` after the pieces `ps`. */
  ghost predicate Scanned(ps: seq<Piece>, argv: seq<seq<byte>>, current: seq<byte>, interpolated: bool) {
    var ws := Words(ps);
    var n := |ws| - 1;
    argv == NonEmpty(ws[..n]) && current == Spell(ws[n]) && interpolated == ValuePending(ws, n)
  }

  /** At the end a value is pending only behind the last non-empty word. */
  lemma {:induction false} PendingAtEnd(ws: seq<seq<Piece>>)
    requires ws != []
    ensures ValuePending(ws, |ws|) == (ValuePending(ws, |ws| - 1) && Spell(ws[|ws| - 1]) == [])
  {
    var n := |ws| - 1;
    if ValuePending(ws, |ws|) {
      var i :| 0 <= i < |ws| && PendingFrom(ws, |ws|, i);
      assert PendingFrom(ws, n, i);
    }
    if ValuePending(ws, n) && Spell(ws[n]) == [] {
      var i :| 0 <= i < |ws| && PendingFrom(ws, n, i);
      assert PendingFrom(ws, |ws|, i);
    }
  }

  /** Opening a new word keeps a pending value exactly when the word before was empty. */
  lemma {:induction false} PendingAcrossGap(ws: seq<seq<Piece>>)
    requires ws != []
    ensures ValuePending(ws + [[]], |ws|) == (ValuePending(ws, |ws| - 1) && Spell(ws[|ws| - 1]) == [])
  {
    var vs := ws + [[]];
    assert !HasValue([]) && forall j :: 0 <= j < |ws| ==> vs[j] == ws[j];
    if ValuePending(vs, |ws|) {
      var i :| 0 <= i < |vs| && PendingFrom(vs, |ws|, i);
      assert PendingFrom(ws, |ws|, i);
    }
    if ValuePending(ws, |ws|) {
      var i :| 0 <= i < |ws| && PendingFrom(ws, |ws|, i);
      assert PendingFrom(vs, |ws|, i);
    }
    PendingAtEnd(ws);
  }

  lemma {:induction false} ScanGap(ps: seq<Piece>, argv: seq<seq<byte>>, current: seq<byte>, interpolated: bool)
    requires Scanned(ps, argv, current, interpolated)
    ensures current != [] ==> Scanned(ps + [Gap], argv + [current], [], false)
    ensures current == [] ==> Scanned(ps + [Gap], argv, current, interpolated)
  {
    var qs, ws := ps + [Gap], Words(ps);
    assert qs[..|qs| - 1] == ps;
    var vs, n := ws + [[]], |ws| - 1;
    assert vs[..|vs| - 1] == ws;
    PendingAcrossGap(ws);
  }

  lemma {:induction false} SpellMore(w: seq<Piece>, p: Piece)
    requires !p.Gap?
    ensures Spell(w + [p]) == Spell(w) + (if p.Text? then [p.b] else p.s)
    ensures HasValue(w + [p]) == (HasValue(w) || p.Value?)
  {
    assert (w + [p])[..|w|] == w && (w + [p])[|w|] == p;
    if HasValue(w) {
      var i :| 0 <= i < |w| && w[i].Value?;
      assert (w + [p])[i].Value?;
    }
  }

  /** A value added to the last word is pending there. */
  lemma {:induction false} PendingPiece(ws: seq<seq<Piece>>, vs: seq<seq<Piece>>, n: nat, value: bool)
    requires |ws| == |vs| == n + 1 && vs[..n] == ws[..n] && HasValue(vs[n]) == (HasValue(ws[n]) || value)
    ensures ValuePending(vs, n) == (ValuePending(ws, n) || value)
  {
    assert forall j :: 0 <= j < n ==> vs[j] == vs[..n][j] && ws[j] == ws[..n][j];
    if ValuePending(ws, n) {
      var i :| 0 <= i < |ws| && PendingFrom(ws, n, i);
      assert PendingFrom(vs, n, i);
    }
    if value {
      assert PendingFrom(vs, n, n);
    } else if ValuePending(vs, n) {
      var i :| 0 <= i < |vs| && PendingFrom(vs, n, i);
      assert PendingFrom(ws, n, i);
    }
  }

  /** A piece other than a gap extends the current argument. */
  lemma {:induction false} ScanPiece(
    ps: seq<Piece>, p: Piece, argv: seq<seq<byte>>, current: seq<byte>, interpolated: bool)
    requires Scanned(ps, argv, current, interpolated) && !p.Gap?
    ensures Scanned(ps + [p], argv, current + (if p.Text? then [p.b] else p.s), interpolated || p.Value?)
  {
    var ws := Words(ps);
    var n := |ws| - 1;
    var vs := ws[..n] + [ws[n] + [p]];
    WordsPiece(ps, p);
    SpellMore(ws[n], p);
    assert vs[..n] == ws[..n];
    PendingPiece(ws, vs, n, p.Value?);
  }

  /** The last argument is added when it is not empty or a value is pending. */
  lemma {:induction false} ScanEnds(ps: seq<Piece>, argv: seq<seq<byte>>, current: seq<byte>, interpolated: bool)
    requires Scanned(ps, argv, current, interpolated)
    ensures SplitFormat(ps) == if interpolated || current != [] then argv + [current] else argv
  {
    var ws := Words(ps);
    var n := |ws| - 1;
    PendingAtEnd(ws);
  }

  /** `addArgument`. */
  method AddArgument(argv: seq<seq<byte>>, totlen: nat, a: seq<byte>) returns (argv': seq<seq<byte>>, totlen': nat)
    requires totlen == |PrintAll(Bulks(argv))|
    ensures argv' == argv + [a] && totlen' == |PrintAll(Bulks(argv'))|
  {
    argv' := argv + [a];
    var size := ArgumentSize(|a|);
    totlen' := totlen + size;
    assert argv'[..|argv|] == argv && argv'[..|argv'|] == argv';
    PrintNext(argv', |argv|);
  }

  /** The local variables of the loop. */
  datatype Scan = Scan(argv: seq<seq<byte>>, totlen: nat, current: seq<byte>, interpolated: bool)

  ghost predicate Follows(ps: seq<Piece>, s: Scan) {
    Scanned(ps, s.argv, s.current, s.interpolated) && s.totlen == |PrintAll(Bulks(s.argv))|
  }

  /** A byte that does not start a conversion. */
  method TakeByte(s: Scan, b: byte, ghost ps: seq<Piece>) returns (t: Scan)
    requires Follows(ps, s)
    ensures Follows(ps + [if b == SPACE then Gap else Text(b)], t)
  {
    if b == SPACE {
      ScanGap(ps, s.argv, s.current, s.interpolated);
      t := s;
      if s.current != [] {
        var argv, totlen := AddArgument(s.argv, s.totlen, s.current);
        t := Scan(argv, totlen, [], false);
      }
    } else {
      ScanPiece(ps, Text(b), s.argv, s.current, s.interpolated);
      t := s.(current := s.current + [b]);
    }
  }

  /** An interpolated value. */
  method TakeValue(s: Scan, arg: seq<byte>, ghost ps: seq<Piece>) returns (t: Scan)
    requires Follows(ps, s)
    ensures Follows(ps + [Value(arg)], t)
  {
    ScanPiece(ps, Value(arg), s.argv, s.current, s.interpolated);
    t := s.(interpolated := true);
    if |arg| > 0 {
      t := t.(current := s.current + arg);
    } else {
      assert s.current + arg == s.current;
    }
  }

  predicate Plain(format: seq<byte>, c: nat)
    requires c < |format|
  {
    format[c] != PERCENT || c + 1 == |format|
  }

  lemma {:induction false} PlainStep(format: seq<byte>, c: nat, args: seq<Arg>)
    requires c < |format| && Supplies(format[c..], args) && Plain(format, c)
    ensures Supplies(format[c + 1..], args)
    ensures Pieces(format[c..], args) ==
      [if format[c] == SPACE then Gap else Text(format[c])] + Pieces(format[c + 1..], args)
  {
    assert format[c..][1..] == format[c + 1..];
  }

  lemma {:induction false} ConversionStep(format: seq<byte>, c: nat, args: seq<Arg>)
    requires c < |format| && Supplies(format[c..], args) && !Plain(format, c)
    ensures var code, taken := format[c + 1], Converts(format[c + 1]);
            && (taken ==> args != [] && Suits(code, args[0]))
            && Supplies(format[c + 2..], if taken then args[1..] else args)
            && Pieces(format[c..], args) ==
                 (if taken then [Value(Render(args[0]))] else if code == PERCENT then [Text(PERCENT)] else [])
                 + Pieces(format[c + 2..], if taken then args[1..] else args)
  {
    assert format[c..][2..] == format[c + 2..];
    var code := format[c + 1];
    if !Converts(code) && code != PERCENT {
      assert [] + Pieces(format[c + 2..], args) == Pieces(format[c + 2..], args);
    }
  }

  /** One conversion; an unknown one is skipped. */
  method TakeConversion(s: Scan, code: byte, args: seq<Arg>, ghost ps: seq<Piece>) returns (t: Scan, args': seq<Arg>)
    requires Follows(ps, s) && (Converts(code) ==> args != [] && Suits(code, args[0]))
    ensures args' == if Converts(code) then args[1..] else args
    ensures Follows(
      ps + (if Converts(code) then [Value(Render(args[0]))] else if code == PERCENT then [Text(PERCENT)] else []), t)
  {
    t, args' := s, args;
    if Converts(code) {
      args' := args[1..];
      var value := Rendered(args[0]);
      t := TakeValue(s, value, ps);
    } else if code == PERCENT {
      t := TakeByte(s, PERCENT, ps);
    } else {
      assert ps + [] == ps;
    }
  }

  /** One round of the loop. */
  method TakePiece(format: seq<byte>, c: nat, args: seq<Arg>, s: Scan, ghost ps: seq<Piece>)
    returns (c': nat, args': seq<Arg>, t: Scan, ghost head: seq<Piece>)
    requires c < |format| && Supplies(format[c..], args) && Follows(ps, s)
    ensures c < c' <= |format| && Supplies(format[c'..], args') && Follows(ps + head, t)
    ensures Pieces(format[c..], args) == head + Pieces(format[c'..], args')
  {
    if format[c] != PERCENT || c + 1 == |format| {
      PlainStep(format, c, args);
      t := TakeByte(s, format[c], ps);
      head := [if format[c] == SPACE then Gap else Text(format[c])];
      c', args' := c + 1, args;
    } else {
      ConversionStep(format, c, args);
      var code := format[c + 1];
      t, args' := TakeConversion(s, code, args, ps);
      head := if Converts(code) then [Value(Render(args[0]))] else if code == PERCENT then [Text(PERCENT)] else [];
      c' := c + 2;
    }
  }

  method ScanPieces(format: seq<byte>, ap: seq<Arg>) returns (s: Scan)
    requires Supplies(format, ap)
    ensures Follows(Pieces(format, ap), s)
  {
    var c: nat, args := 0, ap;
    s := Scan([], 0, [], false);
    ghost var ps: seq<Piece> := [];
    assert format[0..] == format && [] + Pieces(format, ap) == Pieces(format, ap);
    assert Words([]) == [[]];
    while c < |format|
      invariant c <= |format|
      invariant Supplies(format[c..], args) && Pieces(format, ap) == ps + Pieces(format[c..], args)
      invariant Follows(ps, s)
    {
      ghost var head;
      ghost var before := ps;
      c, args, s, head := TakePiece(format, c, args, s, ps);
      ps := ps + head;
      Associates(before, head, Pieces(format[c..], args));
    }
    assert format[c..] == [] && ps + [] == ps;
  }

  /** Splits the format into arguments and adds up their sizes on the wire. */
  method ScanFormat(format: seq<byte>, ap: seq<Arg>, ghost ps: seq<Piece>)
    returns (argv: seq<seq<byte>>, totlen: nat)
    requires Supplies(format, ap) && ps == Pieces(format, ap)
    ensures argv == SplitFormat(ps) && totlen == |PrintAll(Bulks(argv))|
  {
    var s := ScanPieces(format, ap);
    ScanEnds(ps, s.argv, s.current, s.interpolated);
    argv, totlen := s.argv, s.totlen;
    if s.interpolated || s.current != [] {
      argv, totlen := AddArgument(argv, totlen, s.current);
    }
  }

  // What the split means for callers

  ghost predicate SameShape(ps: seq<Piece>, qs: seq<Piece>) {
    |ps| == |qs| && forall i :: 0 <= i < |ps| ==> ps[i].Gap? == qs[i].Gap? && ps[i].Value? == qs[i].Value?
  }

  /** Every interpolated value is non-empty. */
  ghost predicate Full(ps: seq<Piece>) {
    forall i :: 0 <= i < |ps| && ps[i].Value? ==> ps[i].s != []
  }

  lemma {:induction false} ShapeGrows(p: Piece, q: Piece, ps: seq<Piece>, qs: seq<Piece>)
    requires SameShape(ps, qs) && p.Gap? == q.Gap? && p.Value? == q.Value?
    ensures SameShape([p] + ps, [q] + qs)
  {
  }

  lemma {:induction false} PiecesShape(format: seq<byte>, ap: seq<Arg>, bp: seq<Arg>)
    requires Supplies(format, ap) && Supplies(format, bp)
    ensures SameShape(Pieces(format, ap), Pieces(format, bp))
    decreases |format|
  {
    if format == [] {
    } else if !Conversion(format) {
      var p := if format[0] == SPACE then Gap else Text(format[0]);
      PiecesShape(format[1..], ap, bp);
      ShapeGrows(p, p, Pieces(format[1..], ap), Pieces(format[1..], bp));
    } else if Converts(format[1]) {
      PiecesShape(format[2..], ap[1..], bp[1..]);
      ShapeGrows(Value(Render(ap[0])), Value(Render(bp[0])), Pieces(format[2..], ap[1..]), Pieces(format[2..],
        bp[1..]));
    } else {
      PiecesShape(format[2..], ap, bp);
      if format[1] == PERCENT {
        ShapeGrows(Text(PERCENT), Text(PERCENT), Pieces(format[2..], ap), Pieces(format[2..], bp));
      }
    }
  }

  ghost predicate NoGap(w: seq<Piece>) {
    forall i :: 0 <= i < |w| ==> !w[i].Gap?
  }

  ghost predicate Alike(w: seq<Piece>, v: seq<Piece>) {
    SameShape(w, v) && Full(w) && Full(v) && NoGap(w) && NoGap(v)
  }

  ghost predicate AllAlike(ws: seq<seq<Piece>>, vs: seq<seq<Piece>>) {
    |ws| == |vs| && forall i :: 0 <= i < |ws| ==> Alike(ws[i], vs[i])
  }

  lemma {:induction false} WordsGap(ps: seq<Piece>)
    ensures Words(ps + [Gap]) == Words(ps) + [[]]
  {
    assert (ps + [Gap])[..|ps|] == ps;
  }

  lemma {:induction false} WordsPiece(ps: seq<Piece>, p: Piece)
    requires !p.Gap?
    ensures var ws := Words(ps); Words(ps + [p]) == ws[..|ws| - 1] + [ws[|ws| - 1] + [p]]
  {
    assert (ps + [p])[..|ps|] == ps;
  }

  lemma {:induction false} WordsShape(ps: seq<Piece>, qs: seq<Piece>)
    requires SameShape(ps, qs) && Full(ps) && Full(qs)
    ensures AllAlike(Words(ps), Words(qs))
    decreases |ps|
  {
    if ps != [] {
      var n := |ps| - 1;
      ShapeOfPrefix(ps, qs, n);
      WordsShape(ps[..n], qs[..n]);
      ExtendAlike(Words(ps[..n]), Words(qs[..n]), ps[n], qs[n]);
    }
  }

  lemma {:induction false} ShapeOfPrefix(ps: seq<Piece>, qs: seq<Piece>, n: nat)
    requires SameShape(ps, qs) && Full(ps) && Full(qs) && n < |ps|
    ensures SameShape(ps[..n], qs[..n]) && Full(ps[..n]) && Full(qs[..n])
    ensures ps[n].Gap? == qs[n].Gap? && ps[n].Value? == qs[n].Value?
    ensures (ps[n].Value? ==> ps[n].s != [] && qs[n].s != [])
  {
  }

  lemma {:induction false} ExtendAlike(ws: seq<seq<Piece>>, vs: seq<seq<Piece>>, p: Piece, q: Piece)
    requires ws != [] && AllAlike(ws, vs) && p.Gap? == q.Gap? && p.Value? == q.Value?
    requires p.Value? ==> p.s != [] && q.s != []
    ensures var n := |ws| - 1;
            if p.Gap? then AllAlike(ws + [[]], vs + [[]])
            else AllAlike(ws[..n] + [ws[n] + [p]], vs[..n] + [vs[n] + [q]])
  {
    if !p.Gap? {
      LastAlike(ws, vs, p, q);
    }
  }

  lemma {:induction false} LastAlike(ws: seq<seq<Piece>>, vs: seq<seq<Piece>>, p: Piece, q: Piece)
    requires ws != [] && AllAlike(ws, vs) && !p.Gap? && !q.Gap? && p.Value? == q.Value?
    requires p.Value? ==> p.s != [] && q.s != []
    ensures var n := |ws| - 1; AllAlike(ws[..n] + [ws[n] + [p]], vs[..n] + [vs[n] + [q]])
  {
    var n := |ws| - 1;
    assert Alike(ws[n], vs[n]);
    assert Alike(ws[n] + [p], vs[n] + [q]);
  }

  lemma {:induction false} SpellEmpty(w: seq<Piece>)
    requires Full(w) && NoGap(w)
    ensures Spell(w) == [] <==> w == []
  {
    if w != [] {
      var p := w[|w| - 1];
      assert |Spell(w)| >= (if p.Text? then 1 else |p.s|) >= 1;
    }
  }

  lemma {:induction false} NonEmptyCount(ws: seq<seq<Piece>>, vs: seq<seq<Piece>>)
    requires AllAlike(ws, vs)
    ensures |NonEmpty(ws)| == |NonEmpty(vs)|
    decreases |ws|
  {
    if ws != [] {
      var n := |ws| - 1;
      assert Alike(ws[n], vs[n]);
      SpellEmpty(ws[n]);
      SpellEmpty(vs[n]);
      NonEmptyCount(ws[..n], vs[..n]);
    }
  }

  lemma {:induction false} NothingPending(ws: seq<seq<Piece>>)
    requires AllAlike(ws, ws)
    ensures !ValuePending(ws, |ws|)
  {
    forall i | 0 <= i < |ws| && HasValue(ws[i])
      ensures Spell(ws[i]) != []
    {
      assert Alike(ws[i], ws[i]);
      SpellEmpty(ws[i]);
    }
  }

  /** Spaces inside values never separate arguments: with non-empty values the number of
      arguments is decided by the format alone. */
  lemma {:induction false} ArgcFollowsFormat(format: seq<byte>, ap: seq<Arg>, bp: seq<Arg>)
    requires Supplies(format, ap) && Supplies(format, bp)
    requires Full(Pieces(format, ap)) && Full(Pieces(format, bp))
    ensures |SplitFormat(Pieces(format, ap))| == |SplitFormat(Pieces(format, bp))|
  {
    var ps, qs := Pieces(format, ap), Pieces(format, bp);
    PiecesShape(format, ap, bp);
    WordsShape(ps, qs);
    NonEmptyCount(Words(ps), Words(qs));
    WordsShape(ps, ps);
    WordsShape(qs, qs);
    NothingPending(Words(ps));
    NothingPending(Words(qs));
  }

  lemma {:induction false} WordGrows(ps: seq<Piece>, ws: seq<seq<Piece>>, w: seq<Piece>, p: Piece)
    requires Words(ps) == ws + [w] && !p.Gap?
    ensures Words(ps + [p]) == ws + [w + [p]]
  {
    WordsPiece(ps, p);
    assert (ws + [w])[..|ws|] == ws;
  }

  /** A word that is an empty value, alone: no text, but a value pending. */
  lemma {:induction false} EmptyValue(ws: seq<seq<Piece>>, e: seq<Piece>)
    requires e == [Value([])]
    ensures Spell(e) == [] && NonEmpty(ws + [e]) == NonEmpty(ws) && ValuePending(ws + [e], |ws| + 1)
  {
    assert e[..0] == [] && e[0].Value?;
    LastWord(ws, e);
    assert NonEmpty(ws) + [] == NonEmpty(ws);
    assert PendingFrom(ws + [e], |ws| + 1, |ws|);
  }

  /** An empty value standing alone is an argument at the end of the format ... */
  lemma {:induction false} EmptyValueAtEnd(ps: seq<Piece>)
    ensures SplitFormat(ps + [Gap] + [Value([])]) == NonEmpty(Words(ps)) + [[]]
  {
    var ws, e := Words(ps), [Value([])];
    WordsGap(ps);
    WordGrows(ps + [Gap], ws, [], Value([]));
    assert [] + e == e;
    EmptyValue(ws, e);
  }

  lemma {:induction false} WordsJoin(ps: seq<Piece>, qs: seq<Piece>)
    ensures Words(ps + [Gap] + qs) == Words(ps) + Words(qs)
    decreases |qs|
  {
    if qs == [] {
      WordsGap(ps);
      assert ps + [Gap] + qs == ps + [Gap];
    } else {
      var init, p := qs[..|qs| - 1], qs[|qs| - 1];
      assert qs == init + [p];
      Associates(ps + [Gap], init, [p]);
      WordsJoin(ps, init);
      WordsJoinPiece(Words(ps), ps + [Gap] + init, init, p);
    }
  }

  lemma {:induction false} WordsJoinPiece(ws: seq<seq<Piece>>, all: seq<Piece>, init: seq<Piece>, p: Piece)
    requires Words(all) == ws + Words(init)
    ensures Words(all + [p]) == ws + Words(init + [p])
  {
    var vs := Words(init);
    if p.Gap? {
      WordsGap(all);
      WordsGap(init);
      Associates(ws, vs, [[]]);
    } else {
      WordsPiece(all, p);
      WordsPiece(init, p);
      assert (ws + vs)[..|ws + vs| - 1] == ws + vs[..|vs| - 1];
      Associates(ws, vs[..|vs| - 1], [vs[|vs| - 1] + [p]]);
    }
  }

  lemma {:induction false} NonEmptyJoin(ws: seq<seq<Piece>>, vs: seq<seq<Piece>>)
    ensures NonEmpty(ws + vs) == NonEmpty(ws) + NonEmpty(vs)
    decreases |vs|
  {
    if vs == [] {
      assert ws + vs == ws;
    } else {
      assert (ws + vs)[..|ws + vs| - 1] == ws + vs[..|vs| - 1];
      NonEmptyJoin(ws, vs[..|vs| - 1]);
    }
  }

  lemma {:induction false} PendingLast(ws: seq<seq<Piece>>, w: seq<Piece>)
    ensures ValuePending(ws + [w], |ws| + 1) == (Spell(w) == [] && (HasValue(w) || ValuePending(ws, |ws|)))
  {
    var vs := ws + [w];
    assert forall j :: 0 <= j < |ws| ==> vs[j] == ws[j];
    if ValuePending(vs, |vs|) {
      var i :| 0 <= i < |vs| && PendingFrom(vs, |vs|, i);
      assert Spell(vs[|ws|]) == [];
      assert i < |ws| ==> PendingFrom(ws, |ws|, i);
    }
    if Spell(w) == [] && HasValue(w) {
      assert PendingFrom(vs, |vs|, |ws|);
    }
    if Spell(w) == [] && ValuePending(ws, |ws|) {
      var i :| 0 <= i < |ws| && PendingFrom(ws, |ws|, i);
      assert PendingFrom(vs, |vs|, i);
    }
  }

  /** Whether a value is pending at the end depends only on what follows the last text. */
  lemma {:induction false} PendingJoin(ws: seq<seq<Piece>>, us: seq<seq<Piece>>, vs: seq<seq<Piece>>)
    ensures NonEmpty(vs) != [] ==> ValuePending(ws + vs, |ws + vs|) == ValuePending(us + vs, |us + vs|)
    ensures NonEmpty(vs) == [] && ValuePending(ws, |ws|) ==> ValuePending(ws + vs, |ws + vs|)
    decreases |vs|
  {
    if vs == [] {
      assert ws + vs == ws;
    } else {
      var init, w := vs[..|vs| - 1], vs[|vs| - 1];
      assert ws + vs == ws + init + [w] && us + vs == us + init + [w];
      PendingLast(ws + init, w);
      PendingLast(us + init, w);
      PendingJoin(ws, us, init);
    }
  }

  /** ... and vanishes when text follows it anywhere, or when another empty value is pending
      at the end anyway. */
  lemma {:induction false} EmptyValueInside(ps: seq<Piece>, qs: seq<Piece>)
    ensures var rest := ps + [Gap] + qs;
            SplitFormat(ps + [Gap] + [Value([])] + [Gap] + qs) ==
              if NonEmpty(Words(qs)) == [] && !ValuePending(Words(rest), |Words(rest)|) then SplitFormat(rest) + [[]]
              else SplitFormat(rest)
  {
    var ws, e, vs := Words(ps), [Value([])], Words(qs);
    WordsGap(ps);
    WordGrows(ps + [Gap], ws, [], Value([]));
    assert [] + e == e;
    WordsJoin(ps + [Gap] + e, qs);
    WordsJoin(ps, qs);
    EmptyValue(ws, e);
    NonEmptyJoin(ws + [e], vs);
    NonEmptyJoin(ws, vs);
    PendingJoin(ws + [e], ws, vs);
    assert NonEmpty(ws + vs) + [] == NonEmpty(ws + vs);
  }

  lemma {:induction false} LastWord(ws: seq<seq<Piece>>, w: seq<Piece>)
    ensures NonEmpty(ws + [w]) == NonEmpty(ws) + (if Spell(w) == [] then [] else [Spell(w)])
  {
    assert (ws + [w])[..|ws|] == ws;
  }

  /** Whatever is interpolated, the formatted command reads back as its arguments. */
  lemma {:induction false} FormatReadsBack(format: seq<byte>, ap: seq<Arg>, more: seq<byte>)
    requires Supplies(format, ap) && |SplitFormat(Pieces(format, ap))| <= INT_MAX
    ensures Run(IDLE, Print(Request(SplitFormat(Pieces(format, ap)))) + more) ==
      Got(Request(SplitFormat(Pieces(format, ap))), more)
  {
    BulksPrintable(SplitFormat(Pieces(format, ap)), 1);
    PrintReadRoundTrip(Request(SplitFormat(Pieces(format, ap))), more);
  }

  // What a format spells

  /** A C string spells the bytes before its terminator, memory with a length the bytes that
      the length covers, and an integer its decimal numeral. */
  ghost predicate Spells(a: Arg, t: seq<byte>) {
    match a
    case StrArg(m) => |t| < |m| && t == m[..|t|] && m[|t|] == 0 && 0 !in t
    case BinArg(m, n) => n <= |m| && t == m[..n]
    case IntArg(n) => IsDecimal(t, n)
    case DoubleArg(r) => t == r
  }

  /** The kind of value a conversion takes: `%s`, `%b`, `%d`, `%i` and `%f`. */
  ghost predicate Takes(code: byte, a: Arg) {
    match a
    case StrArg(_) => code == 115
    case BinArg(_, _) => code == 98
    case IntArg(_) => code == 100 || code == 105
    case DoubleArg(_) => code == 102
  }

  /** The word `w` of a format, with the values `args`, spells `t`: plain bytes other than
      spaces stand for themselves, two percent signs for one, a conversion for its value,
      and an unknown conversion for nothing. */
  ghost predicate SpellsWord(w: seq<byte>, args: seq<Arg>, t: seq<byte>)
    decreases |w|
  {
    if w == [] then args == [] && t == []
    else if w[0] != 37 then w[0] != 32 && t != [] && t[0] == w[0] && SpellsWord(w[1..], args, t[1..])
    else if |w| == 1 then false
    else if w[1] == 37 then t != [] && t[0] == 37 && SpellsWord(w[2..], args, t[1..])
    else if w[1] == 115 || w[1] == 98 || w[1] == 100 || w[1] == 105 || w[1] == 102 then
      && args != [] && Takes(w[1], args[0])
      && exists k :: 0 <= k <= |t| && Spells(args[0], t[..k]) && SpellsWord(w[2..], args[1..], t[k..])
    else SpellsWord(w[2..], args, t)
  }

  /** Words that are not empty, with any number of spaces around them. */
  ghost predicate SpellsFormat(format: seq<byte>, args: seq<Arg>, ts: seq<seq<byte>>)
    decreases |format|
  {
    if format == [] then args == [] && ts == []
    else if format[0] == 32 then SpellsFormat(format[1..], args, ts)
    else
      && ts != [] && ts[0] != []
      && exists k, a :: SpellsFirst(format, args, ts[0], k, a) && SpellsFormat(format[k..], args[a..], ts[1..])
  }

  /** The first word of a format takes `k` bytes and `a` values. */
  ghost predicate SpellsFirst(format: seq<byte>, args: seq<Arg>, t: seq<byte>, k: int, a: int) {
    && 0 < k <= |format| && 0 <= a <= |args| && SpellsWord(format[..k], args[..a], t)
    && (k < |format| ==> format[k] == 32)
  }

  /** What is spelled is what is rendered. */
  lemma {:induction false} RenderSpells(a: Arg, t: seq<byte>)
    requires (a.StrArg? ==> NUL in a.memory) && (a.BinArg? ==> a.len <= |a.memory|)
    ensures Spells(a, t) <==> t == Render(a)
  {
    match a
    case StrArg(m) =>
      if Spells(a, t) {
        CStringEnds(m, |t|);
      }
    case BinArg(_, _) =>
    case IntArg(n) =>
      NumeralIsDecimal(n);
      if Spells(a, t) {
        DecimalIsUnique(t, n);
      }
    case DoubleArg(_) =>
  }

  /** The front of a format: it does not end in the middle of a conversion and takes exactly
      these values. */
  ghost predicate IsFront(format: seq<byte>, args: seq<Arg>)
    decreases |format|
  {
    if format == [] then args == []
    else if format[0] != 37 then IsFront(format[1..], args)
    else if |format| == 1 then false
    else if Converts(format[1]) then args != [] && Suits(format[1], args[0]) && IsFront(format[2..], args[1..])
    else IsFront(format[2..], args)
  }

  lemma {:induction false} FrontSupplies(format: seq<byte>, args: seq<Arg>)
    requires IsFront(format, args)
    ensures Supplies(format, args)
    decreases |format|
  {
    if format != [] {
      if format[0] != 37 {
        FrontSupplies(format[1..], args);
      } else if Converts(format[1]) {
        FrontSupplies(format[2..], args[1..]);
      } else {
        FrontSupplies(format[2..], args);
      }
    }
  }

  /** The pieces of a format are those of its front and those of its back. */
  lemma {:induction false} PiecesJoin(front: seq<byte>, args: seq<Arg>, back: seq<byte>, more: seq<Arg>)
    requires IsFront(front, args) && Supplies(back, more)
    ensures Supplies(front, args) && Supplies(front + back, args + more)
    ensures Pieces(front + back, args + more) == Pieces(front, args) + Pieces(back, more)
    decreases |front|
  {
    FrontSupplies(front, args);
    var all := front + back;
    if front == [] {
      assert all == back && args + more == more;
    } else if front[0] != 37 {
      assert all[1..] == front[1..] + back;
      PiecesJoin(front[1..], args, back, more);
      Associates([if front[0] == SPACE then Gap else Text(front[0])], Pieces(front[1..], args), Pieces(back, more));
    } else if Converts(front[1]) {
      assert all[2..] == front[2..] + back && (args + more)[1..] == args[1..] + more;
      PiecesJoin(front[2..], args[1..], back, more);
      Associates([Value(Render(args[0]))], Pieces(front[2..], args[1..]), Pieces(back, more));
    } else {
      assert all[2..] == front[2..] + back;
      PiecesJoin(front[2..], args, back, more);
      Associates([Text(PERCENT)], Pieces(front[2..], args), Pieces(back, more));
    }
  }

  /** A lone percent sign at the end is as good as two of them. */
  lemma {:induction false} LonePercent(front: seq<byte>, args: seq<Arg>)
    requires IsFront(front, args)
    ensures Supplies(front + [37], args) && Supplies(front + [37, 37], args)
    ensures Pieces(front + [37], args) == Pieces(front + [37, 37], args)
  {
    var lone, twice: seq<byte> := [37], [37, 37];
    assert lone[1..] == [] && twice[2..] == [] && args + [] == args;
    assert Pieces(lone, []) == [Text(PERCENT)] + Pieces([], []) && Pieces(twice, []) == Pieces(lone, []);
    PiecesJoin(front, args, lone, []);
    PiecesJoin(front, args, twice, []);
  }

  /** A word has no gap in it and spells its text. */
  lemma {:induction false} WordPieces(w: seq<byte>, args: seq<Arg>, t: seq<byte>)
    requires SpellsWord(w, args, t)
    ensures IsFront(w, args) && Supplies(w, args) && NoGap(Pieces(w, args)) && Spell(Pieces(w, args)) == t
    decreases |w|
  {
    if w != [] {
      if w[0] != 37 {
        WordPieces(w[1..], args, t[1..]);
        SpellFirst(Text(w[0]), Pieces(w[1..], args));
        assert t == [t[0]] + t[1..];
      } else if w[1] == 37 {
        WordPieces(w[2..], args, t[1..]);
        SpellFirst(Text(PERCENT), Pieces(w[2..], args));
        assert t == [t[0]] + t[1..];
      } else if Converts(w[1]) {
        var k :| 0 <= k <= |t| && Spells(args[0], t[..k]) && SpellsWord(w[2..], args[1..], t[k..]);
        WordPieces(w[2..], args[1..], t[k..]);
        ValuePieces(w, args, t, k, w[2..], args[1..]);
      } else {
        WordPieces(w[2..], args, t);
      }
    }
    FrontSupplies(w, args);
  }

  lemma {:induction false} ValuePieces(
    w: seq<byte>, args: seq<Arg>, t: seq<byte>, k: nat, rest: seq<byte>, more: seq<Arg>)
    requires |w| > 1 && w[0] == 37 && args != [] && Takes(w[1], args[0]) && k <= |t| && Spells(args[0], t[..k])
    requires rest == w[2..] && more == args[1..] && IsFront(rest, more) && Supplies(rest, more)
    requires NoGap(Pieces(rest, more)) && Spell(Pieces(rest, more)) == t[k..]
    ensures IsFront(w, args) && Supplies(w, args) && NoGap(Pieces(w, args)) && Spell(Pieces(w, args)) == t
  {
    SpelledSuits(w[1], args[0], t[..k]);
    SpellFirst(Value(t[..k]), Pieces(rest, more));
    assert t == t[..k] + t[k..];
  }

  lemma {:induction false} SpelledSuits(code: byte, a: Arg, t: seq<byte>)
    requires Takes(code, a) && Spells(a, t)
    ensures Suits(code, a) && t == Render(a)
  {
    assert a.StrArg? ==> a.memory[|t|] == NUL;
    RenderSpells(a, t);
  }

  lemma {:induction false} SpellFirst(p: Piece, ps: seq<Piece>)
    requires !p.Gap?
    ensures Spell([p] + ps) == (if p.Text? then [p.b] else p.s) + Spell(ps)
    decreases |ps|
  {
    var all := [p] + ps;
    if ps == [] {
      assert all == [] + [p] && Spell([]) == [];
      SpellMore([], p);
    } else {
      var init, q := ps[..|ps| - 1], ps[|ps| - 1];
      assert all[..|all| - 1] == [p] + init && all[|all| - 1] == q;
      SpellFirst(p, init);
      var tail := match q case Gap => [] case Text(b) => [b] case Value(s) => s;
      Associates(if p.Text? then [p.b] else p.s, Spell(init), tail);
    }
  }

  lemma {:induction false} WordsOfWord(ps: seq<Piece>)
    requires NoGap(ps)
    ensures Words(ps) == [ps]
    decreases |ps|
  {
    if ps != [] {
      var init, p := ps[..|ps| - 1], ps[|ps| - 1];
      assert ps == init + [p];
      WordsOfWord(init);
      WordsPiece(init, p);
    }
  }

  /** Nothing pending in front does not matter behind. */
  lemma {:induction false} PendingBehind(us: seq<seq<Piece>>, vs: seq<seq<Piece>>)
    requires !ValuePending(us, |us|)
    ensures ValuePending(us + vs, |us + vs|) == ValuePending(vs, |vs|)
    decreases |vs|
  {
    if vs == [] {
      assert us + vs == us;
    } else {
      var init, w := vs[..|vs| - 1], vs[|vs| - 1];
      assert us + vs == us + init + [w] && vs == init + [w];
      PendingLast(us + init, w);
      PendingLast(init, w);
      PendingBehind(us, init);
    }
  }

  /** A word that is not empty, between any two lists of words. */
  lemma {:induction false} WordBetween(us: seq<seq<Piece>>, w: seq<Piece>, vs: seq<seq<Piece>>)
    requires Spell(w) != []
    ensures NonEmpty(us + [w] + vs) == NonEmpty(us) + [Spell(w)] + NonEmpty(vs)
    ensures ValuePending(us + [w] + vs, |us + [w] + vs|) == ValuePending(vs, |vs|)
  {
    NonEmptyJoin(us + [w], vs);
    LastWord(us, w);
    PendingLast(us, w);
    PendingBehind(us + [w], vs);
  }

  /** The words of a format with `ps` in it, between gaps or the ends. */
  lemma {:induction false} WordsAround(front: seq<Piece>, ps: seq<Piece>, back: seq<Piece>)
    returns (us: seq<seq<Piece>>, vs: seq<seq<Piece>>)
    requires NoGap(ps) && (front != [] ==> front[|front| - 1] == Gap) && (back != [] ==> back[0] == Gap)
    ensures Words(front + ps + back) == us + [ps] + vs
    ensures Words(front) == us + [[]] && Words(back) == [[]] + vs
  {
    vs := WordsBehind(ps, back);
    us := WordsBefore(front, ps + back);
    Associates(front, ps, back);
    Associates(us, [ps], vs);
  }

  lemma {:induction false} WordsBehind(ps: seq<Piece>, back: seq<Piece>) returns (vs: seq<seq<Piece>>)
    requires NoGap(ps) && (back != [] ==> back[0] == Gap)
    ensures Words(ps + back) == [ps] + vs && Words(back) == [[]] + vs
  {
    WordsOfWord(ps);
    WordsOfWord([]);
    vs := [];
    if back == [] {
      assert ps + back == ps;
    } else {
      vs := Words(back[1..]);
      assert ps + back == ps + [Gap] + back[1..] && back == [] + [Gap] + back[1..];
      WordsJoin(ps, back[1..]);
      WordsJoin([], back[1..]);
    }
  }

  lemma {:induction false} WordsBefore(front: seq<Piece>, behind: seq<Piece>) returns (us: seq<seq<Piece>>)
    requires front != [] ==> front[|front| - 1] == Gap
    ensures Words(front + behind) == us + Words(behind) && Words(front) == us + [[]]
  {
    us := [];
    if front == [] {
      WordsOfWord([]);
      assert front + behind == behind;
    } else {
      var init := front[..|front| - 1];
      us := Words(init);
      assert front == init + [Gap];
      WordsGap(init);
      WordsJoin(init, behind);
    }
  }

  /** The empty words at the ends do not count. */
  lemma {:induction false} EmptyEnds(us: seq<seq<Piece>>, vs: seq<seq<Piece>>)
    ensures NonEmpty(us + [[]]) == NonEmpty(us) && NonEmpty([[]] + vs) == NonEmpty(vs)
    ensures ValuePending([[]] + vs, |[[]] + vs|) == ValuePending(vs, |vs|)
  {
    LastWord(us, []);
    NonEmptyJoin([[]], vs);
    LastWord([], []);
    PendingLast([], []);
    PendingBehind([[]], vs);
    assert [] + NonEmpty(vs) == NonEmpty(vs);
  }

  lemma {:induction false} SplitAround(front: seq<Piece>, ps: seq<Piece>, back: seq<Piece>)
    requires NoGap(ps) && Spell(ps) != []
    requires (front != [] ==> front[|front| - 1] == Gap) && (back != [] ==> back[0] == Gap)
    ensures SplitFormat(front + ps + back) == NonEmpty(Words(front)) + [Spell(ps)] + SplitFormat(back)
  {
    var us, vs := WordsAround(front, ps, back);
    WordBetween(us, ps, vs);
    EmptyEnds(us, vs);
    Associates(NonEmpty(us) + [Spell(ps)], NonEmpty(vs), if ValuePending(vs, |vs|) then [[]] else []);
  }

  lemma {:induction false} NothingSplits()
    ensures SplitFormat([]) == []
  {
    EmptyEnds([], []);
    PendingLast([], []);
    assert Words([]) == [] + [[]];
  }

  lemma {:induction false} LeadingGap(back: seq<Piece>)
    ensures SplitFormat([Gap] + back) == SplitFormat(back)
  {
    var ws, all := Words(back), [Gap] + back;
    assert [] + [Gap] + back == all;
    WordsOfWord([]);
    WordsJoin([], back);
    EmptyEnds([], ws);
  }

  /** The arguments of a format are what its words spell. */
  lemma {:induction false} FormatSpells(format: seq<byte>, args: seq<Arg>, ts: seq<seq<byte>>)
    requires SpellsFormat(format, args, ts)
    ensures Supplies(format, args) && SplitFormat(Pieces(format, args)) == ts
    decreases |format|
  {
    if format == [] {
      NothingSplits();
    } else if format[0] == 32 {
      FormatSpells(format[1..], args, ts);
      LeadingGap(Pieces(format[1..], args));
    } else {
      var w, wa, t, back, ba, tail := FirstWord(format, args, ts);
      FormatSpells(back, ba, tail);
      FirstWordSpells(w, wa, t, back, ba, tail);
    }
  }

  lemma {:induction false} FirstWord(format: seq<byte>, args: seq<Arg>, ts: seq<seq<byte>>)
    returns (w: seq<byte>, wa: seq<Arg>, t: seq<byte>, back: seq<byte>, ba: seq<Arg>, tail: seq<seq<byte>>)
    requires SpellsFormat(format, args, ts) && format != [] && format[0] != 32
    ensures format == w + back && args == wa + ba && ts == [t] + tail && |back| < |format|
    ensures SpellsWord(w, wa, t) && t != [] && (back != [] ==> back[0] == 32) && SpellsFormat(back, ba, tail)
  {
    var k, a :| SpellsFirst(format, args, ts[0], k, a) && SpellsFormat(format[k..], args[a..], ts[1..]);
    w, wa, t, back, ba, tail := format[..k], args[..a], ts[0], format[k..], args[a..], ts[1..];
  }

  lemma {:induction false} FirstWordSpells(
    w: seq<byte>, wa: seq<Arg>, t: seq<byte>, back: seq<byte>, ba: seq<Arg>, tail: seq<seq<byte>>)
    requires SpellsWord(w, wa, t) && t != [] && (back != [] ==> back[0] == 32)
    requires Supplies(back, ba) && SplitFormat(Pieces(back, ba)) == tail
    ensures Supplies(w + back, wa + ba) && SplitFormat(Pieces(w + back, wa + ba)) == [t] + tail
  {
    WordPieces(w, wa, t);
    PiecesJoin(w, wa, back, ba);
    FirstAround(Pieces(w, wa), Pieces(back, ba));
  }

  lemma {:induction false} FirstAround(ps: seq<Piece>, back: seq<Piece>)
    requires NoGap(ps) && Spell(ps) != [] && (back != [] ==> back[0] == Gap)
    ensures SplitFormat(ps + back) == [Spell(ps)] + SplitFormat(back)
  {
    var vs := WordsBehind(ps, back);
    WordBetween([], ps, vs);
    EmptyEnds([], vs);
    FirstOf(Spell(ps), NonEmpty(vs), if ValuePending(vs, |vs|) then [[]] else [], [ps], vs);
  }

  lemma {:induction false} FirstOf(
    t: seq<byte>, ns: seq<seq<byte>>, end: seq<seq<byte>>, w: seq<seq<Piece>>, vs: seq<seq<Piece>>)
    ensures [] + [t] + ns + end == [t] + (ns + end) && [] + w + vs == w + vs
  {
  }

  /** A word anywhere in a format, between spaces or the ends, is one argument with what it
      spells, whatever is in front of it and behind it. */
  lemma {:induction false} WordInFormat(
    front: seq<byte>, fa: seq<Arg>, w: seq<byte>, wa: seq<Arg>, t: seq<byte>, back: seq<byte>, ba: seq<Arg>)
    returns (k: nat)
    requires IsFront(front, fa) && SpellsWord(w, wa, t) && t != []
    requires Supplies(back, ba) && (back != [] ==> back[0] == 32)
    ensures Supplies(front + [32] + (w + back), fa + (wa + ba))
    ensures var argv := SplitFormat(Pieces(front + [32] + (w + back), fa + (wa + ba)));
            && k < |argv| && argv[k] == t && argv[k + 1..] == SplitFormat(Pieces(back, ba))
            && Supplies(front, fa) && argv[..k] == NonEmpty(Words(Pieces(front, fa)))
  {
    var ps, qs, rs := PiecesAround(front, fa, w, wa, t, back, ba);
    SplitAround(ps + [Gap], qs, rs);
    WordsGap(ps);
    EmptyEnds(Words(ps), []);
    k := Middle(SplitFormat(ps + [Gap] + qs + rs), NonEmpty(Words(ps)), t, SplitFormat(rs));
  }

  lemma {:induction false} Middle<T>(all: seq<T>, a: seq<T>, t: T, b: seq<T>) returns (k: nat)
    requires all == a + [t] + b
    ensures k < |all| && all[k] == t && all[k + 1..] == b && all[..k] == a
  {
    k := |a|;
  }

  lemma {:induction false} PiecesAround(
    front: seq<byte>, fa: seq<Arg>, w: seq<byte>, wa: seq<Arg>, t: seq<byte>, back: seq<byte>, ba: seq<Arg>)
    returns (ps: seq<Piece>, qs: seq<Piece>, rs: seq<Piece>)
    requires IsFront(front, fa) && SpellsWord(w, wa, t) && Supplies(back, ba) && (back != [] ==> back[0] == 32)
    ensures Supplies(front, fa) && Supplies(front + [32] + (w + back), fa + (wa + ba))
    ensures ps == Pieces(front, fa) && NoGap(qs) && Spell(qs) == t
    ensures rs == Pieces(back, ba) && (rs != [] ==> rs[0] == Gap)
    ensures Pieces(front + [32] + (w + back), fa + (wa + ba)) == ps + [Gap] + qs + rs
  {
    WordPieces(w, wa, t);
    PiecesJoin(w, wa, back, ba);
    var behind := [32] + (w + back);
    assert behind[1..] == w + back;
    PiecesJoin(front, fa, behind, wa + ba);
    Associates(front, [32], w + back);
    ps, qs, rs := Pieces(front, fa), Pieces(w, wa), Pieces(back, ba);
    Associates(ps, [Gap], qs + rs);
    Associates(ps + [Gap], qs, rs);
  }

  // The command

  /** `redisvFormatCommand`. Of a format whose words are not empty, the command has exactly
      what they spell for its arguments. */
  method VFormatCommand(format: seq<byte>, ap: seq<Arg>) returns (cmd: array<byte>, totlen: nat)
    requires Supplies(format, ap)
    ensures fresh(cmd) && cmd.Length == totlen + 1 && cmd[totlen] == NUL
    ensures cmd[..totlen] == Print(Request(SplitFormat(Pieces(format, ap))))
    ensures forall ts :: SpellsFormat(format, ap, ts) ==> cmd[..totlen] == Print(Request(ts))
  {
    var argv;
    argv, totlen := ScanFormat(format, ap, Pieces(format, ap));
    var digits := IntLen(|argv|);
    totlen := totlen + 1 + digits + 2;
    cmd := BuildCommand(argv, totlen);
    forall ts | SpellsFormat(format, ap, ts)
      ensures ts == argv
    {
      FormatSpells(format, ap, ts);
    }
  }

  /** With anything in front of a word and behind it, the command has what the word spells as
      an argument, read back as such. */
  method FormatAround(
    front: seq<byte>, fa: seq<Arg>, w: seq<byte>, wa: seq<Arg>, ghost t: seq<byte>, back: seq<byte>, ba: seq<Arg>)
    returns (cmd: array<byte>, totlen: nat, ghost argv: seq<seq<byte>>, ghost k: nat)
    requires IsFront(front, fa) && SpellsWord(w, wa, t) && t != []
    requires Supplies(back, ba) && (back != [] ==> back[0] == 32)
    ensures fresh(cmd) && cmd.Length == totlen + 1 && cmd[totlen] == NUL
    ensures cmd[..totlen] == Print(Request(argv)) && k < |argv| && argv[k] == t
    ensures |argv| <= INT_MAX ==> forall more :: ReadsAs(cmd[..totlen] + more, argv, more)
  {
    k := WordInFormat(front, fa, w, wa, t, back, ba);
    argv := SplitFormat(Pieces(front + [32] + (w + back), fa + (wa + ba)));
    cmd, totlen := VFormatCommand(front + [32] + (w + back), fa + (wa + ba));
    if |argv| <= INT_MAX {
      forall more
        ensures ReadsAs(cmd[..totlen] + more, argv, more)
      {
        RequestReadsBack(argv, more);
      }
    }
  }
}

/** Printing replies in the protocol's canonical form, and the round trip with the reader. */
module Printing {
  import opened Bytes
  import opened Numerals
  import opened Replies
  import opened Machine
  import opened Grammar

  function PrintLine(mark: byte, line: seq<byte>): seq<byte> {
    [mark] + line + CRLF
  }

  function Print(r: Reply): seq<byte>
    decreases r, 0
  {
    match r
    case ErrorReply(t) => PrintLine(MINUS, t)
    case StatusReply(t) => PrintLine(PLUS, t)
    case IntegerReply(v) => PrintLine(COLON, Numeral(v))
    case NilReply => PrintLine(DOLLAR, Numeral(-1))
    case StringReply(s) => PrintLine(DOLLAR, Numeral(|s|)) + s + CRLF
    case ArrayReply(items) => PrintLine(STAR, Numeral(|items|)) + PrintAll(items)
  }

  function PrintAll(rs: seq<Reply>): seq<byte>
    decreases rs, 1
  {
    if rs == [] then [] else Print(rs[0]) + PrintAll(rs[1..])
  }

  /** The canonical form, byte by byte. */
  ghost predicate Canonical(b: seq<byte>, r: Reply) {
    match r
    case ErrorReply(t) => b == [45] + t + [13, 10]
    case StatusReply(t) => b == [43] + t + [13, 10]
    case IntegerReply(v) => exists d :: IsDecimal(d, v) && b == [58] + d + [13, 10]
    case NilReply => b == [36, 45, 49, 13, 10]
    case StringReply(s) => exists d :: IsDecimal(d, |s|) && b == [36] + d + [13, 10] + s + [13, 10]
    case ArrayReply(items) => exists d :: IsDecimal(d, |items|) && b == [42] + d + [13, 10] + Flat(Prints(items))
  }

  ghost function Prints(rs: seq<Reply>): (bs: seq<seq<byte>>)
    ensures |bs| == |rs|
  {
    seq(|rs|, i requires 0 <= i < |rs| => Print(rs[i]))
  }

  /** A reply is printed in its canonical form and no other, its elements one after the other. */
  lemma {:induction false} PrintsCanonically(r: Reply, b: seq<byte>)
    ensures Canonical(b, r) <==> b == Print(r)
  {
    var n :=
      match r
      case IntegerReply(v) => v
      case StringReply(s) => |s|
      case ArrayReply(items) => |items|
      case _ => -1;
    NumeralIsDecimal(n);
    forall d | IsDecimal(d, n)
      ensures d == Numeral(n)
    {
      DecimalIsUnique(d, n);
    }
    if r.ArrayReply? {
      PrintsAll(r.items);
    }
  }

  lemma {:induction false} PrintsAll(rs: seq<Reply>)
    ensures PrintAll(rs) == Flat(Prints(rs))
  {
    if rs != [] {
      PrintsAll(rs[1..]);
      assert Prints(rs)[1..] == Prints(rs[1..]);
    }
  }

  /** Texts without CRLF, at most two array levels, counts within `int`. */
  ghost predicate Printable(r: Reply, level: nat)
    decreases r, 0
  {
    match r
    case ErrorReply(t) => NoCrlf(t)
    case StatusReply(t) => NoCrlf(t)
    case IntegerReply(_) => true
    case NilReply => true
    case StringReply(_) => true
    case ArrayReply(items) => level < MAX_LEVELS && |items| <= INT_MAX && AllPrintable(items, level + 1)
  }

  ghost predicate AllPrintable(rs: seq<Reply>, level: nat)
    decreases rs, 1
  {
    rs == [] || (Printable(rs[0], level) && AllPrintable(rs[1..], level))
  }

  lemma {:induction false} PrintEncodes(r: Reply, level: nat)
    requires level <= MAX_LEVELS && Printable(r, level)
    ensures Encodes(Print(r), r, level)
    decreases r, 0
  {
    match r
    case ErrorReply(_) =>
    case StatusReply(_) =>
    case IntegerReply(v) =>
      NumeralHasNoCrlf(v);
      ReadNumeral(v);
      ReadsWhatItDenotes(Numeral(v), v);
      assert IsLine(Print(r), COLON, Numeral(v));
    case NilReply =>
      NumeralHasNoCrlf(-1);
      ReadNumeral(-1);
      ReadsWhatItDenotes(Numeral(-1), -1);
      assert IsLine(Print(r), DOLLAR, Numeral(-1));
    case StringReply(s) =>
      NumeralHasNoCrlf(|s|);
      ReadNumeral(|s|);
      ReadsWhatItDenotes(Numeral(|s|), |s|);
      assert IsBulk(Print(r), Numeral(|s|), s, CRLF);
    case ArrayReply(items) =>
      NumeralHasNoCrlf(|items|);
      ReadNumeral(|items|);
      ReadsWhatItDenotes(Numeral(|items|), |items|);
      assert IsArray(Print(r), Numeral(|items|), PrintAll(items), |items|);
      PrintAllEncodes(items, level + 1);
  }

  lemma {:induction false} PrintAllEncodes(rs: seq<Reply>, level: nat)
    requires level <= MAX_LEVELS && AllPrintable(rs, level)
    ensures EncodesAll(PrintAll(rs), rs, level)
    decreases rs, 1
  {
    if rs != [] {
      PrintEncodes(rs[0], level);
      PrintAllEncodes(rs[1..], level);
      EncodesFirst(Print(rs[0]), rs[0], PrintAll(rs[1..]), rs[1..], level);
      assert rs == [rs[0]] + rs[1..];
    }
  }

  /** Whatever the bytes were, an emitted reply is printable: at most two array levels
      and no CRLF inside a status or error text. */
  lemma {:induction false} EncodedIsPrintable(b: seq<byte>, r: Reply, level: nat)
    requires level <= MAX_LEVELS && Encodes(b, r, level)
    ensures Printable(r, level)
    decreases r, 0
  {
    if r.ArrayReply? {
      var line, rest :| IsArray(b, line, rest, |r.items|) && EncodesAll(rest, r.items, level + 1);
      EncodedAllPrintable(rest, r.items, level + 1);
    }
  }

  lemma {:induction false} EncodedAllPrintable(b: seq<byte>, rs: seq<Reply>, level: nat)
    requires level <= MAX_LEVELS && EncodesAll(b, rs, level)
    ensures AllPrintable(rs, level)
    decreases rs, 1
  {
    if rs != [] {
      var first, rest := EncodesHead(b, rs, level);
      EncodedIsPrintable(first, rs[0], level);
      EncodedAllPrintable(rest, rs[1..], level);
    }
  }

  lemma {:induction false} EmittedIsPrintable(b: seq<byte>, r: Reply, rest: seq<byte>)
    requires Run(IDLE, b) == Got(r, rest)
    ensures Printable(r, 0)
  {
    ReaderRefinesGrammar(b);
    DescendEncodes(b, 0);
    EncodedIsPrintable(b[..Descend(b, 0).size], r, 0);
  }

  /** Printing then reading gives the reply back, and leaves the bytes behind it
      alone, exactly for printable replies. */
  lemma {:induction false} PrintReadRoundTrip(r: Reply, more: seq<byte>)
    ensures Printable(r, 0) <==> Run(IDLE, Print(r) + more) == Got(r, more)
  {
    if Printable(r, 0) {
      PrintEncodes(r, 0);
      ReadsExactlyEncodings(Print(r), r, more);
    }
    if Run(IDLE, Print(r) + more) == Got(r, more) {
      EmittedIsPrintable(Print(r) + more, r, more);
    }
  }

  /** The replies the reader can emit are exactly the printable ones. */
  lemma {:induction false} EmittedIffPrintable(r: Reply)
    ensures (exists b, rest :: Run(IDLE, b) == Got(r, rest)) <==> Printable(r, 0)
  {
    if b, rest :| Run(IDLE, b) == Got(r, rest) {
      EmittedIsPrintable(b, r, rest);
    }
    if Printable(r, 0) {
      PrintReadRoundTrip(r, []);
    }
  }

  lemma {:induction false} DrainFirst(b: seq<byte>, rest: seq<byte>, rs: seq<Reply>, tail: seq<Reply>, t: Trace)
    requires rs != [] && tail == rs[1..] && Run(IDLE, b) == Got(rs[0], rest) && Drain(IDLE, rest) == Before(tail, t)
    ensures Drain(IDLE, b) == Before(rs, t)
  {
    assert rs == [rs[0]] + tail;
    BeforeJoins([rs[0]], tail, t);
  }

  /** A stream of encodings yields their replies in order and nothing else. */
  lemma {:induction false} DrainEncodings(b: seq<byte>, rs: seq<Reply>, more: seq<byte>)
    requires EncodesAll(b, rs, 0)
    ensures Drain(IDLE, b + more) == Before(rs, Drain(IDLE, more))
    decreases rs
  {
    if rs == [] {
      assert b + more == more;
      BeforeJoins([], [], Drain(IDLE, more));
    } else {
      var first, rest := EncodesHead(b, rs, 0);
      var c, tail := rest + more, rs[1..];
      Associates(first, rest, more);
      ReadsExactlyEncodings(first, rs[0], c);
      DrainEncodings(rest, tail, more);
      DrainFirst(b + more, c, rs, tail, Drain(IDLE, more));
    }
  }
}

/** The protocol as a recursive grammar: recursive descent over at most two array
    levels, and the declarative relation between bytes and replies. */
module Grammar {
  import opened Bytes
  import opened Numerals
  import opened Replies
  import opened Machine

  datatype Parsed = Short | Wrong(fault: Fault) | Tree(reply: Reply, size: nat)
  datatype Parseds = ShortList | WrongList(fault: Fault) | Forest(replies: seq<Reply>, size: nat)

  function Enclose(size: nat, elements: Parseds): Parsed {
    match elements
    case ShortList => Short
    case WrongList(f) => Wrong(f)
    case Forest(rs, more) => Tree(ArrayReply(rs), size + more)
  }

  function Prepend(r: Reply, size: nat, others: Parseds): Parseds {
    match others
    case ShortList => ShortList
    case WrongList(f) => WrongList(f)
    case Forest(rs, more) => Forest([r] + rs, size + more)
  }

  /** One reply below `level` enclosing arrays. */
  function Descend(b: seq<byte>, level: nat): (d: Parsed)
    ensures d.Tree? ==> 1 <= d.size <= |b|
    decreases |b|, 0, 0
  {
    if b == [] then Short
    else
      var ty := TypeOf(b[0]);
      if ty.Unset? then Wrong(BadType(b[0]))
      else if ty.ArrayType? && level == MAX_LEVELS then Wrong(TooDeep)
      else
        match ReadItem(ty, b[1..])
        case Incomplete => Short
        case Broken(f) => Wrong(f)
        case Leaf(r, size) => Tree(r, 1 + size)
        case Header(count, size) => Enclose(1 + size, DescendMany(b[1 + size..], level + 1, count))
  }

  /** `count` replies in a row. */
  function DescendMany(b: seq<byte>, level: nat, count: nat): (d: Parseds)
    ensures d.Forest? ==> d.size <= |b| && |d.replies| == count
    decreases |b|, 1, count
  {
    if count == 0 then Forest([], 0)
    else
      match Descend(b, level)
      case Short => ShortList
      case Wrong(f) => WrongList(f)
      case Tree(r, size) => Prepend(r, size, DescendMany(b[size..], level, count - 1))
  }

  // The explicit task stack refines recursive descent

  /** Continuing the machine once an element has settled. */
  function Resume(s: Settled, rest: seq<byte>): Outcome
    requires s.Inside? ==> |s.open| <= MAX_LEVELS && ValidFrames(s.open)
  {
    match s
    case Root(r) => Got(r, rest)
    case Inside(open) => Run(Parse(open, Unset), rest)
  }

  /** The run `o` does with `b` what recursive descent `d` says, settling its reply. */
  ghost predicate Agrees(o: Outcome, d: Parsed, open: seq<Frame>, b: seq<byte>)
    requires |open| <= MAX_LEVELS && ValidFrames(open)
  {
    && (d.Short? ==> o.Waiting?)
    && (d.Wrong? ==> o == Failed(d.fault))
    && (d.Tree? ==> d.size <= |b| && o == Resume(Settle(open, d.reply), b[d.size..]))
  }

  /** The same for the remaining elements of the array `f` below `outer`. */
  ghost predicate AgreesAll(o: Outcome, d: Parseds, outer: seq<Frame>, items: seq<Reply>, b: seq<byte>)
    requires |outer| <= MAX_LEVELS && ValidFrames(outer)
  {
    && (d.ShortList? ==> o.Waiting?)
    && (d.WrongList? ==> o == Failed(d.fault))
    && (d.Forest? ==> d.size <= |b| && o == Resume(Settle(outer, ArrayReply(items + d.replies)), b[d.size..]))
  }

  /** Two transitions of the machine open an array: its type byte and its header. */
  lemma {:induction false} RunHeader(open: seq<Frame>, f: Frame, size: nat, b: seq<byte>)
    requires |open| < MAX_LEVELS && ValidFrames(open) && b != [] && TypeOf(b[0]).ArrayType?
    requires ReadItem(ArrayType, b[1..]) == Header(f.count, size) && f.items == []
    ensures Run(Parse(open, Unset), b) == Run(Parse(open + [f], Unset), b[1 + size..])
  {
    assert f == Frame(f.count, []);
    assert b[1..][size..] == b[1 + size..];
    assert Step(Parse(open, Unset), b) == Next(Parse(open, ArrayType), 1);
    assert Run(Parse(open, Unset), b) == Run(Parse(open, ArrayType), b[1..]);
  }

  lemma {:induction false} DescendHeader(b: seq<byte>, level: nat, count: nat, size: nat)
    requires level != MAX_LEVELS && b != [] && TypeOf(b[0]).ArrayType?
    requires ReadItem(ArrayType, b[1..]) == Header(count, size)
    ensures Descend(b, level) == Enclose(1 + size, DescendMany(b[1 + size..], level + 1, count))
  {
  }

  /** An array settles where it belongs once its elements are there. */
  lemma {:induction false} SettleArray(
    open: seq<Frame>, size: nat, b: seq<byte>, c: seq<byte>, o: Outcome, elements: Parseds, d: Parsed)
    requires |open| <= MAX_LEVELS && ValidFrames(open)
    requires size <= |b| && c == b[size..] && d == Enclose(size, elements)
    requires AgreesAll(o, elements, open, [], c)
    ensures Agrees(o, d, open, b)
  {
    if elements.Forest? {
      assert [] + elements.replies == elements.replies;
      assert b[size..][elements.size..] == b[size + elements.size..];
    }
  }

  lemma {:induction false} RefineLeaf(open: seq<Frame>, b: seq<byte>, o: Outcome, d: Parsed)
    requires |open| <= MAX_LEVELS && ValidFrames(open) && b != []
    requires !IsHeader(|open|, b)
    requires o == Run(Parse(open, Unset), b) && d == Descend(b, |open|)
    ensures Agrees(o, d, open, b)
  {
    var p := Parse(open, Unset);
    if Step(p, b).Next? {
      assert Run(p, b) == Run(Step(p, b).p, b[1..]);
      var i := ReadItem(TypeOf(b[0]), b[1..]);
      if i.Leaf? {
        assert b[1..][i.size..] == b[1 + i.size..];
      }
    }
  }

  lemma {:induction false} RefineArray(
    open: seq<Frame>, f: Frame, size: nat, b: seq<byte>, c: seq<byte>, o: Outcome, elements: Parseds, d: Parsed)
    requires |open| < MAX_LEVELS && ValidFrames(open) && ValidFrame(f) && f.items == []
    requires 1 <= size <= |b| && c == b[size..] && o == Run(Parse(open + [f], Unset), c)
    requires elements == DescendMany(c, |open| + 1, f.count - |f.items|) && d == Enclose(size, elements)
    ensures Agrees(o, d, open, b)
    decreases |b|, 0, 0
  {
    RefineElements(open, f, c, o, elements);
    SettleArray(open, size, b, c, o, elements, d);
  }

  /** From a fresh element slot the machine does what recursive descent says. */
  lemma {:induction false} RefineElement(open: seq<Frame>, b: seq<byte>, o: Outcome, d: Parsed)
    requires |open| <= MAX_LEVELS && ValidFrames(open)
    requires o == Run(Parse(open, Unset), b) && d == Descend(b, |open|)
    ensures Agrees(o, d, open, b)
    decreases |b|, 1, 1
  {
    if b == [] {
    } else if IsHeader(|open|, b) {
      var i := ReadItem(ArrayType, b[1..]);
      RefineHeader(open, Frame(i.count, []), i.size, b, o, d);
    } else {
      RefineLeaf(open, b, o, d);
    }
  }

  predicate IsHeader(level: nat, b: seq<byte>) {
    b != [] && TypeOf(b[0]).ArrayType? && level < MAX_LEVELS && ReadItem(ArrayType, b[1..]).Header?
  }

  lemma {:induction false} HeaderFacts(
    open: seq<Frame>, f: Frame, size: nat, b: seq<byte>, c: seq<byte>, o: Outcome, elements: Parseds, d: Parsed)
    requires ValidFrames(open) && IsHeader(|open|, b)
    requires ReadItem(ArrayType, b[1..]) == Header(f.count, size) && f.items == []
    requires o == Run(Parse(open, Unset), b) && d == Descend(b, |open|)
    requires c == b[1 + size..] && elements == DescendMany(c, |open| + 1, f.count)
    ensures o == Run(Parse(open + [f], Unset), c) && d == Enclose(1 + size, elements)
  {
    RunHeader(open, f, size, b);
    DescendHeader(b, |open|, f.count, size);
  }

  lemma {:induction false} RefineHeader(open: seq<Frame>, f: Frame, size: nat, b: seq<byte>, o: Outcome, d: Parsed)
    requires ValidFrames(open) && IsHeader(|open|, b)
    requires ReadItem(ArrayType, b[1..]) == Header(f.count, size) && f.items == []
    requires o == Run(Parse(open, Unset), b) && d == Descend(b, |open|)
    ensures Agrees(o, d, open, b)
    decreases |b|, 1, 0
  {
    var c := b[1 + size..];
    var elements := DescendMany(c, |open| + 1, f.count);
    HeaderFacts(open, f, size, b, c, o, elements, d);
    RefineArray(open, f, 1 + size, b, c, o, elements, d);
  }

  /** One more element of an open array: the array is complete, or stays open with it. */
  lemma {:induction false} SettleElement(outer: seq<Frame>, f: Frame, r: Reply)
    requires |outer| < MAX_LEVELS && ValidFrames(outer) && ValidFrame(f)
    ensures var items := f.items + [r];
            Settle(outer + [f], r) == if |items| == f.count then Settle(outer, ArrayReply(items))
                                      else Inside(outer + [f.(items := items)])
  {
    var open := outer + [f];
    assert open[..|open| - 1] == outer;
  }

  lemma {:induction false} DescendRest(b: seq<byte>, level: nat, count: nat, r: Reply, size: nat)
    requires count > 0 && Descend(b, level) == Tree(r, size)
    ensures DescendMany(b, level, count) == Prepend(r, size, DescendMany(b[size..], level, count - 1))
  {
  }

  /** The elements after the first one settle into the same array. */
  lemma {:induction false} SettleRest(
    outer: seq<Frame>, items: seq<Reply>, r: Reply, size: nat, b: seq<byte>, c: seq<byte>, o: Outcome,
    others: Parseds, d: Parseds)
    requires |outer| <= MAX_LEVELS && ValidFrames(outer)
    requires size <= |b| && c == b[size..] && d == Prepend(r, size, others)
    requires AgreesAll(o, others, outer, items + [r], c)
    ensures AgreesAll(o, d, outer, items, b)
  {
    if others.Forest? {
      assert (items + [r]) + others.replies == items + ([r] + others.replies);
      assert b[size..][others.size..] == b[size + others.size..];
    }
  }

  lemma {:induction false} RefineElements(outer: seq<Frame>, f: Frame, b: seq<byte>, o: Outcome, all: Parseds)
    requires |outer| < MAX_LEVELS && ValidFrames(outer) && ValidFrame(f)
    requires o == Run(Parse(outer + [f], Unset), b) && all == DescendMany(b, |outer| + 1, f.count - |f.items|)
    ensures AgreesAll(o, all, outer, f.items, b)
    decreases |b|, 2, f.count - |f.items|
  {
    var d := Descend(b, |outer| + 1);
    RefineElement(outer + [f], b, o, d);
    if d.Tree? {
      DescendRest(b, |outer| + 1, f.count - |f.items|, d.reply, d.size);
      RefineOthers(outer, f, d.reply, d.size, b, b[d.size..], o, all);
    }
  }

  lemma {:induction false} RefineOthers(
    outer: seq<Frame>, f: Frame, r: Reply, size: nat, b: seq<byte>, c: seq<byte>, o: Outcome, all: Parseds)
    requires |outer| < MAX_LEVELS && ValidFrames(outer) && ValidFrame(f)
    requires 1 <= size <= |b| && c == b[size..] && o == Resume(Settle(outer + [f], r), c)
    requires all == Prepend(r, size, DescendMany(c, |outer| + 1, f.count - |f.items| - 1))
    ensures AgreesAll(o, all, outer, f.items, b)
    decreases |c|, 3, 0
  {
    var g := f.(items := f.items + [r]);
    var others := DescendMany(c, |outer| + 1, f.count - |g.items|);
    SettleElement(outer, f, r);
    if |g.items| == f.count {
      assert g.items + [] == g.items && c[0..] == c;
    } else {
      RefineElements(outer, g, c, o, others);
    }
    SettleRest(outer, f.items, r, size, b, c, o, others, all);
  }

  /** Main refinement: a reply is emitted exactly when recursive descent accepts one,
      it is that reply, and exactly its bytes are consumed; the reader fails exactly
      when recursive descent does, and otherwise waits. */
  lemma {:induction false} ReaderRefinesGrammar(b: seq<byte>)
    ensures var d := Descend(b, 0);
            && (Run(IDLE, b).Waiting? <==> d.Short?)
            && (forall f :: Run(IDLE, b) == Failed(f) <==> d == Wrong(f))
            && (forall r, rest :: Run(IDLE, b) == Got(r, rest) <==> d.Tree? && d.reply == r && rest == b[d.size..])
  {
    RefineElement([], b, Run(IDLE, b), Descend(b, 0));
  }

  // The declarative grammar

  ghost predicate IsLine(b: seq<byte>, mark: byte, line: seq<byte>) {
    b == [mark] + line + [13, 10] && NoCrlf(line)
  }

  ghost predicate IsBulk(b: seq<byte>, line: seq<byte>, body: seq<byte>, skipped: seq<byte>) {
    && NoCrlf(line) && Denotes(line, |body|) && |skipped| == 2
    && b == [36] + line + [13, 10] + body + skipped
  }

  ghost predicate IsArray(b: seq<byte>, line: seq<byte>, rest: seq<byte>, count: nat) {
    && NoCrlf(line) && Denotes(line, count) && count <= 0x7fff_ffff
    && b == [42] + line + [13, 10] + rest
  }

  /** `b` is an encoding of `r` below `level` enclosing arrays. What a line may hold besides
      a plain numeral is up to `Denotes`, and any two bytes may follow a bulk body. */
  ghost predicate Encodes(b: seq<byte>, r: Reply, level: nat)
    decreases r, 0
  {
    match r
    case ErrorReply(t) => IsLine(b, 45, t)
    case StatusReply(t) => IsLine(b, 43, t)
    case IntegerReply(v) => exists line :: IsLine(b, 58, line) && Denotes(line, v)
    case NilReply =>
      || (exists line, v :: IsLine(b, 36, line) && Denotes(line, v) && v < 0)
      || (level != 2 && exists line :: IsLine(b, 42, line) && Denotes(line, -1))
    case StringReply(s) => exists line, skipped :: IsBulk(b, line, s, skipped)
    case ArrayReply(items) =>
      level != 2 && exists line, rest :: IsArray(b, line, rest, |items|) && EncodesAll(rest, items, level + 1)
  }

  ghost predicate EncodesAll(b: seq<byte>, rs: seq<Reply>, level: nat)
    decreases rs, 1
  {
    if rs == [] then b == []
    else exists k :: 0 <= k <= |b| && Encodes(b[..k], rs[0], level) && EncodesAll(b[k..], rs[1..], level)
  }

  /** An encoding in front of others. */
  lemma {:induction false} EncodesFirst(first: seq<byte>, r: Reply, rest: seq<byte>, rs: seq<Reply>, level: nat)
    requires Encodes(first, r, level) && EncodesAll(rest, rs, level)
    ensures EncodesAll(first + rest, [r] + rs, level)
  {
    assert (first + rest)[..|first|] == first && (first + rest)[|first|..] == rest && ([r] + rs)[1..] == rs;
  }

  lemma {:induction false} EncodesHead(b: seq<byte>, rs: seq<Reply>, level: nat)
    returns (first: seq<byte>, rest: seq<byte>)
    requires EncodesAll(b, rs, level) && rs != []
    ensures b == first + rest && Encodes(first, rs[0], level) && EncodesAll(rest, rs[1..], level)
  {
    var k :| 0 <= k <= |b| && Encodes(b[..k], rs[0], level) && EncodesAll(b[k..], rs[1..], level);
    first, rest := b[..k], b[k..];
  }

  /** A leaf or array header as the bytes of its line. */
  lemma {:induction false} LineSplits(b: seq<byte>, k: nat)
    requires |b| >= 1 && FirstCrlf(b[1..]) == Some(k)
    ensures IsLine(b[..k + 3], b[0], b[1..][..k])
  {
    var line := b[1..][..k];
    assert CrlfAt(b[1..], k);
    assert b[..k + 3] == [b[0]] + line + CRLF;
    forall i
      ensures !CrlfAt(line, i)
    {
      if 0 <= i < k - 1 {
        assert !CrlfAt(b[1..], i);
      }
    }
  }

  /** The converse: a line followed by anything is read as that line. */
  lemma {:induction false} LineReads(b: seq<byte>, mark: byte, line: seq<byte>, rest: seq<byte>)
    requires b == [mark] + line + CRLF + rest && NoCrlf(line)
    ensures FirstCrlf(b[1..]) == Some(|line|) && b[1..][..|line|] == line && b[0] == mark
    ensures b[|line| + 3..] == rest
  {
    assert b[1..] == line + CRLF + rest;
    FirstCrlfAfterText(line, rest);
  }

  lemma {:induction false} LeafEncodes(b: seq<byte>, k: nat, level: nat)
    requires |b| >= 1 && !TypeOf(b[0]).Unset? && FirstCrlf(b[1..]) == Some(k)
    requires TypeOf(b[0]).ArrayType? ==> level != MAX_LEVELS
    requires ReadItem(TypeOf(b[0]), b[1..]).Leaf?
    ensures var i := ReadItem(TypeOf(b[0]), b[1..]); Encodes(b[..1 + i.size], i.reply, level)
  {
    LineSplits(b, k);
    var ty := TypeOf(b[0]);
    var line := b[1..][..k];
    ReadsWhatItDenotes(line, ReadLongLong(line));
    if ty.StringType? && ReadLongLong(line) >= 0 {
      BulkEncodes(b, k);
    } else if ty.ArrayType? && ReadLongLong(line) == 0 {
      assert b[..k + 3] == b[..k + 3] + [];
      assert IsArray(b[..k + 3], line, [], 0);
    }
  }

  lemma {:induction false} BulkEncodes(b: seq<byte>, k: nat)
    requires |b| >= 1 && TypeOf(b[0]).StringType? && FirstCrlf(b[1..]) == Some(k)
    requires ReadItem(StringType, b[1..]).Leaf? && ReadLongLong(b[1..][..k]) >= 0
    ensures var i := ReadItem(StringType, b[1..]);
            i.reply.StringReply? && IsBulk(b[..1 + i.size], b[1..][..k], i.reply.body, b[i.size - 1..i.size + 1])
  {
    LineSplits(b, k);
    ReadsWhatItDenotes(b[1..][..k], ReadLongLong(b[1..][..k]));
    var i := ReadItem(StringType, b[1..]);
    assert i.reply.body == b[k + 3..i.size - 1];
    assert b[..1 + i.size] == b[..k + 3] + b[k + 3..i.size - 1] + b[i.size - 1..i.size + 1];
  }

  lemma {:induction false} HeaderEncodes(
    b: seq<byte>, k: nat, level: nat, count: nat, size: nat, c: seq<byte>, e: Parseds)
    requires |b| >= 1 && TypeOf(b[0]).ArrayType? && FirstCrlf(b[1..]) == Some(k) && level != MAX_LEVELS
    requires ReadItem(ArrayType, b[1..]) == Header(count, size) && c == b[1 + size..]
    requires e.Forest? && |e.replies| == count && e.size <= |c| && EncodesAll(c[..e.size], e.replies, level + 1)
    ensures var d := Enclose(1 + size, e); Encodes(b[..d.size], d.reply, level)
  {
    LineSplits(b, k);
    ReadsWhatItDenotes(b[1..][..k], count);
    var all := b[..1 + size + e.size];
    assert all == b[..k + 3] + c[..e.size];
    assert IsArray(all, b[1..][..k], c[..e.size], count);
  }

  lemma {:induction false} DescendLeaf(b: seq<byte>, level: nat)
    requires b != [] && !TypeOf(b[0]).Unset? && (TypeOf(b[0]).ArrayType? ==> level != MAX_LEVELS)
    requires ReadItem(TypeOf(b[0]), b[1..]).Leaf?
    ensures var i := ReadItem(TypeOf(b[0]), b[1..]); Descend(b, level) == Tree(i.reply, 1 + i.size)
  {
  }

  /** What it takes for recursive descent to accept. */
  lemma {:induction false} DescendInverts(b: seq<byte>, level: nat)
    requires Descend(b, level).Tree?
    ensures b != [] && !TypeOf(b[0]).Unset? && FirstCrlf(b[1..]).Some?
    ensures TypeOf(b[0]).ArrayType? ==> level != MAX_LEVELS
    ensures var i := ReadItem(TypeOf(b[0]), b[1..]);
            i.Leaf? ||
            (i.Header? && Descend(b, level) == Enclose(1 + i.size, DescendMany(b[1 + i.size..], level + 1, i.count)))
  {
  }

  lemma {:induction false} DescendArrayEncodes(
    b: seq<byte>, k: nat, level: nat, count: nat, size: nat, c: seq<byte>, d: Parsed, e: Parseds)
    requires level < MAX_LEVELS && b != [] && TypeOf(b[0]).ArrayType? && FirstCrlf(b[1..]) == Some(k)
    requires ReadItem(ArrayType, b[1..]) == Header(count, size) && c == b[1 + size..]
    requires e == DescendMany(c, level + 1, count) && d == Enclose(1 + size, e) && d.Tree?
    ensures d.size <= |b| && Encodes(b[..d.size], d.reply, level)
    decreases |b|, 0, 0
  {
    DescendManyEncodes(c, level + 1, count, e);
    HeaderEncodes(b, k, level, count, size, c, e);
  }

  lemma {:induction false} DescendEncodes(b: seq<byte>, level: nat)
    requires level <= MAX_LEVELS && Descend(b, level).Tree?
    ensures var d := Descend(b, level); Encodes(b[..d.size], d.reply, level)
    decreases |b|, 1, 0
  {
    DescendInverts(b, level);
    var i := ReadItem(TypeOf(b[0]), b[1..]);
    if i.Header? {
      var c, k := b[1 + i.size..], FirstCrlf(b[1..]).value;
      DescendArrayEncodes(b, k, level, i.count, i.size, c, Descend(b, level), DescendMany(c, level + 1, i.count));
    } else {
      DescendLeaf(b, level);
      LeafEncodes(b, FirstCrlf(b[1..]).value, level);
    }
  }

  lemma {:induction false} DescendManyEncodes(b: seq<byte>, level: nat, count: nat, all: Parseds)
    requires level <= MAX_LEVELS && all == DescendMany(b, level, count) && all.Forest?
    ensures |all.replies| == count && all.size <= |b| && EncodesAll(b[..all.size], all.replies, level)
    decreases |b|, 2, count
  {
    if count > 0 {
      var d := Descend(b, level);
      DescendRest(b, level, count, d.reply, d.size);
      DescendFirstEncodes(b, level, count, d, b[d.size..], DescendMany(b[d.size..], level, count - 1), all);
    }
  }

  lemma {:induction false} DescendFirstEncodes(
    b: seq<byte>, level: nat, count: nat, d: Parsed, c: seq<byte>, others: Parseds, all: Parseds)
    requires level <= MAX_LEVELS && count > 0 && d == Descend(b, level) && d.Tree? && c == b[d.size..]
    requires others == DescendMany(c, level, count - 1) && all == Prepend(d.reply, d.size, others) && all.Forest?
    ensures all.size <= |b| && EncodesAll(b[..all.size], all.replies, level)
    decreases |b|, 2, 0
  {
    DescendEncodes(b, level);
    DescendManyEncodes(c, level, count - 1, others);
    EncodesMore(b, c, d, others, all, level);
  }

  lemma {:induction false} EncodesMore(
    b: seq<byte>, c: seq<byte>, d: Parsed, others: Parseds, all: Parseds, level: nat)
    requires d.Tree? && others.Forest? && all == Prepend(d.reply, d.size, others)
    requires d.size <= |b| && c == b[d.size..] && others.size <= |c|
    requires Encodes(b[..d.size], d.reply, level) && EncodesAll(c[..others.size], others.replies, level)
    ensures all.size <= |b| && EncodesAll(b[..all.size], all.replies, level)
  {
    assert b[..all.size] == b[..d.size] + c[..others.size];
    EncodesFirst(b[..d.size], d.reply, c[..others.size], others.replies, level);
  }

  lemma {:induction false} LineDescends(b: seq<byte>, mark: byte, line: seq<byte>, level: nat, more: seq<byte>)
    requires IsLine(b, mark, line) && !TypeOf(mark).Unset? && (mark == STAR ==> level != MAX_LEVELS)
    requires mark == DOLLAR ==> ReadLongLong(line) < 0
    requires mark == STAR ==> ReadLongLong(line) == -1
    ensures Descend(b + more, level) ==
      Tree(if mark == DOLLAR || mark == STAR then NilReply else LineReply(TypeOf(mark), line), |b|)
  {
    var c := b + more;
    assert c == [mark] + line + CRLF + more;
    LineReads(c, mark, line, more);
  }

  lemma {:induction false} BulkDescends(
    b: seq<byte>, line: seq<byte>, s: seq<byte>, skipped: seq<byte>, level: nat, more: seq<byte>)
    requires IsBulk(b, line, s, skipped)
    ensures Descend(b + more, level) == Tree(StringReply(s), |b|)
  {
    var c := b + more;
    var after := s + skipped + more;
    ReadsWhatItDenotes(line, |s|);
    assert c == [DOLLAR] + line + CRLF + after;
    LineReads(c, DOLLAR, line, after);
    assert c[1..][|line| + 2..] == after;
    assert c[1..][|line| + 2..|line| + 2 + |s|] == after[..|s|] == s;
  }

  lemma {:induction false} ArrayDescends(
    b: seq<byte>, line: seq<byte>, rest: seq<byte>, items: seq<Reply>, level: nat, more: seq<byte>)
    requires level != MAX_LEVELS && NoCrlf(line) && ReadLongLong(line) == |items| <= INT_MAX
    requires b == [STAR] + line + CRLF + rest
    requires DescendMany(rest + more, level + 1, |items|) == Forest(items, |rest|)
    ensures Descend(b + more, level) == Tree(ArrayReply(items), |b|)
  {
    var c := b + more;
    assert c == [STAR] + line + CRLF + (rest + more);
    LineReads(c, STAR, line, rest + more);
    if items != [] {
      DescendHeader(c, level, |items|, |line| + 2);
    }
  }

  lemma {:induction false} LeafDescends(b: seq<byte>, r: Reply, level: nat, more: seq<byte>)
    requires !r.ArrayReply? && Encodes(b, r, level)
    ensures Descend(b + more, level) == Tree(r, |b|)
  {
    match r
    case ErrorReply(t) => LineDescends(b, MINUS, t, level, more);
    case StatusReply(t) => LineDescends(b, PLUS, t, level, more);
    case IntegerReply(v) =>
      var line :| IsLine(b, COLON, line) && Denotes(line, v);
      ReadsWhatItDenotes(line, v);
      LineDescends(b, COLON, line, level, more);
    case NilReply => NilDescends(b, level, more);
    case StringReply(s) =>
      var line, skipped :| IsBulk(b, line, s, skipped);
      BulkDescends(b, line, s, skipped, level, more);
  }

  lemma {:induction false} NilDescends(b: seq<byte>, level: nat, more: seq<byte>)
    requires Encodes(b, NilReply, level)
    ensures Descend(b + more, level) == Tree(NilReply, |b|)
  {
    if line, v :| IsLine(b, DOLLAR, line) && Denotes(line, v) && v < 0 {
      ReadsWhatItDenotes(line, v);
      LineDescends(b, DOLLAR, line, level, more);
    } else {
      var line :| IsLine(b, STAR, line) && Denotes(line, -1);
      ReadsWhatItDenotes(line, -1);
      LineDescends(b, STAR, line, level, more);
    }
  }

  lemma {:induction false} EncodingDescends(b: seq<byte>, r: Reply, level: nat, more: seq<byte>)
    requires level <= MAX_LEVELS && Encodes(b, r, level)
    ensures Descend(b + more, level) == Tree(r, |b|)
    decreases r, 0
  {
    if r.ArrayReply? {
      var line, rest :| IsArray(b, line, rest, |r.items|) && EncodesAll(rest, r.items, level + 1);
      EncodingsDescend(rest, r.items, level + 1, more);
      ReadsWhatItDenotes(line, |r.items|);
      ArrayDescends(b, line, rest, r.items, level, more);
    } else {
      LeafDescends(b, r, level, more);
    }
  }

  lemma {:induction false} EncodingsDescend(b: seq<byte>, rs: seq<Reply>, level: nat, more: seq<byte>)
    requires level <= MAX_LEVELS && EncodesAll(b, rs, level)
    ensures DescendMany(b + more, level, |rs|) == Forest(rs, |b|)
    decreases rs, 1
  {
    if rs != [] {
      var all, tail := b + more, rs[1..];
      var first, rest := EncodesHead(b, rs, level);
      var c := rest + more;
      Associates(first, rest, more);
      EncodingDescends(first, rs[0], level, c);
      EncodingsDescend(rest, tail, level, more);
      DescendMore(all, first, c, rs, tail, level, |rest|);
    }
  }

  lemma {:induction false} DescendMore(
    all: seq<byte>, first: seq<byte>, c: seq<byte>, rs: seq<Reply>, tail: seq<Reply>, level: nat, n: nat)
    requires rs != [] && tail == rs[1..] && all == first + c
    requires Descend(all, level) == Tree(rs[0], |first|) && DescendMany(c, level, |tail|) == Forest(tail, n)
    ensures DescendMany(all, level, |rs|) == Forest(rs, |first| + n)
  {
    assert all[|first|..] == c && rs == [rs[0]] + tail;
    DescendRest(all, level, |rs|, rs[0], |first|);
  }

  /** The reader accepts exactly the encodings of the declarative grammar: with anything
      behind it, `b` is read as `r` and consumed whole if and only if it encodes `r`. */
  lemma {:induction false} ReadsExactlyEncodings(b: seq<byte>, r: Reply, more: seq<byte>)
    ensures Encodes(b, r, 0) <==> Run(IDLE, b + more) == Got(r, more)
  {
    if Encodes(b, r, 0) {
      EncodingDescends(b, r, 0, more);
      ReaderRefinesGrammar(b + more);
      assert (b + more)[|b|..] == more;
    }
    if Run(IDLE, b + more) == Got(r, more) {
      ReaderRefinesGrammar(b + more);
      DescendEncodes(b + more, 0);
      assert (b + more)[..|b|] == b;
    }
  }

  /** Lines that no server sends and the reader takes: a length or count that is not a
      number is -1, and a missing number is zero. */
  lemma {:induction false} LenientEncodings(x: byte)
    requires !IsDigit(x) && x != CR && x != MINUS && x != PLUS
    ensures Encodes([DOLLAR, x] + CRLF, NilReply, 0) && Encodes([STAR, x] + CRLF, NilReply, 0)
    ensures Encodes([COLON, x] + CRLF, IntegerReply(-1), 0) && Encodes([COLON] + CRLF, IntegerReply(0), 0)
    ensures Encodes([DOLLAR] + CRLF + CRLF, StringReply([]), 0) && Encodes([STAR] + CRLF, ArrayReply([]), 0)
  {
    assert Consists([x], [], [], [x]) && Denotes([x], -1);
    assert Consists([], [], [], []) && Denotes([], 0);
    assert IsLine([DOLLAR, x] + CRLF, DOLLAR, [x]) && IsLine([STAR, x] + CRLF, STAR, [x]);
    assert IsLine([COLON, x] + CRLF, COLON, [x]) && IsLine([COLON] + CRLF, COLON, []);
    assert IsBulk([DOLLAR] + CRLF + CRLF, [], [], CRLF);
    assert IsArray([STAR] + CRLF, [], [], 0);
  }

  /** What the reader refuses at once: an unknown type byte, and an array count below -1 or
      beyond `int`. */
  lemma {:induction false} Refuses(x: byte, line: seq<byte>, n: int, more: seq<byte>)
    requires x !in [36, 42, 43, 45, 58] && NoCrlf(line) && Denotes(line, n)
    ensures Run(IDLE, [x] + more) == Failed(BadType(x))
    ensures !(-1 <= n <= 0x7fff_ffff) ==> Run(IDLE, [42] + line + [13, 10] + more) == Failed(BadCount)
  {
    if !(-1 <= n <= 0x7fff_ffff) {
      RefusesCount(line, n, more, [42] + line + [13, 10] + more);
    }
  }

  lemma {:induction false} RefusesCount(line: seq<byte>, n: int, more: seq<byte>, b: seq<byte>)
    requires NoCrlf(line) && Denotes(line, n) && !(-1 <= n <= 0x7fff_ffff) && b == [42] + line + [13, 10] + more
    ensures Run(IDLE, b) == Failed(BadCount)
  {
    FirstCrlfAfterText(line, more);
    ReadsWhatItDenotes(line, n);
    assert b[1..] == line + CRLF + more && b[1..][..|line|] == line;
    assert Step(IDLE, b) == Next(Parse([], ArrayType), 1);
    assert Step(Parse([], ArrayType), b[1..]) == Fail(BadCount);
  }

  /** An array that is open at the second level cannot hold another one. */
  lemma {:induction false} RefusesThirdLevel(outer: seq<byte>, n: nat, inner: seq<byte>, m: nat, more: seq<byte>)
    requires NoCrlf(outer) && Denotes(outer, n) && 1 <= n <= 0x7fff_ffff
    requires NoCrlf(inner) && Denotes(inner, m) && 1 <= m <= 0x7fff_ffff
    ensures Run(IDLE, [42] + outer + [13, 10] + ([42] + inner + [13, 10] + ([42] + more))) == Failed(TooDeep)
  {
    var b, c := [42] + inner + [13, 10] + ([42] + more), [42] + more;
    OpensArray([], outer, n, [42] + outer + [13, 10] + b, b);
    OpensArray([Frame(n, [])], inner, m, b, c);
    RefusesArray([] + [Frame(n, [])] + [Frame(m, [])], c);
    assert [] + [Frame(n, [])] == [Frame(n, [])];
  }

  lemma {:induction false} RefusesArray(open: seq<Frame>, b: seq<byte>)
    requires |open| == MAX_LEVELS && ValidFrames(open) && b != [] && b[0] == 42
    ensures Run(Parse(open, Unset), b) == Failed(TooDeep)
  {
  }

  lemma {:induction false} OpensArray(open: seq<Frame>, line: seq<byte>, n: nat, b: seq<byte>, more: seq<byte>)
    requires |open| < MAX_LEVELS && ValidFrames(open) && b == [42] + line + [13, 10] + more
    requires NoCrlf(line) && Denotes(line, n) && 1 <= n <= INT_MAX
    ensures Run(Parse(open, Unset), b) == Run(Parse(open + [Frame(n, [])], Unset), more)
  {
    FirstCrlfAfterText(line, more);
    ReadsWhatItDenotes(line, n);
    assert b[1..] == line + CRLF + more && b[1..][..|line|] == line;
    RunHeader(open, Frame(n, []), |line| + 2, b);
    assert b[1 + (|line| + 2)..] == more;
  }

  /** No encoding is a proper prefix of another encoding, and none is ambiguous. */
  lemma {:induction false} EncodingsArePrefixFree(b: seq<byte>, r: Reply, more: seq<byte>, s: Reply)
    requires Encodes(b, r, 0) && Encodes(b + more, s, 0)
    ensures more == [] && r == s
  {
    ReadsExactlyEncodings(b, r, more);
    ReadsExactlyEncodings(b + more, s, []);
    assert b + more + [] == b + more;
  }
}

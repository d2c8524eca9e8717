/** The reply reader as a pure state machine: the task stack of `redisReader`, one
    transition per consumed type byte or item body, and its runs. */
module Machine {
  import opened Bytes
  import opened Numerals
  import opened Replies

  /** An open array: its announced count and the elements completed so far. */
  datatype Frame = Frame(count: nat, items: seq<Reply>)

  /** The task stack: `ridx` is `|open|`, and `ty` is the type of the top task. */
  datatype Parse = Parse(open: seq<Frame>, ty: TaskType)

  const IDLE := Parse([], Unset)

  predicate ValidFrame(f: Frame) {
    |f.items| < f.count <= INT_MAX
  }

  predicate ValidFrames(open: seq<Frame>) {
    forall f :: f in open ==> ValidFrame(f)
  }

  predicate ValidParse(p: Parse) {
    && |p.open| <= MAX_LEVELS
    && ValidFrames(p.open)
    && (p.ty.ArrayType? ==> |p.open| < MAX_LEVELS)
  }

  /** Where a completed element goes: it is the root reply, or it joins the
      innermost open array and possibly completes it (`moveToNextTask`). */
  datatype Settled = Root(reply: Reply) | Inside(open: seq<Frame>)

  function Settle(open: seq<Frame>, r: Reply): (s: Settled)
    requires ValidFrames(open)
    ensures s.Inside? ==> 1 <= |s.open| <= |open| && ValidFrames(s.open)
    decreases |open|
  {
    if open == [] then Root(r)
    else
      var last := |open| - 1;
      var items := open[last].items + [r];
      assert ValidFrame(open[last]);
      if |items| == open[last].count then Settle(open[..last], ArrayReply(items))
      else Inside(open[..last] + [open[last].(items := items)])
  }

  datatype Move = Wait | Next(p: Parse, size: nat) | Finish(reply: Reply, size: nat) | Fail(fault: Fault)

  function Place(s: Settled, size: nat): Move {
    match s
    case Root(r) => Finish(r, size)
    case Inside(open) => Next(Parse(open, Unset), size)
  }

  function ReadType(p: Parse, b: seq<byte>): Move {
    if b == [] then Wait
    else
      var ty := TypeOf(b[0]);
      if ty.Unset? then Fail(BadType(b[0]))
      else if ty.ArrayType? && |p.open| == MAX_LEVELS then Fail(TooDeep)
      else Next(p.(ty := ty), 1)
  }

  /** One transition on the unread bytes `b`. */
  function Step(p: Parse, b: seq<byte>): (m: Move)
    requires ValidParse(p)
    ensures m.Next? ==> ValidParse(m.p)
    ensures m.Next? || m.Finish? ==> 1 <= m.size <= |b|
  {
    if p.ty.Unset? then ReadType(p, b)
    else
      match ReadItem(p.ty, b)
      case Incomplete => Wait
      case Leaf(r, size) => Place(Settle(p.open, r), size)
      case Header(count, size) => Next(Parse(p.open + [Frame(count, [])], Unset), size)
      case Broken(f) => Fail(f)
  }

  datatype Outcome = Waiting(p: Parse, rest: seq<byte>) | Got(reply: Reply, rest: seq<byte>) | Failed(fault: Fault)

  /** Transitions until a reply is complete, the bytes run out, or the input is wrong. */
  function Run(p: Parse, b: seq<byte>): (o: Outcome)
    requires ValidParse(p)
    ensures o.Waiting? ==> ValidParse(o.p) && |o.rest| <= |b|
    ensures o.Got? ==> |o.rest| < |b|
    decreases |b|
  {
    match Step(p, b)
    case Wait => Waiting(p, b)
    case Next(q, size) => Run(q, b[size..])
    case Finish(r, size) => Got(r, b[size..])
    case Fail(f) => Failed(f)
  }

  /** A run only ever drops a prefix of its bytes, and waits only where it must. */
  lemma {:induction false} RunLeavesSuffix(p: Parse, b: seq<byte>)
    requires ValidParse(p)
    ensures var o := Run(p, b);
            && (o.Waiting? ==> o.rest == b[|b| - |o.rest|..] && Step(o.p, o.rest).Wait?)
            && (o.Got? ==> o.rest == b[|b| - |o.rest|..])
    decreases |b|
  {
    var m := Step(p, b);
    if m.Next? {
      RunLeavesSuffix(m.p, b[m.size..]);
    }
  }

  datatype End = Live(p: Parse, rest: seq<byte>) | Dead(fault: Fault)

  /** All replies in `b`, in order, and how the reader is left. */
  datatype Trace = Trace(replies: seq<Reply>, end: End)

  function Drain(p: Parse, b: seq<byte>): (t: Trace)
    requires ValidParse(p)
    ensures t.end.Live? ==> ValidParse(t.end.p)
    decreases |b|
  {
    match Run(p, b)
    case Waiting(q, rest) => Trace([], Live(q, rest))
    case Got(r, rest) => Before([r], Drain(IDLE, rest))
    case Failed(f) => Trace([], Dead(f))
  }

  function Before(rs: seq<Reply>, t: Trace): Trace {
    Trace(rs + t.replies, t.end)
  }

  /** A transition already possible is not changed by bytes that arrive later. */
  lemma {:induction false} StepExtends(p: Parse, b: seq<byte>, c: seq<byte>)
    requires ValidParse(p) && !Step(p, b).Wait?
    ensures Step(p, b + c) == Step(p, b)
  {
    if !p.ty.Unset? {
      ReadItemExtends(p.ty, b, c);
    }
  }

  /** Running on `b` and later on the rest is running on everything at once. */
  lemma {:induction false} RunExtends(p: Parse, b: seq<byte>, c: seq<byte>)
    requires ValidParse(p)
    ensures Run(p, b + c) == match Run(p, b)
                             case Waiting(q, rest) => Run(q, rest + c)
                             case Got(r, rest) => Got(r, rest + c)
                             case Failed(f) => Failed(f)
    decreases |b|
  {
    var m := Step(p, b);
    if !m.Wait? {
      StepExtends(p, b, c);
      if m.Next? {
        assert (b + c)[m.size..] == b[m.size..] + c;
        RunExtends(m.p, b[m.size..], c);
      } else if m.Finish? {
        assert (b + c)[m.size..] == b[m.size..] + c;
      }
    }
  }

  lemma {:induction false} BeforeJoins(rs: seq<Reply>, ss: seq<Reply>, t: Trace)
    ensures Before(rs, Before(ss, t)) == Before(rs + ss, t)
    ensures Before([], t) == t
  {
    assert rs + (ss + t.replies) == (rs + ss) + t.replies;
    assert [] + t.replies == t.replies;
  }

  lemma {:induction false} DrainWaiting(p: Parse, b: seq<byte>, q: Parse, rest: seq<byte>, c: seq<byte>)
    requires ValidParse(p) && Run(p, b) == Waiting(q, rest)
    ensures Drain(p, b + c) == Drain(q, rest + c)
  {
    RunExtends(p, b, c);
    BeforeJoins([], [], Drain(q, rest + c));
  }

  lemma {:induction false} DrainGot(p: Parse, b: seq<byte>, r: Reply, rest: seq<byte>, c: seq<byte>)
    requires ValidParse(p) && Run(p, b) == Got(r, rest)
    ensures Drain(p, b + c) == Before([r], Drain(IDLE, rest + c))
  {
    RunExtends(p, b, c);
  }

  /** Chunk independence for two pieces: the first piece is parsed as far as it goes,
      and the retained bytes and task stack carry all that matters about it. */
  lemma {:induction false} DrainExtends(p: Parse, b: seq<byte>, c: seq<byte>)
    requires ValidParse(p)
    ensures var t := Drain(p, b);
            Drain(p, b + c) == if t.end.Live? then Before(t.replies, Drain(t.end.p, t.end.rest + c)) else t
    decreases |b|
  {
    var t := Drain(p, b);
    var o := Run(p, b);
    match o
    case Waiting(q, rest) =>
      DrainWaiting(p, b, q, rest, c);
      BeforeJoins([], [], Drain(q, rest + c));
    case Got(r, rest) =>
      DrainGot(p, b, r, rest, c);
      DrainExtends(IDLE, rest, c);
      var u := Drain(IDLE, rest);
      if u.end.Live? {
        BeforeJoins([r], u.replies, Drain(u.end.p, u.end.rest + c));
      }
    case Failed(f) =>
      RunExtends(p, b, c);
  }

  /** Nothing happens on an empty buffer. */
  lemma {:induction false} WaitsOnNothing(p: Parse)
    requires ValidParse(p)
    ensures Run(p, []) == Waiting(p, [])
  {
  }
}

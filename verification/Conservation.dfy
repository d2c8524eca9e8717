/** No byte is lost or invented: in every run without an error, the bytes fed are the
    encodings of the replies delivered, the bytes consumed towards the open task stack,
    and the bytes retained in the buffer. */
module Conservation {
  import opened Bytes
  import opened Numerals
  import opened Replies
  import opened Machine
  import opened Grammar
  import opened Sessions

  /** An item does not depend on what follows it. */
  lemma {:induction false} ReadItemLocal(ty: TaskType, b: seq<byte>, i: Item)
    requires !ty.Unset? && i == ReadItem(ty, b) && (i.Leaf? || i.Header?)
    ensures ReadItem(ty, b[..i.size]) == i
  {
    var k := FirstCrlf(b).value;
    var a := b[..i.size];
    forall j | 0 <= j < k
      ensures !CrlfAt(a, j)
    {
      assert !CrlfAt(b, j);
    }
    FirstCrlfUnique(a, k);
    assert a[..k] == b[..k];
    var len := ReadLongLong(b[..k]);
    if ty.StringType? && 0 <= len {
      assert a[k + 2..k + 2 + len] == b[k + 2..k + 2 + len];
    }
  }

  /** A transition depends only on the bytes it consumes. */
  lemma {:induction false} StepLocal(p: Parse, b: seq<byte>, m: Move)
    requires ValidParse(p) && m == Step(p, b) && (m.Next? || m.Finish?)
    ensures Step(p, b[..m.size]) == m
  {
    if !p.ty.Unset? {
      ReadItemLocal(p.ty, b, ReadItem(p.ty, b));
    }
  }

  /** The outcome `o` of a run, but with nothing left over. */
  function Exactly(o: Outcome): Outcome {
    if o.Waiting? then Waiting(o.p, []) else if o.Got? then Got(o.reply, []) else o
  }

  lemma {:induction false} RunNext(p: Parse, b: seq<byte>, m: Move, c: seq<byte>)
    requires ValidParse(p) && m == Step(p, b) && m.Next? && c == b[m.size..]
    ensures Run(p, b) == Run(m.p, c)
  {
  }

  lemma {:induction false} Chained(p: Parse, a: seq<byte>, q: Parse, d: seq<byte>, o: Outcome)
    requires ValidParse(p) && ValidParse(q) && Run(p, a) == Run(q, d) && Run(q, d) == o
    ensures Run(p, a) == o
  {
  }

  lemma {:induction false} LocalWait(p: Parse, b: seq<byte>)
    requires ValidParse(p) && Step(p, b).Wait?
    ensures Run(p, b) == Waiting(p, b) && Run(p, []) == Waiting(p, [])
  {
    WaitsOnNothing(p);
  }

  lemma {:induction false} LocalFinish(p: Parse, b: seq<byte>, m: Move, a: seq<byte>)
    requires ValidParse(p) && m == Step(p, b) && m.Finish? && a == b[..m.size]
    ensures Run(p, b) == Got(m.reply, b[m.size..]) && Run(p, a) == Got(m.reply, [])
  {
    StepLocal(p, b, m);
  }

  /** `a` is `b` without the bytes that `d` is `c` without. */
  lemma {:induction false} LocalNext(p: Parse, b: seq<byte>, m: Move, c: seq<byte>, a: seq<byte>, d: seq<byte>)
    requires ValidParse(p) && m == Step(p, b) && m.Next? && c == b[m.size..]
    requires |d| <= |c| && d == c[..|d|] && a == b[..m.size + |d|]
    ensures Run(p, a) == Run(m.p, d)
  {
    LocalStep(p, b, m, m.size + |d|);
    assert a[m.size..] == d;
    RunNext(p, a, m, d);
  }

  /** A run depends only on the bytes it consumes. */
  lemma {:induction false} RunLocal(p: Parse, b: seq<byte>, o: Outcome, a: seq<byte>)
    requires ValidParse(p) && o == Run(p, b) && !o.Failed? && a == b[..|b| - |o.rest|]
    ensures Run(p, a) == Exactly(o)
    decreases |b|, 1
  {
    var m := Step(p, b);
    if m.Wait? {
      LocalWait(p, b);
      assert a == [];
    } else if m.Next? {
      RunNext(p, b, m, b[m.size..]);
      RunLocalNext(p, b, o, a, m, b[m.size..]);
    } else {
      LocalFinish(p, b, m, b[..m.size]);
    }
  }

  lemma {:induction false} RunLocalNext(p: Parse, b: seq<byte>, o: Outcome, a: seq<byte>, m: Move, c: seq<byte>)
    requires ValidParse(p) && m == Step(p, b) && m.Next? && c == b[m.size..] && o == Run(m.p, c) && !o.Failed?
    requires |o.rest| <= |c| && a == b[..|b| - |o.rest|]
    ensures Run(p, a) == Exactly(o)
    decreases |b|, 0
  {
    var d := c[..|c| - |o.rest|];
    LocalNext(p, b, m, c, a, d);
    RunLocal(m.p, c, o, d);
    Chained(p, a, m.p, d, Exactly(o));
  }

  lemma {:induction false} LocalStep(p: Parse, b: seq<byte>, m: Move, n: nat)
    requires ValidParse(p) && m == Step(p, b) && (m.Next? || m.Finish?) && m.size <= n <= |b|
    ensures Step(p, b[..n]) == m
  {
    StepLocal(p, b, m);
    assert b[..m.size] + b[m.size..n] == b[..n];
    StepExtends(p, b[..m.size], b[m.size..n]);
  }

  /** The bytes of `stream` that the reader has dealt with: `done` encodes the replies,
      `partial` has been consumed towards the open task stack, the rest is retained. */
  ghost predicate Splits(stream: seq<byte>, done: seq<byte>, rs: seq<Reply>, partial: seq<byte>, s: ReaderState)
    requires ValidState(s)
  {
    && stream == done + partial + s.buf
    && EncodesAll(done, rs, 0)
    && Run(IDLE, partial) == Waiting(s.p, [])
  }

  /** A run splits its bytes into those consumed and those left. */
  lemma {:induction false} Consume(p: Parse, b: seq<byte>, o: Outcome) returns (taken: seq<byte>)
    requires ValidParse(p) && o == Run(p, b) && !o.Failed?
    ensures b == taken + o.rest
    ensures Run(p, taken) == Exactly(o)
  {
    RunLeavesSuffix(p, b);
    taken := b[..|b| - |o.rest|];
    RunLocal(p, b, o, taken);
  }

  lemma {:induction false} RunOn(partial: seq<byte>, p: Parse, taken: seq<byte>, o: Outcome)
    requires ValidParse(p) && Run(IDLE, partial) == Waiting(p, []) && Run(p, taken) == o
    ensures Run(IDLE, partial + taken) == o
  {
    RunExtends(IDLE, partial, taken);
    assert [] + taken == taken;
  }

  lemma {:induction false} GetRuns(s: ReaderState, a: Answer, o: Outcome)
    requires ValidState(s) && s.fault.None? && a == GetReply(s) && !a.result.Error? && o == Run(s.p, s.buf)
    ensures o.Waiting? ==> a == Answer(s.(p := o.p, buf := o.rest), NoReply)
    ensures o.Got? ==> a == Answer(s.(p := IDLE, buf := o.rest), Delivered(o.reply))
    ensures !o.Failed?
  {
    WaitsOnNothing(s.p);
  }

  /** One call either consumes towards the open task stack or completes one encoding. */
  lemma {:induction false} GetSplits(s: ReaderState, partial: seq<byte>, a: Answer)
    returns (enc: seq<byte>, more: seq<byte>)
    requires ValidState(s) && s.fault.None? && Run(IDLE, partial) == Waiting(s.p, [])
    requires a == GetReply(s) && !a.result.Error?
    ensures partial + s.buf == enc + (more + a.state.buf)
    ensures a.state.fault.None? && Run(IDLE, more) == Waiting(a.state.p, [])
    ensures if a.result.Delivered? then Encodes(enc, a.result.reply, 0) else enc == []
  {
    var o := Run(s.p, s.buf);
    GetRuns(s, a, o);
    var taken := Consume(s.p, s.buf, o);
    enc, more := SplitRun(partial, s.p, taken, o, a.result);
    Associates(partial, taken, o.rest);
    Associates(enc, more, o.rest);
  }

  lemma {:induction false} SplitRun(partial: seq<byte>, p: Parse, taken: seq<byte>, o: Outcome, result: Result)
    returns (enc: seq<byte>, more: seq<byte>)
    requires ValidParse(p) && Run(IDLE, partial) == Waiting(p, []) && !o.Failed?
    requires Run(p, taken) == Exactly(o)
    requires result == if o.Waiting? then NoReply else Delivered(o.reply)
    ensures enc + more == partial + taken
    ensures Run(IDLE, more) == Waiting(if o.Waiting? then o.p else IDLE, [])
    ensures if o.Got? then Encodes(enc, o.reply, 0) else enc == []
  {
    RunOn(partial, p, taken, Exactly(o));
    WaitsOnNothing(IDLE);
    if o.Waiting? {
      enc, more := [], partial + taken;
    } else {
      enc, more := partial + taken, [];
      GotEncodes(enc, o.reply);
    }
    Nothing(partial + taken);
  }

  lemma {:induction false} Nothing(b: seq<byte>)
    ensures [] + b == b && b + [] == b
  {
  }

  lemma {:induction false} GotEncodes(b: seq<byte>, r: Reply)
    requires Run(IDLE, b) == Got(r, [])
    ensures Encodes(b, r, 0)
  {
    assert b + [] == b;
    ReadsExactlyEncodings(b, r, []);
  }

  /** One more reply in front. */
  lemma {:induction false} SplitsBehind(
    b: seq<byte>, r: Reply, stream: seq<byte>, done: seq<byte>, rs: seq<Reply>, partial: seq<byte>, s: ReaderState)
    requires ValidState(s) && Encodes(b, r, 0) && Splits(stream, done, rs, partial, s)
    ensures Splits(b + stream, b + done, [r] + rs, partial, s)
  {
    EncodesFirst(b, r, done, rs, 0);
    Associates(b, done + partial, s.buf);
    Associates(b, done, partial);
  }

  lemma {:induction false} RunSplits(s: ReaderState, quiet: bool, ops: seq<Op>, partial: seq<byte>, h: History)
    returns (done: seq<byte>, more: seq<byte>)
    requires ValidState(s) && s.fault.None? && Run(IDLE, partial) == Waiting(s.p, [])
    requires h == Exec(s, quiet, ops) && h.state.fault.None?
    ensures Splits(partial + s.buf + Fed(ops), done, h.replies, more, h.state)
    decreases ops
  {
    if ops == [] {
      done, more := [], partial;
      assert [] + partial + s.buf == partial + s.buf + [];
    } else if ops[0].FeedOp? {
      var c, t := ops[0].chunk, Feed(s, ops[0].chunk);
      done, more := RunSplits(t, false, ops[1..], partial, h);
      FeedRegroups(s, c, partial, Fed(ops[1..]));
    } else {
      done, more := RunGetSplits(s, quiet, ops, partial, h);
    }
  }

  lemma {:induction false} FeedRegroups(s: ReaderState, c: seq<byte>, partial: seq<byte>, stream: seq<byte>)
    requires ValidState(s)
    ensures partial + Feed(s, c).buf + stream == partial + s.buf + (c + stream)
  {
    assert c == [] ==> s.buf + c == s.buf;
    assert partial + (s.buf + c) + stream == partial + s.buf + (c + stream);
  }

  lemma {:induction false} RunGetSplits(s: ReaderState, quiet: bool, ops: seq<Op>, partial: seq<byte>, h: History)
    returns (done: seq<byte>, more: seq<byte>)
    requires ValidState(s) && s.fault.None? && Run(IDLE, partial) == Waiting(s.p, [])
    requires ops != [] && ops[0].GetOp? && h == Exec(s, quiet, ops) && h.state.fault.None?
    ensures Splits(partial + s.buf + Fed(ops), done, h.replies, more, h.state)
    decreases ops, 0
  {
    var a, stream := GetReply(s), Fed(ops[1..]);
    var g := Exec(a.state, !a.result.Delivered?, ops[1..]);
    assert Fed(ops) == stream;
    if a.result.Error? {
      FaultIsFinal(a.state, true, ops[1..]);
    } else {
      var enc, next := GetSplits(s, partial, a);
      done, more := RunSplits(a.state, !a.result.Delivered?, ops[1..], next, g);
      Associates(enc, next + a.state.buf, stream);
      if a.result.Delivered? {
        SplitsBehind(enc, a.result.reply, next + a.state.buf + stream, done, g.replies, more, g.state);
        done := enc + done;
      } else {
        assert enc + (next + a.state.buf + stream) == next + a.state.buf + stream;
      }
    }
  }

  /** Byte conservation over every run without an error, whatever the schedule. */
  lemma {:induction false} BytesAreConserved(ops: seq<Op>)
    requires Exec(INITIAL, true, ops).state.fault.None?
    ensures var h := Exec(INITIAL, true, ops);
            exists done, partial :: Splits(Fed(ops), done, h.replies, partial, h.state)
  {
    WaitsOnNothing(IDLE);
    var done, more := RunSplits(INITIAL, true, ops, [], Exec(INITIAL, true, ops));
    assert [] + INITIAL.buf + Fed(ops) == Fed(ops);
  }
}

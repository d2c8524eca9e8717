/** Whole runs of the reader: any schedule of `redisReplyReaderFeed` and
    `redisReplyReaderGetReply` calls. */
module Sessions {
  import opened Bytes
  import opened Replies
  import opened Machine

  /** What the reader remembers between calls. After a protocol error the buffer is
      dropped but the recorded length is not: `stale` is that situation. */
  datatype ReaderState = ReaderState(p: Parse, buf: seq<byte>, fault: Option<Fault>, stale: bool)

  const INITIAL := ReaderState(IDLE, [], None, false)

  predicate ValidState(s: ReaderState) {
    ValidParse(s.p) && (s.stale ==> s.buf == [] && s.p == IDLE && s.fault.Some?)
  }

  /** `REDIS_OK` without a reply, `REDIS_OK` with one, or `REDIS_ERR`. */
  datatype Result = NoReply | Delivered(reply: Reply) | Error

  function Feed(s: ReaderState, chunk: seq<byte>): (t: ReaderState)
    requires ValidState(s)
    ensures ValidState(t)
  {
    if chunk == [] then s else s.(buf := s.buf + chunk, stale := false)
  }

  datatype Answer = Answer(state: ReaderState, result: Result)

  /** A stale reader trips over the terminator of its empty buffer. A reader that has
      failed before keeps parsing what it is fed, but withholds the replies. */
  function GetReply(s: ReaderState): (a: Answer)
    requires ValidState(s)
    ensures ValidState(a.state)
  {
    if s.stale then Answer(s.(fault := Some(BadType(NUL))), Error)
    else if s.buf == [] then Answer(s, NoReply)
    else
      match Run(s.p, s.buf)
      case Waiting(q, rest) => Answer(s.(p := q, buf := rest), NoReply)
      case Got(r, rest) => Answer(s.(p := IDLE, buf := rest), if s.fault.Some? then Error else Delivered(r))
      case Failed(f) => Answer(ReaderState(IDLE, [], Some(f), true), Error)
  }

  datatype Op = FeedOp(chunk: seq<byte>) | GetOp

  function Fed(ops: seq<Op>): seq<byte> {
    if ops == [] then []
    else (if ops[0].FeedOp? then ops[0].chunk else []) + Fed(ops[1..])
  }

  /** Final state, replies delivered in order, whether the last call came back empty-handed,
      and the first fault of the reader. */
  datatype History = History(state: ReaderState, replies: seq<Reply>, quiet: bool, first: Option<Fault>)

  function Exec(s: ReaderState, quiet: bool, ops: seq<Op>): (h: History)
    requires ValidState(s)
    ensures ValidState(h.state)
    decreases ops
  {
    if ops == [] then History(s, [], quiet, None)
    else if ops[0].FeedOp? then Exec(Feed(s, ops[0].chunk), false, ops[1..])
    else
      var a := GetReply(s);
      var h := Exec(a.state, !a.result.Delivered?, ops[1..]);
      if a.result.Delivered? then h.(replies := [a.result.reply] + h.replies)
      else if s.fault.None? && a.result.Error? then h.(first := a.state.fault)
      else h
  }

  /** Once a reader has failed it never delivers a reply again, whatever it is fed. */
  lemma {:induction false} FaultIsFinal(s: ReaderState, quiet: bool, ops: seq<Op>)
    requires ValidState(s) && s.fault.Some?
    ensures var h := Exec(s, quiet, ops); h.state.fault.Some? && h.replies == []
    decreases ops
  {
    if ops != [] {
      if ops[0].FeedOp? {
        FaultIsFinal(Feed(s, ops[0].chunk), false, ops[1..]);
      } else {
        var a := GetReply(s);
        FaultIsFinal(a.state, !a.result.Delivered?, ops[1..]);
      }
    }
  }

  /** All replies are accounted for: those delivered, followed by those still to come
      out of the retained bytes and task stack, are the replies of the whole stream. */
  ghost predicate Conserves(s: ReaderState, stream: seq<byte>, h: History)
    requires ValidState(s) && ValidState(h.state)
  {
    var t := Drain(s.p, s.buf + stream);
    if h.state.fault.None? then t == Before(h.replies, Drain(h.state.p, h.state.buf))
    else h.first.Some? && t == Trace(h.replies, Dead(h.first.value))
  }

  lemma {:induction false} GetConserves(s: ReaderState, stream: seq<byte>)
    requires ValidState(s) && s.fault.None?
    ensures var a := GetReply(s);
            var t := Drain(s.p, s.buf + stream);
            match a.result
            case NoReply => a.state.fault.None? && t == Drain(a.state.p, a.state.buf + stream)
            case Delivered(r) => a.state.fault.None? && t == Before([r], Drain(a.state.p, a.state.buf + stream))
            case Error => a.state.fault.Some? && t == Trace([], Dead(a.state.fault.value))
  {
    if s.buf != [] {
      var o := Run(s.p, s.buf);
      match o
      case Waiting(q, rest) => DrainWaiting(s.p, s.buf, q, rest, stream);
      case Got(r, rest) => DrainGot(s.p, s.buf, r, rest, stream);
      case Failed(f) => RunExtends(s.p, s.buf, stream);
    }
  }

  lemma {:induction false} FeedStep(s: ReaderState, c: seq<byte>, stream: seq<byte>, h: History)
    requires ValidState(s) && s.fault.None? && ValidState(h.state)
    requires Conserves(Feed(s, c), stream, h)
    ensures Conserves(s, c + stream, h)
  {
    assert s.buf + (c + stream) == (s.buf + c) + stream;
    if c == [] {
      assert s.buf + c == s.buf;
    }
  }

  lemma {:induction false} DeliverStep(s: ReaderState, stream: seq<byte>, h: History)
    requires ValidState(s) && s.fault.None? && ValidState(h.state) && GetReply(s).result.Delivered?
    requires Conserves(GetReply(s).state, stream, h)
    ensures Conserves(s, stream, h.(replies := [GetReply(s).result.reply] + h.replies))
  {
    GetConserves(s, stream);
    BeforeJoins([GetReply(s).result.reply], h.replies, Drain(h.state.p, h.state.buf));
  }

  /** Conservation over every run, whatever the order of the calls. */
  lemma {:induction false} RunConserves(s: ReaderState, quiet: bool, ops: seq<Op>)
    requires ValidState(s) && s.fault.None?
    ensures Conserves(s, Fed(ops), Exec(s, quiet, ops))
    decreases ops
  {
    if ops == [] {
      assert s.buf + [] == s.buf;
      BeforeJoins([], [], Drain(s.p, s.buf));
    } else if ops[0].FeedOp? {
      RunConserves(Feed(s, ops[0].chunk), false, ops[1..]);
      FeedStep(s, ops[0].chunk, Fed(ops[1..]), Exec(Feed(s, ops[0].chunk), false, ops[1..]));
    } else {
      RunGetConserves(s, quiet, ops);
    }
  }

  lemma {:induction false} RunGetConserves(s: ReaderState, quiet: bool, ops: seq<Op>)
    requires ValidState(s) && s.fault.None? && ops != [] && ops[0].GetOp?
    ensures Conserves(s, Fed(ops), Exec(s, quiet, ops))
    decreases ops, 0
  {
    var stream, a := Fed(ops[1..]), GetReply(s);
    assert Fed(ops) == stream;
    GetConserves(s, stream);
    if a.result.Error? {
      FaultIsFinal(a.state, true, ops[1..]);
    } else {
      RunConserves(a.state, !a.result.Delivered?, ops[1..]);
      if a.result.Delivered? {
        DeliverStep(s, stream, Exec(a.state, false, ops[1..]));
      }
    }
  }

  /** A call that found nothing leaves a reader that can only wait. */
  ghost predicate CanOnlyWait(s: ReaderState)
    requires ValidState(s)
  {
    s.fault.None? ==> Drain(s.p, s.buf) == Trace([], Live(s.p, s.buf))
  }

  lemma {:induction false} QuietMeansWaiting(s: ReaderState, quiet: bool, ops: seq<Op>)
    requires ValidState(s) && (quiet ==> CanOnlyWait(s))
    ensures var h := Exec(s, quiet, ops); h.quiet ==> CanOnlyWait(h.state)
    decreases ops
  {
    if ops != [] {
      if ops[0].FeedOp? {
        QuietMeansWaiting(Feed(s, ops[0].chunk), false, ops[1..]);
      } else {
        var a := GetReply(s);
        if a.result.NoReply? {
          RunLeavesSuffix(s.p, s.buf);
          WaitsOnNothing(s.p);
        }
        QuietMeansWaiting(a.state, !a.result.Delivered?, ops[1..]);
      }
    }
  }

  /** Chunk independence: however one stream is cut into feeds and however many calls
      are made in between, once the last call comes back without a reply the same
      replies have been delivered, the first fault, if any, is the same, and so are the bytes
      and the task stack retained. */
  lemma {:induction false} ChunkIndependence(ops: seq<Op>, others: seq<Op>)
    requires Fed(ops) == Fed(others)
    requires Exec(INITIAL, true, ops).quiet && Exec(INITIAL, true, others).quiet
    ensures var h, g := Exec(INITIAL, true, ops), Exec(INITIAL, true, others);
            && h.replies == g.replies
            && h.state.fault.Some? == g.state.fault.Some?
            && (h.state.fault.Some? ==> h.first.Some? && h.first == g.first)
            && (h.state.fault.None? ==> h.state.p == g.state.p && h.state.buf == g.state.buf)
  {
    WaitsOnNothing(IDLE);
    RunConserves(INITIAL, true, ops);
    RunConserves(INITIAL, true, others);
    QuietMeansWaiting(INITIAL, true, ops);
    QuietMeansWaiting(INITIAL, true, others);
    var h, g := Exec(INITIAL, true, ops), Exec(INITIAL, true, others);
    assert h.replies + [] == h.replies && g.replies + [] == g.replies;
  }
}

/** `RedisSock`, the state behind one PHP connection object: commands, pipelines and
    transactions. The replies to the commands appended so far and not yet read are a
    field, in the order in which the server sends them. */
module RedisSocks {
  import opened Bytes
  import opened Replies
  import opened Objects
  import opened Validators
  import opened Pipeline
  import opened Queues

  const OK: seq<byte> := [79, 75]
  const QUEUED: seq<byte> := [81, 85, 69, 85, 69, 68]

  datatype Mode = Direct | InTransaction

  /** The block being recorded: its readers and the confirmations sent so far. */
  datatype Recording = Recording(fns: seq<Validator>, confirmations: seq<Reply>)

  function OpenSlots(o: Option<Recording>): seq<Slot> {
    if o.Some? then Skips(|o.value.confirmations|) else []
  }

  function OpenReplies(o: Option<Recording>): seq<Reply> {
    if o.Some? then o.value.confirmations else []
  }

  /** The lists of blocks that a MULTI has followed are closed, the list of the last block is
      still the current one. A block that is being recorded follows all others. */
  ghost predicate Closed(groups: seq<Group>, current: nat, open: bool) {
    forall g :: g in groups && g.Transaction? ==>
      (open ==> g.followed) && (g.fns != [] ==> g.followed == (g.list < current))
  }

  /** The main queue has one reader for each reply still to be read. In a pipeline both
      are those of the groups and of the block being recorded; without one, only a block
      has replies to be read, and `before` nodes lie in the queue in front of it. */
  ghost predicate Fits(
    pipeline: bool, open: Option<Recording>, groups: seq<Group>, v: View, incoming: seq<Reply>, before: nat)
  {
    forall k: FitPart :: FitsIn(k, pipeline, open, groups, v, incoming, before)
  }

  datatype FitPart = OfReaders | OfReplies

  ghost predicate FitsIn(
    k: FitPart, pipeline: bool, open: Option<Recording>, groups: seq<Group>, v: View, incoming: seq<Reply>, before: nat)
  {
    match k
    case OfReaders =>
      && (open.Some? ==> v.fns == open.value.fns && (pipeline ==> ReadSkip !in v.fns))
      && (pipeline ==> GroupsOk(groups, Lists(v)) && Closed(groups, |v.readers|, open.Some?))
    case OfReplies =>
      if pipeline then
        && v.slots == SlotsOf(groups) + OpenSlots(open) && incoming == RepliesOf(groups) + OpenReplies(open)
        && (open.Some? ==> |open.value.confirmations| == |v.fns| + 1)
      else
        && groups == [] && incoming == OpenReplies(open)
        && (open.Some? ==> |v.slots| == before + |open.value.confirmations|)
  }

  lemma {:induction false} FitsParts(
    pipeline: bool, open: Option<Recording>, groups: seq<Group>, v: View, incoming: seq<Reply>, before: nat)
    ensures Fits(pipeline, open, groups, v, incoming, before) <==>
      && FitsIn(OfReaders, pipeline, open, groups, v, incoming, before)
      && FitsIn(OfReplies, pipeline, open, groups, v, incoming, before)
  {
  }

  /** Commands of a block do not disturb what earlier blocks find in their lists. */
  lemma {:induction false} GroupsKeep(groups: seq<Group>, v: View, w: View, fn: Validator)
    requires GroupsOk(groups, Lists(v)) && Closed(groups, |v.readers|, true)
    requires w.fns == v.fns + [fn] && w.readers == v.readers
    ensures GroupsOk(groups, Lists(w))
  {
    forall g | g in groups
      ensures GroupOk(g, Lists(w))
    {
      assert GroupOk(g, Lists(v));
    }
  }

  /** The next MULTI adds its status reader to the list of the block before. */
  lemma {:induction false} GroupsFollowed(groups: seq<Group>, v: View, w: View)
    requires GroupsOk(groups, Lists(v)) && Closed(groups, |v.readers|, false)
    requires w.fns == [] && w.readers == v.readers + [v.fns + [ReadStatus]]
    ensures GroupsOk(AllFollowed(groups), Lists(w)) && Closed(AllFollowed(groups), |w.readers|, true)
  {
    var fs := AllFollowed(groups);
    forall f | f in fs
      ensures GroupOk(f, Lists(w)) && (f.Transaction? ==> f.followed && (f.fns != [] ==> f.list < |w.readers|))
    {
      var i :| 0 <= i < |fs| && fs[i] == f;
      assert groups[i] in groups && GroupOk(groups[i], Lists(v));
    }
  }

  /** A command joins the block being recorded, or else the pipeline. */
  function OpenAfter(open: Option<Recording>, fn: Validator, answer: Reply): Option<Recording> {
    if open.Some? then Some(Recording(open.value.fns + [fn], open.value.confirmations + [answer])) else None
  }

  function GroupsAfter(
    pipeline: bool, open: Option<Recording>, groups: seq<Group>, fn: Validator, answer: Reply): seq<Group> {
    if pipeline && open.None? then groups + [Alone(fn, answer)] else groups
  }

  /** What `redis_enqueue` does. */
  function Enqueued(multi: bool, v: View, fn: Validator): View {
    if multi then View(v.slots + [Read(ReadSkip)], v.fns + [fn], v.readers) else v.(slots := v.slots + [Read(fn)])
  }

  /** Nothing recorded and nothing to be read. */
  lemma {:induction false} FitsNothing(pipeline: bool, v: View, before: nat)
    requires pipeline ==> v.slots == []
    ensures Fits(pipeline, None, [], v, [], before)
  {
    FitsParts(pipeline, None, [], v, [], before);
  }

  /** One more command; a direct one is answered at once. */
  lemma {:induction false} FitsCommand(
    pipeline: bool, open: Option<Recording>, groups: seq<Group>, v: View, incoming: seq<Reply>, before: nat,
    fn: Validator, answer: Reply)
    requires Fits(pipeline, open, groups, v, incoming, before) && fn != ReadSkip
    ensures Fits(
      pipeline, OpenAfter(open, fn, answer), GroupsAfter(pipeline, open, groups, fn, answer),
      Enqueued(open.Some?, v, fn), if pipeline || open.Some? then incoming + [answer] else [], before)
  {
    FitsParts(pipeline, open, groups, v, incoming, before);
    FitsParts(
      pipeline, OpenAfter(open, fn, answer), GroupsAfter(pipeline, open, groups, fn, answer),
      Enqueued(open.Some?, v, fn), if pipeline || open.Some? then incoming + [answer] else [], before);
    if open.Some? {
      var n := |open.value.confirmations|;
      if pipeline {
        GroupsKeep(groups, v, Enqueued(true, v, fn), fn);
        assert Skips(n) + [Read(ReadSkip)] == Skips(n + 1);
        assert SlotsOf(groups) + Skips(n) + [Read(ReadSkip)] == SlotsOf(groups) + (Skips(n) + [Read(ReadSkip)]);
      }
    } else if pipeline {
      assert (groups + [Alone(fn, answer)])[..|groups|] == groups;
    }
  }

  /** The view once a block has been opened. */
  ghost function Opened(v: View): View {
    View(v.slots, [], Lists(v))
  }

  lemma {:induction false} FitsMultiDirect(v: View, before: nat)
    requires Fits(false, None, [], v, [], before)
    ensures Fits(false, Some(Recording([], [])), [], Opened(v), [], |v.slots|)
    ensures Fits(false, Some(Recording(v.fns, [])), [], v, [], |v.slots|)
  {
    FitsParts(false, None, [], v, [], before);
    FitsParts(false, Some(Recording([], [])), [], Opened(v), [], |v.slots|);
    FitsParts(false, Some(Recording(v.fns, [])), [], v, [], |v.slots|);
  }

  /** MULTI in a pipeline: its status reader goes astray, to the list of the block before. */
  lemma {:induction false} FitsMulti(
    groups: seq<Group>, v: View, w: View, incoming: seq<Reply>, before: nat, answer: Reply, o: Option<Recording>)
    requires Fits(true, None, groups, v, incoming, before)
    requires w == Opened(Enqueued(true, v, ReadStatus)) && o == Some(Recording([], [answer]))
    ensures Fits(true, o, AllFollowed(groups), w, incoming + [answer], before)
  {
    FitsParts(true, None, groups, v, incoming, before);
    GroupsFollowed(groups, v, w);
    FollowedKeeps(groups);
    FitsParts(true, o, AllFollowed(groups), w, incoming + [answer], before);
    assert Skips(1) == [Read(ReadSkip)];
  }

  /** A block once EXEC has ended it. */
  function Recorded(o: Recording, answer: Reply, list: nat): Group {
    Transaction(o.fns, o.confirmations, answer, list, false)
  }

  /** EXEC in a pipeline ends the block. */
  lemma {:induction false} FitsExec(
    o: Recording, groups: seq<Group>, v: View, incoming: seq<Reply>, before: nat, answer: Reply, g: Group)
    requires Fits(true, Some(o), groups, v, incoming, before)
    requires g == Recorded(o, answer, |v.readers|)
    ensures Fits(
      true, None, groups + [g], v.(slots := v.slots + [if v.fns == [] then Hole else Join(|v.readers|)]),
      incoming + [answer], before)
  {
    var slot := if v.fns == [] then Hole else Join(|v.readers|);
    var w := v.(slots := v.slots + [slot]);
    FitsParts(true, Some(o), groups, v, incoming, before);
    assert (groups + [g])[..|groups|] == groups;
    EndsBlock(SlotsOf(groups), Skips(|o.confirmations|), slot);
    EndsBlock(RepliesOf(groups), o.confirmations, answer);
    FitsParts(true, None, groups + [g], w, incoming + [answer], before);
  }

  lemma {:induction false} EndsBlock<T>(a: seq<T>, b: seq<T>, x: T)
    ensures a + (b + [x]) == a + b + [x]
  {
  }

  /** Between blocks the walk over the queue and the replies yields what the user expects. */
  lemma {:induction false} FitsSend(groups: seq<Group>, v: View, incoming: seq<Reply>, before: nat)
    requires Fits(true, None, groups, v, incoming, before)
    ensures |v.slots| == |incoming|
    ensures Results(v.slots, Lists(v), incoming) == if AnyBreaks(groups) then None else Some(Entries(groups))
    ensures !AnyBreaks(groups) ==> forall i :: 0 <= i < |groups| ==> GroupGives(groups[i], Entries(groups)[i])
  {
    if !AnyBreaks(groups) {
      forall i | 0 <= i < |groups|
        ensures GroupGives(groups[i], Entries(groups)[i])
      {
        assert FitsIn(OfReaders, true, None, groups, v, incoming, before);
        EntryGives(groups[i], Lists(v));
      }
    }
    FitsParts(true, None, groups, v, incoming, before);
    QueueAligned(groups, Lists(v));
    assert SlotsOf(groups) + [] == SlotsOf(groups) && RepliesOf(groups) + [] == RepliesOf(groups);
  }

  /** What `exec` comes to: the block joins the pipeline, or its results are returned, or
      the call waits for a reply that is never sent, or it takes a value that is not an
      array for one. */
  datatype ExecResult = Queued | Blocked | NotAnArray | Returned(results: seq<Php>)

  /** The result of `exec` outside pipelines, with `left` nodes in the main queue from before. */
  function BlockResult(left: nat, fns: seq<Validator>, answer: Reply): ExecResult {
    if left > 0 then Blocked else if !answer.ArrayReply? then NotAnArray else Returned(Lockstep(fns, Items(answer)))
  }

  /** `send` is refused, calls a NULL function, or returns its entries. */
  datatype SendResult = Refused | Crashed | Sent(entries: seq<Php>)

  class RedisSock {
    var mode: Mode
    var pipeline: bool
    var multi: bool
    var multiCommands: nat
    const queues: CommandQueues
    var incoming: seq<Reply>

    ghost var groups: seq<Group>
    ghost var open: Option<Recording>
    ghost var before: nat // length of the main queue when the recording started

    /** A refused MULTI has left the flag set although no transaction is open. */
    ghost predicate Stuck()
      reads this
    {
      multi && mode == Direct
    }

    /** The queues, the replies still to be read and what the user means agree. */
    ghost predicate Aligned(replies: seq<Reply>)
      reads this, queues
    {
      && multi == open.Some? && (mode.InTransaction? ==> multi) && (Stuck() ==> !pipeline)
      && Fits(pipeline, open, groups, queues.view, replies, before)
    }

    ghost predicate Linked()
      reads this, queues, queues.Repr
    {
      this !in queues.Repr && queues.Valid()
    }

    ghost predicate Valid()
      reads this, queues, queues.Repr
    {
      Linked() && Aligned(incoming)
    }

    /** Without a pipeline only a block has replies to be read. */
    lemma {:induction false} WithoutPipeline()
      requires Valid() && !pipeline
      ensures groups == [] && incoming == OpenReplies(open)
      ensures open.Some? ==>
        queues.view.fns == open.value.fns && |queues.view.slots| == before + |open.value.confirmations|
    {
      FitsParts(pipeline, open, groups, queues.view, incoming, before);
    }

    constructor ()
      ensures Valid() && fresh(queues) && fresh(queues.Repr)
      ensures mode == Direct && !pipeline && !multi && queues.view.slots == [] && incoming == []
    {
      var q := new CommandQueues();
      mode, pipeline, multi, multiCommands, incoming, queues := Direct, false, false, 0, [], q;
      groups, open, before := [], None, 0;
      new;
      FitsNothing(false, queues.view, 0);
    }

    /** `pipeline()`: forgets what direct commands have left in the main queue. */
    method StartPipeline() returns (ok: bool)
      requires Valid() && !Stuck()
      modifies this, queues
      ensures Valid() && queues.Repr == old(queues.Repr)
      ensures ok == (old(mode) == Direct && !old(pipeline))
      ensures ok ==> pipeline && mode == Direct && queues.view.slots == [] && groups == []
      ensures !ok ==> pipeline == old(pipeline) && mode == old(mode) && groups == old(groups) && open == old(open)
      ensures !ok ==> queues.view == old(queues.view) && before == old(before)
    {
      if mode == Direct && !pipeline {
        WithoutPipeline();
        pipeline := true;
        queues.ResetMain();
        FitsNothing(true, queues.view, before);
        return true;
      }
      ok := false;
    }

    /** The next reply of the server. */
    method ReadReply() returns (r: Reply)
      requires incoming != []
      modifies `incoming
      ensures r == old(incoming)[0] && incoming == old(incoming)[1..]
    {
      r, incoming := incoming[0], incoming[1..];
    }

    /** `redis_enqueue`: in a block, a reader that skips goes to the main queue and the real
        one to the list of the block. */
    method Enqueue(fn: Validator)
      requires Linked()
      modifies `multiCommands, queues.Repr
      ensures Linked() && fresh(queues.Repr - old(queues.Repr))
      ensures queues.view == Enqueued(multi, old(queues.view), fn)
      ensures multiCommands == old(multiCommands) + (if multi then 1 else 0)
    {
      if multi {
        queues.PushMain(Some(ReadSkip), null, Read(ReadSkip));
        queues.PushList(fn);
        multiCommands := multiCommands + 1;
      } else {
        queues.PushMain(Some(fn), null, Read(fn));
      }
    }

    /** Appends a command and enqueues its reader; the answer of the server joins the
        replies to come. */
    method Append(fn: Validator, answer: Reply)
      requires Valid() && fn != ReadSkip
      modifies this, queues.Repr
      ensures Linked() && fresh(queues.Repr - old(queues.Repr))
      ensures mode == old(mode) && pipeline == old(pipeline) && before == old(before)
      ensures multi == old(multi) == open.Some?
      ensures queues.view == Enqueued(multi, old(queues.view), fn)
      ensures open == OpenAfter(old(open), fn, answer)
      ensures groups == GroupsAfter(pipeline, old(open), old(groups), fn, answer)
      ensures Aligned(if pipeline || multi then incoming else [])
      ensures !pipeline && !multi ==> incoming == [answer]
    {
      FitsCommand(pipeline, open, groups, queues.view, incoming, before, fn, answer);
      if !pipeline {
        WithoutPipeline();
      }
      open, groups := OpenAfter(open, fn, answer), GroupsAfter(pipeline, open, groups, fn, answer);
      incoming := incoming + [answer];
      Enqueue(fn);
    }

    /** A command of the PHP object: outside pipelines and blocks its reply is read at once. */
    method Run(fn: Validator, answer: Reply) returns (r: Option<Php>)
      requires Valid() && fn != ReadSkip
      modifies this, queues.Repr
      ensures Valid() && fresh(queues.Repr - old(queues.Repr))
      ensures mode == old(mode) && pipeline == old(pipeline) && before == old(before)
      ensures queues.view == Enqueued(multi, old(queues.view), fn)
      ensures open == OpenAfter(old(open), fn, answer)
      ensures groups == GroupsAfter(pipeline, old(open), old(groups), fn, answer)
      ensures if pipeline || open.Some? then r == None else r.Some? && Gives(fn, answer, r.value)
    {
      ApplyGives(fn, answer);
      Append(fn, answer);
      r := None;
      if !pipeline && !multi {
        var z := ReadReply();
        r := Apply(fn, Convert(z));
      }
    }

    /** `multi()` outside pipelines: the reply is read. A refusal leaves the `multi` flag set,
        so that commands are recorded all the same, behind what the list holds from before. */
    method MultiDirect(answer: Reply) returns (ok: bool)
      requires Valid() && mode == Direct && !pipeline && !multi
      modifies this, queues
      ensures Valid() && queues.Repr == old(queues.Repr) && !pipeline && groups == old(groups) && multi
      ensures ok == (answer.StatusReply? && answer.text != [80, 79, 78, 71])
      ensures open == Some(Recording(if ok then [] else old(queues.view.fns), []))
      ensures queues.view.slots == old(queues.view.slots) && before == |queues.view.slots|
      ensures if ok then mode == InTransaction else mode == Direct && queues.view == old(queues.view)
    {
      WithoutPipeline();
      incoming := incoming + [answer];
      multi := true;
      var z := ReadReply();
      ok := Convert(z) == PBool(true);
      FitsMultiDirect(queues.view, before);
      open, before := Some(Recording(if ok then [] else queues.view.fns, [])), |queues.view.slots|;
      if ok {
        mode := InTransaction;
        queues.ResetList();
      }
    }

    /** `multi()` in a pipeline. */
    method MultiPiped(answer: Reply)
      requires Valid() && mode == Direct && pipeline
      modifies this, queues.Repr
      ensures Valid() && fresh(queues.Repr - old(queues.Repr)) && pipeline && mode == InTransaction
      ensures groups == AllFollowed(old(groups)) && open == Some(Recording([], [answer])) && before == old(before)
    {
      ghost var v, w := queues.view, Opened(Enqueued(true, queues.view, ReadStatus));
      ghost var o := Some(Recording([], [answer]));
      FitsMulti(groups, v, w, incoming, before, answer, o);
      incoming, open, groups := incoming + [answer], o, AllFollowed(groups);
      EnqueueMulti();
    }

    /** The reader of the reply to MULTI is enqueued before the lists are reset, so that it
        joins the list of the block before. */
    method EnqueueMulti()
      requires Linked()
      modifies `multi, `multiCommands, `mode, queues.Repr
      ensures Linked() && fresh(queues.Repr - old(queues.Repr)) && multi && mode == InTransaction
      ensures queues.view == Opened(Enqueued(true, old(queues.view), ReadStatus))
    {
      multi := true;
      Enqueue(ReadStatus);
      mode := InTransaction;
      queues.ResetList();
    }

    /** `multi()`; refused inside a transaction. */
    method Multi(answer: Reply) returns (ok: bool)
      requires Valid() && !Stuck()
      modifies this, queues.Repr
      ensures Valid() && fresh(queues.Repr - old(queues.Repr)) && pipeline == old(pipeline)
      ensures groups == if ok && pipeline then AllFollowed(old(groups)) else old(groups)
      ensures ok == (old(mode) == Direct && (pipeline || (answer.StatusReply? && answer.text != [80, 79, 78, 71])))
      ensures ok ==> mode == InTransaction && open == Some(Recording([], if pipeline then [answer] else []))
      ensures old(mode) == Direct && !pipeline ==>
        (queues.view.slots == old(queues.view.slots) && before == |queues.view.slots|)
      ensures !ok && old(mode) == InTransaction ==> open == old(open) && queues.view == old(queues.view)
      ensures !ok && old(mode) == Direct ==>
        (Stuck() && open == Some(Recording(old(queues.view.fns), [])) && queues.view == old(queues.view))
    {
      ok := false;
      if mode == Direct {
        if !pipeline {
          ok := MultiDirect(answer);
        } else {
          MultiPiped(answer);
          ok := true;
        }
      }
    }

    /** `exec()` in a pipeline: the list of the block is put aside, and its end joins the
        main queue. The head and the tail of the list are not reset. */
    method ExecPiped(answer: Reply)
      requires Valid() && mode == InTransaction && pipeline
      modifies this, queues.Repr
      ensures Valid() && fresh(queues.Repr - old(queues.Repr)) && mode == Direct && pipeline && multiCommands == 0
      ensures open == None
      ensures groups == old(groups) + [Recorded(old(open).value, answer, |old(queues.view.readers)|)]
    {
      ghost var v, o := queues.view, open.value;
      ghost var g := Recorded(o, answer, |v.readers|);
      ghost var slot := if v.fns == [] then Hole else Join(|v.readers|);
      FitsExec(o, groups, v, incoming, before, answer, g);
      incoming := incoming + [answer];
      open, groups := None, groups + [g];
      EnqueueJoin(slot);
    }

    method EnqueueJoin(ghost slot: Slot)
      requires Linked() && slot == if queues.view.fns == [] then Hole else Join(|queues.view.readers|)
      modifies `multi, `multiCommands, `mode, queues.Repr
      ensures Linked() && fresh(queues.Repr - old(queues.Repr)) && !multi && multiCommands == 0 && mode == Direct
      ensures queues.view == old(queues.view).(slots := old(queues.view.slots) + [slot])
    {
      MultiHeadHolds(queues.layout, queues.view);
      queues.PushMain(None, queues.multiHead, slot);
      multi, multiCommands, mode := false, 0, Direct;
    }

    /** Reads one confirmation for each node of the main queue. */
    method SkipConfirmations() returns (blocked: bool)
      requires Linked()
      modifies `incoming
      ensures Linked() && blocked == (|old(incoming)| < |queues.view.slots|)
      ensures !blocked ==> incoming == old(incoming)[|queues.view.slots|..]
    {
      var c := queues.queueHead;
      ghost var i, q, links := 0, queues.layout.queue, queues.layout.links;
      blocked := false;
      GoodParts(queues.layout, queues.view);
      while c != null
        invariant Linked() && 0 <= i <= |q| && i <= |old(incoming)| && incoming == old(incoming)[i..]
        invariant c == if i < |q| then q[i] else null
        decreases |q| - i
      {
        if incoming == [] {
          return true;
        }
        var z := ReadReply();
        assert i + 1 < |q| ==> links[q[i]] == q[i + 1];
        c, i := c.next, i + 1;
      }
    }

    /** Reads the confirmations and then the reply to EXEC. */
    method ReadBlock(ghost confirmations: seq<Reply>, ghost answer: Reply) returns (r: ExecResult)
      requires Linked() && incoming == confirmations + [answer] && |confirmations| <= |queues.view.slots|
      modifies `incoming
      ensures r == BlockResult(|queues.view.slots| - |confirmations|, queues.view.fns, answer)
      ensures !r.Blocked? ==> incoming == []
    {
      var blocked := SkipConfirmations();
      if blocked || incoming == [] {
        return Blocked;
      }
      assert incoming == [answer];
      var reply := ReadReply();
      var z := Convert(reply);
      if !z.PArray? {
        return NotAnArray;
      }
      assert Values(z.entries) == Converted(answer.items);
      var results := queues.WalkList(Values(z.entries));
      r := Returned(results);
    }

    /** `exec()` outside pipelines: one confirmation is read for each node of the main queue,
        then the reply to EXEC. The queue still holds the nodes of direct commands and of
        earlier transactions, so that this works if and only if it was empty when the
        transaction was opened; if not, the call waits for replies that the server has no
        reason to send. */
    method ExecDirect(answer: Reply) returns (r: ExecResult)
      requires Valid() && multi && !pipeline
      modifies this, queues
      ensures r == BlockResult(old(before), old(open).value.fns, answer)
      ensures (r.Blocked? <==> old(before) > 0) && (r.NotAnArray? <==> old(before) == 0 && !answer.ArrayReply?)
      ensures r.Returned? && ReadSkip !in old(open).value.fns ==>
        ResultsGive(old(open).value.fns, answer.items, r.results)
      ensures !pipeline && queues.Repr == old(queues.Repr) && queues.view.slots == old(queues.view.slots)
      ensures r.Returned? ==> Valid() && mode == Direct && open == None && incoming == []
    {
      WithoutPipeline();
      if answer.ArrayReply? && ReadSkip !in open.value.fns {
        LockstepGives(open.value.fns, answer.items);
      }
      incoming := incoming + [answer];
      r := ReadBlock(open.value.confirmations, answer);
      if r.Returned? {
        CloseBlock();
      }
    }

    method CloseBlock()
      requires Linked() && !pipeline && groups == [] && incoming == []
      modifies `multi, `mode, `open, queues
      ensures Valid() && mode == Direct && open == None && queues.Repr == old(queues.Repr)
      ensures queues.view.slots == old(queues.view.slots)
    {
      multi, mode, open := false, Direct, None;
      queues.ResetList();
      FitsNothing(false, queues.view, before);
    }

    /** `exec()` behind a `multi()`, be it refused or not. */
    method Exec(answer: Reply) returns (r: ExecResult)
      requires Valid() && multi
      modifies this, queues.Repr
      ensures pipeline == old(pipeline) && fresh(queues.Repr - old(queues.Repr))
      ensures r == if pipeline then Queued else BlockResult(old(before), old(open).value.fns, answer)
      ensures r.Returned? && ReadSkip !in old(open).value.fns ==>
        ResultsGive(old(open).value.fns, answer.items, r.results)
      ensures pipeline ==>
        groups == old(groups) + [Recorded(old(open).value, answer, |old(queues.view.readers)|)]
      ensures !pipeline ==> queues.view.slots == old(queues.view.slots)
      ensures r.Queued? || r.Returned? ==> Valid() && mode == Direct && open == None
    {
      if pipeline {
        ExecPiped(answer);
        r := Queued;
      } else {
        r := ExecDirect(answer);
      }
    }

    /** The walk of `send` over the main queue. */
    method Play() returns (crash: bool, entries: seq<Php>)
      requires Linked() && |queues.view.slots| == |incoming|
      modifies `incoming
      ensures Results(queues.view.slots, Lists(queues.view), old(incoming)) == if crash then None else Some(entries)
      ensures !crash ==> incoming == []
    {
      var c := queues.queueHead;
      ghost var i, q, links := 0, queues.layout.queue, queues.layout.links;
      ghost var slots, lists, came := queues.view.slots, Lists(queues.view), incoming;
      ghost var goal := Results(slots, lists, incoming);
      crash, entries := false, [];
      assert slots[0..] == slots && came[0..] == came;
      GoodParts(queues.layout, queues.view);
      JoinedNothing(goal);
      while c != null
        invariant Linked() && 0 <= i <= |q| && incoming == came[i..]
        invariant c == if i < |q| then q[i] else null
        invariant goal == Joined(Some(entries), Results(slots[i..], lists, came[i..]))
        decreases |q| - i
      {
        var reply := ReadReply();
        var vs;
        assert Represents(q[i], slots[i], queues.layout.firsts);
        crash, vs := queues.TakeOne(c, reply, slots[i]);
        assert slots[i..][1..] == slots[i + 1..] && came[i..][1..] == came[i + 1..];
        if crash {
          return;
        }
        JoinedAssociates(Some(entries), Some(vs), Results(slots[i + 1..], lists, came[i + 1..]));
        entries := entries + vs;
        assert i + 1 < |q| ==> links[q[i]] == q[i + 1];
        c, i := c.next, i + 1;
      }
      JoinedNothing(Some(entries));
    }

    /** `send()`: one entry for each command and each block since `pipeline()`, in order,
        made of the replies the server has sent to them. A block without commands makes it
        call a NULL function. */
    method Send() returns (r: SendResult)
      requires Valid()
      modifies this, queues
      ensures !old(pipeline) || old(mode) != Direct ==> r == Refused && Valid() && queues.Repr == old(queues.Repr)
      ensures r.Refused? ==>
        (groups == old(groups) && open == old(open) && incoming == old(incoming) && queues.view == old(queues.view))
      ensures old(pipeline) && old(mode) == Direct ==>
        (r == if AnyBreaks(old(groups)) then Crashed else Sent(Entries(old(groups))))
      ensures r.Sent? ==> |r.entries| == |old(groups)|
      ensures r.Sent? ==> forall i :: 0 <= i < |r.entries| ==> GroupGives(old(groups)[i], r.entries[i])
      ensures r.Sent? ==> Valid() && queues.Repr == old(queues.Repr)
      ensures r.Sent? ==> !pipeline && !multi && mode == Direct && queues.view.slots == [] && incoming == []
    {
      if !pipeline || mode != Direct {
        return Refused;
      }
      FitsSend(groups, queues.view, incoming, before);
      var crash, entries := Play();
      if crash {
        return Crashed;
      }
      EndPipeline();
      r := Sent(entries);
    }

    method EndPipeline()
      requires Linked() && !multi && mode == Direct && open == None && incoming == []
      modifies `pipeline, `groups, queues
      ensures Valid() && !pipeline && queues.view.slots == [] && queues.Repr == old(queues.Repr)
    {
      pipeline := false;
      groups := [];
      queues.ResetMain();
      FitsNothing(false, queues.view, before);
    }
  }

  // Programs

  /** What a program does between two calls of `pipeline` and `send`: commands, and blocks
      between `multi()` and `exec()`. `begun` is the answer to MULTI. */
  datatype Call =
    | Single(fn: Validator, answer: Reply)
    | Block(begun: Reply, fns: seq<Validator>, confirmations: seq<Reply>, answer: Reply)

  /** The server answers every command of a block once. */
  predicate Answered(call: Call) {
    if call.Single? then call.fn != ReadSkip else |call.confirmations| == |call.fns| && ReadSkip !in call.fns
  }

  /** Whether another block comes after the i-th call. */
  predicate FollowedBy(calls: seq<Call>, i: nat) {
    exists j :: i < j < |calls| && calls[j].Block?
  }

  /** What the i-th call of a pipeline adds to its result. */
  function EntryOf(calls: seq<Call>, i: nat): Php
    requires i < |calls|
  {
    var call := calls[i];
    if call.Block? then Numbered(Lockstep(BlockReaders(call.fns, FollowedBy(calls, i)), Items(call.answer)))
    else
      var v := Apply(call.fn, Convert(call.answer));
      if v.Some? then v.value else PFALSE
  }

  /** Unless the server returns more items than there are commands, the entry of a block is
      made by the readers of its own commands. */
  lemma {:induction false} OwnReaders(calls: seq<Call>, i: nat)
    requires i < |calls| && calls[i].Block? && |Items(calls[i].answer)| <= |calls[i].fns|
    ensures EntryOf(calls, i) == Numbered(Lockstep(calls[i].fns, Items(calls[i].answer)))
  {
    StrayReadersIgnored(calls[i].fns, [ReadStatus], Items(calls[i].answer));
  }

  /** What the i-th entry tells: a command with its reply, or a block as an array with one
      result for each of its items, in order. A later block lends its status reader to this
      one, should the server return an item too many. */
  ghost predicate CallGives(calls: seq<Call>, i: nat, v: Php)
    requires i < |calls|
  {
    var call := calls[i];
    if call.Single? then Gives(call.fn, call.answer, v)
    else
      && call.answer.ArrayReply?
      && ArrayGives(call.fns + (if FollowedBy(calls, i) then [ReadStatus] else []), call.answer.items, v)
  }

  lemma {:induction false} EntriesGive(calls: seq<Call>)
    requires (forall call :: call in calls ==> Answered(call)) && !AnyCallBreaks(calls)
    ensures forall i :: 0 <= i < |calls| ==> CallGives(calls, i, EntriesOf(calls)[i])
  {
    forall i | 0 <= i < |calls|
      ensures CallGives(calls, i, EntriesOf(calls)[i])
    {
      var call := calls[i];
      assert Answered(call) && !CallBreaks(call);
      if call.Single? {
        ApplyGives(call.fn, call.answer);
      } else {
        LockstepGives(call.fns + (if FollowedBy(calls, i) then [ReadStatus] else []), call.answer.items);
        assert call.fns + [] == call.fns;
      }
    }
  }

  predicate CallBreaks(call: Call) {
    call.Block? && (call.fns == [] || !call.answer.ArrayReply?)
  }

  ghost predicate IsGroupOf(g: Group, call: Call, followed: bool) {
    if call.Single? then g == Alone(call.fn, call.answer)
    else g.Transaction? && g.fns == call.fns && g.answer == call.answer && g.followed == followed
  }

  ghost predicate AreGroupsOf(gs: seq<Group>, calls: seq<Call>) {
    |gs| == |calls| && forall i :: 0 <= i < |gs| ==> IsGroupOf(gs[i], calls[i], FollowedBy(calls, i))
  }

  method PlayCommands(sock: RedisSock, fns: seq<Validator>, answers: seq<Reply>)
    requires sock.Valid() && sock.open.Some?
    requires |answers| == |fns| && ReadSkip !in fns
    modifies sock, sock.queues.Repr
    ensures sock.Valid() && fresh(sock.queues.Repr - old(sock.queues.Repr))
    ensures sock.open.Some? && sock.open.value.fns == old(sock.open).value.fns + fns
    ensures sock.pipeline == old(sock.pipeline) && sock.before == old(sock.before) && sock.groups == old(sock.groups)
    ensures |sock.queues.view.slots| == |old(sock.queues.view.slots)| + |fns|
  {
    assert fns[..0] == [];
    for i := 0 to |fns|
      invariant sock.Valid() && fresh(sock.queues.Repr - old(sock.queues.Repr))
      invariant sock.open.Some? && sock.open.value.fns == old(sock.open).value.fns + fns[..i]
      invariant sock.pipeline == old(sock.pipeline) && sock.before == old(sock.before)
      invariant sock.groups == old(sock.groups)
      invariant |sock.queues.view.slots| == |old(sock.queues.view.slots)| + i
    {
      var r := sock.Run(fns[i], answers[i]);
      assert fns[..i] + [fns[i]] == fns[..i + 1];
    }
    assert fns[..|fns|] == fns;
  }

  /** One more group; a block follows those before it. */
  ghost function GroupsWith(gs: seq<Group>, call: Call, g: Group): seq<Group> {
    (if call.Block? then AllFollowed(gs) else gs) + [g]
  }

  method PlayBlock(sock: RedisSock, call: Call) returns (ghost g: Group)
    requires sock.Valid() && sock.mode == Direct && sock.pipeline && Answered(call) && call.Block?
    modifies sock, sock.queues.Repr
    ensures sock.Valid() && fresh(sock.queues.Repr - old(sock.queues.Repr)) && sock.mode == Direct && sock.pipeline
    ensures g.Transaction? && g.fns == call.fns && g.answer == call.answer && !g.followed
    ensures sock.groups == AllFollowed(old(sock.groups)) + [g]
  {
    sock.MultiPiped(call.begun);
    PlayCommands(sock, call.fns, call.confirmations);
    g := Recorded(sock.open.value, call.answer, |sock.queues.view.readers|);
    sock.ExecPiped(call.answer);
  }

  method PlayCall(sock: RedisSock, call: Call) returns (ghost g: Group)
    requires sock.Valid() && sock.mode == Direct && sock.pipeline && Answered(call)
    modifies sock, sock.queues.Repr
    ensures sock.Valid() && fresh(sock.queues.Repr - old(sock.queues.Repr)) && sock.mode == Direct && sock.pipeline
    ensures IsGroupOf(g, call, false) && sock.groups == GroupsWith(old(sock.groups), call, g)
  {
    if call.Single? {
      var v := sock.Run(call.fn, call.answer);
      g := Alone(call.fn, call.answer);
    } else {
      g := PlayBlock(sock, call);
    }
  }

  method PlayCalls(sock: RedisSock, calls: seq<Call>)
    requires sock.Valid() && sock.mode == Direct && sock.pipeline && sock.groups == []
    requires forall call :: call in calls ==> Answered(call)
    modifies sock, sock.queues.Repr
    ensures sock.Valid() && fresh(sock.queues.Repr - old(sock.queues.Repr)) && sock.mode == Direct && sock.pipeline
    ensures AreGroupsOf(sock.groups, calls)
  {
    for i := 0 to |calls|
      invariant sock.Valid() && fresh(sock.queues.Repr - old(sock.queues.Repr)) && sock.mode == Direct && sock.pipeline
      invariant AreGroupsOf(sock.groups, calls[..i])
    {
      ghost var gs := sock.groups;
      ghost var g := PlayCall(sock, calls[i]);
      GroupsOfMore(gs, g, calls[..i], calls[i]);
      assert calls[..i] + [calls[i]] == calls[..i + 1];
    }
    assert calls[..|calls|] == calls;
  }

  predicate AnyCallBreaks(calls: seq<Call>) {
    exists call :: call in calls && CallBreaks(call)
  }

  function EntriesOf(calls: seq<Call>): (es: seq<Php>)
    ensures |es| == |calls| && forall i :: 0 <= i < |calls| ==> es[i] == EntryOf(calls, i)
  {
    seq(|calls|, i requires 0 <= i < |calls| => EntryOf(calls, i))
  }

  /** Every run of a pipeline: `send()` returns one entry for each command and one for each
      block, in order, made of their own replies, if and only if no block is empty and none
      is refused. */
  method PlayPipeline(sock: RedisSock, calls: seq<Call>) returns (r: SendResult)
    requires sock.Valid() && sock.mode == Direct && !sock.multi && !sock.pipeline
    requires forall call :: call in calls ==> Answered(call)
    modifies sock, sock.queues.Repr
    ensures r == if AnyCallBreaks(calls) then Crashed else Sent(EntriesOf(calls))
    ensures r.Crashed? <==> exists call :: call in calls && call.Block? && (call.fns == [] || !call.answer.ArrayReply?)
    ensures !r.Crashed? ==> r.Sent? && |r.entries| == |calls|
    ensures r.Sent? ==> forall i :: 0 <= i < |calls| ==> CallGives(calls, i, r.entries[i])
    ensures r.Sent? ==> sock.Valid() && fresh(sock.queues.Repr - old(sock.queues.Repr))
    ensures r.Sent? ==> sock.mode == Direct && !sock.multi && !sock.pipeline && sock.queues.view.slots == []
  {
    var ok := sock.StartPipeline();
    PlayCalls(sock, calls);
    EntriesOfCalls(sock.groups, calls);
    if !AnyCallBreaks(calls) {
      EntriesGive(calls);
    }
    assert AnyCallBreaks(calls) <==> exists call :: call in calls && CallBreaks(call);
    r := sock.Send();
  }

  lemma {:induction false} FollowedByMore(before: seq<Call>, call: Call, i: nat)
    requires i <= |before|
    ensures FollowedBy(before + [call], i) == (FollowedBy(before, i) || (i < |before| && call.Block?))
  {
    var all := before + [call];
    if j :| i < j < |before| && before[j].Block? {
      assert all[j].Block?;
    }
    assert all[|before|] == call;
  }

  lemma {:induction false} GroupsOfMore(gs: seq<Group>, g: Group, calls: seq<Call>, call: Call)
    requires AreGroupsOf(gs, calls) && IsGroupOf(g, call, false)
    ensures AreGroupsOf(GroupsWith(gs, call, g), calls + [call])
  {
    var all, more := GroupsWith(gs, call, g), calls + [call];
    forall i | 0 <= i < |all|
      ensures IsGroupOf(all[i], more[i], FollowedBy(more, i))
    {
      FollowedByMore(calls, call, i);
      if i < |gs| {
        assert IsGroupOf(gs[i], calls[i], FollowedBy(calls, i));
      }
    }
  }

  lemma {:induction false} EntriesOfCalls(gs: seq<Group>, calls: seq<Call>)
    requires AreGroupsOf(gs, calls)
    ensures AnyBreaks(gs) == AnyCallBreaks(calls) && Entries(gs) == EntriesOf(calls)
  {
    forall i | 0 <= i < |gs|
      ensures Breaks(gs[i]) == CallBreaks(calls[i]) && Entry(gs[i]) == EntryOf(calls, i)
    {
      assert IsGroupOf(gs[i], calls[i], FollowedBy(calls, i));
    }
    SomeBreaks(gs, calls);
    assert forall i :: 0 <= i < |gs| ==> Entries(gs)[i] == EntriesOf(calls)[i];
  }

  lemma {:induction false} SomeBreaks(gs: seq<Group>, calls: seq<Call>)
    requires |gs| == |calls| && forall i :: 0 <= i < |gs| ==> Breaks(gs[i]) == CallBreaks(calls[i])
    ensures AnyBreaks(gs) == AnyCallBreaks(calls)
  {
    if g :| g in gs && Breaks(g) {
      var i :| 0 <= i < |gs| && gs[i] == g;
      assert CallBreaks(calls[i]);
    }
    if call :| call in calls && CallBreaks(call) {
      var i :| 0 <= i < |calls| && calls[i] == call;
      assert Breaks(gs[i]);
    }
  }

  /** What the list holds in front of the readers of a transaction: nothing, unless MULTI was
      refused, so that the list has not been reset. */
  function ListBefore(begun: Reply, list: seq<Validator>): seq<Validator> {
    if begun.StatusReply? && !IsPong(begun) then [] else list
  }

  /** One transaction outside pipelines: `exec()` returns the results of its own commands if
      and only if the main queue was empty before. The nodes of its commands stay there. */
  method PlayTransaction(sock: RedisSock, call: Call) returns (r: ExecResult)
    requires sock.Valid() && sock.mode == Direct && !sock.multi && !sock.pipeline
    requires call.Block? && Answered(call)
    modifies sock, sock.queues.Repr
    ensures r == BlockResult(
      |old(sock.queues.view.slots)|, ListBefore(call.begun, old(sock.queues.view.fns)) + call.fns, call.answer)
    ensures r.Blocked? <==> old(sock.queues.view.slots) != []
    ensures r.NotAnArray? <==> old(sock.queues.view.slots) == [] && !call.answer.ArrayReply?
    ensures r.Returned? && call.begun.StatusReply? && call.begun.text != [80, 79, 78, 71] ==>
      ResultsGive(call.fns, call.answer.items, r.results)
    ensures fresh(sock.queues.Repr - old(sock.queues.Repr))
    ensures |sock.queues.view.slots| == |old(sock.queues.view.slots)| + |call.fns|
    ensures r.Returned? ==> sock.Valid() && sock.mode == Direct && !sock.multi && !sock.pipeline
  {
    var ok := sock.Multi(call.begun);
    PlayCommands(sock, call.fns, call.confirmations);
    r := sock.Exec(call.answer);
  }

  /** A step of a program: a command or a transaction outside pipelines, or a whole pipeline. */
  datatype Stage = Outside(call: Call) | Piped(calls: seq<Call>)

  predicate Served(x: Stage) {
    if x.Outside? then Answered(x.call)
    else forall call :: call in x.calls ==> Answered(call)
  }

  /** A step that leaves nodes in the main queue: a command, or a transaction with commands. */
  predicate Litters(x: Stage) {
    x.Outside? && (x.call.Single? || x.call.fns != [])
  }

  /** Something was left in the main queue since a pipeline last forgot what it held. */
  ghost predicate Littered(steps: seq<Stage>, n: nat)
    requires n <= |steps|
  {
    exists i :: 0 <= i < n && Litters(steps[i]) && forall j :: i < j < n ==> !steps[j].Piped?
  }

  /** Whether the program gets past its n-th step: a transaction must find the queue clean
      and EXEC must not be refused, a pipeline must have no block that is empty or refused. */
  ghost predicate Passes(steps: seq<Stage>, n: nat)
    requires n < |steps|
  {
    var x := steps[n];
    if x.Piped? then !AnyCallBreaks(x.calls)
    else x.call.Single? || (!Littered(steps, n) && x.call.answer.ArrayReply?)
  }

  /** Every program: it gets through exactly as far as its steps pass. A transaction outside
      pipelines hangs if and only if a direct command or a transaction with commands has been
      run since the last pipeline. */
  method PlayProgram(sock: RedisSock, steps: seq<Stage>) returns (done: nat)
    requires sock.Valid() && sock.mode == Direct && !sock.multi && !sock.pipeline && sock.queues.view.slots == []
    requires forall x :: x in steps ==> Served(x)
    modifies sock, sock.queues.Repr
    ensures done <= |steps| && forall n :: 0 <= n < done ==> Passes(steps, n)
    ensures done < |steps| ==> !Passes(steps, done)
  {
    done := 0;
    while done < |steps|
      invariant done <= |steps| && sock.Valid() && sock.mode == Direct && !sock.multi && !sock.pipeline
      invariant fresh(sock.queues.Repr - old(sock.queues.Repr))
      invariant (sock.queues.view.slots != []) == Littered(steps, done)
      invariant forall n :: 0 <= n < done ==> Passes(steps, n)
    {
      LitteredNext(steps, done);
      var ok := PlayStage(sock, steps[done]);
      if !ok {
        return;
      }
      done := done + 1;
    }
  }

  method PlayStage(sock: RedisSock, x: Stage) returns (ok: bool)
    requires sock.Valid() && sock.mode == Direct && !sock.multi && !sock.pipeline && Served(x)
    modifies sock, sock.queues.Repr
    ensures ok == if x.Piped? then !AnyCallBreaks(x.calls)
                  else x.call.Single? || (old(sock.queues.view.slots) == [] && x.call.answer.ArrayReply?)
    ensures ok ==> sock.Valid() && fresh(sock.queues.Repr - old(sock.queues.Repr))
    ensures ok ==> sock.mode == Direct && !sock.multi && !sock.pipeline
    ensures ok ==> (sock.queues.view.slots != []) == (Litters(x) || (!x.Piped? && old(sock.queues.view.slots) != []))
  {
    if x.Piped? {
      var r := PlayPipeline(sock, x.calls);
      ok := r.Sent?;
    } else if x.call.Single? {
      var v := sock.Run(x.call.fn, x.call.answer);
      ok := true;
    } else {
      var r := PlayTransaction(sock, x.call);
      ok := r.Returned?;
    }
  }

  lemma {:induction false} LitteredNext(steps: seq<Stage>, n: nat)
    requires n < |steps|
    ensures Littered(steps, n + 1) == (Litters(steps[n]) || (!steps[n].Piped? && Littered(steps, n)))
  {
    if Littered(steps, n + 1) {
      var i :| 0 <= i < n + 1 && Litters(steps[i]) && forall j :: i < j < n + 1 ==> !steps[j].Piped?;
      assert i < n ==> Littered(steps, n);
    }
  }

  /** Every transaction right behind a direct command, or right behind a transaction with
      commands, hangs. */
  method TransactionsThatHang(first: Stage, second: Stage) returns (done: nat)
    requires Served(first) && Served(second) && Litters(first) && second.Outside? && second.call.Block?
    requires first.call.Block? ==> first.call.answer.ArrayReply?
    ensures done == 1 && !Passes([first, second], 1)
  {
    var sock := new RedisSock();
    var steps := [first, second];
    assert Litters(steps[0]) && Littered(steps, 1) && !Littered(steps, 0);
    assert Passes(steps, 0) && !Passes(steps, 1);
    done := PlayProgram(sock, steps);
  }

  lemma {:induction false} OneAccepted(reason: seq<byte>, v: int)
    ensures var fns, confirmations := [ReadString, ReadLong], [ErrorReply(reason), StatusReply(QUEUED)];
            var items := Converted([IntegerReply(v)]);
            Lockstep(AcceptedReaders(fns, confirmations), items) == [PLong(v)] && Lockstep(fns, items) == [PFALSE]
  {
    var fns, confirmations := [ReadString, ReadLong], [ErrorReply(reason), StatusReply(QUEUED)];
    var items := Converted([IntegerReply(v)]);
    assert fns[..1] == [ReadString] && confirmations[..1] == [ErrorReply(reason)];
    assert AcceptedReaders(fns, confirmations) == [ReadLong];
    assert items == [PLong(v)] && items[1..] == [];
  }

  /** A transaction whose first command the server rejects: the integer that the second one
      returns is taken for the string that the first one asked for. */
  method RejectedCommand(reason: seq<byte>, v: int) returns (r: ExecResult)
    ensures var fns, confirmations := [ReadString, ReadLong], [ErrorReply(reason), StatusReply(QUEUED)];
            var items := Converted([IntegerReply(v)]);
            && Lockstep(AcceptedReaders(fns, confirmations), items) == [PLong(v)]
            && r == Returned([PFALSE])
  {
    var fns, confirmations := [ReadString, ReadLong], [ErrorReply(reason), StatusReply(QUEUED)];
    OneAccepted(reason, v);
    assert OK != PONG && [] + fns == fns;
    var sock := new RedisSock();
    r := PlayTransaction(sock, Block(StatusReply(OK), fns, confirmations, ArrayReply([IntegerReply(v)])));
  }
}

/** The pipeline and transaction queues of the PHP object (`RedisSock`): linked lists of
    reply readers that must stay aligned with the replies of the server. The replies to
    the commands appended so far and not yet read are a field, in the order in which the
    server sends them. */
module Pipeline {
  import opened Bytes
  import opened Replies
  import opened Objects
  import opened Validators

  // What a queue stands for

  /** A node of the main queue: a reader, the end of a block whose readers are kept in a
      list of their own, or the end of an empty block, which has neither. */
  datatype Slot = Read(fn: Validator) | Join(list: nat) | Hole

  /** What `send` makes of one reply; None where it calls a NULL function. */
  function Taken(slot: Slot, readers: seq<seq<Validator>>, reply: Reply): Option<seq<Php>> {
    match slot
    case Read(fn) =>
      var v := Apply(fn, Convert(reply));
      Some(if v.Some? then [v.value] else [])
    case Join(k) =>
      if k < |readers| && reply.ArrayReply?
      then Some([Numbered(Lockstep(readers[k], Converted(reply.items)))]) else None
    case Hole => None
  }

  function Joined(a: Option<seq<Php>>, b: Option<seq<Php>>): Option<seq<Php>> {
    if a.Some? && b.Some? then Some(a.value + b.value) else None
  }

  /** The walk of `send` over the queue, one reply a node. */
  function Results(slots: seq<Slot>, readers: seq<seq<Validator>>, replies: seq<Reply>): Option<seq<Php>>
    requires |slots| <= |replies|
    decreases |slots|
  {
    if slots == [] then Some([])
    else Joined(Taken(slots[0], readers, replies[0]), Results(slots[1..], readers, replies[1..]))
  }

  // What a user of the pipeline means

  /** One entry of the result of `send`: a command with its reply, or a block with the
      confirmations of MULTI and its commands and the answer to EXEC. `list` is the list
      that holds the readers of the block, and `followed` whether a later MULTI has left its
      own status reader there. */
  datatype Group =
    | Alone(fn: Validator, reply: Reply)
    | Transaction(fns: seq<Validator>, confirmations: seq<Reply>, answer: Reply, list: nat, followed: bool)

  function Skips(n: nat): (s: seq<Slot>)
    ensures |s| == n && forall i :: 0 <= i < n ==> s[i] == Read(ReadSkip)
  {
    seq(n, _ => Read(ReadSkip))
  }

  function GroupSlots(g: Group): seq<Slot> {
    match g
    case Alone(fn, _) => [Read(fn)]
    case Transaction(fns, cs, _, k, _) => Skips(|cs|) + [if fns == [] then Hole else Join(k)]
  }

  function GroupReplies(g: Group): seq<Reply> {
    match g
    case Alone(_, r) => [r]
    case Transaction(_, cs, answer, _, _) => cs + [answer]
  }

  function SlotsOf(gs: seq<Group>): seq<Slot> {
    if gs == [] then [] else SlotsOf(gs[..|gs| - 1]) + GroupSlots(gs[|gs| - 1])
  }

  function RepliesOf(gs: seq<Group>): seq<Reply> {
    if gs == [] then [] else RepliesOf(gs[..|gs| - 1]) + GroupReplies(gs[|gs| - 1])
  }

  /** The values in an EXEC reply; an error or nil has none. */
  function Items(answer: Reply): seq<Php> {
    if answer.ArrayReply? then Converted(answer.items) else []
  }

  /** The readers of a block, and what a later MULTI adds to them. */
  function BlockReaders(fns: seq<Validator>, followed: bool): seq<Validator> {
    if followed then fns + [ReadStatus] else fns
  }

  /** What the user gets for one group. */
  function Entry(g: Group): Php {
    if g.Transaction? then Numbered(Lockstep(BlockReaders(g.fns, g.followed), Items(g.answer)))
    else
      var v := Apply(g.fn, Convert(g.reply));
      if v.Some? then v.value else PFALSE
  }

  /** What an entry tells about the replies behind it. */
  ghost predicate GroupGives(g: Group, v: Php) {
    if g.Alone? then Gives(g.fn, g.reply, v)
    else g.answer.ArrayReply? && ArrayGives(BlockReaders(g.fns, g.followed), g.answer.items, v)
  }

  lemma {:induction false} EntryGives(g: Group, readers: seq<seq<Validator>>)
    requires GroupOk(g, readers) && !Breaks(g)
    ensures GroupGives(g, Entry(g))
  {
    if g.Alone? {
      ApplyGives(g.fn, g.reply);
    } else {
      LockstepGives(BlockReaders(g.fns, g.followed), g.answer.items);
    }
  }

  function Entries(gs: seq<Group>): (es: seq<Php>)
    ensures |es| == |gs| && forall i :: 0 <= i < |gs| ==> es[i] == Entry(gs[i])
  {
    seq(|gs|, i requires 0 <= i < |gs| => Entry(gs[i]))
  }

  /** The server answers every command once, and the list of a block holds its readers. */
  ghost predicate GroupOk(g: Group, readers: seq<seq<Validator>>) {
    if g.Alone? then g.fn != ReadSkip
    else
      && |g.confirmations| == |g.fns| + 1 && ReadSkip !in g.fns
      && (g.fns != [] ==> g.list < |readers| && readers[g.list] == BlockReaders(g.fns, g.followed))
  }

  ghost predicate GroupsOk(gs: seq<Group>, readers: seq<seq<Validator>>) {
    forall g :: g in gs ==> GroupOk(g, readers)
  }

  function Followed(g: Group): Group {
    if g.Transaction? then g.(followed := true) else g
  }

  function AllFollowed(gs: seq<Group>): (fs: seq<Group>)
    ensures |fs| == |gs| && forall i :: 0 <= i < |gs| ==> fs[i] == Followed(gs[i])
  {
    seq(|gs|, i requires 0 <= i < |gs| => Followed(gs[i]))
  }

  /** A later MULTI changes neither the queue nor the replies. */
  lemma {:induction false} FollowedKeeps(gs: seq<Group>)
    ensures SlotsOf(AllFollowed(gs)) == SlotsOf(gs) && RepliesOf(AllFollowed(gs)) == RepliesOf(gs)
    decreases |gs|
  {
    if gs != [] {
      var init := gs[..|gs| - 1];
      FollowedKeeps(init);
      assert AllFollowed(gs)[..|gs| - 1] == AllFollowed(init);
    }
  }

  /** A block that makes `send` crash: nothing was recorded in it, or EXEC was refused. */
  predicate Breaks(g: Group) {
    g.Transaction? && (g.fns == [] || !g.answer.ArrayReply?)
  }

  predicate AnyBreaks(gs: seq<Group>) {
    exists g :: g in gs && Breaks(g)
  }

  lemma {:induction false} ResultsJoin(
    s: seq<Slot>, t: seq<Slot>, readers: seq<seq<Validator>>, rs: seq<Reply>, qs: seq<Reply>)
    requires |s| == |rs| && |t| <= |qs|
    ensures Results(s + t, readers, rs + qs) == Joined(Results(s, readers, rs), Results(t, readers, qs))
    decreases |s|
  {
    if s == [] {
      assert s + t == t && rs + qs == qs;
      JoinedNothing(Results(t, readers, qs));
    } else {
      assert (s + t)[1..] == s[1..] + t && (rs + qs)[1..] == rs[1..] + qs;
      ResultsJoin(s[1..], t, readers, rs[1..], qs);
      JoinedAssociates(Taken(s[0], readers, rs[0]), Results(s[1..], readers, rs[1..]), Results(t, readers, qs));
    }
  }

  lemma {:induction false} JoinedAssociates(a: Option<seq<Php>>, b: Option<seq<Php>>, c: Option<seq<Php>>)
    ensures Joined(Joined(a, b), c) == Joined(a, Joined(b, c))
  {
    if a.Some? && b.Some? && c.Some? {
      assert a.value + b.value + c.value == a.value + (b.value + c.value);
    }
  }

  /** Confirmations leave no trace. */
  lemma {:induction false} SkipsTakeNothing(readers: seq<seq<Validator>>, rs: seq<Reply>)
    ensures Results(Skips(|rs|), readers, rs) == Some([])
    decreases |rs|
  {
    if rs != [] {
      assert Skips(|rs|)[1..] == Skips(|rs[1..]|);
      SkipsTakeNothing(readers, rs[1..]);
      JoinedNothing(Some([]));
    }
  }

  lemma {:induction false} JoinedNothing(a: Option<seq<Php>>)
    ensures Joined(Some([]), a) == a && Joined(a, Some([])) == a
  {
    if a.Some? {
      assert [] + a.value == a.value && a.value + [] == a.value;
    }
  }

  lemma {:induction false} OneResult(slot: Slot, readers: seq<seq<Validator>>, r: Reply)
    ensures Results([slot], readers, [r]) == Taken(slot, readers, r)
  {
    JoinedNothing(Taken(slot, readers, r));
  }

  /** The end of a block. */
  lemma {:induction false} BlockTaken(g: Group, readers: seq<seq<Validator>>, last: Slot)
    requires GroupOk(g, readers) && g.Transaction? && last == if g.fns == [] then Hole else Join(g.list)
    ensures Taken(last, readers, g.answer) == if Breaks(g) then None else Some([Entry(g)])
  {
  }

  /** The readers of one group turn its replies into its entry. */
  lemma {:induction false} GroupResults(g: Group, readers: seq<seq<Validator>>)
    requires GroupOk(g, readers)
    ensures |GroupSlots(g)| == |GroupReplies(g)|
    ensures Results(GroupSlots(g), readers, GroupReplies(g)) == if Breaks(g) then None else Some([Entry(g)])
  {
    if g.Alone? {
      OneResult(Read(g.fn), readers, g.reply);
    } else {
      var last := if g.fns == [] then Hole else Join(g.list);
      BlockTaken(g, readers, last);
      SkipsTakeNothing(readers, g.confirmations);
      OneResult(last, readers, g.answer);
      ResultsJoin(Skips(|g.confirmations|), [last], readers, g.confirmations, [g.answer]);
      JoinedNothing(Taken(last, readers, g.answer));
    }
  }

  /** The queue has one reader for each reply, and the walk over both gives one entry for
      each command and each block, in order, unless a block is empty or was refused. */
  lemma {:induction false} QueueAligned(gs: seq<Group>, readers: seq<seq<Validator>>)
    requires GroupsOk(gs, readers)
    ensures |SlotsOf(gs)| == |RepliesOf(gs)|
    ensures Results(SlotsOf(gs), readers, RepliesOf(gs)) == if AnyBreaks(gs) then None else Some(Entries(gs))
    decreases |gs|
  {
    if gs == [] {
      assert Entries(gs) == [];
    } else {
      var last := gs[|gs| - 1];
      var init := gs[..|gs| - 1];
      assert gs == init + [last];
      QueueAligned(init, readers);
      GroupResults(last, readers);
      ResultsJoin(SlotsOf(init), GroupSlots(last), readers, RepliesOf(init), GroupReplies(last));
      MoreEntries(init, last, gs);
    }
  }

  lemma {:induction false} MoreEntries(init: seq<Group>, last: Group, gs: seq<Group>)
    requires gs == init + [last]
    ensures Entries(gs) == Entries(init) + [Entry(last)]
    ensures AnyBreaks(gs) == (AnyBreaks(init) || Breaks(last))
  {
    assert forall g :: g in gs <==> g in init || g == last;
  }

  // Commands that the server rejects while it queues a block

  /** The readers of the commands that the server has accepted: it executes only these, and
      EXEC returns one item for each of them, which `exec` takes for the first commands. */
  function AcceptedReaders(fns: seq<Validator>, confirmations: seq<Reply>): (own: seq<Validator>)
    requires |fns| == |confirmations|
    ensures |own| <= |fns| && forall fn :: fn in own ==> fn in fns
  {
    if fns == [] then []
    else
      var n := |fns| - 1;
      AcceptedReaders(fns[..n], confirmations[..n]) + (if confirmations[n].ErrorReply? then [] else [fns[n]])
  }

  lemma {:induction false} AllAccepted(fns: seq<Validator>, confirmations: seq<Reply>)
    requires |fns| == |confirmations| && forall c :: c in confirmations ==> !c.ErrorReply?
    ensures AcceptedReaders(fns, confirmations) == fns
  {
    if fns != [] {
      AllAccepted(fns[..|fns| - 1], confirmations[..|fns| - 1]);
    }
  }

  /** A reply that two readers see differently. */
  function Telling(f: Validator, g: Validator): Reply {
    if f.ReadString? || g.ReadString? then StringReply([])
    else if f.ReadLong? || g.ReadLong? then IntegerReply(0)
    else if f.ReadStatus? || g.ReadStatus? then StatusReply([])
    else if f.ReadBool? || g.ReadBool? then ArrayReply([])
    else ArrayReply([NilReply])
  }

  lemma {:induction false} TellsApart(f: Validator, g: Validator)
    requires f != g && f != ReadSkip && g != ReadSkip
    ensures Apply(f, Convert(Telling(f, g))) != Apply(g, Convert(Telling(f, g)))
  {
  }

  /** Whatever the server answers to the commands that it has accepted, their own readers and
      those that the walk takes for them come to the same. */
  ghost predicate SameResults(fns: seq<Validator>, own: seq<Validator>) {
    forall items: seq<Reply> :: |items| == |own| ==> Lockstep(fns, Converted(items)) == Lockstep(own, Converted(items))
  }

  /** The walk over a block in which the server has rejected commands gives every reply to
      EXEC the results that its own commands ask for, if and only if the readers of the
      commands that it has accepted are the same as the first readers of the block. */
  lemma {:induction false} RejectionsMixUp(fns: seq<Validator>, confirmations: seq<Reply>)
    requires |fns| == |confirmations| && ReadSkip !in fns
    ensures var own := AcceptedReaders(fns, confirmations); SameResults(fns, own) <==> own <= fns
  {
    var own := AcceptedReaders(fns, confirmations);
    if own <= fns {
      forall items: seq<Reply> | |items| == |own|
        ensures Lockstep(fns, Converted(items)) == Lockstep(own, Converted(items))
      {
        assert fns == own + fns[|own|..];
        StrayReadersIgnored(own, fns[|own|..], Converted(items));
      }
    } else {
      var k :| 0 <= k < |own| && own[k] != fns[k];
      var items := seq(|own|, i => if i == k then Telling(own[k], fns[k]) else NilReply);
      MixedUp(fns, own, Converted(items), k);
    }
  }

  lemma {:induction false} MixedUp(fns: seq<Validator>, own: seq<Validator>, vs: seq<Php>, k: nat)
    requires k < |own| == |vs| <= |fns| && ReadSkip !in fns && ReadSkip !in own && own[k] != fns[k]
    requires vs[k] == Convert(Telling(own[k], fns[k]))
    ensures Lockstep(fns, vs) != Lockstep(own, vs)
  {
    var first := fns[..|own|];
    assert fns == first + fns[|own|..];
    StrayReadersIgnored(first, fns[|own|..], vs);
    LockstepPairs(first, vs);
    LockstepPairs(own, vs);
    TellsApart(own[k], fns[k]);
  }
}

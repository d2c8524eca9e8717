/** The asynchronous context: a connection that does not block, and a linked queue of
    callbacks matched to the replies it reads, with callbacks that may issue commands or
    ask for a disconnect while they run. */
module Async {
  import opened Bytes
  import opened Replies
  import opened Machine
  import opened Sessions
  import opened Objects
  import opened Context

  /** A reply callback; `fn` may be NULL. */
  datatype Callback = Callback(fn: Option<int>, privdata: int)

  class CallbackNode {
    var cb: Callback
    var next: CallbackNode?

    constructor (cb: Callback)
      ensures this.cb == cb && next == null
    {
      this.cb, next := cb, null;
    }
  }

  datatype ListPart = Nodes | Ends

  /** `redisCallbackList`. */
  class CallbackList {
    var head: CallbackNode?
    var tail: CallbackNode?
    ghost var nodes: seq<CallbackNode>
    ghost var content: seq<Callback>
    ghost var Repr: set<object>

    ghost predicate ValidIn(p: ListPart)
      reads this, Repr
    {
      match p
      case Nodes =>
        && |nodes| == |content|
        && (forall i :: 0 <= i < |nodes| ==> nodes[i] in Repr && nodes[i].cb == content[i])
        && (forall i, j :: 0 <= i < j < |nodes| && j == i + 1 ==> nodes[i] in Repr && nodes[i].next == nodes[j])
        && (nodes != [] ==> nodes[|nodes| - 1] in Repr && nodes[|nodes| - 1].next == null)
      case Ends =>
        && head == (if nodes == [] then null else nodes[0])
        && tail == (if nodes == [] then null else nodes[|nodes| - 1])
    }

    ghost predicate Valid()
      reads this, Repr
      ensures Valid() ==> this in Repr
    {
      this in Repr && forall p: ListPart :: ValidIn(p)
    }

    lemma {:induction false} ValidParts()
      ensures Valid() <==> this in Repr && ValidIn(Nodes) && ValidIn(Ends)
    {
    }

    constructor ()
      ensures Valid() && fresh(Repr) && content == []
    {
      head, tail, nodes, content := null, null, [], [];
      Repr := {this};
      new;
      ValidParts();
    }

    /** `__redisPushCallback`. */
    method Push(source: Callback)
      requires Valid()
      modifies Repr
      ensures Valid() && fresh(Repr - old(Repr)) && content == old(content) + [source]
    {
      ValidParts();
      var cb := new CallbackNode(source);
      ghost var n := |nodes|;
      forall i | 0 <= i < n - 1
        ensures nodes[i] != nodes[n - 1]
      {
        assert nodes[i].next == nodes[i + 1];
      }
      if head == null {
        head := cb;
      }
      if tail != null {
        tail.next := cb;
      }
      tail := cb;
      nodes, content := nodes + [cb], content + [source];
      Repr := Repr + {cb};
      ValidParts();
    }

    /** `__redisShiftCallback`. */
    method Shift() returns (ok: bool, target: Callback)
      requires Valid()
      modifies Repr
      ensures Valid() && fresh(Repr - old(Repr)) && ok == (old(content) != [])
      ensures ok ==> [target] + content == old(content)
      ensures !ok ==> content == []
    {
      ValidParts();
      var cb := head;
      if cb == null {
        return false, Callback(None, 0);
      }
      ghost var n := |nodes|;
      assert n > 1 ==> nodes[0].next == nodes[1];
      head := cb.next;
      if cb == tail {
        tail := null;
      }
      ok, target := true, cb.cb;
      nodes, content := nodes[1..], content[1..];
      assert forall i :: 0 <= i < |nodes| ==> nodes[i] == old(nodes)[i + 1];
      ValidParts();
    }
  }

  /** What a callback may do to the connection while it runs. */
  datatype Action = Issue(cb: Callback, cmd: seq<byte>) | RequestDisconnect

  /** What user code gets to see, in order. */
  datatype Event = Fired(cb: Callback, reply: Option<Reply>) | Disconnected(clean: bool)

  /** The calls made for the first `n` callbacks pushed: the i-th reply goes to the i-th
      callback ever pushed, and callbacks beyond the replies get NULL. NULL callbacks are
      not called. */
  ghost function Calls(pushed: seq<Callback>, replies: seq<Reply>, n: nat): seq<Event>
    requires n <= |pushed|
  {
    if n == 0 then []
    else
      var reply := if n - 1 < |replies| then Some(replies[n - 1]) else None;
      Calls(pushed, replies, n - 1) + (if pushed[n - 1].fn.Some? then [Fired(pushed[n - 1], reply)] else [])
  }

  /** The history of a connection: callbacks of all accepted commands, the bytes read, the
      replies taken from the reader, how many callbacks have been shifted off the list, and
      what user code has seen. The commands themselves are in the connection. */
  datatype Ledger = Ledger(
    pushed: seq<Callback>, received: seq<byte>, answered: seq<Reply>, fired: nat, log: seq<Event>)

  datatype Status = Alive | Freed | Aborted

  /** Callbacks issued are those fired followed by those pending. */
  ghost predicate Accounts(h: Ledger, pending: seq<Callback>) {
    h.fired <= |h.pushed| && pending == h.pushed[h.fired..]
  }

  /** User code has been called for exactly the callbacks fired so far. */
  ghost predicate Logged(h: Ledger) {
    h.fired <= |h.pushed| && h.log == Calls(h.pushed, h.answered, h.fired)
  }

  /** Nothing has gone wrong: every callback fired has got its reply. */
  ghost predicate Paired(h: Ledger) {
    |h.answered| == h.fired && Logged(h)
  }

  /** What commands and disconnect requests may do to a history. */
  ghost predicate Extends(g: Ledger, h: Ledger) {
    g.pushed <= h.pushed && h == g.(pushed := h.pushed)
  }

  /** What a callback is given: an object that shows the reply, or NULL. */
  ghost predicate Passed(out: Obj, reply: Option<Reply>, cells: set<object>)
    reads cells
  {
    if reply.Some? then Tells(out, reply.value, cells) else out == NoObj
  }

  /** Every callback has been called, and the disconnect callback came last. */
  ghost predicate Concluded(log: seq<Event>, pushed: seq<Callback>, replies: seq<Reply>, clean: bool) {
    log == Calls(pushed, replies, |pushed|) + [Disconnected(clean)]
  }

  ghost predicate Ended(h: Ledger, clean: bool) {
    h.fired == |h.pushed| && Concluded(h.log, h.pushed, h.answered, clean)
  }

  lemma {:induction false} CallsKeep(
    pushed: seq<Callback>, replies: seq<Reply>, more: seq<Callback>, others: seq<Reply>, n: nat)
    requires n <= |pushed| && pushed <= more && n <= |replies| && replies <= others
    ensures Calls(pushed, replies, n) == Calls(more, others, n)
  {
    if n > 0 {
      CallsKeep(pushed, replies, more, others, n - 1);
    }
  }

  /** With no NULL callbacks, the n-th call of user code is for the n-th command, with the
      n-th reply, or NULL beyond the replies. */
  lemma {:induction false} CallsInOrder(pushed: seq<Callback>, replies: seq<Reply>, n: nat)
    requires n <= |pushed| && forall i :: 0 <= i < n ==> pushed[i].fn.Some?
    ensures |Calls(pushed, replies, n)| == n
    ensures forall i :: 0 <= i < n ==>
      Calls(pushed, replies, n)[i] == Fired(pushed[i], if i < |replies| then Some(replies[i]) else None)
  {
    if n > 0 {
      CallsInOrder(pushed, replies, n - 1);
    }
  }

  /** When the reader has nothing to give, everything received has been answered. */
  lemma {:induction false} NothingLeft(received: seq<byte>, answered: seq<Reply>, s: ReaderState)
    requires ValidState(s) && s.fault.None? && Streamed(received, answered, s) && GetReply(s).result.NoReply?
    ensures Drain(IDLE, received).replies == answered && Drain(IDLE, received).end.Live?
  {
    WaitsOnNothing(s.p);
    assert answered + [] == answered;
  }

  // What commands, callbacks and the server make of a connection

  /** What a connection has accepted: callbacks, commands, whether a disconnect has been
      asked for, and how many callbacks have run. */
  datatype Intake = Intake(pushed: seq<Callback>, issued: seq<byte>, disconnecting: bool, ran: nat)

  /** Commands are refused once a disconnect has been asked for. */
  function Accept(i: Intake, a: Action): Intake {
    if a.RequestDisconnect? then i.(disconnecting := true)
    else if i.disconnecting then i
    else i.(pushed := i.pushed + [a.cb], issued := i.issued + a.cmd)
  }

  function AcceptAll(i: Intake, actions: seq<Action>): Intake {
    if actions == [] then i else Accept(AcceptAll(i, actions[..|actions| - 1]), actions[|actions| - 1])
  }

  /** The first request for a disconnect among the actions is number `k`, or there is none. */
  ghost predicate IssuesUntil(actions: seq<Action>, k: nat) {
    && k <= |actions| && (forall j :: 0 <= j < k ==> actions[j].Issue?)
    && (k < |actions| ==> actions[k] == RequestDisconnect)
  }

  function CallbacksOf(actions: seq<Action>): (cbs: seq<Callback>)
    requires forall j :: 0 <= j < |actions| ==> actions[j].Issue?
    ensures |cbs| == |actions| && forall j :: 0 <= j < |actions| ==> cbs[j] == actions[j].cb
  {
    seq(|actions|, j requires 0 <= j < |actions| => actions[j].cb)
  }

  function CommandsOf(actions: seq<Action>): (cmds: seq<seq<byte>>)
    requires forall j :: 0 <= j < |actions| ==> actions[j].Issue?
    ensures |cmds| == |actions| && forall j :: 0 <= j < |actions| ==> cmds[j] == actions[j].cmd
  {
    seq(|actions|, j requires 0 <= j < |actions| => actions[j].cmd)
  }

  /** Everything in front of the first request for a disconnect is accepted, in order, and
      nothing behind it. */
  lemma {:induction false} AcceptsUntil(i: Intake, actions: seq<Action>, k: nat)
    requires !i.disconnecting && IssuesUntil(actions, k)
    ensures AcceptAll(i, actions) == Intake(
      i.pushed + CallbacksOf(actions[..k]), i.issued + Flat(CommandsOf(actions[..k])), k < |actions|, i.ran)
    decreases |actions|
  {
    if actions == [] {
      assert i.pushed + [] == i.pushed && i.issued + [] == i.issued;
    } else {
      var n := |actions| - 1;
      var init := actions[..n];
      if k < |actions| {
        AcceptsUntil(i, init, k);
        assert init[..k] == actions[..k];
      } else {
        AcceptsUntil(i, init, n);
        assert init[..n] == init && actions[..k] == actions;
        FlatEnds(CommandsOf(init), actions[n].cmd);
        assert CommandsOf(actions) == CommandsOf(init) + [actions[n].cmd];
        assert CallbacksOf(actions) == CallbacksOf(init) + [actions[n].cb];
        Associates(i.issued, Flat(CommandsOf(init)), actions[n].cmd);
      }
    }
  }

  /** A callback that is not NULL runs and does what its behaviour says. */
  function Called(behaviour: nat -> seq<Action>, i: Intake, cb: Callback): Intake {
    if cb.fn.None? then i else AcceptAll(i.(ran := i.ran + 1), behaviour(i.ran))
  }

  /** Replies number `start` up to `end` are given to the callbacks with the same numbers,
      some of which may have been pushed by callbacks before them. */
  function Served(behaviour: nat -> seq<Action>, i: Intake, start: nat, end: nat): Intake
    decreases end
  {
    if end <= start then i
    else
      var j := Served(behaviour, i, start, end - 1);
      if end - 1 < |j.pushed| then Called(behaviour, j, j.pushed[end - 1]) else j
  }

  /** A reply without a callback stops it. */
  lemma {:induction false} ServedStops(behaviour: nat -> seq<Action>, i: Intake, start: nat, end: nat, later: nat)
    requires start <= end <= later && |Served(behaviour, i, start, end).pushed| <= end
    ensures Served(behaviour, i, start, later) == Served(behaviour, i, start, end)
    decreases later
  {
    if end < later {
      ServedStops(behaviour, i, start, end, later - 1);
    }
  }

  /** What a round of processing comes to: more replies than commands fail an assert, a
      protocol error frees the connection, and so does a disconnect that has been asked for,
      once all output is written, if every command has been answered; if not, that fails an
      assert, too. */
  ghost function Judge(i: Intake, sent: seq<byte>, received: seq<byte>): Status {
    var t := Drain(IDLE, received);
    if |t.replies| > |i.pushed| then Aborted
    else if t.end.Dead? then Freed
    else if !i.disconnecting || sent != i.issued then Alive
    else if |t.replies| == |i.pushed| then Freed
    else Aborted
  }

  /** What can happen to a connection from outside: its user issues a command or asks for a
      disconnect, or the event loop reports that the socket can be read or written. */
  datatype Happening =
    | Submitted(cb: Callback, cmd: seq<byte>)
    | DisconnectAsked
    | Readable(r: ReadResult)
    | Writable(w: WriteResult)

  /** All that a run depends on. */
  datatype Account = Account(
    accepted: Intake, sent: seq<byte>, received: seq<byte>, status: Status, err: ContextError)

  ghost function Answers(received: seq<byte>): seq<Reply> {
    Drain(IDLE, received).replies
  }

  ghost function AfterRead(behaviour: nat -> seq<Action>, a: Account, r: ReadResult): Account {
    if Fails(r) then a.(status := Freed, err := if r.ReadFailed? then IoError else EofError)
    else
      var received := a.received + BytesRead(r);
      var i := Served(behaviour, a.accepted, |Answers(a.received)|, |Answers(received)|);
      var status := Judge(i, a.sent, received);
      Account(i, a.sent, received, status,
        if status == Freed && Drain(IDLE, received).end.Dead? then ProtocolError else a.err)
  }

  /** The socket takes as much of the output as it wants to, and no more than there is. */
  function AfterWrite(a: Account, w: WriteResult): Account
    requires a.sent <= a.accepted.issued
  {
    var left := |a.accepted.issued| - |a.sent|;
    if w.WriteFailed? && left > 0 then a.(status := Freed, err := IoError)
    else if w.Wrote? then a.(sent := a.accepted.issued[..|a.sent| + if w.n < left then w.n else left])
    else a
  }

  ghost function AfterEvent(behaviour: nat -> seq<Action>, a: Account, x: Happening): Account
    requires a.sent <= a.accepted.issued
  {
    if x.Submitted? then a.(accepted := Accept(a.accepted, Issue(x.cb, x.cmd)))
    else if x.DisconnectAsked? then a.(accepted := Accept(a.accepted, RequestDisconnect))
    else if x.Readable? then AfterRead(behaviour, a, x.r)
    else AfterWrite(a, x.w)
  }

  /** A run ends when the connection is freed or an assert fails. */
  ghost function Play(behaviour: nat -> seq<Action>, a: Account, script: seq<Happening>): (z: Account)
    requires a.sent <= a.accepted.issued
    ensures z.sent <= z.accepted.issued
    decreases |script|
  {
    if script == [] || a.status != Alive then a
    else
      AfterEventKeeps(behaviour, a, script[0]);
      Play(behaviour, AfterEvent(behaviour, a, script[0]), script[1..])
  }

  lemma {:induction false} AcceptAllGrows(i: Intake, actions: seq<Action>)
    ensures i.issued <= AcceptAll(i, actions).issued && i.pushed <= AcceptAll(i, actions).pushed
    ensures AcceptAll(i, actions).ran == i.ran
  {
    if actions != [] {
      AcceptAllGrows(i, actions[..|actions| - 1]);
    }
  }

  /** Nothing is accepted any more. */
  lemma {:induction false} RefusesAll(i: Intake, actions: seq<Action>)
    requires i.disconnecting
    ensures AcceptAll(i.(ran := i.ran + 1), actions) == i.(ran := i.ran + 1)
  {
    if actions != [] {
      RefusesAll(i, actions[..|actions| - 1]);
    }
  }

  lemma {:induction false} ServedGrows(behaviour: nat -> seq<Action>, i: Intake, start: nat, end: nat)
    ensures i.issued <= Served(behaviour, i, start, end).issued && i.pushed <= Served(behaviour, i, start, end).pushed
    decreases end
  {
    if start < end {
      ServedGrows(behaviour, i, start, end - 1);
      var j := Served(behaviour, i, start, end - 1);
      AcceptAllGrows(j.(ran := j.ran + 1), behaviour(j.ran));
    }
  }

  /** What is sent has been issued. */
  lemma {:induction false} AfterEventKeeps(behaviour: nat -> seq<Action>, a: Account, x: Happening)
    requires a.sent <= a.accepted.issued
    ensures var z := AfterEvent(behaviour, a, x); z.sent <= z.accepted.issued
  {
    if x.Readable? {
      ServedGrows(behaviour, a.accepted, |Answers(a.received)|, |Answers(a.received + BytesRead(x.r))|);
    }
  }

  // The connection as the code has it

  datatype AsyncPart = Queue | Connection

  class AsyncContext {
    const c: RedisContext
    const replies: CallbackList
    const behaviour: nat -> seq<Action> // what the n-th callback to run does
    var disconnecting: bool
    var ran: nat
    var status: Status
    ghost var h: Ledger
    ghost var Repr: set<object>

    ghost predicate ValidIn(p: AsyncPart)
      reads this, Repr
    {
      match p
      case Queue =>
        && replies in Repr && replies.Repr <= Repr && this !in replies.Repr
        && replies.Valid() && Accounts(h, replies.content)
      case Connection =>
        && c in Repr && c.Repr <= Repr && this !in c.Repr && (replies in Repr ==> replies.Repr !! c.Repr)
        && c.Valid() && !c.blocking && c.fn.DefaultFunctions? && c.aim.held == null
        && Streamed(h.received, h.answered, c.input)
    }

    ghost predicate Valid()
      reads this, Repr
      ensures Valid() ==> this in Repr && c in Repr && ValidState(c.input) && c.sent <= c.issued
    {
      assert ValidIn(Connection) ==> c in Repr && ValidState(c.input) && c.sent <= c.issued;
      this in Repr && forall p: AsyncPart :: ValidIn(p)
    }

    lemma {:induction false} ValidParts()
      ensures Valid() <==> this in Repr && ValidIn(Queue) && ValidIn(Connection)
    {
    }

    constructor (behaviour: nat -> seq<Action>)
      ensures Valid() && Paired(h) && fresh(Repr) && status == Alive && !disconnecting && c.err == NoError
      ensures h == Ledger([], [], [], 0, []) && c.input == INITIAL && c.issued == c.sent == [] && ran == 0
      ensures Settled()
    {
      var list := new CallbackList();
      var connection := new RedisContext(false, DefaultFunctions);
      c, replies, this.behaviour, ran, status, disconnecting := connection, list, behaviour, 0, Alive, false;
      h := Ledger([], [], [], 0, []);
      Repr := {this} + list.Repr + connection.Repr;
      new;
      WaitsOnNothing(IDLE);
      ValidParts();
    }

    /** What has been accepted so far. */
    ghost function Accepted(): Intake
      reads this, c
    {
      Intake(h.pushed, c.issued, disconnecting, ran)
    }

    ghost function Standing(): Account
      reads this, c
    {
      Account(Accepted(), c.sent, h.received, status, c.err)
    }

    /** The connection as it was. */
    twostate predicate SameConnection()
      reads c
    {
      c.input == old(c.input) && c.err == old(c.err) && c.issued == old(c.issued) && c.sent == old(c.sent)
    }

    twostate predicate SameStatus()
      reads this
    {
      disconnecting == old(disconnecting) && status == old(status) && ran == old(ran)
    }

    /** What commands and disconnect requests leave alone. */
    twostate predicate Carried()
      reads this, c
    {
      && status == old(status) && c.input == old(c.input) && c.err == old(c.err)
      && c.sent == old(c.sent) && old(c.issued) <= c.issued
      && (old(disconnecting) ==> disconnecting && c.issued == old(c.issued))
    }

    method PushCallback(cb: Callback)
      requires Valid()
      modifies Repr
      ensures Valid() && fresh(Repr - old(Repr)) && SameConnection() && SameStatus()
      ensures h == old(h).(pushed := old(h.pushed) + [cb])
    {
      ValidParts();
      replies.Push(cb);
      h := h.(pushed := h.pushed + [cb]);
      Repr := Repr + replies.Repr;
      ValidParts();
    }

    /** Takes the next callback off the list. */
    method TakeCallback() returns (ok: bool, cb: Callback)
      requires Valid()
      modifies Repr
      ensures Valid() && fresh(Repr - old(Repr)) && SameConnection() && SameStatus()
      ensures ok == (old(h.fired) < |old(h.pushed)|)
      ensures h == if ok then old(h).(fired := old(h.fired) + 1) else old(h)
      ensures ok ==> cb == h.pushed[old(h.fired)]
    {
      ValidParts();
      ok, cb := replies.Shift();
      Repr := Repr + replies.Repr;
      if ok {
        assert cb == h.pushed[h.fired];
        h := h.(fired := h.fired + 1);
      }
      ValidParts();
    }

    method AppendCommand(cmd: seq<byte>)
      requires Valid()
      modifies Repr
      ensures Valid() && fresh(Repr - old(Repr)) && SameStatus() && h == old(h)
      ensures c.input == old(c.input) && c.err == old(c.err) && c.sent == old(c.sent)
      ensures c.issued == old(c.issued) + cmd
    {
      ValidParts();
      c.AppendCommand(cmd);
      Repr := Repr + c.Repr;
      ValidParts();
    }

    /** `__redisAsyncCommand`: refused once a disconnect is under way. */
    method AsyncCommand(cb: Callback, cmd: seq<byte>) returns (ok: bool)
      requires Valid()
      modifies Repr
      ensures Valid() && fresh(Repr - old(Repr)) && SameStatus()
      ensures ok == !old(disconnecting)
      ensures h == if ok then old(h).(pushed := old(h.pushed) + [cb]) else old(h)
      ensures c.issued == if ok then old(c.issued) + cmd else old(c.issued)
      ensures c.input == old(c.input) && c.err == old(c.err) && c.sent == old(c.sent)
    {
      if disconnecting {
        return false;
      }
      AppendCommand(cmd);
      PushCallback(cb);
      ok := true;
    }

    /** `redisAsyncDisconnect`. */
    method RequestDisconnect()
      requires Valid()
      modifies `disconnecting
      ensures Valid() && disconnecting
    {
      ValidParts();
      disconnecting := true;
      ValidParts();
    }

    method Perform(a: Action)
      requires Valid()
      modifies Repr
      ensures Valid() && fresh(Repr - old(Repr)) && Carried() && Extends(old(h), h)
      ensures Accepted() == Accept(old(Accepted()), a)
    {
      match a
      case Issue(cb, cmd) =>
        var ok := AsyncCommand(cb, cmd);
      case RequestDisconnect =>
        RequestDisconnect();
    }

    /** User code sees one more event. */
    ghost method Log(e: Event)
      requires Valid()
      modifies `h
      ensures Valid() && h == old(h).(log := old(h.log) + [e])
    {
      ValidParts();
      h := h.(log := h.log + [e]);
      ValidParts();
    }

    /** Runs a callback, unless it is NULL, on an object that shows the reply; it may push
        commands or ask for a disconnect. */
    method Fire(cb: Callback, out: Obj, ghost reply: Option<Reply>, ghost cells: set<object>)
      requires Valid() && Passed(out, reply, cells)
      modifies Repr
      ensures Valid() && fresh(Repr - old(Repr)) && Carried()
      ensures Extends(old(h).(log := old(h.log) + (if cb.fn.Some? then [Fired(cb, reply)] else [])), h)
      ensures Accepted() == Called(behaviour, old(Accepted()), cb)
      ensures ran == old(ran) + if cb.fn.Some? then 1 else 0
      ensures cb.fn.None? || old(disconnecting) ==>
        (h.pushed == old(h.pushed) && c.issued == old(c.issued) && disconnecting == old(disconnecting))
      ensures cb.fn.Some? && !old(disconnecting) ==> forall k: nat :: IssuesUntil(behaviour(old(ran)), k) ==>
        (var issued := behaviour(old(ran))[..k];
         && h.pushed == old(h.pushed) + CallbacksOf(issued) && c.issued == old(c.issued) + Flat(CommandsOf(issued))
         && disconnecting == (k < |behaviour(old(ran))|))
    {
      if cb.fn.Some? {
        Log(Fired(cb, reply));
        var actions := behaviour(ran);
        FireLedger(actions);
        Count();
        Act(actions);
      }
    }

    /** What a callback's actions come to. */
    lemma {:induction false} FireLedger(actions: seq<Action>)
      ensures disconnecting ==> AcceptAll(Accepted().(ran := ran + 1), actions) == Accepted().(ran := ran + 1)
      ensures !disconnecting ==> forall k: nat :: IssuesUntil(actions, k) ==>
        AcceptAll(Accepted().(ran := ran + 1), actions) == Intake(
          h.pushed + CallbacksOf(actions[..k]), c.issued + Flat(CommandsOf(actions[..k])), k < |actions|, ran + 1)
      ensures AcceptAll(Accepted().(ran := ran + 1), actions).ran == ran + 1
    {
      if disconnecting {
        RefusesAll(Accepted(), actions);
      } else {
        forall k: nat | IssuesUntil(actions, k)
          ensures AcceptAll(Accepted().(ran := ran + 1), actions) == Intake(
            h.pushed + CallbacksOf(actions[..k]), c.issued + Flat(CommandsOf(actions[..k])), k < |actions|, ran + 1)
        {
          AcceptsUntil(Accepted().(ran := ran + 1), actions, k);
        }
      }
      AcceptAllGrows(Accepted().(ran := ran + 1), actions);
    }

    method Count()
      requires Valid()
      modifies `ran
      ensures Valid() && ran == old(ran) + 1
    {
      ValidParts();
      ran := ran + 1;
      ValidParts();
    }

    method Act(actions: seq<Action>)
      requires Valid()
      modifies Repr
      ensures Valid() && fresh(Repr - old(Repr)) && Carried() && Extends(old(h), h)
      ensures Accepted() == AcceptAll(old(Accepted()), actions)
    {
      assert actions[..0] == [];
      for i := 0 to |actions|
        invariant Valid() && fresh(Repr - old(Repr)) && Carried() && Extends(old(h), h)
        invariant Accepted() == AcceptAll(old(Accepted()), actions[..i])
      {
        Perform(actions[i]);
        assert actions[..i + 1][..i] == actions[..i];
      }
      assert actions[..|actions|] == actions;
    }

    /** One pending callback gets NULL. */
    method FireNull() returns (ok: bool)
      requires Valid() && disconnecting && Logged(h) && |h.answered| <= h.fired
      modifies Repr
      ensures Valid() && fresh(Repr - old(Repr)) && Carried() && Logged(h)
      ensures h == old(h).(fired := h.fired, log := h.log)
      ensures ok == (old(h.fired) < |h.pushed|) && h.fired == old(h.fired) + (if ok then 1 else 0)
    {
      var cb;
      ok, cb := TakeCallback();
      if ok {
        RefusesAll(Accepted(), behaviour(ran));
        Fire(cb, NoObj, None, {});
      }
    }

    /** `__redisAsyncDisconnect`. After an error every pending callback is called exactly
        once with NULL, in the order of issue, before the disconnect callback; commands
        they try to issue are refused. A clean disconnect finds the assert of the source
        satisfied if and only if no callback is pending. */
    method AsyncDisconnect()
      requires Valid() && Logged(h) && |h.answered| <= h.fired && status == Alive
      modifies Repr
      ensures Valid() && fresh(Repr - old(Repr)) && c.input == old(c.input) && c.err == old(c.err)
      ensures c.sent == old(c.sent)
      ensures c.err != NoError ==> status == Freed
      ensures c.err == NoError ==> status == if old(h.fired) == |old(h.pushed)| then Freed else Aborted
      ensures status == Freed ==> Ended(h, c.err == NoError)
      ensures h == old(h).(fired := h.fired, log := h.log)
      ensures c.err == NoError ==> Accepted() == old(Accepted())
    {
      var clean := c.err == NoError;
      if clean {
        var ok, cb := TakeCallback();
        if ok {
          SetStatus(Aborted);
          return;
        }
      } else {
        RequestDisconnect();
        FireAll();
      }
      Log(Disconnected(clean));
      SetStatus(Freed);
    }

    method SetStatus(s: Status)
      requires Valid()
      modifies `status
      ensures Valid() && status == s
    {
      ValidParts();
      status := s;
      ValidParts();
    }

    /** The drain loop; it ends because no callback can be added any more. */
    method FireAll()
      requires Valid() && disconnecting && Logged(h) && |h.answered| <= h.fired
      modifies Repr
      ensures Valid() && fresh(Repr - old(Repr)) && Carried() && Logged(h)
      ensures h == old(h).(fired := |h.pushed|, log := h.log)
    {
      var more := true;
      while more
        invariant Valid() && fresh(Repr - old(Repr)) && Carried() && Logged(h)
        invariant h == old(h).(fired := h.fired, log := h.log)
        invariant !more ==> h.fired == |h.pushed|
        decreases |h.pushed| - h.fired, more
      {
        more := FireNull();
      }
    }

    /** A live connection without errors. */
    ghost predicate Healthy()
      reads this, Repr
    {
      Valid() && Paired(h) && status == Alive && c.err == NoError && c.input.fault.None?
    }

    /** How an event handler leaves the connection: alive and well, or freed after the
        disconnect callback, or aborted by an assert. The asserts fail only when the
        server has sent more replies than there were commands, or when a disconnect was
        asked for and all output is written while replies are outstanding. */
    ghost predicate Handled()
      reads this, Repr
    {
      && Valid()
      && (status == Alive ==> Healthy())
      && (status == Freed ==> Ended(h, c.err == NoError) && (c.err == NoError ==> |h.answered| == |h.pushed|))
      && (status == Aborted ==>
            || |Drain(IDLE, h.received).replies| > |h.pushed|
            || (disconnecting && c.sent == c.issued && Settled() && |h.answered| < |h.pushed|))
    }

    /** Every reply received has been answered. */
    ghost predicate Settled()
      reads this
    {
      Answers(h.received) == h.answered
    }

    /** How a round of processing ends, by what has been received, issued, sent and asked for.
        The connection lives on only while no disconnect is due; a disconnect is clean if and
        only if the protocol is intact, one was asked for, all output is written and every
        callback has its reply. */
    ghost predicate RoundOver()
      reads this, c
    {
      var t := Drain(IDLE, h.received);
      var told := disconnecting && c.sent == c.issued;
      && (status == Alive <==> t.end.Live? && |t.replies| <= |h.pushed| && !told)
      && (status == Freed && c.err == NoError <==> t.end.Live? && |t.replies| == |h.pushed| && told)
      && (status == Freed && c.err == ProtocolError <==> t.end.Dead? && |t.replies| <= |h.pushed|)
      && (status == Aborted <==> |t.replies| > |h.pushed| || (t.end.Live? && |t.replies| < |h.pushed| && told))
    }

    /** `redisGetReply` of the connection, which does not block. */
    method AskConnection(ghost a: Answer, ghost answered: seq<Reply>)
      returns (ok: bool, out: Obj, ghost cells: set<object>)
      requires Valid() && a == GetReply(c.input) && Streamed(h.received, answered, a.state)
      modifies Repr
      ensures Valid() && fresh(Repr - old(Repr)) && SameStatus() && c.issued == old(c.issued) && c.sent == old(c.sent)
      ensures c.input == a.state && c.err == (if ok then old(c.err) else ProtocolError) && ok == !a.result.Error?
      ensures h == old(h).(answered := answered)
      ensures cells !! Repr && (ok ==> Passed(out, ReplyOf(a.result), cells) && (out == NoObj <==> a.result.NoReply?))
    {
      ValidParts();
      ok, out, cells := c.GetReplyFromReader();
      h := h.(answered := answered);
      Repr := {this} + replies.Repr + c.Repr;
      ValidParts();
    }

    /** Takes what the connection has: a reply, an error, or nothing yet. */
    method TakeNext() returns (ok: bool, out: Obj, ghost reply: Option<Reply>, ghost cells: set<object>)
      requires Healthy()
      modifies Repr
      ensures Valid() && fresh(Repr - old(Repr)) && SameStatus() && c.issued == old(c.issued) && c.sent == old(c.sent)
      ensures c.err == (if ok then NoError else ProtocolError) && (ok ==> c.input.fault.None?) && Logged(h)
      ensures old(GetReply(c.input).result.NoReply?) ==> ok && reply == None
      ensures cells !! Repr && (ok ==> Passed(out, reply, cells) && (out == NoObj <==> reply == None))
      ensures h == old(h).(answered := old(h.answered) + if reply.Some? then [reply.value] else [])
      ensures reply.Some? ==>
        (ok && |c.input.buf| < |old(c.input.buf)| && |Drain(IDLE, h.received).replies| >= |h.answered|)
      ensures reply.None? ==> Drain(IDLE, h.received).replies == h.answered && Drain(IDLE, h.received).end.Live? == ok
      ensures ok && reply.None? ==> GetReply(c.input).result.NoReply?
    {
      ghost var a := GetReply(c.input);
      AskLedger();
      reply := ReplyOf(a.result);
      ok, out, cells := AskConnection(a, h.answered + if reply.Some? then [reply.value] else []);
    }

    /** What asking the reader means for the accounts. */
    lemma {:induction false} AskLedger()
      requires Healthy()
      ensures var a := GetReply(c.input);
              var more := h.answered + if ReplyOf(a.result).Some? then [a.result.reply] else [];
              && Streamed(h.received, more, a.state) && Logged(h.(answered := more))
              && (a.state.fault.None? <==> !a.result.Error?)
              && (a.result.Delivered? ==> |a.state.buf| < |c.input.buf|)
              && (a.result.Delivered? ==> |Drain(IDLE, h.received).replies| > |h.answered|)
              && (!a.result.Delivered? ==>
                Drain(IDLE, h.received).replies == h.answered && Drain(IDLE, h.received).end.Live? == a.result.NoReply?)
              && (a.result.NoReply? ==> GetReply(a.state).result.NoReply?)
    {
      ValidParts();
      TakingStreams(h.received, h.answered, c.input);
      var a := GetReply(c.input);
      CallsKeep(
        h.pushed, h.answered, h.pushed, h.answered + if a.result.Delivered? then [a.result.reply] else [], h.fired);
      assert h.answered + [] == h.answered;
      if GetReply(c.input).result.NoReply? {
        NothingLeft(h.received, h.answered, c.input);
        QuietAgain(c.input);
      }
    }

    /** The i-th reply goes to the i-th callback; one too many fails an assert. */
    method DeliverReply(out: Obj, ghost reply: Reply, ghost cells: set<object>) returns (ok: bool)
      requires Valid() && Logged(h) && status == Alive && c.err == NoError && c.input.fault.None?
      requires |h.answered| == h.fired + 1 && h.answered[h.fired] == reply && Passed(out, Some(reply), cells)
      requires |Drain(IDLE, h.received).replies| >= |h.answered| && cells !! Repr
      modifies Repr
      ensures Valid() && fresh(Repr - old(Repr)) && h.received == old(h.received)
      ensures c.sent == old(c.sent)
      ensures ok ==> Accepted() == Served(behaviour, old(Accepted()), old(h.fired), old(h.fired) + 1)
      ensures ok ==> Healthy() && c.input == old(c.input) && h.fired == old(h.fired) + 1
      ensures !ok ==> status == Aborted && |Answers(h.received)| > |h.pushed| == old(h.fired)
      ensures !ok ==> Accepted() == old(Accepted()) && c.err == NoError
    {
      ghost var g := h;
      var cb;
      ok, cb := TakeCallback();
      if ok {
        Fire(cb, out, Some(reply), cells);
        CallsKeep(g.pushed, g.answered, h.pushed, h.answered, g.fired);
      } else {
        SetStatus(Aborted);
      }
    }

    /** Without more replies, a requested disconnect happens once the output is written. */
    method Pause()
      requires Healthy() && GetReply(c.input).result.NoReply?
      requires Settled() && Drain(IDLE, h.received).end.Live?
      modifies Repr
      ensures Handled() && Settled() && fresh(Repr - old(Repr))
      ensures h.received == old(h.received) && c.sent == old(c.sent)
      ensures h.pushed == old(h.pushed) && status == Judge(old(Accepted()), c.sent, h.received)
      ensures c.err == NoError && Accepted() == old(Accepted()) && (status == Alive ==> h.fired == old(h.fired))
    {
      ValidParts();
      var n := c.ToWrite();
      if disconnecting && n == 0 {
        AsyncDisconnect();
      }
    }

    /** One round of the loop: a reply for its callback, or the end of the connection, or
        nothing more for now. */
    method ProcessReply() returns (more: bool)
      requires Healthy()
      modifies Repr
      ensures Handled() && fresh(Repr - old(Repr)) && h.received == old(h.received) && c.sent == old(c.sent)
      ensures status == Alive && more ==> |c.input.buf| < |old(c.input.buf)| && h.fired == old(h.fired) + 1
      ensures status == Alive && more ==>
        Accepted() == Served(behaviour, old(Accepted()), old(h.fired), old(h.fired) + 1)
      ensures status == Alive && !more ==> GetReply(c.input).result.NoReply? && Drain(IDLE, h.received).end.Live?
      ensures status == Alive && !more ==> Settled() && Accepted() == old(Accepted()) && h.fired == old(h.fired)
      ensures status != Alive ==> h.pushed == old(h.pushed) && |Answers(h.received)| >= old(h.fired)
      ensures status == Aborted ==> |Answers(h.received)| > |h.pushed| == old(h.fired)
      ensures status == Aborted ==> c.err == NoError && Accepted() == old(Accepted())
      ensures status == Freed ==> Settled() && |h.answered| == old(h.fired) && Drain(IDLE, h.received).end.Dead?
      ensures status == Freed ==> c.err == ProtocolError
    {
      var ok, out;
      ghost var reply, cells;
      ok, out, reply, cells := TakeNext();
      more := out != NoObj;
      if !ok {
        AsyncDisconnect();
      } else if more {
        ok := DeliverReply(out, reply.value, cells);
      }
    }

    /** `redisProcessCallbacks`. */
    method ProcessCallbacks()
      requires Healthy()
      modifies Repr
      ensures Handled() && fresh(Repr - old(Repr)) && h.received == old(h.received) && c.sent == old(c.sent)
      ensures var i := Served(behaviour, old(Accepted()), old(h.fired), |Answers(h.received)|);
              && status == Judge(i, c.sent, h.received) && h.pushed == i.pushed
              && (status != Freed ==> Accepted() == i && c.err == NoError)
      ensures status != Aborted ==> Settled()
      ensures RoundOver()
    {
      ghost var i, start := Accepted(), h.fired;
      var more := true;
      while more
        invariant Healthy() && fresh(Repr - old(Repr)) && h.received == old(h.received) && c.sent == old(c.sent)
        invariant start <= h.fired && Accepted() == Served(behaviour, i, start, h.fired)
        invariant !more ==> GetReply(c.input).result.NoReply? && Settled() && Drain(IDLE, h.received).end.Live?
        decreases if more then |c.input.buf| + 1 else 0
      {
        ghost var fired := h.fired;
        more := ProcessReply();
        if status != Alive {
          if status == Aborted {
            ServedStops(behaviour, i, start, fired, |Answers(h.received)|);
          }
          return;
        }
      }
      Pause();
    }

    /** `redisBufferRead` of the connection. */
    method ReadConnection(r: ReadResult) returns (ok: bool)
      requires Healthy()
      modifies Repr
      ensures Valid() && fresh(Repr - old(Repr)) && SameStatus() && c.issued == old(c.issued) && c.sent == old(c.sent)
      ensures ok == !Fails(r) && c.input.fault.None?
      ensures c.err == if ok then NoError else if r.ReadFailed? then IoError else EofError
      ensures h == old(h).(received := old(h.received) + BytesRead(r))
      ensures c.input == if r.ReadBytes? && ok then Feed(old(c.input), r.bytes) else old(c.input)
    {
      ValidParts();
      ok := c.BufferRead(if r == ReadBytes([]) then ReadEof else r);
      if r.ReadBytes? {
        ArrivalStreams(h.received, h.answered, old(c.input), r.bytes);
        h := h.(received := h.received + r.bytes);
      }
      assert h.received + [] == h.received;
      Repr := Repr + c.Repr;
      ValidParts();
    }

    /** `redisAsyncHandleRead`. */
    method HandleRead(r: ReadResult)
      requires Healthy()
      modifies Repr
      ensures Handled() && fresh(Repr - old(Repr)) && c.sent == old(c.sent)
      ensures h.received == old(h.received) + BytesRead(r)
      ensures Fails(r) ==> status == Freed && h.pushed == old(h.pushed)
      ensures Fails(r) ==> c.err == if r.ReadFailed? then IoError else EofError
      ensures !Fails(r) ==>
        (var i := Served(behaviour, old(Accepted()), old(h.fired), |Answers(h.received)|);
         && status == Judge(i, c.sent, h.received) && h.pushed == i.pushed
         && (status != Freed ==> Accepted() == i && c.err == NoError))
      ensures status != Aborted && (Fails(r) ==> old(Settled())) ==> Settled()
      ensures !Fails(r) ==> RoundOver()
    {
      assert h.received + [] == h.received;
      var ok := ReadConnection(r);
      if ok {
        ProcessCallbacks();
      } else {
        AsyncDisconnect();
      }
    }

    /** `redisBufferWrite` of the connection. */
    method WriteConnection(w: WriteResult) returns (ok: bool)
      requires Healthy() && (w.Wrote? ==> |c.sent| + w.n <= |c.issued|)
      modifies Repr
      ensures Valid() && fresh(Repr - old(Repr)) && SameStatus() && h == old(h)
      ensures c.input == old(c.input) && c.issued == old(c.issued)
      ensures c.sent == if w.Wrote? then c.issued[..|old(c.sent)| + w.n] else old(c.sent)
      ensures ok == (old(c.sent) == c.issued || !w.WriteFailed?) && c.err == (if ok then NoError else IoError)
    {
      ValidParts();
      var done;
      ok, done := c.BufferWrite(w);
      Repr := Repr + c.Repr;
      ValidParts();
    }

    /** `redisAsyncHandleWrite`. */
    method HandleWrite(w: WriteResult)
      requires Healthy() && (w.Wrote? ==> |c.sent| + w.n <= |c.issued|)
      modifies Repr
      ensures Handled() && fresh(Repr - old(Repr)) && h.received == old(h.received)
      ensures w.WriteFailed? && old(c.sent != c.issued) ==> status == Freed && c.err == IoError
      ensures !(w.WriteFailed? && old(c.sent != c.issued)) ==>
        (status == Alive && h == old(h) && Accepted() == old(Accepted()))
      ensures h == old(h).(fired := h.fired, log := h.log)
      ensures c.sent == if w.Wrote? then c.issued[..|old(c.sent)| + w.n] else old(c.sent)
      ensures c.input == old(c.input)
    {
      var ok := WriteConnection(w);
      if !ok {
        AsyncDisconnect();
      }
    }

    /** A command from outside a callback. */
    method Submit(cb: Callback, cmd: seq<byte>) returns (ok: bool)
      requires Healthy()
      modifies Repr
      ensures Healthy() && fresh(Repr - old(Repr)) && ok == !old(disconnecting)
      ensures Accepted() == Accept(old(Accepted()), Issue(cb, cmd)) && h == old(h).(pushed := h.pushed)
      ensures c.input == old(c.input) && c.sent == old(c.sent)
    {
      ghost var g := h;
      ok := AsyncCommand(cb, cmd);
      CallsKeep(g.pushed, g.answered, h.pushed, h.answered, g.fired);
    }

    /** Whatever happens, the connection goes where the account of its history says. */
    method Handle(x: Happening)
      requires Healthy() && Settled()
      modifies Repr
      ensures Handled() && fresh(Repr - old(Repr)) && (status != Aborted ==> Settled())
      ensures var a := AfterEvent(behaviour, old(Standing()), x);
              && status == a.status && h.pushed == a.accepted.pushed && h.received == a.received && c.sent == a.sent
              && c.err == a.err
              && (status == Alive ==> Standing() == a)
      ensures x.Readable? && !Fails(x.r) ==> RoundOver()
    {
      assert h.received + [] == h.received;
      if x.Submitted? {
        var ok := Submit(x.cb, x.cmd);
      } else if x.DisconnectAsked? {
        RequestDisconnect();
      } else if x.Readable? {
        HandleRead(x.r);
      } else {
        HandleWritable(x.w);
      }
    }

    /** `sdslen(c->obuf)` of the connection. */
    method Unsent() returns (n: nat)
      requires Valid()
      ensures |c.issued| == |c.sent| + n
    {
      ValidParts();
      n := c.ToWrite();
    }

    /** The socket takes no more than there is. */
    method HandleWritable(w: WriteResult)
      requires Healthy() && Settled()
      modifies Repr
      ensures Handled() && fresh(Repr - old(Repr)) && status != Aborted && Settled()
      ensures var a := AfterWrite(old(Standing()), w);
              && status == a.status && h.pushed == a.accepted.pushed && h.received == a.received && c.sent == a.sent
              && c.err == a.err
              && (status == Alive ==> Standing() == a)
    {
      if w.Wrote? {
        ValidParts();
        var n := c.ToWrite();
        HandleWrite(if w.n > n then Wrote(n) else w);
      } else {
        HandleWrite(w);
      }
    }
  }

  /** Every run: whatever happens in whatever order, and whatever the callbacks do, the
      script and the behaviour of the callbacks determine what is accepted, sent and received
      and how the run ends. As long as the connection lives, the calls of user code are those
      for the replies received; once it is freed, every callback has been called exactly once,
      with its reply or with NULL, before the disconnect callback. */
  method EventLoop(ac: AsyncContext, script: seq<Happening>) returns (done: nat)
    requires ac.Healthy() && ac.Settled()
    modifies ac.Repr
    ensures ac.Handled() && fresh(ac.Repr - old(ac.Repr)) && done <= |script|
    ensures (ac.status == Alive ==> done == |script|) && (ac.status != Aborted ==> ac.Settled())
    ensures done > 0 && script[done - 1].Readable? && !Fails(script[done - 1].r) ==> ac.RoundOver()
    ensures var a := Play(ac.behaviour, old(ac.Standing()), script);
            var replies := Answers(a.received);
            && ac.status == a.status && ac.h.received == a.received && ac.c.sent == a.sent && ac.c.err == a.err
            && (ac.status == Alive ==> ac.Standing() == a && ac.h.fired == |replies|)
            && (ac.status == Alive ==> ac.h.log == Calls(a.accepted.pushed, replies, ac.h.fired))
            && ac.h.pushed == a.accepted.pushed
            && (ac.status == Freed ==> Concluded(ac.h.log, a.accepted.pushed, replies, a.err == NoError))
  {
    done := 0;
    ghost var goal := Play(ac.behaviour, ac.Standing(), script);
    assert script[0..] == script;
    while done < |script| && ac.status == Alive
      invariant done <= |script| && ac.Handled() && fresh(ac.Repr - old(ac.Repr))
      invariant ac.status != Aborted ==> ac.Settled()
      invariant done > 0 && script[done - 1].Readable? && !Fails(script[done - 1].r) ==> ac.RoundOver()
      invariant ac.status == Alive ==> goal == Play(ac.behaviour, ac.Standing(), script[done..])
      invariant ac.status != Alive ==>
        ac.status == goal.status && ac.h.received == goal.received && ac.c.sent == goal.sent
      invariant ac.status != Alive ==> ac.h.pushed == goal.accepted.pushed && ac.c.err == goal.err
    {
      assert script[done..][0] == script[done] && script[done..][1..] == script[done + 1..];
      ac.Handle(script[done]);
      done := done + 1;
    }
  }

  /** From wherever a connection is: a disconnect is asked for, all output is written, and what
      arrives next is intact. The disconnect is clean if and only if every command has its
      reply then, however many of them arrive and whatever the callbacks try to do; the
      disconnect callback is called last. */
  method CleanDisconnect(ac: AsyncContext, n: nat, r: ReadResult)
    requires ac.Healthy() && ac.Settled() && !Fails(r) && |ac.c.issued| <= |ac.c.sent| + n
    requires Drain(IDLE, ac.h.received + BytesRead(r)).end.Live?
    modifies ac.Repr
    ensures ac.Handled() && fresh(ac.Repr - old(ac.Repr)) && ac.status != Alive
    ensures ac.h.pushed == old(ac.h.pushed) && ac.c.sent == old(ac.c.issued)
    ensures var replies := Drain(IDLE, old(ac.h.received) + BytesRead(r)).replies;
            && (ac.status == Freed <==> |replies| == |old(ac.h.pushed)|)
            && (ac.status == Freed ==>
                ac.h.log == Calls(old(ac.h.pushed), replies, |replies|) + [Disconnected(true)])
  {
    ghost var a := ac.Standing();
    var script := [DisconnectAsked, Writable(Wrote(n)), Readable(r)];
    assert script[1..] == [Writable(Wrote(n)), Readable(r)] && script[2..] == [Readable(r)] && script[3..] == [];
    ServedRefuses(ac.behaviour, Accept(a.accepted, RequestDisconnect), |Answers(a.received)|,
      |Answers(a.received + BytesRead(r))|);
    PlayThree(ac.behaviour, a, script);
    var done := EventLoop(ac, script);
  }

  /** While a disconnect is under way callbacks do not push others. */
  lemma {:induction false} ServedRefuses(behaviour: nat -> seq<Action>, i: Intake, start: nat, end: nat)
    requires i.disconnecting
    ensures Served(behaviour, i, start, end) == i.(ran := Served(behaviour, i, start, end).ran)
    decreases end
  {
    if start < end {
      ServedRefuses(behaviour, i, start, end - 1);
      var j := Served(behaviour, i, start, end - 1);
      RefusesAll(j, behaviour(j.ran));
    }
  }

  lemma {:induction false} PlayThree(behaviour: nat -> seq<Action>, a: Account, script: seq<Happening>)
    requires a.sent <= a.accepted.issued && a.status == Alive && |script| == 3
    requires script[0].DisconnectAsked? && script[1].Writable? && script[1].w.Wrote?
    requires |a.accepted.issued| <= |a.sent| + script[1].w.n
    ensures var i := Accept(a.accepted, RequestDisconnect);
            Play(behaviour, a, script) ==
              AfterEvent(behaviour, a.(accepted := i, sent := i.issued), script[2])
  {
    var i := Accept(a.accepted, RequestDisconnect);
    var b := a.(accepted := i);
    var c := b.(sent := i.issued);
    assert i.issued[..|i.issued|] == i.issued;
    assert script[1..][0] == script[1] && script[1..][1..] == script[2..];
    assert script[2..][0] == script[2] && script[2..][1..] == [];
    assert AfterEvent(behaviour, a, script[0]) == b && AfterEvent(behaviour, b, script[1]) == c;
    assert Play(behaviour, c, script[2..]) == AfterEvent(behaviour, c, script[2]);
  }

  function Submissions(actions: seq<Action>): (script: seq<Happening>)
    requires forall j :: 0 <= j < |actions| ==> actions[j].Issue?
    ensures |script| == |actions|
    ensures forall j :: 0 <= j < |actions| ==> script[j] == Submitted(actions[j].cb, actions[j].cmd)
  {
    seq(|actions|, j requires 0 <= j < |actions| => Submitted(actions[j].cb, actions[j].cmd))
  }

  lemma {:induction false} PlaySubmissions(behaviour: nat -> seq<Action>, a: Account, actions: seq<Action>)
    requires a.sent <= a.accepted.issued && a.status == Alive
    requires forall j :: 0 <= j < |actions| ==> actions[j].Issue?
    ensures Play(behaviour, a, Submissions(actions)) == a.(accepted := AcceptAll(a.accepted, actions))
    decreases |actions|
  {
    var script := Submissions(actions);
    if actions != [] {
      assert script[1..] == Submissions(actions[1..]);
      PlaySubmissions(behaviour, AfterEvent(behaviour, a, script[0]), actions[1..]);
      AcceptsFirst(a.accepted, actions);
    }
  }

  lemma {:induction false} AcceptsFirst(i: Intake, actions: seq<Action>)
    requires actions != []
    ensures AcceptAll(i, actions) == AcceptAll(Accept(i, actions[0]), actions[1..])
    decreases |actions|
  {
    var n := |actions| - 1;
    if n > 0 {
      AcceptsFirst(i, actions[..n]);
      assert actions[..n][1..] == actions[1..][..n - 1] && actions[1..][n - 1] == actions[n];
    } else {
      assert actions[..0] == [] && actions[1..] == [];
    }
  }

  /** Commands submitted one after the other, before anything else happens. */
  method SubmitAll(ac: AsyncContext, actions: seq<Action>)
    requires ac.Healthy() && ac.Settled() && !ac.disconnecting
    requires forall j :: 0 <= j < |actions| ==> actions[j].Issue?
    modifies ac.Repr
    ensures ac.Healthy() && ac.Settled() && fresh(ac.Repr - old(ac.Repr)) && !ac.disconnecting
    ensures ac.h.pushed == old(ac.h.pushed) + CallbacksOf(actions) && ac.h.received == old(ac.h.received)
    ensures ac.c.issued == old(ac.c.issued) + Flat(CommandsOf(actions)) && ac.c.sent == old(ac.c.sent)
  {
    ghost var a := ac.Standing();
    PlaySubmissions(ac.behaviour, a, actions);
    assert IssuesUntil(actions, |actions|) && actions[..|actions|] == actions;
    AcceptsUntil(a.accepted, actions, |actions|);
    var done := EventLoop(ac, Submissions(actions));
  }

  /** Commands, a request to disconnect and what arrives, on a connection with no history. */
  method VisitNew(ac: AsyncContext, actions: seq<Action>, r: ReadResult)
    requires ac.Healthy() && ac.Settled() && !ac.disconnecting
    requires ac.h.pushed == [] && ac.h.received == [] && ac.c.issued == [] && ac.c.sent == []
    requires (forall j :: 0 <= j < |actions| ==> actions[j].Issue?) && !Fails(r)
    requires Drain(IDLE, BytesRead(r)).end.Live?
    modifies ac.Repr
    ensures ac.c.sent == Flat(CommandsOf(actions))
    ensures var replies := Drain(IDLE, BytesRead(r)).replies;
            && (ac.status == Freed <==> |replies| == |actions|)
            && (ac.status == Freed ==>
                ac.h.log == Calls(CallbacksOf(actions), replies, |replies|) + [Disconnected(true)])
  {
    SubmitAll(ac, actions);
    var left := ac.Unsent();
    NothingBefore(CallbacksOf(actions), Flat(CommandsOf(actions)), BytesRead(r));
    CleanDisconnect(ac, left, r);
  }

  /** A whole visit: commands are submitted to a new connection, a disconnect is asked for,
      everything is written, and an intact stream arrives. What goes out is the commands, in
      order, and if there is a reply for each of them, the k-th callback gets the k-th reply and
      the disconnect callback comes last. */
  method Visit(behaviour: nat -> seq<Action>, actions: seq<Action>, r: ReadResult) returns (ac: AsyncContext)
    requires (forall j :: 0 <= j < |actions| ==> actions[j].Issue? && actions[j].cb.fn.Some?) && !Fails(r)
    requires Drain(IDLE, BytesRead(r)).end.Live?
    ensures ac.c.sent == Flat(CommandsOf(actions))
    ensures ac.status == Freed <==> |Drain(IDLE, BytesRead(r)).replies| == |actions|
    ensures ac.status == Freed ==> Visited(ac.h.log, actions, Drain(IDLE, BytesRead(r)).replies)
  {
    ac := new AsyncContext(behaviour);
    VisitNew(ac, actions, r);
    if ac.status == Freed {
      VisitLog(ac.h.log, actions, Drain(IDLE, BytesRead(r)).replies);
    }
  }

  lemma {:induction false} NothingBefore(cbs: seq<Callback>, cmds: seq<byte>, received: seq<byte>)
    ensures [] + cbs == cbs && [] + cmds == cmds && [] + received == received
  {
  }

  lemma {:induction false} VisitLog(log: seq<Event>, actions: seq<Action>, replies: seq<Reply>)
    requires forall j :: 0 <= j < |actions| ==> actions[j].Issue? && actions[j].cb.fn.Some?
    requires |replies| == |actions| && log == Calls(CallbacksOf(actions), replies, |replies|) + [Disconnected(true)]
    ensures Visited(log, actions, replies)
  {
    CallsInOrder(CallbacksOf(actions), replies, |replies|);
  }

  ghost predicate Visited(log: seq<Event>, actions: seq<Action>, replies: seq<Reply>)
    requires forall j :: 0 <= j < |actions| ==> actions[j].Issue?
  {
    && |replies| == |actions| && |log| == |actions| + 1 && log[|actions|] == Disconnected(true)
    && forall k :: 0 <= k < |actions| ==> log[k] == Fired(actions[k].cb, Some(replies[k]))
  }

  /** The documentation promises that a disconnect waits for the outstanding replies. It
      does not: one command, written out, then a request to disconnect, and the next time
      the socket is readable without a complete reply the assert of the source fails. */
  method DisconnectTooEarly(cb: Callback, cmd: seq<byte>) returns (ac: AsyncContext)
    ensures ac.status == Aborted && ac.disconnecting && ac.c.err == NoError
    ensures ac.h.pushed == [cb] && ac.h.received == [] && ac.c.sent == ac.c.issued == cmd
  {
    ac := new AsyncContext(n => []);
    var ok := ac.Submit(cb, cmd);
    ac.HandleWrite(Wrote(|cmd|));
    ac.RequestDisconnect();
    ac.HandleRead(ReadAgain);
  }

  lemma {:induction false} QuietAgain(s: ReaderState)
    requires ValidState(s) && GetReply(s).result.NoReply?
    ensures GetReply(GetReply(s).state).result.NoReply?
  {
    RunLeavesSuffix(s.p, s.buf);
    WaitsOnNothing(s.p);
  }
}

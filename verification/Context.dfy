/** `redisContext`: the output buffer in front of the socket and the reader behind it.
    What `read` and `write` return is an input of the model. */
module Context {
  import opened Bytes
  import opened Replies
  import opened Machine
  import opened Sessions
  import opened SdsStrings
  import opened Objects
  import opened Reader

  /** What `read(2)` may return: an error, "try again", end of file, or bytes. */
  datatype ReadResult = ReadFailed | ReadAgain | ReadEof | ReadBytes(bytes: seq<byte>)

  /** What `write(2)` may return: an error, "try again", or how much was written. */
  datatype WriteResult = WriteFailed | WriteAgain | Wrote(n: nat)

  datatype ContextError = NoError | IoError | EofError | ProtocolError

  /** What a blocking call that waits for a reply comes to: a reply, an error, or no
      answer yet when the script of reads is used up. `arrived` are the bytes read meanwhile,
      and `error` is what the context records. */
  datatype Awaited = Awaited(state: ReaderState, result: Result, arrived: seq<byte>, error: ContextError)

  predicate Fails(r: ReadResult) {
    r.ReadFailed? || r.ReadEof? || r == ReadBytes([])
  }

  /** One round of the read loop: read, feed, ask for a reply. */
  function ReadOnce(s: ReaderState, r: ReadResult): (a: Answer)
    requires ValidState(s)
    ensures ValidState(a.state)
  {
    if Fails(r) then Answer(s, Error) else GetReply(if r.ReadBytes? then Feed(s, r.bytes) else s)
  }

  function ErrorOf(r: ReadResult, result: Result): ContextError {
    if r.ReadFailed? then IoError
    else if Fails(r) then EofError
    else if result.Error? then ProtocolError
    else NoError
  }

  function BytesRead(r: ReadResult): seq<byte> {
    if r.ReadBytes? then r.bytes else []
  }

  /** The read loop of `redisGetReply`. */
  function Await(s: ReaderState, script: seq<ReadResult>): (a: Awaited)
    requires ValidState(s)
    ensures ValidState(a.state)
    decreases |script|
  {
    if script == [] then Awaited(s, NoReply, [], NoError)
    else
      var a := ReadOnce(s, script[0]);
      if a.result.NoReply? then
        var z := Await(a.state, script[1..]);
        z.(arrived := BytesRead(script[0]) + z.arrived)
      else Awaited(a.state, a.result, BytesRead(script[0]), ErrorOf(script[0], a.result))
  }

  /** `redisGetReply`: first what is already there, then, when blocking, what arrives. */
  function Fetch(s: ReaderState, blocking: bool, script: seq<ReadResult>): (a: Awaited)
    requires ValidState(s)
    ensures ValidState(a.state)
  {
    var first := GetReply(s);
    if first.result.NoReply? && blocking then Await(first.state, script)
    else Awaited(first.state, first.result, [], if first.result.Error? then ProtocolError else NoError)
  }

  /** What the write loop comes to with `n` bytes in the buffer: an error, nothing left to
      write, or still waiting when the script of writes is used up. */
  datatype Written = WriteError | AllWritten | StillWriting

  function FlushOf(n: nat, writes: seq<WriteResult>): Written
    decreases |writes|
  {
    if n == 0 then AllWritten
    else if writes == [] then StillWriting
    else if writes[0].WriteFailed? then WriteError
    else FlushOf(if !writes[0].Wrote? then n else if writes[0].n < n then n - writes[0].n else 0, writes[1..])
  }

  /** How many bytes the write loop leaves. */
  function LeftOf(n: nat, writes: seq<WriteResult>): (left: nat)
    ensures left <= n
    decreases |writes|
  {
    if n == 0 || writes == [] || writes[0].WriteFailed? then n
    else LeftOf(if !writes[0].Wrote? then n else if writes[0].n < n then n - writes[0].n else 0, writes[1..])
  }

  // What the loops come to, read by read and write by write

  /** The bytes of a script of reads. */
  function Heard(script: seq<ReadResult>): seq<byte> {
    if script == [] then [] else (if script[0].ReadBytes? then script[0].bytes else []) + Heard(script[1..])
  }

  /** A read that the loop goes on after: "try again", or some bytes. */
  predicate Harmless(r: ReadResult) {
    r.ReadAgain? || (r.ReadBytes? && r.bytes != [])
  }

  /** After `silent` reads without an answer the loop is done: at the end of the script, or with
      the read that decides. Only the reads up to there count. */
  ghost predicate StopsAfter(s: ReaderState, script: seq<ReadResult>, silent: nat)
    requires ValidState(s)
  {
    var a := Await(s, script);
    && silent <= |script| && Await(s, script[..silent]).result.NoReply?
    && (forall i :: 0 <= i < silent ==> Harmless(script[i]))
    && (a.result.NoReply? <==> silent == |script|) && (a.result.NoReply? ==> a.error == NoError)
    && (silent < |script| ==> Decides(script[silent], a))
    && a.arrived == Heard(if a.result.NoReply? || a.error in {IoError, EofError} then script[..silent]
                          else script[..silent + 1])
  }

  /** The read loop stops at the first read that fails, or whose bytes give an answer, and the
      error recorded tells which of the two it was. */
  lemma {:induction false} AwaitStops(s: ReaderState, script: seq<ReadResult>) returns (silent: nat)
    requires ValidState(s) && s.fault.None?
    ensures StopsAfter(s, script, silent)
    decreases |script|
  {
    if script == [] {
      silent := 0;
    } else {
      var a := ReadOnce(s, script[0]);
      if a.result.NoReply? {
        StaysLive(s, script[0]);
        silent := AwaitStops(a.state, script[1..]);
        StopsLater(s, script, silent);
        silent := silent + 1;
      } else {
        silent := 0;
        StopsAtOnce(s, script);
      }
    }
  }

  lemma {:induction false} StaysLive(s: ReaderState, r: ReadResult)
    requires ValidState(s) && s.fault.None? && ReadOnce(s, r).result.NoReply?
    ensures ReadOnce(s, r).state.fault.None? && Harmless(r)
  {
    GetConserves(if r.ReadBytes? then Feed(s, r.bytes) else s, []);
  }

  lemma {:induction false} StopsLater(s: ReaderState, script: seq<ReadResult>, n: nat)
    requires ValidState(s) && script != [] && ReadOnce(s, script[0]).result.NoReply? && Harmless(script[0])
    requires StopsAfter(ReadOnce(s, script[0]).state, script[1..], n)
    ensures StopsAfter(s, script, n + 1)
  {
    if n < |script| {
      OneMore(script, n);
    }
  }

  lemma {:induction false} OneMore(script: seq<ReadResult>, n: nat)
    requires script != [] && n < |script|
    ensures script[..n + 1][0] == script[0] && script[..n + 1][1..] == script[1..][..n]
    ensures n + 1 < |script| ==> script[..n + 2][0] == script[0] && script[..n + 2][1..] == script[1..][..n + 1]
  {
  }

  lemma {:induction false} StopsAtOnce(s: ReaderState, script: seq<ReadResult>)
    requires ValidState(s) && s.fault.None? && script != [] && !ReadOnce(s, script[0]).result.NoReply?
    ensures StopsAfter(s, script, 0)
  {
    var r := script[0];
    assert script[..1] == [r] && [r][1..] == [];
    if !Fails(r) {
      GetConserves(if r.ReadBytes? then Feed(s, r.bytes) else s, []);
    }
    assert r.ReadBytes? ==> r.bytes + [] == r.bytes;
  }

  /** The read that ends the loop, and what it comes to. */
  ghost predicate Decides(r: ReadResult, a: Awaited) {
    match r
    case ReadFailed => a.result.Error? && a.error == IoError && a.state.fault.None?
    case ReadEof => a.result.Error? && a.error == EofError && a.state.fault.None?
    case ReadAgain => Answered(a)
    case ReadBytes(bytes) =>
      if bytes == [] then a.result.Error? && a.error == EofError && a.state.fault.None? else Answered(a)
  }

  /** A reply without an error, or a protocol error. */
  ghost predicate Answered(a: Awaited) {
    if a.result.Delivered? then a.error == NoError && a.state.fault.None?
    else a.result.Error? && a.error == ProtocolError && a.state.fault.Some?
  }

  /** A call that need not wait, or may not, reads nothing; a blocking one comes back without a
      reply only when the reads are used up. */
  lemma {:induction false} FetchStops(s: ReaderState, blocking: bool, script: seq<ReadResult>)
    requires ValidState(s) && s.fault.None?
    ensures var a := Fetch(s, blocking, script);
            && (!GetReply(s).result.NoReply? || !blocking ==> a.arrived == [] && a.state == GetReply(s).state)
            && (blocking && a.result.NoReply? ==> a.arrived == Heard(script))
            && (!blocking || !GetReply(s).result.NoReply? ==> a.result == GetReply(s).result)
            && (a.result.Error? <==> a.error != NoError)
  {
    GetConserves(s, []);
    var first := GetReply(s);
    if first.result.NoReply? {
      var silent := AwaitStops(first.state, script);
      assert script[..|script|] == script;
    }
  }

  function TotalOf(writes: seq<WriteResult>): (n: nat) {
    if writes == [] then 0 else (if writes[0].Wrote? then writes[0].n else 0) + TotalOf(writes[1..])
  }

  /** The write loop stops at the first write that fails or with which everything has been
      written, and what is left is what the writes up to there have not taken. */
  lemma {:induction false} FlushStops(n: nat, writes: seq<WriteResult>) returns (k: nat)
    ensures k <= |writes| && (forall i :: 0 <= i < k ==> !writes[i].WriteFailed?)
    ensures LeftOf(n, writes) == if TotalOf(writes[..k]) < n then n - TotalOf(writes[..k]) else 0
    ensures k > 0 ==> TotalOf(writes[..k - 1]) < n
    ensures FlushOf(n, writes).AllWritten? <==> LeftOf(n, writes) == 0
    ensures FlushOf(n, writes).WriteError? <==> LeftOf(n, writes) > 0 && k < |writes| && writes[k].WriteFailed?
    ensures FlushOf(n, writes).StillWriting? ==> k == |writes|
    decreases |writes|
  {
    if n == 0 || writes == [] || writes[0].WriteFailed? {
      k := 0;
    } else {
      var w, rest := writes[0], writes[1..];
      var m: nat := if !w.Wrote? then n else if w.n < n then n - w.n else 0;
      k := FlushStops(m, rest);
      assert writes[..k + 1][0] == w && writes[..k + 1][1..] == rest[..k];
      assert k > 0 ==> writes[..k][0] == w && writes[..k][1..] == rest[..k - 1];
      k := k + 1;
    }
  }

  // The replies of a stream, one call after the other

  /** The replies taken so far and those still in the reader are the replies of
      everything received. */
  ghost predicate Streamed(received: seq<byte>, answered: seq<Reply>, s: ReaderState)
    requires ValidState(s)
  {
    var t := Drain(IDLE, received);
    if s.fault.None? then t == Before(answered, Drain(s.p, s.buf)) else t.replies == answered && t.end.Dead?
  }

  /** Bytes that arrive do not disturb the accounts of the reader. */
  lemma {:induction false} ArrivalStreams(received: seq<byte>, answered: seq<Reply>, s: ReaderState, b: seq<byte>)
    requires ValidState(s) && s.fault.None? && Streamed(received, answered, s)
    ensures Streamed(received + b, answered, Feed(s, b))
  {
    DrainExtends(IDLE, received, b);
    DrainExtends(s.p, s.buf, b);
    var t, d := Drain(IDLE, received), Drain(s.p, s.buf);
    if d.end.Live? {
      BeforeJoins(answered, d.replies, Drain(d.end.p, d.end.rest + b));
    }
    assert b == [] ==> s.buf + b == s.buf;
  }

  /** Taking a reply moves it from the reader to the answered ones. */
  lemma {:induction false} TakingStreams(received: seq<byte>, answered: seq<Reply>, s: ReaderState)
    requires ValidState(s) && s.fault.None? && Streamed(received, answered, s)
    ensures var a := GetReply(s);
            && Streamed(received, if a.result.Delivered? then answered + [a.result.reply] else answered, a.state)
            && (a.state.fault.None? <==> !a.result.Error?)
            && (a.result.Delivered? ==> |a.state.buf| < |s.buf| && |Drain(IDLE, received).replies| > |answered|)
  {
    GetConserves(s, []);
    var a := GetReply(s);
    assert s.buf + [] == s.buf && a.state.buf + [] == a.state.buf;
    if a.result.Delivered? {
      BeforeJoins(answered, [a.result.reply], Drain(a.state.p, a.state.buf));
    }
  }

  function ReplyOf(result: Result): Option<Reply> {
    if result.Delivered? then Some(result.reply) else None
  }

  function With(answered: seq<Reply>, result: Result): seq<Reply> {
    if result.Delivered? then answered + [result.reply] else answered
  }

  /** What a read loop hands out is the next reply of the stream of what has arrived, and the
      others are still to come. */
  lemma {:induction false} AwaitStreams(
    received: seq<byte>, answered: seq<Reply>, s: ReaderState, script: seq<ReadResult>)
    requires ValidState(s) && s.fault.None? && Streamed(received, answered, s)
    ensures var a := Await(s, script);
            && Streamed(received + a.arrived, With(answered, a.result), a.state)
            && (a.state.fault.Some? ==> a.error == ProtocolError)
    decreases |script|
  {
    assert received + [] == received;
    if script != [] {
      var c, a := BytesRead(script[0]), ReadOnce(s, script[0]);
      if !Fails(script[0]) {
        var t := if script[0].ReadBytes? then Feed(s, c) else s;
        ArrivalStreams(received, answered, s, c);
        TakingStreams(received + c, answered, t);
        if a.result.NoReply? {
          AwaitStreams(received + c, answered, a.state, script[1..]);
          Associates(received, c, Await(a.state, script[1..]).arrived);
        }
      }
    }
  }

  lemma {:induction false} FetchStreams(
    received: seq<byte>, answered: seq<Reply>, s: ReaderState, blocking: bool, script: seq<ReadResult>)
    requires ValidState(s) && s.fault.None? && Streamed(received, answered, s)
    ensures var a := Fetch(s, blocking, script);
            && Streamed(received + a.arrived, With(answered, a.result), a.state)
            && (a.state.fault.Some? ==> a.error == ProtocolError)
  {
    assert received + [] == received;
    TakingStreams(received, answered, s);
    var first := GetReply(s);
    if first.result.NoReply? && blocking {
      AwaitStreams(received, answered, first.state, script);
    }
  }

  lemma {:induction false} LaterBytes(
    b: seq<byte>, arrived: seq<byte>, c: seq<byte>, z: seq<byte>, more: seq<byte>, u: seq<byte>)
    requires arrived == c + z && u == b + c
    ensures b + (arrived + more) == u + (z + more)
  {
  }

  /** The same for a reader in any state, with any bytes still to come. */
  lemma {:induction false} AwaitTakesNext(s: ReaderState, script: seq<ReadResult>, more: seq<byte>)
    requires ValidState(s) && s.fault.None?
    ensures var a := Await(s, script);
            a.result.Delivered? ==>
              && a.state.fault.None?
              && Drain(s.p, s.buf + (a.arrived + more)) ==
                 Before([a.result.reply], Drain(a.state.p, a.state.buf + more))
    decreases |script|
  {
    if script != [] && !Fails(script[0]) {
      var c := BytesRead(script[0]);
      var t := if script[0].ReadBytes? then Feed(s, c) else s;
      var a := GetReply(t);
      var z := if a.result.NoReply? then Await(a.state, script[1..]).arrived else [];
      assert c + [] == c && s.buf + [] == s.buf;
      LaterBytes(s.buf, Await(s, script).arrived, c, z, more, t.buf);
      GetConserves(t, z + more);
      assert [] + more == more;
      if a.result.NoReply? {
        AwaitTakesNext(a.state, script[1..], more);
      }
    }
  }

  lemma {:induction false} FetchTakesNext(s: ReaderState, blocking: bool, script: seq<ReadResult>, more: seq<byte>)
    requires ValidState(s) && s.fault.None? && Fetch(s, blocking, script).result.Delivered?
    ensures var a := Fetch(s, blocking, script);
            && a.state.fault.None?
            && Drain(s.p, s.buf + (a.arrived + more)) == Before([a.result.reply], Drain(a.state.p, a.state.buf + more))
  {
    var a := Fetch(s, blocking, script);
    assert [] + more == more;
    GetConserves(s, a.arrived + more);
    var first := GetReply(s);
    if first.result.NoReply? {
      AwaitTakesNext(first.state, script, more);
    }
  }

  // Whole conversations

  /** A call of a user of the connection: a command to append, or a reply to get, with what
      the socket does meanwhile. */
  datatype Turn = Append(cmd: seq<byte>) | Get(writes: seq<WriteResult>, script: seq<ReadResult>)

  /** Where a conversation is: the reader, what has been appended, sent and received, the
      replies handed out, and the error that ended it, if any. */
  datatype Talk = Talk(
    input: ReaderState, issued: seq<byte>, sent: seq<byte>, arrived: seq<byte>, handed: seq<Reply>, error: ContextError)

  ghost predicate ValidTalk(t: Talk) {
    ValidState(t.input) && t.sent <= t.issued
  }

  ghost predicate Waits(t: Talk, blocking: bool)
    requires ValidTalk(t)
  {
    blocking && GetReply(t.input).result.NoReply?
  }

  ghost function AfterGet(t: Talk, blocking: bool, writes: seq<WriteResult>, script: seq<ReadResult>): (u: Talk)
    requires ValidTalk(t)
    ensures ValidTalk(u)
  {
    var n := |t.issued| - |t.sent|;
    var w := FlushOf(n, writes);
    var v := if Waits(t, blocking) then t.(sent := t.issued[..|t.issued| - LeftOf(n, writes)]) else t;
    if Waits(t, blocking) && !w.AllWritten? then
      v.(input := GetReply(t.input).state, error := if w.WriteError? then IoError else NoError)
    else
      var a := Fetch(t.input, blocking, script);
      v.(input := a.state, arrived := t.arrived + a.arrived, handed := With(t.handed, a.result), error := a.error)
  }

  ghost function AfterTurn(t: Talk, blocking: bool, x: Turn): (u: Talk)
    requires ValidTalk(t)
    ensures ValidTalk(u)
  {
    if x.Append? then t.(issued := t.issued + x.cmd) else AfterGet(t, blocking, x.writes, x.script)
  }

  /** A conversation goes on until an error. */
  ghost function Converse(t: Talk, blocking: bool, turns: seq<Turn>): (u: Talk)
    requires ValidTalk(t)
    ensures ValidTalk(u)
    decreases |turns|
  {
    if turns == [] || t.error != NoError then t else Converse(AfterTurn(t, blocking, turns[0]), blocking, turns[1..])
  }

  /** Whatever order commands and replies are asked for in: the replies handed out, followed by
      those still in the reader, are the replies of what has arrived. */
  lemma {:induction false} ConversationStreams(t: Talk, blocking: bool, turns: seq<Turn>)
    requires ValidTalk(t) && Streamed(t.arrived, t.handed, t.input) && (t.input.fault.Some? ==> t.error != NoError)
    ensures var u := Converse(t, blocking, turns);
            && Streamed(u.arrived, u.handed, u.input) && u.handed <= Drain(IDLE, u.arrived).replies
            && (u.input.fault.Some? ==> u.error != NoError)
    decreases |turns|
  {
    if turns != [] && t.error == NoError {
      if turns[0].Get? {
        FetchStreams(t.arrived, t.handed, t.input, blocking, turns[0].script);
        TakingStreams(t.arrived, t.handed, t.input);
      }
      ConversationStreams(AfterTurn(t, blocking, turns[0]), blocking, turns[1..]);
    }
  }

  /** Bytes that move from the output buffer to the bytes sent. */
  lemma {:induction false} Sliced(a: seq<byte>, b: seq<byte>, n: nat)
    requires n <= |b|
    ensures a + b[..n] == (a + b)[..|a| + n] && (a + b[..n]) + b[n..] == a + b
  {
  }

  datatype ContextPart = Output | Input

  const NO_AIM := Aim(null, null, true)

  class RedisContext {
    const blocking: bool
    const fn: Functions
    var obuf: Sds
    var err: ContextError
    var reader: RedisReader?

    ghost var issued: seq<byte> // all commands appended so far
    ghost var sent: seq<byte> // all bytes the socket has taken
    ghost var input: ReaderState // what the reader represents
    ghost var aim: Aim // the zvals of the reader
    ghost var Repr: set<object>

    ghost predicate Embodies(r: RedisReader, s: ReaderState, a: Aim)
      reads r, r.Repr
    {
      r.fn == fn && r.Ok() && r.state == s && r.Aims() == a
    }

    ghost predicate ReaderOk(r: RedisReader)
      reads this, obuf, Repr
    {
      && r in Repr && r.Repr <= Repr && this !in r.Repr && obuf !in r.Repr && obuf.buf !in r.Repr
      && Embodies(r, input, aim)
    }

    ghost predicate ValidIn(p: ContextPart)
      reads this, Repr
    {
      match p
      case Output => obuf in Repr && obuf.buf in Repr && obuf.Valid() && issued == sent + obuf.content
      case Input =>
        && obuf in Repr && ValidState(input)
        && (reader == null ==> input == INITIAL && aim == NO_AIM) && (reader != null ==> ReaderOk(reader))
    }

    ghost predicate Valid()
      reads this, Repr
      ensures Valid() ==> this in Repr && ValidState(input) && sent <= issued
    {
      assert ValidIn(Input) ==> ValidState(input);
      assert ValidIn(Output) ==> sent <= issued;
      this in Repr && forall p: ContextPart :: ValidIn(p)
    }

    lemma {:induction false} ValidParts()
      ensures Valid() <==> this in Repr && ValidIn(Output) && ValidIn(Input)
    {
    }

    /** The output buffer holds what was issued and not sent. */
    lemma {:induction false} Unwritten()
      requires Valid()
      ensures obuf in Repr && issued == sent + obuf.content && obuf.len == |obuf.content|
      ensures obuf.len == 0 <==> sent == issued
    {
      ValidParts();
      assert |issued| == |sent| + obuf.len;
      assert sent + [] == sent;
    }

    /** How many bytes are still to be written. */
    ghost function Unsent(): nat
      requires Valid()
      reads this, Repr
    {
      |issued| - |sent|
    }

    /** `sdslen(c->obuf)`. */
    method ToWrite() returns (n: nat)
      requires Valid()
      ensures n == Unsent() && (n == 0 <==> sent == issued)
    {
      Unwritten();
      n := obuf.len;
    }

    constructor (blocking: bool, fn: Functions)
      ensures Valid() && fresh(Repr) && this.blocking == blocking && this.fn == fn
      ensures err == NoError && issued == [] && sent == [] && input == INITIAL && aim == NO_AIM
    {
      var o := new Sds([]);
      this.blocking, this.fn, obuf, err, reader := blocking, fn, o, NoError, null;
      issued, sent, input, aim := [], [], INITIAL, NO_AIM;
      Repr := {this, o, o.buf};
      new;
      ValidParts();
    }

    /** `__redisAppendCommand`. */
    method AppendCommand(cmd: seq<byte>)
      requires Valid()
      modifies Repr - {aim.held}
      ensures Valid() && fresh(Repr - old(Repr))
      ensures issued == old(issued) + cmd && sent == old(sent) && input == old(input) && aim == old(aim)
      ensures err == old(err) && reader == old(reader)
    {
      ValidParts();
      Associates(sent, obuf.content, cmd);
      obuf.CatLen(cmd);
      issued := issued + cmd;
      Repr := Repr + {obuf.buf};
      ValidParts();
    }

    /** The socket has taken `n` bytes. */
    method DropWritten(n: nat)
      requires Valid() && 0 < n <= Unsent()
      modifies Repr
      ensures Valid() && fresh(Repr - old(Repr)) && err == old(err)
      ensures issued == old(issued) && input == old(input) && aim == old(aim) && reader == old(reader)
      ensures sent == issued[..|old(sent)| + n]
    {
      Unwritten();
      ValidParts();
      RangeDropsPrefix(obuf.content, n);
      Sliced(sent, obuf.content, n);
      sent := sent + obuf.content[..n];
      if n == obuf.len {
        obuf := new Sds([]);
      } else {
        obuf.Range(n, -1);
      }
      Repr := Repr + {obuf, obuf.buf};
      ValidParts();
    }

    /** `redisBufferWrite`. A conserved output: what has been issued is what the socket
        took followed by what is still in the buffer (part of `Valid`). */
    method BufferWrite(w: WriteResult) returns (ok: bool, done: bool)
      requires Valid() && (w.Wrote? ==> w.n <= Unsent())
      modifies Repr
      ensures Valid() && fresh(Repr - old(Repr))
      ensures issued == old(issued) && input == old(input) && aim == old(aim) && reader == old(reader)
      ensures sent == if w.Wrote? then issued[..|old(sent)| + w.n] else old(sent)
      ensures ok == (old(sent) == issued || !w.WriteFailed?) && err == (if ok then old(err) else IoError)
      ensures ok ==> done == (sent == issued)
    {
      Unwritten();
      ValidParts();
      ok, done := true, false;
      assert w == Wrote(0) ==> issued[..|sent| + w.n] == sent;
      if obuf.len > 0 {
        if w.WriteFailed? {
          err := IoError;
          ValidParts();
          return false, false;
        } else if w.Wrote? && w.n > 0 {
          DropWritten(w.n);
        }
      }
      Unwritten();
      done := obuf.len == 0;
    }

    /** `__redisCreateReplyReader`. */
    method CreateReplyReader()
      requires Valid()
      modifies Repr
      ensures Valid() && fresh(Repr - old(Repr)) && NothingSent() && reader != null
      ensures input == old(input) && aim == old(aim) && err == old(err)
    {
      ValidParts();
      if reader == null {
        var r := ReplyReaderCreate(fn);
        reader := r;
        Repr := Repr + r.Repr;
      }
      ValidParts();
    }

    method FeedReader(bytes: seq<byte>)
      requires Valid() && reader != null
      modifies Repr
      ensures Valid() && fresh(Repr - old(Repr)) && NothingSent()
      ensures input == Feed(old(input), bytes) && aim == old(aim) && err == old(err) && reader == old(reader)
    {
      ValidParts();
      ghost var s := Feed(input, bytes);
      reader.Feed(bytes);
      input := s;
      Repr := Repr + reader.Repr;
      ValidParts();
    }

    /** Nothing about the output side has changed. */
    twostate predicate NothingSent()
      reads this
    {
      issued == old(issued) && sent == old(sent)
    }

    /** `redisBufferRead`: feeds what was read to the reader. */
    method BufferRead(r: ReadResult) returns (ok: bool)
      requires Valid() && (r.ReadBytes? ==> r.bytes != [])
      modifies Repr
      ensures Valid() && fresh(Repr - old(Repr)) && NothingSent()
      ensures input == if r.ReadBytes? then Feed(old(input), r.bytes) else old(input)
      ensures ok == (r.ReadAgain? || r.ReadBytes?) && aim == old(aim) && (old(reader) != null ==> reader != null)
      ensures err == if ok then old(err) else if r.ReadEof? then EofError else IoError
    {
      ValidParts();
      ok := true;
      match r
      case ReadFailed =>
        err := IoError;
        ok := false;
        ValidParts();
      case ReadAgain =>
      case ReadEof =>
        err := EofError;
        ok := false;
        ValidParts();
      case ReadBytes(bytes) =>
        CreateReplyReader();
        FeedReader(bytes);
    }

    /** `redisReplyReaderSetPrivdata` on the reader of the connection, with a new zval for the
        next reply; the one before is the connection's no longer. */
    method SetPrivdata(z: Zval)
      requires Valid() && reader != null && aim.between && z !in Repr
      modifies Repr - {aim.held}
      ensures Valid() && Repr <= old(Repr - {aim.held}) + {z} && NothingSent() && reader == old(reader)
      ensures input == old(input) && err == old(err) && aim == Aim(z, z, true)
    {
      ValidParts();
      var ok := reader.SetPrivdata(z);
      Adopt(input);
    }

    /** What is handed out: a `redisReply` tree, or the zval that the reply was begun for. */
    ghost predicate Answers(result: Result, ok: bool, out: Obj, cells: set<object>, target: Zval?)
      reads cells
    {
      && ok == !result.Error?
      && (!result.Delivered? ==> out == NoObj)
      && (result.Delivered? ==> Kind(fn, out) && Shows(out, result.reply, cells) && Tells(out, result.reply, cells))
      && (result.Delivered? && fn.PhpHooks? ==> out.z == target)
    }

    /** The target stays that of a reply that has been begun, until that is handed out. */
    twostate predicate Aimed(r: Result)
      reads this
    {
      && aim.held == old(aim).held
      && if r.NoReply? then aim.target == old(aim).target else aim.target == aim.held && aim.between
    }

    /** What a reply is made of is not part of the connection any more, but for a zval that it
        still holds: commands leave it alone, and so do replies into other zvals. */
    twostate predicate HandedOver(new cells: set<object>)
      reads this
    {
      forall o :: o in cells ==> (o !in Repr || o == aim.held) && (o in old(Repr) || fresh(o))
    }

    /** The hooks need a zval to work on. */
    ghost predicate Armed()
      reads this
    {
      fn.PhpHooks? ==> aim.held != null
    }

    method AskReader() returns (ok: bool, out: Obj, ghost cells: set<object>)
      requires Valid() && reader != null && Armed()
      modifies Repr
      ensures Valid() && fresh(Repr - old(Repr)) && NothingSent() && reader == old(reader)
      ensures var a := GetReply(old(input));
              && input == a.state && Answers(a.result, ok, out, cells, old(aim).target) && Aimed(a.result)
              && err == if ok then old(err) else ProtocolError
      ensures HandedOver(cells)
    {
      ValidParts();
      ghost var a := GetReply(input);
      ok, out, cells := reader.GetReply();
      if !ok {
        err := ProtocolError;
      }
      Adopt(a.state);
    }

    /** The connection owns what its reader owns now. */
    ghost method Adopt(s: ReaderState)
      requires this in Repr && ValidIn(Output) && ValidState(s) && reader != null
      requires reader.fn == fn && reader.Ok() && reader.state == s
      requires this !in reader.Repr && obuf !in reader.Repr && obuf.buf !in reader.Repr
      modifies `input, `aim, `Repr
      ensures Valid() && Repr == {this, obuf, obuf.buf} + reader.Repr && input == s && aim == reader.Aims()
    {
      input, aim := s, reader.Aims();
      Repr := {this, obuf, obuf.buf} + reader.Repr;
      ValidParts();
    }

    /** `redisGetReplyFromReader`, which for a non-blocking context is `redisGetReply`. */
    method GetReplyFromReader() returns (ok: bool, out: Obj, ghost cells: set<object>)
      requires Valid() && Armed()
      modifies Repr
      ensures Valid() && fresh(Repr - old(Repr)) && NothingSent() && reader != null
      ensures var a := GetReply(old(input));
              && input == a.state && Answers(a.result, ok, out, cells, old(aim).target) && Aimed(a.result)
              && err == if ok then old(err) else ProtocolError
      ensures HandedOver(cells)
    {
      CreateReplyReader();
      ok, out, cells := AskReader();
    }

    /** Write until done. */
    method Flush(writes: seq<WriteResult>) returns (r: Written)
      requires Valid()
      modifies Repr
      ensures Valid() && fresh(Repr - old(Repr)) && input == old(input) && aim == old(aim) && issued == old(issued)
      ensures reader == old(reader) && r == FlushOf(old(Unsent()), writes)
      ensures err == (if r.WriteError? then IoError else old(err))
      ensures Unsent() == LeftOf(old(Unsent()), writes) && (r.AllWritten? ==> sent == issued)
    {
      Unwritten();
      var i := 0;
      var done := obuf.len == 0;
      ghost var goal, left := FlushOf(Unsent(), writes), LeftOf(Unsent(), writes);
      assert writes[0..] == writes;
      while !done && i < |writes|
        invariant i <= |writes| && Valid() && fresh(Repr - old(Repr)) && done == (sent == issued)
        invariant input == old(input) && aim == old(aim) && issued == old(issued) && err == old(err)
        invariant reader == old(reader)
        invariant goal == FlushOf(Unsent(), writes[i..]) && left == LeftOf(Unsent(), writes[i..])
      {
        assert writes[i..][0] == writes[i] && writes[i..][1..] == writes[i + 1..];
        Unwritten();
        var w := writes[i];
        var ok;
        ok, done := BufferWrite(if w.Wrote? && w.n > obuf.len then Wrote(obuf.len) else w);
        if !ok {
          return WriteError;
        }
        i := i + 1;
      }
      r := if done then AllWritten else StillWriting;
    }

    /** One round of the read loop. */
    method ReadAndAsk(r: ReadResult) returns (ok: bool, out: Obj, ghost cells: set<object>)
      requires Valid() && Armed()
      modifies Repr
      ensures Valid() && fresh(Repr - old(Repr)) && NothingSent() && HandedOver(cells)
      ensures var a := ReadOnce(old(input), r);
              && input == a.state && Answers(a.result, ok, out, cells, old(aim).target)
              && Recorded(ErrorOf(r, a.result)) && (Fails(r) || Aimed(a.result))
      ensures aim.held == old(aim).held && (old(reader) != null ==> reader != null)
    {
      out, cells := NoObj, {};
      ok := BufferRead(if r == ReadBytes([]) then ReadEof else r);
      if ok {
        ok, out, cells := GetReplyFromReader();
      }
    }

    /** Read until there is a reply. */
    method ReadReply(script: seq<ReadResult>) returns (ok: bool, out: Obj, ghost cells: set<object>)
      requires Valid() && Armed()
      modifies Repr
      ensures Valid() && fresh(Repr - old(Repr)) && NothingSent() && HandedOver(cells)
      ensures var a := Await(old(input), script);
              && input == a.state && Answers(a.result, ok, out, cells, old(aim).target) && Recorded(a.error)
              && (a.error.IoError? || a.error.EofError? || Aimed(a.result))
      ensures aim.held == old(aim).held && (old(reader) != null ==> reader != null)
    {
      var j: nat := 0;
      ghost var goal := Await(input, script);
      assert script[0..] == script;
      while j < |script|
        invariant j <= |script|
        invariant Valid() && fresh(Repr - old(Repr)) && NothingSent() && err == old(err)
        invariant aim.held == old(aim).held && aim.target == old(aim).target && (old(reader) != null ==> reader != null)
        invariant goal.(arrived := []) == Await(input, script[j..]).(arrived := [])
      {
        assert script[j..][0] == script[j] && script[j..][1..] == script[j + 1..];
        ok, out, cells := ReadAndAsk(script[j]);
        if !ok || out != NoObj {
          return;
        }
        j := j + 1;
      }
      ok, out, cells := true, NoObj, {};
    }

    twostate predicate Recorded(e: ContextError)
      reads this
    {
      err == if e == NoError then old(err) else e
    }

    /** Whether a call has to write before it can go on. */
    ghost predicate MustWait()
      reads this
      requires ValidState(input)
    {
      blocking && GetReply(input).result.NoReply?
    }

    /** Where the connection is in a conversation. */
    ghost function Standing(arrived: seq<byte>, handed: seq<Reply>): Talk
      reads this
    {
      Talk(input, issued, sent, arrived, handed, err)
    }

    /** `redisGetReply`. Either what is there and what arrives decides: a reply handed out is
        then the next one of the stream, and a call that had to wait has sent every command
        before. Or the call is still writing, or has failed to. */
    method RedisGetReply(writes: seq<WriteResult>, script: seq<ReadResult>)
      returns (ok: bool, out: Obj, ghost cells: set<object>)
      requires Valid() && Armed()
      modifies Repr
      ensures Valid() && fresh(Repr - old(Repr)) && issued == old(issued) && HandedOver(cells)
      ensures Unsent() == if old(MustWait()) then LeftOf(old(Unsent()), writes) else old(Unsent())
      ensures reader != null
      ensures !old(MustWait()) || FlushOf(old(Unsent()), writes).AllWritten? ==>
        (var a := Fetch(old(input), blocking, script);
         && input == a.state && Answers(a.result, ok, out, cells, old(aim).target) && Recorded(a.error)
         && (a.error.IoError? || a.error.EofError? || Aimed(a.result)))
      ensures old(MustWait()) && !FlushOf(old(Unsent()), writes).AllWritten? ==>
        (&& out == NoObj && input == GetReply(old(input)).state && aim.target == old(aim).target
         && ok == FlushOf(old(Unsent()), writes).StillWriting? && Recorded(if ok then NoError else IoError))
      ensures aim.held == old(aim).held
    {
      ok, out, cells := GetReplyFromReader();
      if ok && out == NoObj && blocking {
        var w := Flush(writes);
        ok := !w.WriteError?;
        if w.AllWritten? {
          ok, out, cells := ReadReply(script);
        }
      }
    }
  }

  // Conversations of the connection itself

  /** The objects handed out show the replies. */
  ghost predicate AllShow(fn: Functions, objs: seq<Obj>, replies: seq<Reply>, cells: seq<set<object>>)
    reads set k, o | 0 <= k < |cells| && o in cells[k] :: o
  {
    && |objs| == |replies| == |cells|
    && forall k :: 0 <= k < |objs| ==> Kind(fn, objs[k]) && Tells(objs[k], replies[k], cells[k])
  }

  /** The connection has no hold on them, except on the last zval until the next one is set. */
  ghost predicate Aside(c: RedisContext, cells: seq<set<object>>, idle: bool)
    reads c
  {
    forall k, o :: 0 <= k < |cells| && o in cells[k] ==> o !in c.Repr || (idle && o == c.aim.held)
  }

  /** Ready for the next turn, with or without a reply that has been begun. */
  ghost predicate Talking(c: RedisContext, idle: bool)
    reads c, c.Repr
  {
    && c.Valid() && c.err == NoError
    && if c.fn.DefaultFunctions? then c.aim.held == null
       else if idle then c.reader != null && c.aim.between
       else c.aim.held != null && c.aim.target != null
  }

  /** With the PHP hooks every reply goes into a new zval, unless one has been begun. */
  method Prepare(c: RedisContext, idle: bool,
    ghost objs: seq<Obj>, ghost replies: seq<Reply>, ghost cells: seq<set<object>>)
    requires Talking(c, idle) && AllShow(c.fn, objs, replies, cells) && Aside(c, cells, idle)
    modifies c.Repr - (if idle then {c.aim.held} else {})
    ensures Talking(c, false) && AllShow(c.fn, objs, replies, cells) && Aside(c, cells, false)
    ensures c.Standing([], []) == old(c.Standing([], [])) && fresh(c.Repr - old(c.Repr))
  {
    if idle && c.fn.PhpHooks? {
      var z := new Zval();
      c.SetPrivdata(z);
    }
  }

  /** What a reply that was asked for comes to. */
  method Ask(c: RedisContext, writes: seq<WriteResult>, script: seq<ReadResult>,
    ghost objs: seq<Obj>, ghost replies: seq<Reply>, ghost cells: seq<set<object>>, ghost t: Talk)
    returns (out: Obj, ghost reply: Reply, ghost used: set<object>)
    requires Talking(c, false) && AllShow(c.fn, objs, replies, cells) && Aside(c, cells, false)
    requires ValidTalk(t) && t == c.Standing(t.arrived, replies)
    modifies c.Repr
    ensures c.Valid() && fresh(c.Repr - old(c.Repr)) && (c.err == NoError ==> Talking(c, out != NoObj))
    ensures AllShow(c.fn, objs, replies, cells) && Aside(c, cells, false) && Aside(c, [used], true)
    ensures var u := AfterGet(t, c.blocking, writes, script);
            && u == c.Standing(u.arrived, u.handed)
            && u.handed == (if out == NoObj then replies else replies + [reply])
            && (out != NoObj ==> Kind(c.fn, out) && Tells(out, reply, used))
  {
    ghost var u := AfterGet(t, c.blocking, writes, script);
    reply := if u.handed == [] then NilReply else u.handed[|u.handed| - 1];
    var ok;
    ok, out, used := c.RedisGetReply(writes, script);
  }

  lemma {:induction false} ShowsMore(
    c: RedisContext, objs: seq<Obj>, replies: seq<Reply>, cells: seq<set<object>>, out: Obj, reply: Reply,
    used: set<object>)
    requires AllShow(c.fn, objs, replies, cells) && Kind(c.fn, out) && Tells(out, reply, used)
    requires Aside(c, cells, false) && Aside(c, [used], true)
    ensures AllShow(c.fn, objs + [out], replies + [reply], cells + [used]) && Aside(c, cells + [used], true)
  {
    assert [used][0] == used;
  }

  /** One turn of a conversation. */
  method TakeTurn(c: RedisContext, x: Turn, idle: bool, objs: seq<Obj>, ghost cells: seq<set<object>>, ghost t: Talk)
    returns (idle': bool, objs': seq<Obj>, ghost cells': seq<set<object>>)
    requires Talking(c, idle) && Aside(c, cells, idle) && AllShow(c.fn, objs, t.handed, cells)
    requires ValidTalk(t) && t == c.Standing(t.arrived, t.handed)
    modifies c.Repr
    ensures var u := AfterTurn(t, c.blocking, x);
            u == c.Standing(u.arrived, u.handed) && AllShow(c.fn, objs', u.handed, cells')
    ensures c.Valid() && fresh(c.Repr - old(c.Repr)) && Aside(c, cells', idle')
    ensures c.err == NoError ==> Talking(c, idle')
  {
    idle', objs', cells' := idle, objs, cells;
    if x.Append? {
      c.AppendCommand(x.cmd);
    } else {
      Prepare(c, idle, objs, t.handed, cells);
      var out;
      ghost var reply, used;
      out, reply, used := Ask(c, x.writes, x.script, objs, t.handed, cells, t);
      idle' := out != NoObj;
      if idle' {
        ShowsMore(c, objs, t.handed, cells, out, reply, used);
        objs', cells' := objs + [out], cells + [used];
      }
    }
  }

  /** Every conversation, whatever the order of its turns: the connection goes where the pure
      conversation goes, the objects it hands out show the replies, one after the other, and
      these are the first replies of what has arrived. */
  method Hold(c: RedisContext, turns: seq<Turn>) returns (objs: seq<Obj>, ghost cells: seq<set<object>>)
    requires Talking(c, true) && c.input == INITIAL
    modifies c.Repr
    ensures c.Valid() && fresh(c.Repr - old(c.Repr))
    ensures var u := Converse(old(c.Standing([], [])), c.blocking, turns);
            && u == c.Standing(u.arrived, u.handed) && AllShow(c.fn, objs, u.handed, cells)
            && u.handed <= Drain(IDLE, u.arrived).replies
  {
    objs, cells := [], [];
    ghost var t := c.Standing([], []);
    ghost var goal := Converse(t, c.blocking, turns);
    WaitsOnNothing(IDLE);
    ConversationStreams(t, c.blocking, turns);
    var idle, i := true, 0;
    assert turns[0..] == turns;
    while i < |turns| && c.err == NoError
      invariant i <= |turns| && c.Valid() && ValidTalk(t) && t == c.Standing(t.arrived, t.handed)
      invariant fresh(c.Repr - old(c.Repr)) && Aside(c, cells, idle) && (c.err == NoError ==> Talking(c, idle))
      invariant AllShow(c.fn, objs, t.handed, cells)
      invariant goal == Converse(t, c.blocking, turns[i..])
    {
      assert turns[i..][0] == turns[i] && turns[i..][1..] == turns[i + 1..];
      idle, objs, cells := TakeTurn(c, turns[i], idle, objs, cells, t);
      t := AfterTurn(t, c.blocking, turns[i]);
      i := i + 1;
    }
  }
}

/** Commands on the wire: `redisFormatCommandArgv` and `redisvFormatCommand`, each of
    which sizes its buffer exactly and then fills it, and the reader as their inverse. */
module Commands {
  import opened Bytes
  import opened Numerals
  import opened Replies
  import opened Machine
  import opened Grammar
  import opened Printing

  /** A command as the reply that a reader on the other side would see. */
  function Request(argv: seq<seq<byte>>): Reply {
    ArrayReply(Bulks(argv))
  }

  function Bulks(argv: seq<seq<byte>>): (rs: seq<Reply>)
    ensures |rs| == |argv|
  {
    seq(|argv|, i requires 0 <= i < |argv| => StringReply(argv[i]))
  }

  // Writing into the command buffer

  /** `memcpy` into the buffer. */
  method Copy(cmd: array<byte>, pos: nat, s: seq<byte>)
    requires pos + |s| <= cmd.Length
    modifies cmd
    ensures cmd[..pos + |s|] == old(cmd[..pos]) + s
  {
    forall i | 0 <= i < |s| {
      cmd[pos + i] := s[i];
    }
    assert cmd[..pos] == old(cmd[..pos]);
    assert cmd[pos..pos + |s|] == s;
    assert cmd[..pos + |s|] == cmd[..pos] + cmd[pos..pos + |s|];
  }

  /** `sprintf` of a type byte, a count and CRLF; it also writes a terminator. */
  method PrintCount(cmd: array<byte>, pos: nat, mark: byte, n: nat) returns (written: nat)
    requires pos + |PrintLine(mark, Numeral(n))| < cmd.Length
    modifies cmd
    ensures written == |PrintLine(mark, Numeral(n))|
    ensures cmd[..pos + written] == old(cmd[..pos]) + PrintLine(mark, Numeral(n))
  {
    var line := PrintLine(mark, Numeral(n));
    Copy(cmd, pos, line);
    written := |line|;
    ghost var before := cmd[..pos + written];
    cmd[pos + written] := NUL;
    assert cmd[..pos + written] == before;
  }

  lemma {:induction false} PrintAllJoins(rs: seq<Reply>, ss: seq<Reply>)
    ensures PrintAll(rs + ss) == PrintAll(rs) + PrintAll(ss)
    decreases |rs|
  {
    if rs == [] {
      assert rs + ss == ss;
    } else {
      assert (rs + ss)[0] == rs[0] && (rs + ss)[1..] == rs[1..] + ss;
      PrintAllJoins(rs[1..], ss);
    }
  }

  /** Printing one argument more. */
  lemma {:induction false} PrintNext(argv: seq<seq<byte>>, j: nat)
    requires j < |argv|
    ensures PrintAll(Bulks(argv[..j + 1])) == PrintAll(Bulks(argv[..j])) + Print(StringReply(argv[j]))
    ensures |PrintAll(Bulks(argv[..j + 1]))| <= |PrintAll(Bulks(argv))|
  {
    var r := StringReply(argv[j]);
    assert Bulks(argv[..j + 1]) == Bulks(argv[..j]) + [r];
    PrintAllJoins(Bulks(argv[..j]), [r]);
    assert PrintAll([r]) == Print(r) + PrintAll([r][1..]);
    assert Bulks(argv) == Bulks(argv[..j + 1]) + Bulks(argv[j + 1..]);
    PrintAllJoins(Bulks(argv[..j + 1]), Bulks(argv[j + 1..]));
  }

  /** One argument: its length line, its bytes, CRLF. */
  method PrintArgument(cmd: array<byte>, start: nat, arg: seq<byte>) returns (pos: nat)
    requires start + |Print(StringReply(arg))| < cmd.Length
    modifies cmd
    ensures pos == start + |Print(StringReply(arg))|
    ensures cmd[..pos] == old(cmd[..start]) + Print(StringReply(arg))
  {
    ghost var before := cmd[..start];
    var n := PrintCount(cmd, start, DOLLAR, |arg|);
    pos := start + n;
    Copy(cmd, pos, arg);
    pos := pos + |arg|;
    Copy(cmd, pos, CRLF);
    pos := pos + 2;
    assert before + PrintLine(DOLLAR, Numeral(|arg|)) + arg + CRLF ==
      before + (PrintLine(DOLLAR, Numeral(|arg|)) + arg + CRLF);
  }

  /** All arguments, one after the other. */
  method PrintArguments(cmd: array<byte>, start: nat, argv: seq<seq<byte>>) returns (pos: nat)
    requires start + |PrintAll(Bulks(argv))| < cmd.Length
    modifies cmd
    ensures pos == start + |PrintAll(Bulks(argv))|
    ensures cmd[..pos] == old(cmd[..start]) + PrintAll(Bulks(argv))
  {
    ghost var header := cmd[..start];
    pos := start;
    var j := 0;
    assert argv[..0] == [];
    while j < |argv|
      invariant j <= |argv| && pos == start + |PrintAll(Bulks(argv[..j]))| <= start + |PrintAll(Bulks(argv))|
      invariant cmd[..pos] == header + PrintAll(Bulks(argv[..j]))
    {
      PrintNext(argv, j);
      ghost var done := PrintAll(Bulks(argv[..j]));
      pos := PrintArgument(cmd, pos, argv[j]);
      assert header + (done + Print(StringReply(argv[j]))) == header + done + Print(StringReply(argv[j]));
      j := j + 1;
    }
    assert argv[..j] == argv;
  }

  /** Fills a buffer of exactly the announced size. Every write stays within
      `totlen + 1` bytes, and the final position is `totlen`. */
  method BuildCommand(argv: seq<seq<byte>>, totlen: nat) returns (cmd: array<byte>)
    requires totlen == |Print(Request(argv))|
    ensures fresh(cmd) && cmd.Length == totlen + 1 && cmd[..totlen] == Print(Request(argv)) && cmd[totlen] == NUL
  {
    cmd := new byte[totlen + 1];
    var pos := PrintCount(cmd, 0, STAR, |argv|);
    pos := PrintArguments(cmd, pos, argv);
    assert pos == totlen;
    ghost var text := cmd[..totlen];
    cmd[totlen] := NUL;
    assert cmd[..totlen] == text;
  }

  /** The size of one argument on the wire, as both formatters add it up. */
  method ArgumentSize(len: nat) returns (size: nat)
    ensures forall s: seq<byte> :: |s| == len ==> size == |Print(StringReply(s))|
  {
    var digits := IntLen(len);
    size := 1 + digits + 2 + len + 2;
  }

  /** A C string: the bytes before the terminator. */
  function CString(memory: seq<byte>): (s: seq<byte>)
    requires NUL in memory
    ensures |s| < |memory| && s == memory[..|s|] && memory[|s|] == NUL && NUL !in s
  {
    if memory[0] == NUL then [] else [memory[0]] + CString(memory[1..])
  }

  /** `strlen`. */
  method StrLen(memory: seq<byte>) returns (n: nat)
    requires NUL in memory
    ensures n < |memory| && memory[n] == NUL && memory[..n] == CString(memory)
  {
    n := 0;
    while memory[n] != NUL
      invariant n < |memory| && NUL !in memory[..n] && (exists i :: n <= i < |memory| && memory[i] == NUL)
      decreases |memory| - n
    {
      n := n + 1;
    }
    CStringEnds(memory, n);
  }

  lemma {:induction false} CStringEnds(memory: seq<byte>, n: nat)
    requires n < |memory| && memory[n] == NUL && NUL !in memory[..n]
    ensures CString(memory) == memory[..n]
    decreases n
  {
    if n > 0 {
      assert memory[..n][0] == memory[0] && memory[1..][..n - 1] == memory[..n][1..];
      CStringEnds(memory[1..], n - 1);
      assert [memory[0]] + memory[1..][..n - 1] == memory[..n];
    }
  }

  /** What a caller has to supply: lengths within the memory, or terminated strings. */
  predicate Readable(argv: seq<seq<byte>>, argvlen: Option<seq<nat>>) {
    match argvlen
    case None => forall j :: 0 <= j < |argv| ==> NUL in argv[j]
    case Some(lens) => |lens| == |argv| && forall j :: 0 <= j < |argv| ==> lens[j] <= |argv[j]|
  }

  /** The arguments a caller means: with lengths they are binary safe, without they are
      C strings. */
  ghost predicate AreArguments(argv: seq<seq<byte>>, argvlen: Option<seq<nat>>, args: seq<seq<byte>>)
    requires Readable(argv, argvlen)
  {
    && |args| == |argv|
    && (argvlen.Some? ==> forall j :: 0 <= j < |argv| ==> args[j] == argv[j][..argvlen.value[j]])
    && (argvlen.None? ==> forall j :: 0 <= j < |argv| ==>
        |args[j]| < |argv[j]| && args[j] == argv[j][..|args[j]|] && argv[j][|args[j]|] == 0 && 0 !in args[j])
  }

  /** The length of one argument, given or measured, and the size it takes on the wire. */
  method MeasureArguments(argv: seq<seq<byte>>, argvlen: Option<seq<nat>>)
    returns (args: seq<seq<byte>>, size: nat)
    requires Readable(argv, argvlen)
    ensures AreArguments(argv, argvlen, args) && size == |PrintAll(Bulks(args))|
  {
    args, size := [], 0;
    for j := 0 to |argv|
      invariant |args| == j && size == |PrintAll(Bulks(args))|
      invariant AreArguments(argv[..j], if argvlen.Some? then Some(argvlen.value[..j]) else None, args)
    {
      var len: nat;
      if argvlen.Some? {
        len := argvlen.value[j];
      } else {
        len := StrLen(argv[j]);
      }
      ghost var before := args;
      args := args + [argv[j][..len]];
      PrintNext(args, j);
      assert args[..j] == before && args[..j + 1] == args;
      var more := ArgumentSize(len);
      size := size + more;
    }
    assert argv[..|argv|] == argv && (argvlen.Some? ==> argvlen.value[..|argv|] == argvlen.value);
  }

  /** `redisFormatCommandArgv`: a reader on the other side sees an array with one string for
      each argument. */
  method FormatCommandArgv(argv: seq<seq<byte>>, argvlen: Option<seq<nat>>)
    returns (cmd: array<byte>, totlen: nat, ghost args: seq<seq<byte>>)
    requires Readable(argv, argvlen)
    ensures fresh(cmd) && cmd.Length == totlen + 1 && cmd[totlen] == NUL
    ensures AreArguments(argv, argvlen, args) && cmd[..totlen] == Print(Request(args))
    ensures |argv| <= INT_MAX ==> forall more :: ReadsAs(cmd[..totlen] + more, args, more)
  {
    var taken, size := MeasureArguments(argv, argvlen);
    args := taken;
    var digits := IntLen(|taken|);
    totlen := 1 + digits + 2 + size;
    cmd := BuildCommand(taken, totlen);
    if |argv| <= INT_MAX {
      forall more
        ensures ReadsAs(cmd[..totlen] + more, args, more)
      {
        RequestReadsBack(args, more);
      }
    }
  }

  /** The reader takes the strings `args` from the front of `b` and leaves the rest. */
  ghost predicate ReadsAs(b: seq<byte>, args: seq<seq<byte>>, rest: seq<byte>) {
    exists items: seq<Reply> :: IsStrings(items, args) && Run(IDLE, b) == Outcome.Got(ArrayReply(items), rest)
  }

  ghost predicate IsStrings(items: seq<Reply>, args: seq<seq<byte>>) {
    |items| == |args| && forall j :: 0 <= j < |items| ==> items[j] == StringReply(args[j])
  }

  lemma {:induction false} RequestReadsBack(args: seq<seq<byte>>, more: seq<byte>)
    requires |args| <= INT_MAX
    ensures ReadsAs(Print(Request(args)) + more, args, more)
  {
    BulksPrintable(args, 1);
    PrintReadRoundTrip(Request(args), more);
    assert IsStrings(Bulks(args), args);
  }

  // The reader inverts the formatter

  function Stream(commands: seq<seq<seq<byte>>>): seq<byte> {
    if commands == [] then [] else Print(Request(commands[0])) + Stream(commands[1..])
  }

  function Requests(commands: seq<seq<seq<byte>>>): (rs: seq<Reply>)
    ensures |rs| == |commands|
  {
    seq(|commands|, i requires 0 <= i < |commands| => Request(commands[i]))
  }

  lemma {:induction false} BulksPrintable(argv: seq<seq<byte>>, level: nat)
    ensures AllPrintable(Bulks(argv), level)
    decreases |argv|
  {
    if argv != [] {
      assert Bulks(argv)[1..] == Bulks(argv[1..]);
      BulksPrintable(argv[1..], level);
    }
  }

  /** Any concatenation of commands, binary arguments and empty commands included, is
      read back as exactly these commands, with nothing left over. */
  lemma {:induction false} FormatParseRoundTrip(commands: seq<seq<seq<byte>>>)
    requires forall i :: 0 <= i < |commands| ==> |commands[i]| <= INT_MAX
    ensures Drain(IDLE, Stream(commands)) == Trace(Requests(commands), Live(IDLE, []))
  {
    StreamEncodes(commands);
    DrainEncodings(Stream(commands), Requests(commands), []);
    assert Stream(commands) + [] == Stream(commands);
    WaitsOnNothing(IDLE);
    assert Requests(commands) + [] == Requests(commands);
  }

  lemma {:induction false} StreamEncodes(commands: seq<seq<seq<byte>>>)
    requires forall i :: 0 <= i < |commands| ==> |commands[i]| <= INT_MAX
    ensures EncodesAll(Stream(commands), Requests(commands), 0)
    decreases |commands|
  {
    if commands != [] {
      BulksPrintable(commands[0], 1);
      PrintEncodes(Request(commands[0]), 0);
      StreamEncodes(commands[1..]);
      EncodesFirst(Print(Request(commands[0])), Request(commands[0]), Stream(commands[1..]), Requests(commands[1..]),
        0);
      assert Requests(commands) == [Request(commands[0])] + Requests(commands[1..]);
    }
  }
}

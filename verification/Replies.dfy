/** Reply values, the type bytes that announce them, and how one item is read
    from the bytes that follow its type byte. */
module Replies {
  import opened Bytes
  import opened Numerals

  datatype Reply =
    | ErrorReply(text: seq<byte>)
    | StatusReply(text: seq<byte>)
    | IntegerReply(value: int)
    | NilReply
    | StringReply(body: seq<byte>)
    | ArrayReply(items: seq<Reply>)

  /** The `type` field of a read task; `Unset` is the source's -1. */
  datatype TaskType = Unset | ErrorType | StatusType | IntegerType | StringType | ArrayType

  /** Why a reader gives up. `BadCount` is an array count below -1 or beyond `int`:
      the source then runs out of memory or truncates the count, and the model stops. */
  datatype Fault = BadType(b: byte) | TooDeep | BadCount

  /** Array levels the three-slot task stack can hold. */
  const MAX_LEVELS := 2

  function TypeOf(b: byte): TaskType {
    if b == MINUS then ErrorType
    else if b == PLUS then StatusType
    else if b == COLON then IntegerType
    else if b == DOLLAR then StringType
    else if b == STAR then ArrayType
    else Unset
  }

  /** What follows a type byte: nothing usable yet, a complete leaf, the header of
      a non-empty array, or a count that cannot be handled. */
  datatype Item = Incomplete | Leaf(reply: Reply, size: nat) | Header(count: nat, size: nat) | Broken(fault: Fault)

  function LineReply(ty: TaskType, line: seq<byte>): Reply
    requires ty.ErrorType? || ty.StatusType? || ty.IntegerType?
  {
    if ty.ErrorType? then ErrorReply(line)
    else if ty.StatusType? then StatusReply(line)
    else IntegerReply(ReadLongLong(line))
  }

  /** The two bytes after a bulk body are skipped whatever they are. */
  function BulkItem(b: seq<byte>, k: nat): Item
    requires k + 2 <= |b|
  {
    var len := ReadLongLong(b[..k]);
    if len < 0 then Leaf(NilReply, k + 2)
    else if k + 2 + len + 2 <= |b| then Leaf(StringReply(b[k + 2..k + 2 + len]), k + 2 + len + 2)
    else Incomplete
  }

  function ArrayItem(line: seq<byte>): Item {
    var count := ReadLongLong(line);
    if count == -1 then Leaf(NilReply, |line| + 2)
    else if count < -1 || count > INT_MAX then Broken(BadCount)
    else if count == 0 then Leaf(ArrayReply([]), |line| + 2)
    else Header(count, |line| + 2)
  }

  function ReadItem(ty: TaskType, b: seq<byte>): (i: Item)
    requires !ty.Unset?
    ensures (i.Leaf? || i.Header?) ==> 2 <= i.size <= |b|
    ensures i.Header? ==> ty.ArrayType? && 0 < i.count <= INT_MAX
  {
    var end := FirstCrlf(b);
    if end.None? then Incomplete
    else if ty.StringType? then BulkItem(b, end.value)
    else if ty.ArrayType? then ArrayItem(b[..end.value])
    else Leaf(LineReply(ty, b[..end.value]), end.value + 2)
  }

  /** An item once read is not reconsidered when more bytes arrive. */
  lemma {:induction false} ReadItemExtends(ty: TaskType, b: seq<byte>, c: seq<byte>)
    requires !ty.Unset? && !ReadItem(ty, b).Incomplete?
    ensures ReadItem(ty, b + c) == ReadItem(ty, b)
  {
    FirstCrlfExtends(b, c);
    var k := FirstCrlf(b).value;
    assert (b + c)[..k] == b[..k];
    var len := ReadLongLong(b[..k]);
    if 0 <= len && k + 2 + len + 2 <= |b| {
      assert (b + c)[k + 2..k + 2 + len] == b[k + 2..k + 2 + len];
    }
  }
}

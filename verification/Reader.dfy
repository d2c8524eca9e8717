/** `redisReader`: the resumable reply reader with its three-slot task stack, working in
    place on an `sds` buffer and on the objects of the reply under construction. */
module Reader {
  import opened Bytes
  import opened Numerals
  import opened Replies
  import opened Machine
  import opened Sessions
  import opened SdsStrings
  import opened Objects
  import opened Builders

  /** `seekNewline`: offset of the first CRLF within `s[start..start + len]`, or -1.
      It may look at `s[start + len]`, which is why the terminator must be there. */
  method SeekNewline(s: array<byte>, start: nat, len: nat) returns (r: int)
    requires start + len < s.Length && s[start + len] == NUL
    ensures var c := FirstCrlf(s[start..start + len]); r == if c.Some? then c.value else -1
  {
    ghost var line := s[start..start + len];
    var pos, last := 0, len - 1;
    while pos < last
      invariant 0 <= pos <= len
      invariant forall i :: 0 <= i < pos ==> !CrlfAt(line, i)
      decreases len - pos
    {
      while pos < last && s[start + pos] != CR
        invariant 0 <= pos <= last
        invariant forall i :: 0 <= i < pos ==> !CrlfAt(line, i)
      {
        pos := pos + 1;
      }
      if s[start + pos] != CR {
        return -1;
      } else if s[start + pos + 1] == LF {
        FirstCrlfUnique(line, pos);
        return pos;
      } else {
        pos := pos + 1;
      }
    }
    return -1;
  }

  /** The front half of `processBulkItem`: the length line and, unless the item is nil,
      its whole body must be there. */
  method SeekBulk(s: array<byte>, pos: nat, len: nat) returns (ok: bool, nil: bool, str: seq<byte>, bytelen: nat)
    requires pos <= len < s.Length && s[len] == NUL
    ensures var i := ReadItem(StringType, s[pos..len]);
            && ok == i.Leaf? == !i.Incomplete?
            && (ok ==> i.reply == (if nil then NilReply else StringReply(str)) && bytelen == i.size)
  {
    ghost var b := s[pos..len];
    ok, nil, str, bytelen := false, false, [], 0;
    Slices(s, pos, len, 0, len - pos);
    var at := SeekNewline(s, pos, len - pos);
    if at >= 0 {
      Slices(s, pos, len, 0, at);
      bytelen := at + 2;
      var n;
      ghost var peak;
      n, peak := ReadLongLongAt(s, pos, pos + at);
      if n < 0 {
        ok, nil := true, true;
      } else {
        bytelen := bytelen + n + 2;
        if pos + bytelen <= len {
          Slices(s, pos, len, at + 2, at + 2 + n);
          ok, str := true, s[pos + at + 2..pos + at + 2 + n];
        }
      }
    }
  }

  lemma {:induction false} Slices(s: array<byte>, pos: nat, len: nat, i: nat, j: nat)
    requires i <= j && pos + j <= len <= s.Length
    ensures s[pos..len][i..j] == s[pos + i..pos + j]
    ensures pos + j < len ==> s[pos + j] == s[pos..len][j]
  {
    var b, c := s[pos..len][i..j], s[pos + i..pos + j];
    assert |b| == |c| == j - i;
    assert forall k :: 0 <= k < j - i ==> b[k] == s[pos + i + k] == c[k];
  }

  lemma {:induction false} LineItem(ty: TaskType, b: seq<byte>)
    requires ty.ErrorType? || ty.StatusType? || ty.IntegerType?
    ensures var c := FirstCrlf(b);
            ReadItem(ty, b) == if c.None? then Incomplete else Leaf(LineReply(ty, b[..c.value]), c.value + 2)
  {
  }

  datatype StackPart = Separate | Linked
  datatype ReaderPart = Footprint | Behaviour

  /** The private data of a reader, the zval that receives the reply that has been begun or
      comes next, and whether none has been begun. */
  datatype Aim = Aim(held: Zval?, target: Zval?, between: bool)

  class RedisReader {
    const fn: Functions
    var error: Option<Fault>
    var reply: Obj
    var buf: Sds
    var pos: nat
    var len: nat
    const rstack: seq<ReadTask>
    var ridx: int
    var privdata: Zval?

    ghost var open: seq<Frame> // the open arrays with their completed elements
    ghost var done: set<object> // memory of the completed elements
    ghost var region: set<object> // memory the reply under construction may use
    ghost var state: ReaderState // the state of the pure reader this object represents
    ghost var Repr: set<object>

    constructor (fn: Functions, t0: ReadTask, t1: ReadTask, t2: ReadTask, b: Sds)
      requires t0 != t1 && t0 != t2 && t1 != t2 && t0.parent == null && t0.privdata == null && b.Valid()
      requires b.content == []
      ensures Ok() && Between() && state == INITIAL && this.fn == fn && privdata == null
      ensures Repr == {this, b, b.buf, t0, t1, t2}
    {
      this.fn, error, reply, buf, pos, len := fn, None, NoObj, b, 0, 0;
      rstack, ridx, privdata := [t0, t1, t2], -1, null;
      open, done, region, state := [], {}, {}, INITIAL;
      Repr := {};
      new;
      Publish(INITIAL);
    }

    // The buffer

    ghost predicate Stale()
      reads `buf, `len, `pos, buf
    {
      buf.len == 0 && len > 0 && pos == 0
    }

    ghost predicate BufOk()
      reads `buf, `len, `pos, buf, buf.buf
    {
      buf.Valid() && (Stale() || (len == buf.len && pos <= len))
    }

    /** The bytes the parser will look at; a stale reader finds the terminator. */
    ghost function Unread(): seq<byte>
      reads `buf, `len, `pos, buf, buf.buf
      requires BufOk()
    {
      if Stale() then [NUL] else buf.content[pos..]
    }

    // The task stack

    ghost predicate TasksOk()
      reads rstack
    {
      && |rstack| == 3 && rstack[0] != rstack[1] && rstack[0] != rstack[2] && rstack[1] != rstack[2]
      && rstack[0].parent == null
    }

    ghost function OpenCells(): set<object>
      reads `ridx, rstack
      requires |rstack| == 3
    {
      (if ridx >= 1 then Cells(rstack[0].obj) else {}) + (if ridx >= 2 then Cells(rstack[1].obj) else {})
    }

    ghost function RootCell(): set<object>
      reads `ridx, rstack
      requires |rstack| == 3
    {
      if ridx >= 0 && fn.PhpHooks? && rstack[0].privdata != null then {rstack[0].privdata} else {}
    }

    /** Memory written while a reply is being built. */
    ghost function Writable(): set<object>
      reads `ridx, rstack
      requires |rstack| == 3
    {
      OpenCells() + RootCell()
    }

    /** The reader itself is not part of a reply. */
    ghost predicate Apart()
      reads `done, rstack
    {
      this !in done && forall t :: t in rstack ==> t !in done
    }

    /** Task `i` is an open array holding `f`, and the next task is its element. */
    ghost predicate Level(i: nat, f: Frame, child: Obj)
      requires |rstack| == 3 && i < 2
      reads `done, rstack, done, Cells(rstack[i].obj)
    {
      && rstack[i].ty.ArrayType? && rstack[i].elements == f.count
      && Kind(fn, rstack[i].obj) && Cells(rstack[i].obj) !! done && IsOpen(rstack[i].obj, f, child, done)
      && rstack[i + 1].parent == rstack[i]
    }

    /** The stack holds exactly the open arrays `fs`, adjacent slots linked. */
    ghost predicate Levels(fs: seq<Frame>)
      requires |rstack| == 3
      reads `done, `ridx, `reply, rstack, done, OpenCells()
    {
      && 0 <= ridx <= 2 && |fs| == ridx
      && (fn.PhpHooks? ==> rstack[0].privdata != null)
      && (ridx == 0 ==> done == {} && reply == NoObj)
      && (ridx >= 1 ==>
            && Level(0, fs[0], if ridx == 2 then rstack[1].obj else NoObj)
            && reply == rstack[0].obj
            && (fn.PhpHooks? ==> rstack[0].obj == ZvalObj(rstack[0].privdata)))
      && (ridx == 2 ==> Level(1, fs[1], NoObj) && Cells(rstack[0].obj) !! Cells(rstack[1].obj))
    }

    /** Exactly the first `idx` elements of each open array are filled. */
    ghost predicate Indexed()
      requires |rstack| == 3
      reads `ridx, `open, rstack
    {
      && 0 <= ridx <= 2 && |open| == ridx && ValidFrames(open)
      && forall i :: 0 <= i < ridx ==> rstack[i + 1].idx == |open[i].items| < open[i].count
    }

    /** The parts of the stack invariant that few methods look into. */
    ghost predicate Standing(p: StackPart, fs: seq<Frame>)
      requires |rstack| == 3
      reads `done, `ridx, `reply, rstack, done, OpenCells()
    {
      match p
      case Separate => Apart()
      case Linked => Levels(fs)
    }

    ghost predicate Framed()
      reads `done, `ridx, `reply, `open, rstack, done, if |rstack| == 3 then OpenCells() else {}
    {
      TasksOk() && Indexed() && forall p: StackPart :: Standing(p, open)
    }

    lemma {:induction false} FramedParts()
      requires |rstack| == 3
      ensures Framed() <==> TasksOk() && Indexed() && Apart() && Levels(open)
    {
      assert Framed() ==> Standing(Separate, open) && Standing(Linked, open);
    }

    ghost predicate Busy()
      reads `done, `ridx, `reply, `open, rstack, done, if |rstack| == 3 then OpenCells() else {}
    {
      Framed() && (rstack[ridx].ty.ArrayType? ==> ridx < 2)
    }

    ghost function Task(): Parse
      requires |rstack| == 3 && 0 <= ridx <= 2
      reads `ridx, `open, rstack
    {
      Parse(open, rstack[ridx].ty)
    }

    ghost function WithLast(t: Reply): seq<Frame>
      requires open != []
      reads `open
    {
      open[..|open| - 1] + [open[|open| - 1].(items := open[|open| - 1].items + [t])]
    }

    ghost predicate PlacedIn(p: StackPart, t: Reply, o: Obj)
      requires TasksOk() && Indexed()
      reads `done, `ridx, `reply, `open, rstack, done, if |rstack| == 3 then OpenCells() else {}
    {
      match p
      case Separate => Apart()
      case Linked => if ridx == 0 then Shows(o, t, done) else Levels(WithLast(t))
    }

    /** The object `o` of the current element is finished and shows `t`. */
    ghost predicate Placed(t: Reply, o: Obj)
      reads `done, `ridx, `reply, `open, rstack, done, if |rstack| == 3 then OpenCells() else {}
    {
      TasksOk() && Indexed() && forall p: StackPart :: PlacedIn(p, t, o)
    }

    lemma {:induction false} PlacedParts(t: Reply, o: Obj)
      ensures Placed(t, o) <==> TasksOk() && Indexed() && PlacedIn(Separate, t, o) && PlacedIn(Linked, t, o)
    {
    }

    lemma {:induction false} Enclosed(t: Reply, o: Obj)
      requires Placed(t, o)
      ensures Apart() && (ridx == 0 ==> Shows(o, t, done))
      ensures ridx >= 1 ==> rstack[ridx - 1].ty.ArrayType? && rstack[ridx - 1].elements == open[ridx - 1].count
    {
      PlacedParts(t, o);
    }

    /** A completed array shows its elements, and counts as an element of its parent. */
    lemma {:induction false} ArrayCompletes(t: Reply, o: Obj)
      requires Placed(t, o) && ridx >= 1 && |open[ridx - 1].items| + 1 == open[ridx - 1].count
      ensures var prv, items := rstack[ridx - 1].obj, open[ridx - 1].items + [t];
              && Shows(prv, ArrayReply(items), done + Cells(prv))
              && (ridx == 2 ==>
                  IsOpen(rstack[0].obj, open[0].(items := open[0].items + [ArrayReply(items)]), NoObj,
                    done + Cells(prv)))
    {
      PlacedParts(t, o);
      var prv, f := rstack[ridx - 1].obj, WithLast(t)[ridx - 1];
      CloseArray(prv, f, done);
      if ridx == 2 {
        CloseChild(rstack[0].obj, open[0], prv, ArrayReply(f.items), done, done + Cells(prv));
      }
    }

    /** The pop of `moveToNextTask`. */
    method Pop(ghost t: Reply, ghost o: Obj)
      requires Placed(t, o) && ridx >= 1 && |open[ridx - 1].items| + 1 == open[ridx - 1].count
      modifies `ridx, `open, `done
      ensures ridx == old(ridx) - 1 && open == old(open)[..ridx]
      ensures done == old(done) + Cells(rstack[ridx].obj)
      ensures Placed(ArrayReply(old(open)[ridx].items + [t]), reply)
    {
      PlacedParts(t, o);
      ArrayCompletes(t, o);
      ghost var e := ArrayReply(open[ridx - 1].items + [t]);
      done := done + Cells(rstack[ridx - 1].obj);
      open := open[..ridx - 1];
      ridx := ridx - 1;
      assert PlacedIn(Separate, e, reply) && PlacedIn(Linked, e, reply);
      PlacedParts(e, reply);
    }

    method NextElement(cur: ReadTask)
      modifies cur`ty, cur`elements, cur`idx
      ensures cur.ty == Unset && cur.idx == old(cur.idx) + 1
    {
      cur.ty := Unset;
      cur.elements := -1;
      cur.idx := cur.idx + 1;
    }

    method Retask(ghost fs: seq<Frame>)
      requires TasksOk() && Apart() && 1 <= ridx <= 2 && Levels(fs)
      modifies rstack[ridx]
      ensures Apart() && Levels(fs) && rstack[ridx].ty == Unset && rstack[ridx].idx == old(rstack[ridx].idx) + 1
      ensures rstack[ridx].obj == old(rstack[ridx].obj) && rstack[ridx].privdata == old(rstack[ridx].privdata)
      ensures TasksOk()
    {
      NextElement(rstack[ridx]);
    }

    static lemma {:induction false} MoreItems(open: seq<Frame>, fs: seq<Frame>, t: Reply)
      requires open != [] && ValidFrames(open) && |open[|open| - 1].items| + 1 < open[|open| - 1].count
      requires fs == open[..|open| - 1] + [open[|open| - 1].(items := open[|open| - 1].items + [t])]
      ensures |fs| == |open| && ValidFrames(fs)
    {
      assert ValidFrame(open[|open| - 1]);
    }

    /** The reset of `moveToNextTask` for the next element of the same array. */
    method Advance(ghost t: Reply, ghost o: Obj)
      requires Placed(t, o) && ridx >= 1 && |open[ridx - 1].items| + 1 < open[ridx - 1].count
      modifies `open, rstack
      ensures Busy() && Task() == Parse(old(WithLast(t)), Unset)
      ensures forall i :: 0 <= i < 3 ==>
        rstack[i].obj == old(rstack[i].obj) && rstack[i].privdata == old(rstack[i].privdata)
    {
      ghost var fs := WithLast(t);
      PlacedParts(t, o);
      MoreItems(open, fs, t);
      Retask(fs);
      Reframe(fs);
    }

    /** The stack holds the open arrays `fs` now. */
    ghost method Reframe(fs: seq<Frame>)
      requires TasksOk() && Apart() && Levels(fs) && ValidFrames(fs)
      requires forall i :: 0 <= i < ridx ==> rstack[i + 1].idx == |fs[i].items| < fs[i].count
      modifies `open
      ensures Framed() && open == fs
    {
      open := fs;
      FramedParts();
    }

    /** `moveToNextTask`. The asserts of the source hold: the enclosing task is an array
        and the current index lies within its count. */
    method MoveToNextTask(ghost t: Reply, ghost o: Obj)
      requires Placed(t, o)
      modifies `ridx, `open, `done, rstack
      ensures TasksOk() && Apart() && rstack[0].privdata == old(rstack[0].privdata)
      ensures done <= old(done + OpenCells()) && (ridx >= 0 ==> OpenCells() <= old(OpenCells()))
      ensures var s := Settle(old(open), t);
              && (s.Root? ==> ridx == -1 && open == [] && Shows(if old(ridx) == 0 then o else reply, s.reply, done))
              && (s.Inside? ==> Busy() && Task() == Parse(s.open, Unset))
    {
      ghost var e, q := t, o;
      while ridx >= 0
        invariant 0 <= ridx <= old(ridx) && Placed(e, q)
        invariant Settle(open, e) == Settle(old(open), t)
        invariant ridx == old(ridx) ==> q == o
        invariant ridx < old(ridx) ==> q == reply
        invariant done <= old(done + OpenCells()) && OpenCells() <= old(OpenCells())
        invariant forall i :: 0 <= i < 3 ==>
          rstack[i].obj == old(rstack[i].obj) && rstack[i].privdata == old(rstack[i].privdata)
        decreases ridx
      {
        Enclosed(e, q);
        if ridx == 0 {
          ridx := ridx - 1;
          return;
        }
        var cur, prv := rstack[ridx], rstack[ridx - 1];
        assert prv.ty.ArrayType?;
        if cur.idx == prv.elements - 1 {
          ghost var items := open[ridx - 1].items + [e];
          Pop(e, q);
          e, q := ArrayReply(items), reply;
        } else {
          assert cur.idx < prv.elements;
          Advance(e, q);
          return;
        }
      }
    }

    // Storing an element

    ghost function TopFrame(): Frame
      reads `open
    {
      if open == [] then Frame(0, []) else open[|open| - 1]
    }

    /** Everything that belongs to the reply under construction. */
    ghost function Memory(): set<object>
      requires |rstack| == 3
      reads `ridx, `done, rstack
    {
      done + Writable()
    }

    ghost predicate Completed(t: Reply)
      reads `done, `ridx, `reply, `open, rstack, done
    {
      && TasksOk() && Apart() && ridx == -1 && open == []
      && Shows(reply, t, done) && Kind(fn, reply) && (fn.PhpHooks? ==> reply.z == rstack[0].privdata)
    }

    ghost predicate After(s: Settled)
      reads `done, `ridx, `reply, `open, rstack, done, if |rstack| == 3 then OpenCells() else {}
    {
      && (s.Root? ==> Completed(s.reply))
      && (s.Inside? ==> Busy() && Task() == Parse(s.open, Unset))
    }

    /** The levels around the current element, which a constructor call leaves alone. */
    ghost predicate Outer()
      reads `done, `ridx, `reply, `open, rstack, done, if |rstack| == 3 && ridx >= 2 then Cells(rstack[0].obj) else {}
    {
      && TasksOk() && Apart() && Indexed() && (fn.PhpHooks? ==> rstack[0].privdata != null)
      && (ridx == 0 ==> done == {} && reply == NoObj)
      && (ridx >= 1 ==>
            && rstack[ridx - 1].ty.ArrayType? && rstack[ridx - 1].elements == TopFrame().count
            && Kind(fn, rstack[ridx - 1].obj) && Cells(rstack[ridx - 1].obj) !! done
            && rstack[ridx].parent == rstack[ridx - 1] && reply == rstack[0].obj
            && (fn.PhpHooks? ==> rstack[0].obj == ZvalObj(rstack[0].privdata)))
      && (ridx == 2 ==> Level(0, open[0], rstack[1].obj) && Cells(rstack[0].obj) !! Cells(rstack[1].obj))
    }

    lemma {:induction false} BusyIsReady()
      requires Busy()
      ensures Ready(fn, rstack[ridx], TopFrame(), done) && Outer()
      ensures Target(fn, rstack[ridx]) <= Writable()
    {
      FramedParts();
    }

    /** A finished object joins the completed elements. */
    ghost method Adopt(t: Reply, o: Obj)
      requires Outer() && Attached(rstack[ridx], TopFrame(), t, o, done)
      requires ridx >= 1 ==> Cells(o) !! OpenCells()
      modifies `done
      ensures done == old(done) + Cells(o) && Placed(t, o)
    {
      if ridx == 2 {
        IsOpenGrows(rstack[0].obj, open[0], rstack[1].obj, done, done + Cells(o));
      }
      done := done + Cells(o);
      PlacedParts(t, o);
    }

    /** What every branch does with a new object: the root becomes the reply, and the
        stack moves on. (For arrays the source does the two in the opposite order, with
        nothing looking at the reply in between.) */
    method Install(ghost t: Reply, obj: Obj)
      requires Outer() && Attached(rstack[ridx], TopFrame(), t, obj, done) && Kind(fn, obj)
      requires ridx >= 1 ==> Cells(obj) !! OpenCells()
      requires ridx == 0 && fn.PhpHooks? ==> obj.z == rstack[0].privdata
      modifies `reply, `ridx, `open, `done, rstack
      ensures After(Settle(old(open), t))
      ensures Memory() <= old(Memory()) + Cells(obj) && rstack[0].privdata == old(rstack[0].privdata)
    {
      Adopt(t, obj);
      if ridx == 0 {
        reply := obj;
      }
      ghost var whole := Memory();
      assert whole <= old(Memory()) + Cells(obj);
      MoveToNextTask(t, obj);
      assert Memory() <= whole;
    }

    /** `region` covers the reply under construction and nothing of the reader. */
    ghost predicate Owned()
      reads `ridx, `done, `region, `buf, rstack, buf
    {
      && |rstack| == 3 && Memory() <= region
      && this !in region && buf !in region && buf.buf !in region
      && forall t :: t in rstack ==> t !in region
    }

    /** The region grows by new objects only. */
    twostate predicate RegionGrows()
      reads `region
    {
      old(region) <= region && forall o :: o in region ==> o in old(region) || fresh(o)
    }

    method PlaceString(str: seq<byte>)
      requires Busy() && (rstack[ridx].ty.ErrorType? || rstack[ridx].ty.StatusType? || rstack[ridx].ty.StringType?)
      modifies `reply, `ridx, `open, `done, rstack, Writable()
      ensures After(Settle(old(open), TextReply(old(rstack[ridx].ty), str)))
      ensures fresh(Memory() - old(Memory())) && rstack[0].privdata == old(rstack[0].privdata)
    {
      BusyIsReady();
      var cur := rstack[ridx];
      var obj := CreateString(fn, cur, str, TopFrame(), done);
      Install(TextReply(cur.ty, str), obj);
    }

    method PlaceInteger(value: int)
      requires Busy()
      modifies `reply, `ridx, `open, `done, rstack, Writable()
      ensures After(Settle(old(open), IntegerReply(value)))
      ensures fresh(Memory() - old(Memory())) && rstack[0].privdata == old(rstack[0].privdata)
    {
      BusyIsReady();
      var obj := CreateInteger(fn, rstack[ridx], value, TopFrame(), done);
      Install(IntegerReply(value), obj);
    }

    method PlaceNil()
      requires Busy()
      modifies `reply, `ridx, `open, `done, rstack, Writable()
      ensures After(Settle(old(open), NilReply))
      ensures fresh(Memory() - old(Memory())) && rstack[0].privdata == old(rstack[0].privdata)
    {
      BusyIsReady();
      var obj := CreateNil(fn, rstack[ridx], TopFrame(), done);
      Install(NilReply, obj);
    }

    method PlaceArray(count: nat)
      requires Busy() && ridx < 2 && rstack[ridx].ty.ArrayType? && count <= INT_MAX
      modifies `reply, `ridx, `open, `done, rstack, Writable()
      ensures count == 0 ==> After(Settle(old(open), ArrayReply([])))
      ensures count > 0 ==> Busy() && Task() == Parse(old(open) + [Frame(count, [])], Unset)
      ensures fresh(Memory() - old(Memory())) && rstack[0].privdata == old(rstack[0].privdata)
    {
      BusyIsReady();
      var cur := rstack[ridx];
      ghost var f := TopFrame();
      var obj := CreateArray(fn, cur, count, f, done);
      if count > 0 {
        Push(count, obj);
      } else {
        CloseArray(obj, Frame(0, []), done);
        if cur.parent != null {
          CloseChild(cur.parent.obj, f, obj, ArrayReply([]), done, done + Cells(obj));
        }
        Install(ArrayReply([]), obj);
      }
    }

    method FirstChild(task: ReadTask, parent: ReadTask)
      modifies task
      ensures task.ty == Unset && task.idx == 0 && task.obj == NoObj && task.parent == parent
      ensures task.privdata == privdata
    {
      task.ty := Unset;
      task.elements := -1;
      task.idx := 0;
      task.obj := NoObj;
      task.parent := parent;
      task.privdata := privdata;
    }

    /** The open array gets its slot, and a task for its first element lies on top. */
    method OpenLevel(count: nat, obj: Obj, ghost fs: seq<Frame>)
      requires Outer() && ridx < 2 && rstack[ridx].ty.ArrayType? && 0 < count <= INT_MAX && Kind(fn, obj)
      requires IsOpen(obj, Frame(count, []), NoObj, done) && Cells(obj) !! done && fs == open + [Frame(count, [])]
      requires ridx == 1 ==> IsOpen(rstack[0].obj, open[0], obj, done) && Cells(rstack[0].obj) !! Cells(obj)
      requires ridx == 0 && fn.PhpHooks? ==> obj.z == rstack[0].privdata
      modifies `reply, `ridx, rstack
      ensures ridx == old(ridx) + 1 && TasksOk() && Apart() && Levels(fs)
      ensures rstack[ridx].ty == Unset && rstack[ridx].idx == 0 && rstack[old(ridx)].idx == old(rstack[ridx].idx)
      ensures Memory() <= old(Memory()) + Cells(obj) && rstack[0].privdata == old(rstack[0].privdata)
    {
      var root := ridx == 0;
      var cur := rstack[ridx];
      cur.elements := count;
      cur.obj := obj;
      ridx := ridx + 1;
      FirstChild(rstack[ridx], cur);
      if root {
        reply := obj;
      }
    }

    /** A non-empty array becomes the top of the stack, with a task for its first element. */
    method Push(count: nat, obj: Obj)
      requires Outer() && ridx < 2 && rstack[ridx].ty.ArrayType? && 0 < count <= INT_MAX && Kind(fn, obj)
      requires IsOpen(obj, Frame(count, []), NoObj, done) && Cells(obj) !! done
      requires ridx == 1 ==> IsOpen(rstack[0].obj, open[0], obj, done) && Cells(rstack[0].obj) !! Cells(obj)
      requires ridx == 0 && fn.PhpHooks? ==> obj.z == rstack[0].privdata
      modifies `reply, `ridx, `open, rstack
      ensures Busy() && Task() == Parse(old(open) + [Frame(count, [])], Unset)
      ensures Memory() <= old(Memory()) + Cells(obj) && rstack[0].privdata == old(rstack[0].privdata)
    {
      ghost var fs := open + [Frame(count, [])];
      OpenLevel(count, obj, fs);
      assert ValidFrame(Frame(count, []));
      Reframe(fs);
    }

    // The same, with one footprint for callers

    method StoreString(str: seq<byte>)
      requires Busy() && (rstack[ridx].ty.ErrorType? || rstack[ridx].ty.StatusType? || rstack[ridx].ty.StringType?)
      requires Owned()
      modifies `reply, `ridx, `open, `done, `region, rstack, region
      ensures After(Settle(old(open), TextReply(old(rstack[ridx].ty), str)))
      ensures Owned() && RegionGrows() && rstack[0].privdata == old(rstack[0].privdata)
    {
      PlaceString(str);
      assert Memory() <= old(Memory()) + (Memory() - old(Memory()));
      region := region + Memory();
    }

    method StoreInteger(value: int)
      requires Busy() && Owned()
      modifies `reply, `ridx, `open, `done, `region, rstack, region
      ensures After(Settle(old(open), IntegerReply(value)))
      ensures Owned() && RegionGrows() && rstack[0].privdata == old(rstack[0].privdata)
    {
      PlaceInteger(value);
      assert Memory() <= old(Memory()) + (Memory() - old(Memory()));
      region := region + Memory();
    }

    method StoreNil()
      requires Busy() && Owned()
      modifies `reply, `ridx, `open, `done, `region, rstack, region
      ensures After(Settle(old(open), NilReply))
      ensures Owned() && RegionGrows() && rstack[0].privdata == old(rstack[0].privdata)
    {
      PlaceNil();
      assert Memory() <= old(Memory()) + (Memory() - old(Memory()));
      region := region + Memory();
    }

    method StoreArray(count: nat)
      requires Busy() && ridx < 2 && rstack[ridx].ty.ArrayType? && count <= INT_MAX && Owned()
      modifies `reply, `ridx, `open, `done, `region, rstack, region
      ensures count == 0 ==> After(Settle(old(open), ArrayReply([])))
      ensures count > 0 ==> Busy() && Task() == Parse(old(open) + [Frame(count, [])], Unset)
      ensures Owned() && RegionGrows() && rstack[0].privdata == old(rstack[0].privdata)
    {
      PlaceArray(count);
      assert Memory() <= old(Memory()) + (Memory() - old(Memory()));
      region := region + Memory();
    }

    // Reading

    /** A live reader: its recorded length is the length of its buffer. */
    ghost predicate Synced()
      reads `buf, `len, `pos, buf, buf.buf
    {
      buf.Valid() && len == buf.len && pos <= len
    }

    /** `readBytes` for one byte. */
    method ReadByte() returns (ok: bool, b: byte)
      requires BufOk()
      modifies `pos
      ensures ok == (old(Unread()) != [])
      ensures ok ==> b == old(Unread())[0] && pos == old(pos) + 1
      ensures !ok ==> pos == old(pos)
    {
      ok, b := false, NUL;
      if len - pos >= 1 {
        ok, b := true, buf.buf[pos];
        pos := pos + 1;
      }
    }

    /** `readLine`: the line starts at `start` and is `n` bytes long. */
    method ReadLine() returns (ok: bool, start: nat, n: nat)
      requires Synced()
      modifies `pos
      ensures Synced() && ok == FirstCrlf(old(Unread())).Some?
      ensures ok ==> n == FirstCrlf(old(Unread())).value && start == old(pos) && pos == start + n + 2
      ensures ok ==>
        (start + n < buf.buf.Length && buf.buf[start + n] == CR && buf.buf[start..start + n] == old(Unread())[..n])
      ensures ok ==> Unread() == old(Unread())[n + 2..]
      ensures !ok ==> Unread() == old(Unread())
    {
      ghost var b := Unread();
      start, n := pos, 0;
      assert buf.content[pos..] == buf.buf[pos..pos + (len - pos)];
      var s := SeekNewline(buf.buf, pos, len - pos);
      ok := s >= 0;
      if ok {
        n := s;
        assert b == buf.buf[start..len];
        assert buf.buf[start + n] == b[n];
        assert buf.buf[start..start + n] == b[..n];
        pos := pos + n + 2;
        assert Unread() == b[n + 2..];
      }
    }

    ghost predicate Faulted(f: Fault)
      reads `ridx, `open, `done, `error, `buf, `len, `pos, rstack, buf, buf.buf
    {
      TasksOk() && ridx == -1 && open == [] && done == {} && error == Some(f) && BufOk() && Stale()
    }

    /** What the item `i`, read from `b` in state `p`, does to the reader. */
    ghost predicate ItemDone(ok: bool, i: Item, p: Parse, b: seq<byte>)
      requires ValidFrames(p.open)
      reads `error, `buf, `len, `pos, `done, `ridx, `reply, `open, rstack, done, buf, buf.buf
      reads if |rstack| == 3 then OpenCells() else {}
    {
      && ok == (i.Leaf? || i.Header?)
      && (i.Leaf? ==> After(Settle(p.open, i.reply)))
      && (i.Header? ==> Busy() && Task() == Parse(p.open + [Frame(i.count, [])], Unset))
      && (ok ==> i.size <= |b| && Synced() && Unread() == b[i.size..])
      && (i.Incomplete? ==> Busy() && Task() == p && Synced() && Unread() == b)
      && (i.Broken? ==> Faulted(i.fault))
    }

    ghost predicate Ready4Item()
      reads `region, `buf, `len, `pos, `done, `ridx, `reply, `open, rstack, done, buf, buf.buf
      reads if |rstack| == 3 then OpenCells() else {}
    {
      Busy() && Synced() && Owned() && !rstack[ridx].ty.Unset?
    }

    /** Hands a line to the constructor for its type. */
    method StoreLine(line: seq<byte>, value: int, ghost b: seq<byte>)
      requires Ready4Item() && !rstack[ridx].ty.StringType? && !rstack[ridx].ty.ArrayType?
      requires rstack[ridx].ty.IntegerType? ==> value == ReadLongLong(line)
      requires |line| + 2 <= |b| && Unread() == b[|line| + 2..]
      modifies `reply, `ridx, `open, `done, `region, rstack, region
      ensures ItemDone(true, Leaf(LineReply(old(rstack[ridx].ty), line), |line| + 2), old(Task()), b)
      ensures Owned() && RegionGrows() && rstack[0].privdata == old(rstack[0].privdata)
    {
      if rstack[ridx].ty.IntegerType? {
        StoreInteger(value);
      } else {
        StoreString(line);
      }
    }

    method TakeLine(integer: bool) returns (found: bool, line: seq<byte>, value: int)
      requires Synced()
      modifies `pos
      ensures Synced()
      ensures var c := FirstCrlf(old(Unread()));
              && found == c.Some?
              && (found ==> line == old(Unread())[..c.value] && Unread() == old(Unread())[c.value + 2..])
              && (found && integer ==> value == ReadLongLong(line))
              && (!found ==> Unread() == old(Unread()))
    {
      line, value := [], 0;
      var p, n;
      found, p, n := ReadLine();
      if found {
        line := buf.buf[p..p + n];
        if integer {
          ghost var peak;
          value, peak := ReadLongLongAt(buf.buf, p, p + n);
        }
      }
    }

    /** `processLineItem`. */
    method ProcessLineItem() returns (ok: bool)
      requires Ready4Item() && !rstack[ridx].ty.StringType? && !rstack[ridx].ty.ArrayType?
      modifies `pos, `reply, `ridx, `open, `done, `region, rstack, region
      ensures ItemDone(ok, ReadItem(old(rstack[ridx].ty), old(Unread())), old(Task()), old(Unread()))
      ensures Owned() && RegionGrows() && rstack[0].privdata == old(rstack[0].privdata)
    {
      ghost var b := Unread();
      LineItem(rstack[ridx].ty, b);
      var found, line, value := TakeLine(rstack[ridx].ty.IntegerType?);
      if !found {
        return false;
      }
      StoreLine(line, value, b);
      return true;
    }

    lemma {:induction false} UnreadInBuffer()
      requires Synced()
      ensures Unread() == buf.buf[pos..len]
    {
    }

    method TakeBulk() returns (found: bool, nil: bool, str: seq<byte>)
      requires Synced()
      modifies `pos
      ensures Synced()
      ensures var i := ReadItem(StringType, old(Unread()));
              && found == i.Leaf? == !i.Incomplete?
              && (found ==> i.reply == (if nil then NilReply else StringReply(str)))
              && (found ==> Unread() == old(Unread())[i.size..])
              && (!found ==> Unread() == old(Unread()))
    {
      UnreadInBuffer();
      var bytelen;
      found, nil, str, bytelen := SeekBulk(buf.buf, pos, len);
      if found {
        pos := pos + bytelen;
      }
    }

    method StoreBulk(nil: bool, str: seq<byte>, ghost size: nat, ghost b: seq<byte>)
      requires Ready4Item() && rstack[ridx].ty.StringType?
      requires size <= |b| && Unread() == b[size..]
      modifies `reply, `ridx, `open, `done, `region, rstack, region
      ensures ItemDone(true, Leaf(if nil then NilReply else StringReply(str), size), old(Task()), b)
      ensures Owned() && RegionGrows() && rstack[0].privdata == old(rstack[0].privdata)
    {
      if nil {
        StoreNil();
      } else {
        StoreString(str);
      }
    }

    /** `processBulkItem`. */
    method ProcessBulkItem() returns (ok: bool)
      requires Ready4Item() && rstack[ridx].ty.StringType?
      modifies `pos, `reply, `ridx, `open, `done, `region, rstack, region
      ensures ItemDone(ok, ReadItem(StringType, old(Unread())), old(Task()), old(Unread()))
      ensures Owned() && RegionGrows() && rstack[0].privdata == old(rstack[0].privdata)
    {
      ghost var b := Unread();
      var found, nil, str := TakeBulk();
      if !found {
        return false;
      }
      StoreBulk(nil, str, ReadItem(StringType, b).size, b);
      return true;
    }

    twostate predicate BufFresh()
      reads `buf, buf
    {
      (buf == old(buf) || fresh(buf)) && (buf.buf == old(buf.buf) || fresh(buf.buf))
    }

    /** `redisSetReplyReaderError`: the reply and the buffer are dropped, `len` is not reset. */
    method SetError(f: Fault)
      requires TasksOk() && Owned() && buf.Valid() && len > 0
      modifies `error, `buf, `pos, `ridx, `open, `done
      ensures Faulted(f) && fresh(buf) && fresh(buf.buf) && Owned()
    {
      buf := new Sds([]);
      pos := 0;
      ridx := -1;
      error := Some(f);
      open, done := [], {};
    }

    method StoreCount(elements: int)
      requires Busy() && Owned() && rstack[ridx].ty.ArrayType? && -1 <= elements <= INT_MAX
      requires Synced()
      modifies `reply, `ridx, `open, `done, `region, rstack, region
      ensures elements <= 0 ==> After(Settle(old(open), if elements == -1 then NilReply else ArrayReply([])))
      ensures elements > 0 ==> Busy() && Task() == Parse(old(open) + [Frame(elements, [])], Unset)
      ensures Synced() && Unread() == old(Unread())
      ensures Owned() && RegionGrows() && rstack[0].privdata == old(rstack[0].privdata)
    {
      if elements == -1 {
        StoreNil();
      } else {
        StoreArray(elements);
      }
    }

    /** `processMultiBulkItem` below the depth limit. */
    method ProcessArrayHeader() returns (ok: bool)
      requires Busy() && Synced() && Owned() && rstack[ridx].ty.ArrayType? && len > 0
      modifies `error, `buf, `pos, `reply, `ridx, `open, `done, `region, rstack, region
      ensures ItemDone(ok, ReadItem(ArrayType, old(Unread())), old(Task()), old(Unread()))
      ensures ReadItem(ArrayType, old(Unread())).Broken? ||
        (error == old(error) && buf == old(buf) && buf.buf == old(buf.buf))
      ensures BufFresh() && Owned() && RegionGrows() && rstack[0].privdata == old(rstack[0].privdata)
    {
      ghost var b := Unread();
      var found, line, elements := TakeHeader();
      if !found {
        return false;
      }
      ok := StoreHeader(elements, line, b);
    }

    method TakeHeader() returns (found: bool, line: seq<byte>, elements: int)
      requires Synced()
      modifies `pos
      ensures Synced()
      ensures found ==> ReadItem(ArrayType, old(Unread())) == ArrayItem(line) && elements == ReadLongLong(line)
      ensures found ==> |line| + 2 <= |old(Unread())| && Unread() == old(Unread())[|line| + 2..]
      ensures !found ==> ReadItem(ArrayType, old(Unread())).Incomplete? && Unread() == old(Unread())
    {
      found, line, elements := TakeLine(true);
    }

    method StoreHeader(elements: int, ghost line: seq<byte>, ghost b: seq<byte>) returns (ok: bool)
      requires Busy() && Synced() && Owned() && rstack[ridx].ty.ArrayType? && len > 0
      requires elements == ReadLongLong(line) && |line| + 2 <= |b| && Unread() == b[|line| + 2..]
      modifies `error, `buf, `pos, `reply, `ridx, `open, `done, `region, rstack, region
      ensures ItemDone(ok, ArrayItem(line), old(Task()), b)
      ensures !ok || (error == old(error) && buf == old(buf) && buf.buf == old(buf.buf))
      ensures BufFresh() && Owned() && RegionGrows() && rstack[0].privdata == old(rstack[0].privdata)
    {
      if elements < -1 || elements > INT_MAX {
        SetError(BadCount);
        return false;
      }
      StoreCount(elements);
      return true;
    }

    /** `processMultiBulkItem`. */
    method ProcessMultiBulkItem() returns (ok: bool)
      requires Framed() && Synced() && Owned() && rstack[ridx].ty.ArrayType? && len > 0
      modifies `error, `buf, `pos, `reply, `ridx, `open, `done, `region, rstack, region
      ensures old(ridx) == 2 ==> !ok && Faulted(TooDeep)
      ensures old(ridx) < 2 ==> ItemDone(ok, ReadItem(ArrayType, old(Unread())), old(Task()), old(Unread()))
      ensures error == old(error) || (error.Some? && Faulted(error.value))
      ensures BufFresh() && Owned() && RegionGrows() && rstack[0].privdata == old(rstack[0].privdata)
    {
      if ridx == 2 {
        SetError(TooDeep);
        return false;
      }
      ok := ProcessArrayHeader();
    }

    /** Where the reader is, given what its run amounts to: done with a reply, out of
        bytes, or failed. */
    ghost predicate Landed(o: Outcome)
      reads `error, `buf, `len, `pos, `done, `ridx, `reply, `open, rstack, done, buf, buf.buf
      reads if |rstack| == 3 then OpenCells() else {}
    {
      StackLanded(o) && BufferLanded(o)
    }

    ghost predicate StackLanded(o: Outcome)
      reads `error, `done, `ridx, `reply, `open, rstack, done, if |rstack| == 3 then OpenCells() else {}
    {
      match o
      case Waiting(p, _) => Busy() && Task() == p
      case Got(r, _) => Completed(r)
      case Failed(f) => TasksOk() && ridx == -1 && open == [] && done == {} && error == Some(f)
    }

    ghost predicate BufferLanded(o: Outcome)
      reads `buf, `len, `pos, buf, buf.buf
    {
      if o.Failed? then BufOk() && Stale()
      else Synced() && Unread() == o.rest
    }

    /** Some way into the run `o`, with fewer than `n` bytes left. */
    ghost predicate Underway(o: Outcome, n: nat)
      reads `buf, `len, `pos, `done, `ridx, `reply, `open, rstack, done, buf, buf.buf
      reads if |rstack| == 3 then OpenCells() else {}
    {
      Busy() && Synced() && |Unread()| < n && Run(Task(), Unread()) == o
    }

    lemma {:induction false} ItemRuns(ok: bool, p: Parse, b: seq<byte>)
      requires ValidParse(p) && !p.ty.Unset? && ItemDone(ok, ReadItem(p.ty, b), p, b)
      ensures if ok then Landed(Run(p, b)) || Underway(Run(p, b), |b|) else Landed(Run(p, b))
      ensures ok ==> ridx == -1 || Underway(Run(p, b), |b|)
    {
    }

    /** A type byte has been read, and what remains of the run `o` follows from it. */
    ghost predicate Typed(o: Outcome)
      reads `buf, `len, `pos, `done, `ridx, `reply, `open, rstack, done, buf, buf.buf
      reads if |rstack| == 3 then OpenCells() else {}
    {
      && Framed() && Synced() && !rstack[ridx].ty.Unset?
      && if ridx == 2 && rstack[ridx].ty.ArrayType? then o == Failed(TooDeep) else Run(Task(), Unread()) == o
    }

    /** The first half of `processItem`: consume the type byte. */
    method ReadTypeByte(ghost o: Outcome) returns (ok: bool)
      requires Busy() && Owned() && BufOk() && len > 0 && rstack[ridx].ty.Unset? && Run(Task(), Unread()) == o
      requires Stale() ==> Task() == IDLE
      modifies `error, `buf, `pos, `ridx, `open, `done, rstack
      ensures ok ==> Typed(o) && error == old(error) && |Unread()| < |old(Unread())|
      ensures o.Failed? || error == old(error)
      ensures !ok ==> Landed(o)
      ensures BufFresh() && Owned() && rstack[0].privdata == old(rstack[0].privdata)
    {
      ghost var p, b := Task(), Unread();
      var c;
      ok, c := ReadByte();
      if !ok {
        return;
      }
      var ty := TypeOf(c);
      if ty.Unset? {
        SetError(BadType(c));
        return false;
      }
      SetType(ty, p, b);
    }

    method Stamp(ty: TaskType)
      requires Framed()
      modifies rstack[ridx]
      ensures Framed() && rstack[ridx].ty == ty
      ensures rstack[ridx].obj == old(rstack[ridx].obj) && rstack[ridx].privdata == old(rstack[ridx].privdata)
    {
      FramedParts();
      rstack[ridx].ty := ty;
      FramedParts();
    }

    method SetType(ty: TaskType, ghost p: Parse, ghost b: seq<byte>)
      requires Busy() && Synced() && Owned() && Task() == p && p.ty.Unset? && !ty.Unset?
      requires b != [] && TypeOf(b[0]) == ty && Unread() == b[1..]
      modifies rstack[ridx]
      ensures Typed(Run(p, b)) && Unread() == b[1..] && rstack[0].privdata == old(rstack[0].privdata) && Owned()
    {
      TypedRun(p, ty, b);
      Stamp(ty);
    }

    lemma {:induction false} AlreadyTyped(o: Outcome)
      requires Busy() && BufOk() && !rstack[ridx].ty.Unset? && Run(Task(), Unread()) == o
      requires Stale() ==> Task() == IDLE
      ensures Typed(o)
    {
    }

    method DispatchItem() returns (ok: bool)
      requires Framed() && Synced() && Owned() && len > 0 && !rstack[ridx].ty.Unset?
      modifies `error, `buf, `pos, `reply, `ridx, `open, `done, `region, rstack, region
      ensures old(ridx == 2 && rstack[ridx].ty.ArrayType?) ==> !ok && Faulted(TooDeep)
      ensures old(Busy()) ==> ItemDone(ok, ReadItem(old(rstack[ridx].ty), old(Unread())), old(Task()), old(Unread()))
      ensures error == old(error) || (error.Some? && Faulted(error.value))
      ensures BufFresh() && Owned() && RegionGrows() && rstack[0].privdata == old(rstack[0].privdata)
    {
      var ty := rstack[ridx].ty;
      if ty.StringType? {
        ok := ProcessBulkItem();
      } else if ty.ArrayType? {
        ok := ProcessMultiBulkItem();
      } else {
        ok := ProcessLineItem();
      }
    }

    /** The second half of `processItem`: the item of a known type. */
    method ProcessTypedItem(ghost o: Outcome) returns (ok: bool)
      requires Typed(o) && Owned() && len > 0
      modifies `error, `buf, `pos, `reply, `ridx, `open, `done, `region, rstack, region
      ensures ridx >= 0 && ok ==> Underway(o, |old(Unread())|)
      ensures ridx < 0 || !ok ==> Landed(o)
      ensures o.Failed? || error == old(error)
      ensures BufFresh() && Owned() && RegionGrows() && rstack[0].privdata == old(rstack[0].privdata)
    {
      ghost var p, b, busy := Task(), Unread(), Busy();
      ok := DispatchItem();
      if busy {
        ItemRuns(ok, p, b);
      }
    }

    method NeedType(ghost o: Outcome) returns (ok: bool)
      requires Busy() && BufOk() && Owned() && len > 0 && Run(Task(), Unread()) == o
      requires Stale() ==> Task() == IDLE
      modifies `error, `buf, `pos, `ridx, `open, `done, rstack
      ensures ok ==> Typed(o) && error == old(error) && |Unread()| <= |old(Unread())|
      ensures o.Failed? || error == old(error)
      ensures !ok ==> Landed(o)
      ensures BufFresh() && Owned() && rstack[0].privdata == old(rstack[0].privdata)
    {
      if rstack[ridx].ty.Unset? {
        ok := ReadTypeByte(o);
      } else {
        ok := true;
        AlreadyTyped(o);
      }
    }

    /** `processItem`: one item, from its type byte if that has not been read yet. */
    method ProcessItem(ghost o: Outcome) returns (ok: bool)
      requires Busy() && BufOk() && Owned() && len > 0 && Run(Task(), Unread()) == o
      requires Stale() ==> Task() == IDLE
      modifies `error, `buf, `pos, `reply, `ridx, `open, `done, `region, rstack, region
      ensures ridx >= 0 && ok ==> Underway(o, |old(Unread())|)
      ensures ridx < 0 || !ok ==> Landed(o)
      ensures o.Failed? || error == old(error)
      ensures BufFresh() && Owned() && RegionGrows() && rstack[0].privdata == old(rstack[0].privdata)
    {
      ok := NeedType(o);
      if ok {
        ok := ProcessTypedItem(o);
      }
    }

    /** The loop of `redisReplyReaderGetReply`. It terminates because every item that is
        processed leaves fewer unread bytes. */
    method ProcessItems(ghost o: Outcome)
      requires Busy() && BufOk() && Owned() && len > 0 && Run(Task(), Unread()) == o
      requires Stale() ==> Task() == IDLE
      modifies `error, `buf, `pos, `reply, `ridx, `open, `done, `region, rstack, region
      ensures Landed(o) && (o.Failed? || error == old(error))
      ensures BufFresh() && Owned() && RegionGrows() && rstack[0].privdata == old(rstack[0].privdata)
    {
      while ridx >= 0
        invariant ridx < 0 ==> Landed(o)
        invariant ridx >= 0 ==> Busy() && BufOk() && Run(Task(), Unread()) == o && (Stale() ==> Task() == IDLE)
        invariant error == old(error) || o.Failed?
        invariant BufFresh() && Owned() && RegionGrows() && rstack[0].privdata == old(rstack[0].privdata)
        decreases if ridx >= 0 then |Unread()| + 1 else 0
      {
        var ok := ProcessItem(o);
        if !ok {
          break;
        }
      }
    }

    // Between calls

    ghost predicate Idle()
      reads `done, `ridx, `reply, `open
    {
      ridx == -1 && open == [] && done == {} && reply == NoObj
    }

    ghost predicate Valid()
      reads `done, `ridx, `reply, `open, `region, `buf, `len, `pos, `error, `privdata, rstack, done, buf
      reads buf.buf, if |rstack| == 3 then OpenCells() else {}
    {
      && TasksOk() && Owned() && BufOk() && pos == 0
      && (if ridx == -1 then Idle() else Busy())
      && (Stale() ==> ridx == -1 && error.Some?)
      && (privdata != null ==> privdata in region)
    }

    /** The state of the pure reader that this object represents. */
    ghost function State(): (s: ReaderState)
      requires Valid()
      reads `done, `ridx, `reply, `open, `region, `buf, `len, `pos, `error, `privdata, rstack, done, buf
      reads buf.buf, if |rstack| == 3 then OpenCells() else {}
      ensures ValidState(s)
    {
      ReaderState(if ridx == -1 then IDLE else Task(), buf.content, error, Stale())
    }

    /** The caller's zval, which the reader keeps for the next root. */
    ghost function Held(): set<object>
      reads `privdata
    {
      if privdata == null then {} else {privdata}
    }

    /** The zval that the reply under construction, or else the next one, is built in. */
    ghost function RootTarget(): Zval?
      requires |rstack| == 3
      reads `ridx, `privdata, rstack[0]
    {
      if ridx == -1 then privdata else rstack[0].privdata
    }

    /** The memory of a reply handed out is no longer the reader's, but for a root zval. */
    ghost predicate Spared(cells: set<object>)
      reads `buf, `region, `privdata, buf
    {
      && this !in cells && buf !in cells && buf.buf !in cells && (forall t :: t in rstack ==> t !in cells)
      && cells * region <= Held()
    }

    method StorePrivdata(z: Zval) returns (ok: bool)
      requires Valid()
      modifies `privdata, `region
      ensures Valid() && State() == old(State()) && ok == (reply == NoObj) && (ridx == -1 ==> ok)
      ensures if ok then privdata == z && region == (if ridx == -1 then {} else old(region)) + {z}
              else privdata == old(privdata) && region == old(region)
    {
      ok := reply == NoObj;
      if ok {
        privdata := z;
        region := (if ridx == -1 then {} else region) + {z};
      }
    }

    method FeedBuffer(chunk: seq<byte>)
      requires Valid()
      modifies `len, buf, buf.buf
      ensures Valid() && State() == Sessions.Feed(old(State()), chunk)
      ensures BufFresh()
    {
      if |chunk| >= 1 {
        buf.CatLen(chunk);
        len := buf.len;
      }
    }

    /** Discards the consumed part of the buffer. `sdsrange` would keep the last byte of
        a buffer that has been consumed completely, hence the special case. */
    method Compact(ghost o: Outcome)
      requires BufferLanded(o) && Owned()
      modifies `buf, `pos, `len, buf, buf.buf
      ensures pos == 0 && BufferLanded(o) && Owned() && BufFresh()
    {
      if pos > 0 {
        if pos == len {
          buf := new Sds([]);
        } else {
          RangeDropsPrefix(buf.content, pos);
          buf.Range(pos, len);
        }
        pos := 0;
        len := buf.len;
      }
    }

    /** Sets the first item to process when the stack is empty. */
    method StartRoot()
      requires TasksOk() && Owned() && Idle() && (privdata != null ==> privdata in region)
      requires fn.PhpHooks? ==> privdata != null
      modifies `ridx, rstack[0]
      ensures Busy() && Task() == IDLE && Owned() && rstack[0].privdata == privdata
    {
      rstack[0].ty := Unset;
      rstack[0].elements := -1;
      rstack[0].idx := -1;
      rstack[0].obj := NoObj;
      rstack[0].parent := null;
      rstack[0].privdata := privdata;
      ridx := 0;
    }

    /** Takes the reply out of the reader, which forgets the objects it consists of. */
    method TakeReply(ghost o: Outcome) returns (aux: Obj, ghost cells: set<object>)
      requires StackLanded(o) && Owned() && ridx == -1 && (privdata != null ==> privdata in region)
      modifies `reply, `done, `region
      ensures Idle() && TasksOk() && Owned() && region <= old(region) && region == Held()
      ensures Spared(cells) && cells <= old(region)
      ensures o.Got? ==> Shows(aux, o.reply, cells) && Kind(fn, aux) && (fn.PhpHooks? ==> aux.z == rstack[0].privdata)
    {
      aux := reply;
      reply := NoObj;
      cells := done;
      done := {};
      region := Held();
    }

    /** Destroys the buffer when it is empty and quite large. */
    method ShrinkBuffer()
      requires BufOk() && Owned() && pos == 0
      modifies `buf, `pos
      ensures BufOk() && Owned() && BufFresh() && pos == 0 && Stale() == old(Stale()) && buf.content == old(buf.content)
    {
      if len == 0 && buf.free > 16 * 1024 {
        buf := new Sds([]);
        pos := 0;
      }
    }

    method Conclude(ghost o: Outcome) returns (aux: Obj, ghost cells: set<object>)
      requires Landed(o) && Owned() && pos == 0 && ridx == -1 && (privdata != null ==> privdata in region)
      modifies `buf, `reply, `done, `region, `pos
      ensures Valid() && BufFresh() && region <= old(region) && State() == Landing(o, error)
      ensures Spared(cells) && cells <= old(region)
      ensures o.Got? ==> Shows(aux, o.reply, cells) && Kind(fn, aux) && (fn.PhpHooks? ==> aux.z == rstack[0].privdata)
    {
      aux, cells := TakeReply(o);
      ShrinkBuffer();
      ConcludedState(o);
    }

    lemma {:induction false} ConcludedState(o: Outcome)
      requires Idle() && TasksOk() && Owned() && BufOk() && pos == 0 && ridx == -1 && region == Held()
      requires !o.Waiting? && (o.Failed? ==> error == Some(o.fault) && Stale())
      requires o.Got? ==> !Stale() && buf.content == o.rest
      ensures Valid() && State() == Landing(o, error)
    {
    }

    /** Emits the reply when there is one; a faulty reader withholds it. */
    method Emit(ghost o: Outcome) returns (ok: bool, out: Obj, ghost cells: set<object>)
      requires Landed(o) && Owned() && pos == 0 && (privdata != null ==> privdata in region)
      modifies `buf, `reply, `done, `region, `pos
      ensures Valid() && BufFresh() && region <= old(region)
      ensures State() == Landing(o, error)
      ensures ok == (o.Waiting? || error.None?) && Spared(cells) && cells <= old(region)
      ensures if o.Waiting? then ridx == old(ridx) else ridx == -1
      ensures if o.Got? && ok then
        Shows(out, o.reply, cells) && Kind(fn, out) && (fn.PhpHooks? ==> out.z == rstack[0].privdata)
        else out == NoObj
    {
      ok, out, cells := true, NoObj, {};
      if ridx == -1 {
        var aux;
        aux, cells := Conclude(o);
        if error.Some? {
          ok := false;
        } else {
          out := aux;
        }
      }
    }

    /** Puts the root task on an empty stack. */
    method Begin()
      requires Valid() && len > 0 && (fn.PhpHooks? ==> privdata != null)
      modifies `ridx, rstack[0]
      ensures Busy() && BufOk() && Owned() && pos == 0 && (Stale() ==> Task() == IDLE)
      ensures Task() == old(State()).p && Unread() == (if old(State()).stale then [NUL] else old(State()).buf)
      ensures rstack[0].privdata == if old(ridx) == -1 then privdata else old(rstack[0].privdata)
    {
      if ridx == -1 {
        StartRoot();
      }
    }

    /** Processes items and discards what has been consumed. */
    method Digest(ghost o: Outcome)
      requires Busy() && BufOk() && Owned() && len > 0 && Run(Task(), Unread()) == o
      requires Stale() ==> Task() == IDLE
      modifies `error, `buf, `len, `pos, `reply, `ridx, `open, `done, `region, rstack, buf, buf.buf, region
      ensures Landed(o) && pos == 0 && (o.Failed? || error == old(error))
      ensures BufFresh() && Owned() && RegionGrows() && rstack[0].privdata == old(rstack[0].privdata)
    {
      ProcessItems(o);
      CompactLanded(o);
    }

    method CompactLanded(ghost o: Outcome)
      requires Landed(o) && Owned()
      modifies `buf, `pos, `len, buf, buf.buf
      ensures StackLanded(o) && BufferLanded(o) && pos == 0 && Owned() && BufFresh()
    {
      BufferApart(o);
      Compact(o);
    }

    lemma {:induction false} BufferApart(o: Outcome)
      requires Landed(o) && Owned()
      ensures buf !in done && buf.buf !in done && this !in done
      ensures buf !in OpenCells() && buf.buf !in OpenCells() && this !in OpenCells()
    {
    }

    method Serve(ghost o: Outcome) returns (ok: bool, out: Obj, ghost cells: set<object>)
      requires Busy() && BufOk() && Owned() && len > 0 && Run(Task(), Unread()) == o
      requires (Stale() ==> Task() == IDLE) && (privdata != null ==> privdata in region)
      modifies `error, `buf, `len, `pos, `reply, `ridx, `open, `done, `region, rstack, buf, buf.buf, region
      ensures Valid() && BufFresh() && NothingForeign()
      ensures forall c :: c in cells ==> c in old(region) || fresh(c)
      ensures Spared(cells) && State() == Landing(o, old(error)) && ok == (o.Waiting? || (o.Got? && old(error).None?))
      ensures if o.Waiting? then ridx >= 0 && rstack[0].privdata == old(rstack[0].privdata) else ridx == -1
      ensures if o.Got? && ok then
        Shows(out, o.reply, cells) && Kind(fn, out) && (fn.PhpHooks? ==> out.z == old(rstack[0].privdata))
        else out == NoObj
    {
      Digest(o);
      ok, out, cells := Emit(o);
    }

    twostate predicate NothingForeign()
      reads `region
    {
      forall o :: o in region ==> o in old(region) || fresh(o)
    }

    /** The status and the object that go with a result. */
    ghost predicate HandsOut(result: Result, ok: bool, out: Obj, cells: set<object>)
      reads cells
    {
      && ok == !result.Error?
      && if result.Delivered? then Shows(out, result.reply, cells) && Kind(fn, out) else out == NoObj
    }

    method NextReply() returns (ok: bool, out: Obj, ghost cells: set<object>)
      requires Valid() && (fn.PhpHooks? ==> privdata != null)
      modifies `error, `buf, `len, `pos, `reply, `ridx, `open, `done, `region, rstack, buf, buf.buf, region
      ensures forall c :: c in cells ==> c in old(region) || fresh(c)
      ensures Valid() && BufFresh() && NothingForeign() && Spared(cells) && privdata == old(privdata)
      ensures var a := Sessions.GetReply(old(State()));
              && State() == a.state && HandsOut(a.result, ok, out, cells)
              && (a.result.Delivered? && fn.PhpHooks? ==> out.z == old(RootTarget()))
              && (if a.result.NoReply? then RootTarget() == old(RootTarget()) else ridx == -1)
    {
      if len == 0 {
        return true, NoObj, {};
      }
      ok, out, cells := Resume();
    }

    method Resume() returns (ok: bool, out: Obj, ghost cells: set<object>)
      requires Valid() && len > 0 && (fn.PhpHooks? ==> privdata != null)
      modifies `error, `buf, `len, `pos, `reply, `ridx, `open, `done, `region, rstack, buf, buf.buf, region
      ensures forall c :: c in cells ==> c in old(region) || fresh(c)
      ensures Valid() && BufFresh() && NothingForeign() && Spared(cells) && privdata == old(privdata)
      ensures var a := Sessions.GetReply(old(State()));
              && State() == a.state && HandsOut(a.result, ok, out, cells)
              && (a.result.Delivered? && fn.PhpHooks? ==> out.z == old(RootTarget()))
              && (if a.result.NoReply? then RootTarget() == old(RootTarget()) else ridx == -1)
    {
      ghost var s := State();
      Begin();
      ghost var o := Run(Task(), Unread());
      AnswerOf(s, o);
      ok, out, cells := Serve(o);
    }

    // What callers see

    ghost predicate Contained()
      reads this, Repr
    {
      && this in Repr && buf in Repr && buf.buf in Repr && |rstack| == 3 && (forall t :: t in rstack ==> t in Repr)
      && region <= Repr && done <= region && OpenCells() <= region
    }

    /** All of a reader's invariant is one clause; `OkParts` opens it. */
    ghost predicate OkIn(p: ReaderPart)
      reads this, Repr
    {
      match p
      case Footprint => Contained()
      case Behaviour => Contained() && Valid() && state == State()
    }

    ghost predicate Ok()
      reads this, Repr
      ensures Ok() ==> this in Repr && |rstack| == 3 && rstack[0] in Repr && ValidState(state)
    {
      assert OkIn(Behaviour) ==> this in Repr && |rstack| == 3 && rstack[0] in Repr && ValidState(state);
      forall p: ReaderPart :: OkIn(p)
    }

    lemma {:induction false} OkParts()
      ensures Ok() <==> Contained() && Valid() && state == State()
    {
      assert Ok() ==> OkIn(Footprint) && OkIn(Behaviour);
    }

    ghost function Parts(): set<object>
      requires |rstack| == 3
      reads this, buf
    {
      {this, buf, buf.buf, rstack[0], rstack[1], rstack[2]} + region
    }

    /** No reply has been begun. */
    ghost predicate Between()
      reads `ridx
    {
      ridx == -1
    }

    /** Which zvals the reader is concerned with. */
    ghost function Aims(): Aim
      requires |rstack| == 3
      reads `ridx, `privdata, rstack[0]
    {
      Aim(privdata, RootTarget(), Between())
    }

    /** `redisReplyReaderSetPrivdata`: refused while there is a reply object. Between replies
        the reader gives up its hold on the previous zval; a reply that has been begun keeps
        it as its target. */
    method SetPrivdata(z: Zval) returns (ok: bool)
      requires Ok()
      modifies this
      ensures Ok() && state == old(state) && ok == old(reply == NoObj) && (old(Between()) ==> ok)
      ensures Between() == old(Between()) && privdata == if ok then z else old(privdata)
      ensures RootTarget() == if old(Between()) then z else old(RootTarget())
      ensures ok && Between() ==> Repr <= old(Repr - Held()) + {z}
      ensures Repr <= old(Repr) + {z}
    {
      OkParts();
      ok := StorePrivdata(z);
      Publish(state);
    }

    /** `redisReplyReaderFeed`. */
    method Feed(chunk: seq<byte>)
      requires Ok()
      modifies Repr
      ensures Ok() && fresh(Repr - old(Repr))
      ensures state == Sessions.Feed(old(state), chunk) && privdata == old(privdata)
      ensures Between() == old(Between()) && RootTarget() == old(RootTarget())
    {
      OkParts();
      ghost var s := Sessions.Feed(state, chunk);
      FeedBuffer(chunk);
      PartsAreKnown();
      Publish(s);
    }

    /** `redisReplyReaderGetReply` does what the pure reader does, and the object it hands
        out shows the reply: a `redisReply` tree, or with the hooks the zval that was the
        private data when the reply was begun, in this call or an earlier one. */
    method GetReply() returns (ok: bool, out: Obj, ghost cells: set<object>)
      requires Ok() && (fn.PhpHooks? ==> privdata != null)
      modifies Repr
      ensures forall c :: c in cells ==> (c in old(Repr) || fresh(c)) && (c in Repr ==> c in Held())
      ensures Ok() && fresh(Repr - old(Repr)) && privdata == old(privdata)
      ensures var a := Sessions.GetReply(old(state));
              && state == a.state && HandsOut(a.result, ok, out, cells)
              && (a.result.Delivered? ==> Tells(out, a.result.reply, cells))
              && (a.result.Delivered? && fn.PhpHooks? ==> out.z == old(RootTarget()))
              && (if a.result.NoReply? then RootTarget() == old(RootTarget()) else Between())
    {
      ghost var a := Sessions.GetReply(state);
      ok, out, cells := Deliver();
      if a.result.Delivered? {
        ObjectTells(out, a.result.reply, cells);
      }
      Publish(a.state);
    }

    /** The same in terms of the reader's parts. */
    method Deliver() returns (ok: bool, out: Obj, ghost cells: set<object>)
      requires Ok() && (fn.PhpHooks? ==> privdata != null)
      modifies Repr
      ensures forall c :: c in cells ==> (c in old(Repr) || fresh(c)) && (c in Parts() ==> c in Held())
      ensures (forall c :: c in Parts() ==> c in old(Repr) || fresh(c)) && privdata == old(privdata)
      ensures Valid() && State() == Sessions.GetReply(old(state)).state
      ensures var a := Sessions.GetReply(old(state));
              && HandsOut(a.result, ok, out, cells)
              && (a.result.Delivered? && fn.PhpHooks? ==> out.z == old(RootTarget()))
              && (if a.result.NoReply? then RootTarget() == old(RootTarget()) else Between())
    {
      OkParts();
      ok, out, cells := NextReply();
      PartsAreKnown();
    }

    twostate lemma PartsAreKnown()
      requires |rstack| == 3 && BufFresh() && NothingForeign()
      requires old(this in Repr && buf in Repr && buf.buf in Repr && region <= Repr)
      requires forall t :: t in rstack ==> t in old(Repr)
      ensures forall o :: o in Parts() ==> o in old(Repr) || fresh(o)
    {
    }

    ghost method Publish(s: ReaderState)
      requires Valid() && State() == s
      modifies `state, `Repr
      ensures Ok() && state == s && Repr == Parts()
    {
      state := s;
      Repr := Parts();
      OkParts();
    }
  }

  lemma {:induction false} AnswerOf(s: ReaderState, o: Outcome)
    requires ValidState(s) && (s.stale || s.buf != [])
    requires o == Run(s.p, if s.stale then [NUL] else s.buf)
    ensures var a := Sessions.GetReply(s);
            && a.state == Landing(o, s.fault)
            && a.result == if o.Waiting? then NoReply else if o.Got? && s.fault.None? then Delivered(o.reply) else Error
  {
  }

  /** The state a call ends in, given what its run amounts to. */
  ghost function Landing(o: Outcome, error: Option<Fault>): ReaderState {
    match o
    case Waiting(p, rest) => ReaderState(p, rest, error, false)
    case Got(r, rest) => ReaderState(IDLE, rest, error, false)
    case Failed(f) => ReaderState(IDLE, [], Some(f), true)
  }

  lemma {:induction false} TypedRun(p: Parse, ty: TaskType, b: seq<byte>)
    requires ValidParse(p) && p.ty.Unset? && b != [] && TypeOf(b[0]) == ty && !ty.Unset?
    ensures if ty.ArrayType? && |p.open| == MAX_LEVELS then Run(p, b) == Failed(TooDeep)
            else Run(p, b) == Run(Parse(p.open, ty), b[1..])
  {
  }

  /** `redisReplyReaderCreate`, with the function set chosen at once. */
  method ReplyReaderCreate(fn: Functions) returns (r: RedisReader)
    ensures fresh(r.Repr) && r.Ok() && r.Between() && r.state == INITIAL && r.fn == fn && r.privdata == null
  {
    var t0, t1, t2 := NewTasks();
    var b := new Sds([]);
    r := new RedisReader(fn, t0, t1, t2, b);
  }

  method NewTasks() returns (t0: ReadTask, t1: ReadTask, t2: ReadTask)
    ensures fresh({t0, t1, t2}) && t0 != t1 && t0 != t2 && t1 != t2 && t0.parent == null && t0.privdata == null
  {
    t0 := new ReadTask();
    t1 := new ReadTask();
    t2 := new ReadTask();
  }
}

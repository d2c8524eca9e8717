/** The two sets of object constructors a reader can be given: the default functions of
    hiredis.c and the PHP hooks, behind one contract in terms of reply trees. */
module Builders {
  import opened Bytes
  import opened Replies
  import opened Machine
  import opened Objects

  /** `redisReadTask`. */
  class ReadTask {
    var ty: TaskType
    var elements: int
    var idx: int
    var obj: Obj
    var parent: ReadTask?
    var privdata: Zval?

    constructor ()
      ensures obj == NoObj && parent == null && privdata == null
    {
      ty, elements, idx, obj, parent, privdata := Unset, 0, 0, NoObj, null, null;
    }
  }

  ghost function ParentCells(task: ReadTask): set<object>
    reads task, task.parent
  {
    if task.parent == null then {} else Cells(task.parent.obj)
  }

  // Default functions

  /** What every default constructor ends with: fill the slot in the parent. */
  method Link(task: ReadTask, r: ReplyObject)
    requires task.parent != null ==>
      task.parent.obj.ReplyObj? && task.parent.obj.r.element != null && 0 <= task.idx < task.parent.obj.r.element.Length
    modifies ParentCells(task)
    ensures task.parent != null ==>
      task.parent.obj.r.element[..] == old(task.parent.obj.r.element[..])[task.idx := r]
  {
    if task.parent != null {
      var parent := task.parent.obj.r;
      parent.element[task.idx] := r;
    }
  }

  // PHP hooks

  /** `add_index_zval`: replaces the entry with this key, or appends one. */
  function AddEntry<V>(entries: seq<(Key, V)>, k: Key, v: V): seq<(Key, V)> {
    if entries == [] then [(k, v)]
    else if entries[0].0 == k then [(k, v)] + entries[1..]
    else [entries[0]] + AddEntry(entries[1..], k, v)
  }

  lemma {:induction false} AddEntryAppends<V>(entries: seq<(Key, V)>, k: Key, v: V)
    requires forall i :: 0 <= i < |entries| ==> entries[i].0 != k
    ensures AddEntry(entries, k, v) == entries + [(k, v)]
    decreases |entries|
  {
    if entries != [] {
      AddEntryAppends(entries[1..], k, v);
      assert [entries[0]] + (entries[1..] + [(k, v)]) == entries + [(k, v)];
    }
  }

  /** Where a hook puts its result: a new zval, or for the root the caller's. */
  method TargetZval(task: ReadTask) returns (z: Zval)
    requires task.parent == null ==> task.privdata != null
    ensures if task.parent == null then z == task.privdata else fresh(z)
  {
    if task.parent != null {
      z := new Zval();
    } else {
      z := task.privdata;
    }
  }

  method TryParentize(task: ReadTask, z: Zval)
    requires task.parent != null ==> task.parent.obj.ZvalObj? && task.parent.obj.z.v.ZArray?
    modifies ParentCells(task)
    ensures task.parent != null ==>
      task.parent.obj.z.v == ZArray(AddEntry(old(task.parent.obj.z.v.entries), Index(task.idx), z))
  {
    if task.parent != null {
      var parent := task.parent.obj.z;
      parent.v := ZArray(AddEntry(parent.v.entries, Index(task.idx), z));
    }
  }

  /** The zval the string hook stores for each task type. */
  function HookText(ty: TaskType, str: seq<byte>): ZValue
    requires ty.ErrorType? || ty.StatusType? || ty.StringType?
  {
    match ty
    case ErrorType => ZBool(false)
    case StatusType => if |str| == 4 && str == PONG then ZString(PLUS_PONG) else ZBool(true)
    case StringType => ZString(str)
  }

  /** What the hooks store for a reply that is not an array. */
  function HookValue(t: Reply): ZValue
    requires !t.ArrayReply?
  {
    match t
    case ErrorReply(s) => HookText(ErrorType, s)
    case StatusReply(s) => HookText(StatusType, s)
    case StringReply(s) => HookText(StringType, s)
    case IntegerReply(v) => ZLong(v)
    case NilReply => ZBool(false)
  }

  // The function table

  /** A task is ready for its object: the enclosing array holds `f` and its next slot
      is the task's, or the task is the root and its target lies outside `cells`. */
  ghost predicate Ready(fn: Functions, task: ReadTask, f: Frame, cells: set<object>)
    reads task, task.parent, cells, ParentCells(task)
  {
    && (task.parent != null ==>
          && Kind(fn, task.parent.obj) && IsOpen(task.parent.obj, f, NoObj, cells)
          && task.idx == |f.items| < f.count && Cells(task.parent.obj) !! cells)
    && (task.parent == null && fn.PhpHooks? ==> task.privdata != null && task.privdata !in cells)
  }

  /** The memory a constructor call may write. */
  ghost function Target(fn: Functions, task: ReadTask): set<object>
    reads task, task.parent
  {
    ParentCells(task) + (if fn.PhpHooks? && task.parent == null && task.privdata != null then {task.privdata} else {})
  }

  /** The object of a finished element is in place, in its parent too. */
  ghost predicate Attached(task: ReadTask, f: Frame, t: Reply, o: Obj, cells: set<object>)
    reads task, task.parent, cells, Cells(o), ParentCells(task)
  {
    && Shows(o, t, cells + Cells(o))
    && (task.parent != null ==> IsOpen(task.parent.obj, f.(items := f.items + [t]), NoObj, cells + Cells(o)))
  }

  /** The object is new, except that a root zval is the caller's. */
  twostate predicate OwnCells(fn: Functions, task: ReadTask, new o: Obj)
    reads task
  {
    if fn.PhpHooks? && task.parent == null then o.ZvalObj? && o.z == task.privdata else fresh(Cells(o))
  }

  method AttachReply(task: ReadTask, r: ReplyObject, ghost t: Reply, ghost f: Frame, ghost cells: set<object>)
    requires Ready(DefaultFunctions, task, f, cells) && !t.ArrayReply? && IsReply(r, t, cells) && r.element == null
    modifies ParentCells(task)
    ensures Attached(task, f, t, ReplyObj(r), cells)
  {
    Link(task, r);
    assert cells + Cells(ReplyObj(r)) == cells;
    if task.parent != null {
      var p := task.parent.obj.r;
      assert forall i :: 0 <= i < p.element.Length ==> p.element[i] == p.element[..][i];
      forall i | 0 <= i < |f.items|
        ensures p.element[i] != null && IsReply(p.element[i], f.items[i], cells)
      {
        assert p.element[i] == old(p.element[i]);
      }
    }
  }

  method AttachZval(task: ReadTask, z: Zval, v: ZValue, ghost t: Reply, ghost f: Frame, ghost cells: set<object>)
    requires Ready(PhpHooks, task, f, cells) && !t.ArrayReply? && !v.ZArray?
    requires z !in cells && z !in ParentCells(task)
    requires HookValue(t) == v
    modifies z, ParentCells(task)
    ensures Attached(task, f, t, ZvalObj(z), cells)
  {
    z.v := v;
    assert IsZval(z, Convert(t), cells + {z});
    TryParentize(task, z);
    if task.parent != null {
      ghost var es := old(task.parent.obj.z.v.entries);
      assert forall i :: 0 <= i < |es| ==> es[i].0 == Index(i);
      AddEntryAppends(es, Index(task.idx), z);
      forall i | 0 <= i < |f.items|
        ensures IsZval(es[i].1, Convert(f.items[i]), cells)
      {
        assert old(IsZval(es[i].1, Convert(f.items[i]), cells));
      }
      IsOpenAppended(task.parent.obj, f, t, z, cells);
    }
  }

  lemma {:induction false} IsOpenAppended(o: Obj, f: Frame, t: Reply, z: Zval, cells: set<object>)
    requires o.ZvalObj? && o.z.v.ZArray? && |o.z.v.entries| == |f.items| + 1
    requires o.z.v.entries[|f.items|] == (Index(|f.items|), z) && IsZval(z, Convert(t), cells + {z})
    requires forall i :: 0 <= i < |f.items| ==>
      o.z.v.entries[i].0 == Index(i) && IsZval(o.z.v.entries[i].1, Convert(f.items[i]), cells)
    ensures IsOpen(o, f.(items := f.items + [t]), NoObj, cells + {z})
  {
    forall i | 0 <= i < |f.items|
      ensures IsZval(o.z.v.entries[i].1, Convert(f.items[i]), cells + {z})
    {
      IsZvalGrows(o.z.v.entries[i].1, Convert(f.items[i]), cells, cells + {z});
    }
  }

  function TextReply(ty: TaskType, s: seq<byte>): Reply
    requires ty.ErrorType? || ty.StatusType? || ty.StringType?
  {
    if ty.ErrorType? then ErrorReply(s) else if ty.StatusType? then StatusReply(s) else StringReply(s)
  }

  /** `createStringObject` of either set. */
  method CreateString(fn: Functions, task: ReadTask, str: seq<byte>, ghost f: Frame, ghost cells: set<object>)
    returns (o: Obj)
    requires task.ty.ErrorType? || task.ty.StatusType? || task.ty.StringType?
    requires Ready(fn, task, f, cells)
    modifies Target(fn, task)
    ensures Attached(task, f, TextReply(task.ty, str), o, cells)
    ensures Kind(fn, o) && OwnCells(fn, task, o)
  {
    ghost var t := TextReply(task.ty, str);
    if fn.DefaultFunctions? {
      var r := new ReplyObject.Text(ObjTypeOf(task.ty), str);
      AttachReply(task, r, t, f, cells);
      o := ReplyObj(r);
    } else {
      var z := TargetZval(task);
      AttachZval(task, z, HookText(task.ty, str), t, f, cells);
      o := ZvalObj(z);
    }
  }

  /** `createIntegerObject` of either set. */
  method CreateInteger(fn: Functions, task: ReadTask, value: int, ghost f: Frame, ghost cells: set<object>)
    returns (o: Obj)
    requires Ready(fn, task, f, cells)
    modifies Target(fn, task)
    ensures Attached(task, f, IntegerReply(value), o, cells)
    ensures Kind(fn, o) && OwnCells(fn, task, o)
  {
    if fn.DefaultFunctions? {
      var r := new ReplyObject.Integer(value);
      AttachReply(task, r, IntegerReply(value), f, cells);
      o := ReplyObj(r);
    } else {
      var z := TargetZval(task);
      AttachZval(task, z, ZLong(value), IntegerReply(value), f, cells);
      o := ZvalObj(z);
    }
  }

  /** `createNilObject` of either set. */
  method CreateNil(fn: Functions, task: ReadTask, ghost f: Frame, ghost cells: set<object>) returns (o: Obj)
    requires Ready(fn, task, f, cells)
    modifies Target(fn, task)
    ensures Attached(task, f, NilReply, o, cells)
    ensures Kind(fn, o) && OwnCells(fn, task, o)
  {
    if fn.DefaultFunctions? {
      var r := new ReplyObject.Nil();
      AttachReply(task, r, NilReply, f, cells);
      o := ReplyObj(r);
    } else {
      var z := TargetZval(task);
      AttachZval(task, z, ZBool(false), NilReply, f, cells);
      o := ZvalObj(z);
    }
  }

  /** `createArrayObject` of either set: the array is linked into its parent while
      none of its elements exist yet. */
  method CreateArray(fn: Functions, task: ReadTask, n: nat, ghost f: Frame, ghost cells: set<object>) returns (o: Obj)
    requires Ready(fn, task, f, cells)
    modifies Target(fn, task)
    ensures IsOpen(o, Frame(n, []), NoObj, cells) && Cells(o) !! cells && Cells(o) !! ParentCells(task)
    ensures task.parent != null ==> IsOpen(task.parent.obj, f, o, cells)
    ensures Kind(fn, o) && OwnCells(fn, task, o)
  {
    if fn.DefaultFunctions? {
      var r := new ReplyObject.Array(n);
      LinkArray(task, r, f, cells);
      o := ReplyObj(r);
    } else {
      var z := TargetZval(task);
      z.v := ZArray([]);
      ParentizeArray(task, z, f, cells);
      o := ZvalObj(z);
    }
  }

  method LinkArray(task: ReadTask, r: ReplyObject, ghost f: Frame, ghost cells: set<object>)
    requires Ready(DefaultFunctions, task, f, cells) && r.element != null && r.element !in ParentCells(task)
    modifies ParentCells(task)
    ensures task.parent != null ==> IsOpen(task.parent.obj, f, ReplyObj(r), cells)
  {
    Link(task, r);
    if task.parent != null {
      var p := task.parent.obj.r;
      assert forall i :: 0 <= i < p.element.Length ==> p.element[i] == p.element[..][i];
      forall i | 0 <= i < |f.items|
        ensures p.element[i] != null && IsReply(p.element[i], f.items[i], cells)
      {
        assert p.element[i] == old(p.element[i]);
      }
    }
  }

  method ParentizeArray(task: ReadTask, z: Zval, ghost f: Frame, ghost cells: set<object>)
    requires Ready(PhpHooks, task, f, cells) && z !in cells && z !in ParentCells(task) && z.v == ZArray([])
    modifies ParentCells(task)
    ensures task.parent != null ==> IsOpen(task.parent.obj, f, ZvalObj(z), cells)
  {
    TryParentize(task, z);
    if task.parent != null {
      ghost var es := old(task.parent.obj.z.v.entries);
      assert forall i :: 0 <= i < |es| ==> es[i].0 == Index(i);
      AddEntryAppends(es, Index(task.idx), z);
      forall i | 0 <= i < |f.items|
        ensures IsZval(es[i].1, Convert(f.items[i]), cells)
      {
        assert old(IsZval(es[i].1, Convert(f.items[i]), cells));
      }
    }
  }
}

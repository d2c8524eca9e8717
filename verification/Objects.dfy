/** The objects a reply is built from, in place: `redisReply` nodes of the default
    functions, and the zvals of the PHP hooks. */
module Objects {
  import opened Bytes
  import opened Replies
  import opened Machine

  datatype ObjType = ErrorObj | StringObj | ArrayObj | IntegerObj | NilObj | StatusObj

  /** `redisReply`. Only the slots of `element` change after creation. */
  class ReplyObject {
    const ty: ObjType
    const integer: int
    const str: seq<byte>
    const element: array?<ReplyObject?>

    constructor Text(ty: ObjType, str: seq<byte>)
      ensures this.ty == ty && this.str == str && element == null
    {
      this.ty, this.integer, this.str, this.element := ty, 0, str, null;
    }

    constructor Integer(value: int)
      ensures ty == IntegerObj && integer == value && element == null
    {
      this.ty, this.integer, this.str, this.element := IntegerObj, value, [], null;
    }

    constructor Nil()
      ensures ty == NilObj && element == null
    {
      this.ty, this.integer, this.str, this.element := NilObj, 0, [], null;
    }

    constructor Array(n: nat)
      ensures ty == ArrayObj && element != null && fresh(element) && element.Length == n
      ensures forall i :: 0 <= i < n ==> element[i] == null
    {
      var slots := new ReplyObject?[n](_ => null);
      this.ty, this.integer, this.str, this.element := ArrayObj, 0, [], slots;
    }
  }

  datatype Key = Index(i: int) | Name(s: seq<byte>)

  /** What a zval holds; arrays are ordered tables of references to other zvals. */
  datatype ZValue = ZUndef | ZBool(b: bool) | ZLong(l: int) | ZString(s: seq<byte>) | ZArray(entries: seq<(Key, Zval)>)

  class Zval {
    var v: ZValue

    constructor ()
      ensures v == ZUndef
    {
      v := ZUndef;
    }
  }

  /** A PHP value, that is, a zval with everything it refers to. */
  datatype Php = PBool(b: bool) | PLong(l: int) | PString(s: seq<byte>) | PArray(entries: seq<(Key, Php)>)

  const PONG: seq<byte> := [80, 79, 78, 71]
  const PLUS_PONG: seq<byte> := [43, 80, 79, 78, 71]

  /** The conversion the hooks are meant to compute. */
  function Convert(r: Reply): Php {
    match r
    case ErrorReply(_) => PBool(false)
    case StatusReply(t) => if t == PONG then PString(PLUS_PONG) else PBool(true)
    case IntegerReply(v) => PLong(v)
    case NilReply => PBool(false)
    case StringReply(s) => PString(s)
    case ArrayReply(items) => PArray(seq(|items|, i requires 0 <= i < |items| => (Index(i), Convert(items[i]))))
  }

  /** A reference handed around as `void *`. */
  datatype Obj = NoObj | ReplyObj(r: ReplyObject) | ZvalObj(z: Zval)

  datatype Functions = DefaultFunctions | PhpHooks

  /** The mutable memory that belongs to one node itself. */
  ghost function Cells(o: Obj): set<object> {
    match o
    case NoObj => {}
    case ReplyObj(r) => if r.element == null then {} else {r.element}
    case ZvalObj(z) => {z}
  }

  ghost predicate Kind(fn: Functions, o: Obj) {
    if fn.DefaultFunctions? then o.ReplyObj? else o.ZvalObj?
  }

  function ObjTypeOf(ty: TaskType): ObjType
    requires ty.ErrorType? || ty.StatusType? || ty.StringType?
  {
    if ty.ErrorType? then ErrorObj else if ty.StatusType? then StatusObj else StringObj
  }

  /** `o` is the completed tree `t`, all its mutable memory lying in `cells`. */
  ghost predicate IsReply(o: ReplyObject, t: Reply, cells: set<object>)
    reads cells
    decreases t
  {
    match t
    case ErrorReply(s) => o.ty == ErrorObj && o.str == s
    case StatusReply(s) => o.ty == StatusObj && o.str == s
    case IntegerReply(v) => o.ty == IntegerObj && o.integer == v
    case NilReply => o.ty == NilObj
    case StringReply(s) => o.ty == StringObj && o.str == s
    case ArrayReply(items) =>
      && o.ty == ArrayObj && o.element != null && o.element in cells && o.element.Length == |items|
      && forall i | 0 <= i < |items| :: o.element[i] != null && IsReply(o.element[i], items[i], cells)
  }

  ghost predicate IsZval(z: Zval, v: Php, cells: set<object>)
    reads cells
    decreases v
  {
    && z in cells
    && match v
       case PBool(b) => z.v == ZBool(b)
       case PLong(l) => z.v == ZLong(l)
       case PString(s) => z.v == ZString(s)
       case PArray(es) =>
         && z.v.ZArray? && |z.v.entries| == |es|
         && forall i | 0 <= i < |es| :: z.v.entries[i].0 == es[i].0 && IsZval(z.v.entries[i].1, es[i].1, cells)
  }

  /** Either kind of object as the image of the reply `t`. */
  ghost predicate Shows(o: Obj, t: Reply, cells: set<object>)
    reads cells
  {
    match o
    case NoObj => false
    case ReplyObj(r) => IsReply(r, t, cells)
    case ZvalObj(z) => IsZval(z, Convert(t), cells)
  }

  // What an object tells about its reply, kind by kind

  /** The status that the hooks do not turn into `true`, and what they make of it. */
  predicate IsPong(r: Reply) {
    r == StatusReply([80, 79, 78, 71])
  }

  ghost predicate Copies(o: ReplyObject, r: Reply, cells: set<object>)
    reads cells
    decreases r
  {
    && (o.ty == ErrorObj <==> r.ErrorReply?) && (o.ty == StatusObj <==> r.StatusReply?)
    && (o.ty == IntegerObj <==> r.IntegerReply?) && (o.ty == NilObj <==> r.NilReply?)
    && (o.ty == StringObj <==> r.StringReply?) && (o.ty == ArrayObj <==> r.ArrayReply?)
    && (r.ErrorReply? || r.StatusReply? ==> o.str == r.text) && (r.StringReply? ==> o.str == r.body)
    && (r.IntegerReply? ==> o.integer == r.value)
    && (r.ArrayReply? ==> o.element != null && o.element in cells && o.element.Length == |r.items|)
    && (r.ArrayReply? ==>
        forall i :: 0 <= i < |r.items| ==> o.element[i] != null && Copies(o.element[i], r.items[i], cells))
  }

  ghost predicate Pictures(z: Zval, r: Reply, cells: set<object>)
    reads cells
    decreases r
  {
    && z in cells
    && (z.v == ZBool(true) <==> r.StatusReply? && !IsPong(r))
    && (z.v == ZBool(false) <==> r.ErrorReply? || r.NilReply?)
    && (forall n :: z.v == ZLong(n) <==> r == IntegerReply(n))
    && (forall s :: z.v == ZString(s) <==> r == StringReply(s) || (IsPong(r) && s == [43, 80, 79, 78, 71]))
    && (z.v.ZArray? <==> r.ArrayReply?)
    && (r.ArrayReply? ==> |z.v.entries| == |r.items|)
    && (r.ArrayReply? ==>
        forall i :: 0 <= i < |r.items| ==>
          z.v.entries[i].0 == Index(i) && Pictures(z.v.entries[i].1, r.items[i], cells))
  }

  ghost predicate Tells(o: Obj, r: Reply, cells: set<object>)
    reads cells
  {
    match o
    case NoObj => false
    case ReplyObj(x) => Copies(x, r, cells)
    case ZvalObj(z) => Pictures(z, r, cells)
  }

  /** The same for a PHP value. */
  ghost predicate Resembles(v: Php, r: Reply)
    decreases r
  {
    && (v == PBool(true) <==> r.StatusReply? && !IsPong(r))
    && (v == PBool(false) <==> r.ErrorReply? || r.NilReply?)
    && (forall n :: v == PLong(n) <==> r == IntegerReply(n))
    && (forall s :: v == PString(s) <==> r == StringReply(s) || (IsPong(r) && s == [43, 80, 79, 78, 71]))
    && (v.PArray? <==> r.ArrayReply?)
    && (r.ArrayReply? ==> |v.entries| == |r.items|)
    && (r.ArrayReply? ==>
        forall i :: 0 <= i < |r.items| ==> v.entries[i].0 == Index(i) && Resembles(v.entries[i].1, r.items[i]))
  }

  /** A reply object tells the kind and the content of its reply. */
  lemma {:induction false} ReplyTells(o: ReplyObject, r: Reply, cells: set<object>)
    ensures IsReply(o, r, cells) <==> Copies(o, r, cells)
    decreases r
  {
    if r.ArrayReply? && o.element != null && o.element in cells && o.element.Length == |r.items| {
      forall i | 0 <= i < |r.items| && o.element[i] != null
        ensures IsReply(o.element[i], r.items[i], cells) <==> Copies(o.element[i], r.items[i], cells)
      {
        ReplyTells(o.element[i], r.items[i], cells);
      }
    }
  }

  /** The hooks keep the content of integers and strings and the order of elements, make
      `true` of a status and `false` of an error or nil, and nothing else of anything else. */
  lemma {:induction false} ZvalTells(z: Zval, r: Reply, cells: set<object>)
    ensures IsZval(z, Convert(r), cells) <==> Pictures(z, r, cells)
    decreases r
  {
    if r.ArrayReply? && z in cells && z.v.ZArray? && |z.v.entries| == |r.items| {
      forall i | 0 <= i < |r.items|
        ensures IsZval(z.v.entries[i].1, Convert(r.items[i]), cells) <==>
          Pictures(z.v.entries[i].1, r.items[i], cells)
      {
        ZvalTells(z.v.entries[i].1, r.items[i], cells);
      }
    }
  }

  lemma {:induction false} ObjectTells(o: Obj, r: Reply, cells: set<object>)
    ensures Shows(o, r, cells) <==> Tells(o, r, cells)
  {
    match o
    case NoObj =>
    case ReplyObj(x) => ReplyTells(x, r, cells);
    case ZvalObj(z) => ZvalTells(z, r, cells);
  }

  lemma {:induction false} ConvertResembles(r: Reply)
    ensures Resembles(Convert(r), r)
    decreases r
  {
    if r.ArrayReply? {
      forall i | 0 <= i < |r.items|
        ensures Resembles(Convert(r.items[i]), r.items[i])
      {
        ConvertResembles(r.items[i]);
      }
    }
  }

  /** An array under construction: the elements of `f` are in place, and the next slot
      is empty or already refers to the open array `child`. */
  ghost predicate IsOpen(o: Obj, f: Frame, child: Obj, cells: set<object>)
    reads cells, Cells(o)
  {
    match o
    case NoObj => false
    case ReplyObj(r) =>
      && r.ty == ArrayObj && r.element != null && r.element.Length == f.count && |f.items| <= f.count
      && (forall i | 0 <= i < |f.items| :: r.element[i] != null && IsReply(r.element[i], f.items[i], cells))
      && (child != NoObj ==> |f.items| < f.count && child.ReplyObj? && r.element[|f.items|] == child.r)
      && forall i | |f.items| + (if child == NoObj then 0 else 1) <= i < f.count :: r.element[i] == null
    case ZvalObj(z) =>
      && z.v.ZArray? && |z.v.entries| == |f.items| + (if child == NoObj then 0 else 1)
      && (forall i | 0 <= i < |f.items| ::
          z.v.entries[i].0 == Index(i) && IsZval(z.v.entries[i].1, Convert(f.items[i]), cells))
      && (child != NoObj ==> child.ZvalObj? && z.v.entries[|f.items|] == (Index(|f.items|), child.z))
  }

  lemma {:induction false} IsReplyGrows(o: ReplyObject, t: Reply, cells: set<object>, more: set<object>)
    requires IsReply(o, t, cells) && cells <= more
    ensures IsReply(o, t, more)
    decreases t
  {
    if t.ArrayReply? {
      forall i | 0 <= i < |t.items|
        ensures IsReply(o.element[i], t.items[i], more)
      {
        IsReplyGrows(o.element[i], t.items[i], cells, more);
      }
    }
  }

  lemma {:induction false} IsZvalGrows(z: Zval, v: Php, cells: set<object>, more: set<object>)
    requires IsZval(z, v, cells) && cells <= more
    ensures IsZval(z, v, more)
    decreases v
  {
    if v.PArray? {
      forall i | 0 <= i < |v.entries|
        ensures IsZval(z.v.entries[i].1, v.entries[i].1, more)
      {
        IsZvalGrows(z.v.entries[i].1, v.entries[i].1, cells, more);
      }
    }
  }

  lemma {:induction false} IsOpenGrows(o: Obj, f: Frame, child: Obj, cells: set<object>, more: set<object>)
    requires IsOpen(o, f, child, cells) && cells <= more
    ensures IsOpen(o, f, child, more)
  {
    match o
    case ReplyObj(r) =>
      forall i | 0 <= i < |f.items|
        ensures IsReply(r.element[i], f.items[i], more)
      {
        IsReplyGrows(r.element[i], f.items[i], cells, more);
      }
    case ZvalObj(z) =>
      forall i | 0 <= i < |f.items|
        ensures IsZval(z.v.entries[i].1, Convert(f.items[i]), more)
      {
        IsZvalGrows(z.v.entries[i].1, Convert(f.items[i]), cells, more);
      }
  }

  /** An array whose slots are all filled is the finished reply. */
  lemma {:induction false} CloseArray(o: Obj, f: Frame, cells: set<object>)
    requires IsOpen(o, f, NoObj, cells) && |f.items| == f.count
    ensures Shows(o, ArrayReply(f.items), cells + Cells(o))
  {
    IsOpenGrows(o, f, NoObj, cells, cells + Cells(o));
    if o.ZvalObj? {
      var es := Convert(ArrayReply(f.items)).entries;
      forall i | 0 <= i < |es|
        ensures o.z.v.entries[i].0 == es[i].0 && IsZval(o.z.v.entries[i].1, es[i].1, cells + Cells(o))
      {
        assert IsZval(o.z.v.entries[i].1, Convert(f.items[i]), cells + Cells(o));
      }
    }
  }

  /** A child linked in before it was filled counts as an element once it is finished. */
  lemma {:induction false} CloseChild(o: Obj, f: Frame, child: Obj, t: Reply, cells: set<object>, more: set<object>)
    requires IsOpen(o, f, child, cells) && child != NoObj && cells <= more && Shows(child, t, more)
    ensures IsOpen(o, f.(items := f.items + [t]), NoObj, more)
  {
    IsOpenGrows(o, f, child, cells, more);
  }
}

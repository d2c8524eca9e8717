/** The linked queues of a `RedisSock`: the main queue of reply readers, and a list of
    readers for each block. */
module Queues {
  import opened Bytes
  import opened Replies
  import opened Objects
  import opened Validators
  import opened Pipeline

  /** `redis_command`. `home` tells the lists apart: -1 is the main queue. */
  class Node {
    const fun: Option<Validator>
    const multi: Node?
    ghost const home: int
    var next: Node?

    constructor (fun: Option<Validator>, multi: Node?, ghost home: int)
      ensures this.fun == fun && this.multi == multi && this.home == home && next == null
    {
      this.fun, this.multi, this.home, next := fun, multi, home, null;
    }
  }

  /** The `next` pointers, as a value. */
  type Links = map<Node, Node?>

  ghost predicate Mirrors(links: Links)
    reads links.Keys
  {
    forall c :: c in links ==> c.next == links[c]
  }

  /** `nodes` is a list from `head` to `tail`. */
  ghost predicate Chain(nodes: seq<Node>, home: int, head: Node?, tail: Node?, links: Links) {
    && (forall i :: 0 <= i < |nodes| ==> nodes[i] in links && nodes[i].home == home)
    && (forall i, j :: 0 <= i < j < |nodes| && j == i + 1 ==> links[nodes[i]] == nodes[j])
    && (nodes != [] ==> links[nodes[|nodes| - 1]] == null)
    && head == (if nodes == [] then null else nodes[0])
    && tail == (if nodes == [] then null else nodes[|nodes| - 1])
  }

  ghost function Relinked(links: Links, t: Node?, c: Node): Links {
    (if t == null then links else links[t := c])[c := null]
  }

  /** `redis_enqueue_`. */
  method EnqueueNode(h: Node?, t: Node?, c: Node, ghost links: Links) returns (head: Node?, tail: Node?)
    requires Mirrors(links) && (t != null ==> t in links) && c !in links && c.next == null
    modifies (if t == null then {} else {t})
    ensures Mirrors(Relinked(links, t, c)) && head == (if t == null then c else h) && tail == c
  {
    if t == null {
      head, tail := c, c;
    } else {
      t.next := c;
      head, tail := h, c;
    }
  }

  lemma {:induction false} ChainAppends(nodes: seq<Node>, h: Node?, t: Node?, c: Node, links: Links)
    requires Chain(nodes, c.home, h, t, links) && c !in links
    ensures Chain(nodes + [c], c.home, if t == null then c else h, c, Relinked(links, t, c))
  {
    forall i | 0 <= i < |nodes| - 1
      ensures nodes[i] != t
    {
      assert links[nodes[i]] == nodes[i + 1];
    }
  }

  /** A list is not disturbed by what happens at the end of another one. */
  lemma {:induction false} ChainKept(
    nodes: seq<Node>, home: int, h: Node?, t: Node?, links: Links, end: Node?, c: Node)
    requires Chain(nodes, home, h, t, links) && c !in links && (end != null ==> end.home != home)
    ensures Chain(nodes, home, h, t, Relinked(links, end, c))
  {
    forall i | 0 <= i < |nodes|
      ensures nodes[i] != end && nodes[i] != c
    {
      assert nodes[i] in links;
    }
  }

  /** What a node of the main queue holds for a slot; the k-th block list starts at `firsts[k]`. */
  ghost predicate Holds(fun: Option<Validator>, multi: Node?, slot: Slot, firsts: seq<Node>) {
    && (slot.Read? ==> fun == Some(slot.fn) && multi == null)
    && (slot.Join? ==> fun == None && slot.list < |firsts| && multi == firsts[slot.list])
    && (slot.Hole? ==> fun == None && multi == null)
  }

  ghost predicate Represents(c: Node, slot: Slot, firsts: seq<Node>) {
    Holds(c.fun, c.multi, slot, firsts)
  }

  ghost predicate QueueOk(queue: seq<Node>, slots: seq<Slot>, firsts: seq<Node>) {
    |queue| == |slots| && forall i :: 0 <= i < |queue| ==> Represents(queue[i], slots[i], firsts)
  }

  ghost predicate BlockOk(nodes: seq<Node>, home: int, fns: seq<Validator>, links: Links) {
    && |nodes| == |fns| && (forall i :: 0 <= i < |nodes| ==> nodes[i].fun == Some(fns[i]))
    && nodes != [] && Chain(nodes, home, nodes[0], nodes[|nodes| - 1], links)
  }

  /** Finished block lists: the k-th holds the readers `readers[k]`. */
  ghost predicate BlocksOk(blocks: seq<seq<Node>>, readers: seq<seq<Validator>>, links: Links) {
    |blocks| == |readers| && forall k :: 0 <= k < |blocks| ==> BlockOk(blocks[k], k, readers[k], links)
  }

  lemma {:induction false} BlocksKept(
    blocks: seq<seq<Node>>, readers: seq<seq<Validator>>, links: Links, end: Node?, c: Node)
    requires BlocksOk(blocks, readers, links) && c !in links
    requires end != null ==> end.home == -1 || end.home >= |blocks|
    ensures BlocksOk(blocks, readers, Relinked(links, end, c))
  {
    forall k | 0 <= k < |blocks|
      ensures BlockOk(blocks[k], k, readers[k], Relinked(links, end, c))
    {
      assert BlockOk(blocks[k], k, readers[k], links);
      ChainKept(blocks[k], k, blocks[k][0], blocks[k][|blocks[k]| - 1], links, end, c);
    }
  }

  /** `firsts` are the first nodes of the finished lists and of the current one. */
  ghost predicate FirstsOk(firsts: seq<Node>, blocks: seq<seq<Node>>, list: seq<Node>) {
    && |firsts| == |blocks| + (if list == [] then 0 else 1)
    && (forall k :: 0 <= k < |blocks| ==> blocks[k] != [] && firsts[k] == blocks[k][0])
    && (list != [] ==> firsts[|blocks|] == list[0])
  }

  /** What the lists stand for: the main queue, the readers of the list `multi_tail` ends,
      and the readers of the lists before it, which the main queue may still refer to. */
  datatype View = View(slots: seq<Slot>, fns: seq<Validator>, readers: seq<seq<Validator>>)

  /** Finished lists and the current one. */
  ghost function Lists(v: View): seq<seq<Validator>> {
    if v.fns == [] then v.readers else v.readers + [v.fns]
  }

  /** Where the nodes are; `firsts` are the first nodes of all lists. */
  datatype Layout = Layout(
    links: Links, queue: seq<Node>, list: seq<Node>, blocks: seq<seq<Node>>, firsts: seq<Node>,
    queueHead: Node?, queueTail: Node?, multiHead: Node?, multiTail: Node?)

  ghost predicate ListOk(l: Layout, v: View) {
    && Chain(l.list, |l.blocks|, l.multiHead, l.multiTail, l.links)
    && (l.list != [] ==> BlockOk(l.list, |l.blocks|, v.fns, l.links)) && (l.list == [] ==> v.fns == [])
  }

  datatype Part = MainQueue | CurrentList | FinishedLists | FirstNodes

  ghost predicate PartOk(p: Part, l: Layout, v: View) {
    match p
    case MainQueue => Chain(l.queue, -1, l.queueHead, l.queueTail, l.links) && QueueOk(l.queue, v.slots, l.firsts)
    case CurrentList => ListOk(l, v)
    case FinishedLists => BlocksOk(l.blocks, v.readers, l.links)
    case FirstNodes => FirstsOk(l.firsts, l.blocks, l.list)
  }

  /** The layout stands for the view, part by part. */
  ghost predicate Good(l: Layout, v: View) {
    forall p: Part :: PartOk(p, l, v)
  }

  lemma {:induction false} GoodParts(l: Layout, v: View)
    ensures Good(l, v) <==>
      PartOk(MainQueue, l, v) && PartOk(CurrentList, l, v) && PartOk(FinishedLists, l, v) && PartOk(FirstNodes, l, v)
  {
    forall p: Part | p.MainQueue? || p.CurrentList? || p.FinishedLists? || p.FirstNodes?
      ensures Good(l, v) ==> PartOk(p, l, v)
    {
    }
  }

  ghost function ListReset(l: Layout): Layout {
    l.(
      list := [], blocks := if l.list == [] then l.blocks else l.blocks + [l.list],
      multiHead := null, multiTail := null)
  }

  ghost function MainReset(l: Layout): Layout {
    l.(queue := [], queueHead := null, queueTail := null)
  }

  /** A node at the end of the main queue leaves the block lists alone. */
  lemma {:induction false} PushMainKeeps(l: Layout, v: View, c: Node, slot: Slot) returns (m: Layout)
    requires Good(l, v) && c !in l.links && c.home == -1 && Represents(c, slot, l.firsts)
    ensures Good(m, v.(slots := v.slots + [slot]))
    ensures m.links == Relinked(l.links, l.queueTail, c) && m.links.Keys == l.links.Keys + {c}
    ensures l.queueTail != null ==> l.queueTail in l.links
    ensures m.queueHead == (if l.queueTail == null then c else l.queueHead) && m.queueTail == c
    ensures m.multiHead == l.multiHead && m.multiTail == l.multiTail
  {
    GoodParts(l, v);
    ChainAppends(l.queue, l.queueHead, l.queueTail, c, l.links);
    ChainKept(l.list, |l.blocks|, l.multiHead, l.multiTail, l.links, l.queueTail, c);
    BlocksKept(l.blocks, v.readers, l.links, l.queueTail, c);
    m := l.(links := Relinked(l.links, l.queueTail, c), queue := l.queue + [c],
            queueHead := if l.queueTail == null then c else l.queueHead, queueTail := c);
    GoodParts(m, v.(slots := v.slots + [slot]));
  }

  /** A node at the end of the current list leaves the main queue and earlier lists alone. */
  lemma {:induction false} PushListKeeps(l: Layout, v: View, c: Node, fn: Validator) returns (m: Layout)
    requires Good(l, v) && c !in l.links && c.home == |l.blocks| && c.fun == Some(fn)
    ensures Good(m, v.(fns := v.fns + [fn]))
    ensures m.links == Relinked(l.links, l.multiTail, c) && m.links.Keys == l.links.Keys + {c}
    ensures l.multiTail != null ==> l.multiTail in l.links
    ensures m.multiHead == (if l.multiTail == null then c else l.multiHead) && m.multiTail == c
    ensures m.queueHead == l.queueHead && m.queueTail == l.queueTail
  {
    GoodParts(l, v);
    ChainAppends(l.list, l.multiHead, l.multiTail, c, l.links);
    ChainKept(l.queue, -1, l.queueHead, l.queueTail, l.links, l.multiTail, c);
    BlocksKept(l.blocks, v.readers, l.links, l.multiTail, c);
    m := l.(links := Relinked(l.links, l.multiTail, c), list := l.list + [c],
            firsts := if l.list == [] then l.firsts + [c] else l.firsts,
            multiHead := if l.multiTail == null then c else l.multiHead, multiTail := c);
    GoodParts(m, v.(fns := v.fns + [fn]));
  }

  lemma {:induction false} ResetListKeeps(l: Layout, v: View)
    requires Good(l, v)
    ensures Good(ListReset(l), View(v.slots, [], Lists(v)))
  {
    GoodParts(l, v);
    GoodParts(ListReset(l), View(v.slots, [], Lists(v)));
    FirstsReset(l.firsts, l.blocks, l.list);
    if l.list != [] {
      BlocksAppend(l.blocks, v.readers, l.list, v.fns, l.links);
    }
  }

  /** The head of the current list is what the end of a block has to refer to. */
  lemma {:induction false} MultiHeadHolds(l: Layout, v: View)
    requires Good(l, v)
    ensures Holds(None, l.multiHead, if v.fns == [] then Hole else Join(|v.readers|), l.firsts)
  {
    GoodParts(l, v);
    assert l.list == [] <==> v.fns == [];
  }

  lemma {:induction false} BlocksAppend(
    blocks: seq<seq<Node>>, readers: seq<seq<Validator>>, list: seq<Node>, fns: seq<Validator>, links: Links)
    requires BlocksOk(blocks, readers, links) && BlockOk(list, |blocks|, fns, links)
    ensures BlocksOk(blocks + [list], readers + [fns], links)
  {
  }

  lemma {:induction false} FirstsReset(firsts: seq<Node>, blocks: seq<seq<Node>>, list: seq<Node>)
    requires FirstsOk(firsts, blocks, list)
    ensures FirstsOk(firsts, if list == [] then blocks else blocks + [list], [])
  {
  }

  /** The lockstep walk over a block list and the values of the EXEC reply. */
  method WalkBlock(
    first: Node?, vs: seq<Php>, ghost nodes: seq<Node>, ghost home: int, ghost fns: seq<Validator>,
    ghost links: Links)
    returns (results: seq<Php>)
    requires Mirrors(links)
    requires if nodes == [] then first == null && fns == [] else BlockOk(nodes, home, fns, links) && first == nodes[0]
    ensures results == Lockstep(fns, vs)
  {
    results := [];
    var cm, i := first, 0;
    ghost var goal := Lockstep(fns, vs);
    assert fns[0..] == fns && vs[0..] == vs;
    while cm != null && i < |vs|
      invariant 0 <= i <= |vs| && i <= |nodes| == |fns|
      invariant cm == if i < |nodes| then nodes[i] else null
      invariant goal == results + Lockstep(fns[i..], vs[i..])
      decreases |vs| - i
    {
      assert cm.fun == Some(fns[i]) && fns[i..][1..] == fns[i + 1..] && vs[i..][1..] == vs[i + 1..];
      assert i + 1 < |nodes| ==> links[nodes[i]] == nodes[i + 1];
      var r := Apply(cm.fun.value, vs[i]);
      if r.Some? {
        results := results + [r.value];
      }
      cm, i := cm.next, i + 1;
    }
  }

  class CommandQueues {
    var queueHead: Node?
    var queueTail: Node?
    var multiHead: Node?
    var multiTail: Node?
    ghost var view: View
    ghost var layout: Layout
    ghost var Repr: set<object>

    ghost predicate Matches()
      reads this
    {
      && queueHead == layout.queueHead && queueTail == layout.queueTail
      && multiHead == layout.multiHead && multiTail == layout.multiTail
    }

    ghost predicate Valid()
      reads this, Repr
      ensures Valid() ==> this in Repr
    {
      this in Repr && layout.links.Keys <= Repr && Mirrors(layout.links) && Good(layout, view) && Matches()
    }

    constructor ()
      ensures Valid() && fresh(Repr) && view == View([], [], [])
    {
      queueHead, queueTail, multiHead, multiTail := null, null, null, null;
      view, layout, Repr := View([], [], []), Layout(map[], [], [], [], [], null, null, null, null), {this};
      new;
      GoodParts(layout, view);
    }

    /** Appends a node to the main queue. */
    method PushMain(fun: Option<Validator>, sub: Node?, ghost slot: Slot)
      requires Valid() && Holds(fun, sub, slot, layout.firsts)
      modifies Repr
      ensures Valid() && fresh(Repr - old(Repr)) && view == old(view).(slots := old(view.slots) + [slot])
    {
      var c := LinkMain(fun, sub, slot);
      Repr := Repr + {c};
    }

    method LinkMain(fun: Option<Validator>, sub: Node?, ghost slot: Slot) returns (c: Node)
      requires Valid() && Holds(fun, sub, slot, layout.firsts)
      modifies `queueHead, `queueTail, `view, `layout, layout.links.Keys
      ensures fresh(c) && layout.links.Keys == old(layout.links.Keys) + {c}
      ensures Mirrors(layout.links) && Good(layout, view) && Matches()
      ensures view == old(view).(slots := old(view.slots) + [slot])
    {
      c := new Node(fun, sub, -1);
      ghost var m := PushMainKeeps(layout, view, c, slot);
      queueHead, queueTail := EnqueueNode(queueHead, queueTail, c, layout.links);
      view, layout := view.(slots := view.slots + [slot]), m;
    }

    /** Appends a node to the list that `multiTail` ends. */
    method PushList(fn: Validator)
      requires Valid()
      modifies Repr
      ensures Valid() && fresh(Repr - old(Repr)) && view == old(view).(fns := old(view.fns) + [fn])
    {
      var c := LinkList(fn);
      Repr := Repr + {c};
    }

    method LinkList(fn: Validator) returns (c: Node)
      requires Valid()
      modifies `multiHead, `multiTail, `view, `layout, layout.links.Keys
      ensures fresh(c) && layout.links.Keys == old(layout.links.Keys) + {c}
      ensures Mirrors(layout.links) && Good(layout, view) && Matches()
      ensures view == old(view).(fns := old(view.fns) + [fn])
    {
      c := new Node(Some(fn), null, |layout.blocks|);
      ghost var m := PushListKeeps(layout, view, c, fn);
      multiHead, multiTail := EnqueueNode(multiHead, multiTail, c, layout.links);
      view, layout := view.(fns := view.fns + [fn]), m;
    }

    /** Forgets the list, which blocks in the main queue may still refer to. */
    method ResetList()
      requires Valid()
      modifies this
      ensures Valid() && Repr == old(Repr) && view == View(old(view.slots), [], Lists(old(view)))
    {
      ResetListKeeps(layout, view);
      multiHead, multiTail := null, null;
      view, layout := View(view.slots, [], Lists(view)), ListReset(layout);
    }

    /** Forgets the main queue. */
    method ResetMain()
      requires Valid()
      modifies this
      ensures Valid() && Repr == old(Repr) && view == old(view).(slots := [])
    {
      GoodParts(layout, view);
      GoodParts(MainReset(layout), view.(slots := []));
      queueHead, queueTail := null, null;
      view, layout := view.(slots := []), MainReset(layout);
    }

    /** The lockstep walk over the current list. */
    method WalkList(vs: seq<Php>) returns (results: seq<Php>)
      requires Valid()
      ensures results == Lockstep(view.fns, vs)
    {
      GoodParts(layout, view);
      results := WalkBlock(multiHead, vs, layout.list, |layout.blocks|, view.fns, layout.links);
    }

    /** What `send` does with the reply for the node `c`. */
    method TakeOne(c: Node, reply: Reply, ghost slot: Slot) returns (crash: bool, vs: seq<Php>)
      requires Valid() && Represents(c, slot, layout.firsts)
      ensures Taken(slot, Lists(view), reply) == if crash then None else Some(vs)
    {
      var z := Convert(reply);
      crash, vs := false, [];
      if c.multi != null {
        if !z.PArray? {
          return true, [];
        }
        ghost var k := slot.list;
        ghost var nodes, fns := layout.list, view.fns;
        GoodParts(layout, view);
        if k < |layout.blocks| {
          nodes, fns := layout.blocks[k], view.readers[k];
          assert BlockOk(nodes, k, fns, layout.links);
        }
        var tab := WalkBlock(c.multi, Values(z.entries), nodes, k, fns, layout.links);
        assert Values(z.entries) == Converted(reply.items);
        vs := [Numbered(tab)];
      } else if c.fun.None? {
        crash := true;
      } else {
        var r := Apply(c.fun.value, z);
        if r.Some? {
          vs := [r.value];
        }
      }
    }
  }
}

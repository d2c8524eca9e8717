/** The reply validators of library.c: what a PHP method makes of the value that the
    reply hooks built for it. */
module Validators {
  import opened Bytes
  import opened Replies
  import opened Objects
  import opened Builders

  /** The `validator_fun` pointers. `ReadSkip` marks replies nobody asked for. */
  datatype Validator = ReadString | ReadLong | ReadStatus | ReadArray | ReadZip | ReadBool | ReadSkip

  const PFALSE := PBool(false)

  /** `Z_STRVAL`; only strings have one. */
  function StringOf(v: Php): seq<byte> {
    if v.PString? then v.s else []
  }

  type Table = seq<(Key, Php)>

  /** `redis_reply_zip_` on the values of the reply: alternating names and values. A name
      without a value is dropped. */
  function ZipOnto(table: Table, vs: seq<Php>): Table
    decreases |vs|
  {
    if |vs| < 2 then table
    else ZipOnto(AddEntry(table, Name(StringOf(vs[0])), PString(StringOf(vs[1]))), vs[2..])
  }

  function Values(t: Table): (vs: seq<Php>)
    ensures |vs| == |t| && forall i :: 0 <= i < |t| ==> vs[i] == t[i].1
  {
    seq(|t|, i requires 0 <= i < |t| => t[i].1)
  }

  /** What a validator leaves in the value; None when it says the value is not wanted. */
  function Apply(fn: Validator, v: Php): Option<Php> {
    match fn
    case ReadString => Some(if v.PString? then v else PFALSE)
    case ReadLong => Some(if v.PLong? then v else PFALSE)
    case ReadStatus => Some(if v.PBool? then v else PFALSE)
    case ReadArray => Some(if v.PArray? then v else PFALSE)
    case ReadZip => Some(if v.PArray? then PArray(ZipOnto([], Values(v.entries))) else PFALSE)
    case ReadBool => Some(PBool(v == PLong(1)))
    case ReadSkip => None
  }

  /** The loop of `redis_reply_zip_`, moving the hash cursor twice a round. */
  method Zip(v: Php) returns (r: Php)
    ensures Some(r) == Apply(ReadZip, v)
  {
    if !v.PArray? {
      return PFALSE;
    }
    var table: Table := [];
    var cursor := 0;
    ghost var vs := Values(v.entries);
    assert vs[0..] == vs;
    while cursor < |v.entries|
      invariant 0 <= cursor <= |v.entries|
      invariant ZipOnto([], vs) == ZipOnto(table, vs[cursor..])
    {
      var key := StringOf(v.entries[cursor].1);
      cursor := cursor + 1;
      if cursor < |v.entries| {
        table := AddEntry(table, Name(key), PString(StringOf(v.entries[cursor].1)));
        assert vs[cursor - 1..][2..] == vs[cursor + 1..];
        cursor := cursor + 1;
      }
    }
    r := PArray(table);
  }

  function Lookup(t: Table, k: Key): Option<Php> {
    if t == [] then None else if t[0].0 == k then Some(t[0].1) else Lookup(t[1..], k)
  }

  predicate DistinctKeys(t: Table) {
    forall i, j :: 0 <= i < j < |t| ==> t[i].0 != t[j].0
  }

  /** The value of the last pair named `name`. */
  function LastNamed(vs: seq<Php>, name: seq<byte>): Option<Php>
    decreases |vs|
  {
    if |vs| < 2 then None
    else
      var later := LastNamed(vs[2..], name);
      if later.Some? then later else if StringOf(vs[0]) == name then Some(PString(StringOf(vs[1]))) else None
  }

  lemma {:induction false} AddEntryLooksUp(t: Table, k: Key, v: Php, other: Key)
    ensures Lookup(AddEntry(t, k, v), other) == if other == k then Some(v) else Lookup(t, other)
    decreases |t|
  {
    if t != [] {
      AddEntryLooksUp(t[1..], k, v, other);
      assert ([(k, v)] + t[1..])[1..] == t[1..];
      assert ([t[0]] + AddEntry(t[1..], k, v))[1..] == AddEntry(t[1..], k, v);
    }
  }

  lemma {:induction false} AddEntryKeys(t: Table, k: Key, v: Php)
    requires DistinctKeys(t)
    ensures var u := AddEntry(t, k, v);
            && DistinctKeys(u)
            && (forall i :: 0 <= i < |u| ==> u[i].0 == k || exists j :: 0 <= j < |t| && t[j].0 == u[i].0)
    decreases |t|
  {
    if t != [] && t[0].0 != k {
      AddEntryKeys(t[1..], k, v);
    }
  }

  /** Zipping reads a flat list as a table: every name once, with its last value. */
  lemma {:induction false} ZipLooksUp(table: Table, vs: seq<Php>, name: seq<byte>)
    requires DistinctKeys(table)
    ensures var t := ZipOnto(table, vs);
            && DistinctKeys(t)
            && Lookup(t, Name(name)) ==
               (if LastNamed(vs, name).Some? then LastNamed(vs, name) else Lookup(table, Name(name)))
    decreases |vs|
  {
    if |vs| >= 2 {
      var k, v := Name(StringOf(vs[0])), PString(StringOf(vs[1]));
      AddEntryKeys(table, k, v);
      AddEntryLooksUp(table, k, v, Name(name));
      ZipLooksUp(AddEntry(table, k, v), vs[2..], name);
    }
  }

  /** The lockstep walk over a block's readers and the values of its EXEC reply. */
  function Lockstep(fns: seq<Validator>, vs: seq<Php>): seq<Php>
    decreases |fns|
  {
    if fns == [] || vs == [] then []
    else
      var rest := Lockstep(fns[1..], vs[1..]);
      var r := Apply(fns[0], vs[0]);
      if r.Some? then [r.value] + rest else rest
  }

  /** A PHP array filled by `add_next_index_zval`. */
  function Numbered(vs: seq<Php>): Php {
    PArray(seq(|vs|, i requires 0 <= i < |vs| => (Index(i), vs[i])))
  }

  function Converted(rs: seq<Reply>): (vs: seq<Php>)
    ensures |vs| == |rs| && forall i :: 0 <= i < |rs| ==> vs[i] == Convert(rs[i])
  {
    seq(|rs|, i requires 0 <= i < |rs| => Convert(rs[i]))
  }

  // What a reader makes of a reply, kind by kind

  ghost predicate AllStrings(items: seq<Reply>) {
    forall i :: 0 <= i < |items| ==> items[i].StringReply?
  }

  function NameAt(items: seq<Reply>, k: nat): seq<byte>
    requires AllStrings(items) && 2 * k + 1 < |items|
  {
    items[2 * k].body
  }

  function ValueAt(items: seq<Reply>, k: nat): seq<byte>
    requires AllStrings(items) && 2 * k + 1 < |items|
  {
    items[2 * k + 1].body
  }

  /** The table of a flat list of strings: the name at an even position goes with the string
      behind it, and the last pair with a name decides. */
  ghost predicate Tabulates(t: Table, items: seq<Reply>)
    requires AllStrings(items)
  {
    && DistinctKeys(t)
    && (forall i :: 0 <= i < |t| ==>
        exists k: nat :: IsLastPair(items, k) && t[i] == (Name(NameAt(items, k)), PString(ValueAt(items, k))))
    && (forall k: nat :: 2 * k + 1 < |items| ==> exists i :: 0 <= i < |t| && t[i].0 == Name(NameAt(items, k)))
  }

  ghost predicate IsLastPair(items: seq<Reply>, k: nat)
    requires AllStrings(items)
  {
    2 * k + 1 < |items| && forall j: nat :: k < j && 2 * j + 1 < |items| ==> NameAt(items, j) != NameAt(items, k)
  }

  /** A string reader gives the bytes of a string and false for anything else but PONG; a long
      reader the integer or false; a status reader true for a status other than PONG and
      false; a bool reader whether the reply is the integer 1; an array reader the elements in
      order; and a table reader the table. */
  ghost predicate Gives(fn: Validator, r: Reply, v: Php) {
    match fn
    case ReadString =>
      && (forall s :: v == PString(s) <==> r == StringReply(s) || (IsPong(r) && s == [43, 80, 79, 78, 71]))
      && (v == PBool(false) <==> !r.StringReply? && !IsPong(r))
    case ReadLong =>
      (forall n :: v == PLong(n) <==> r == IntegerReply(n)) && (v == PBool(false) <==> !r.IntegerReply?)
    case ReadStatus => v == PBool(r.StatusReply? && !IsPong(r))
    case ReadBool => v == PBool(r == IntegerReply(1))
    case ReadArray => if r.ArrayReply? then v.PArray? && Resembles(v, r) else v == PBool(false)
    case ReadZip =>
      if r.ArrayReply? then v.PArray? && (AllStrings(r.items) ==> Tabulates(v.entries, r.items)) else v == PBool(false)
    case ReadSkip => false
  }

  lemma {:induction false} ApplyGives(fn: Validator, r: Reply)
    requires fn != ReadSkip
    ensures Apply(fn, Convert(r)).Some? && Gives(fn, r, Apply(fn, Convert(r)).value)
  {
    ConvertResembles(r);
    if fn == ReadZip && r.ArrayReply? && AllStrings(r.items) {
      ZipTabulates(r.items);
      assert Values(Convert(r).entries) == Converted(r.items);
    }
  }

  /** Where a name comes last in a list of pairs, if anywhere. */
  ghost predicate ComesLast(items: seq<Reply>, name: seq<byte>, k: int, value: Option<Php>)
    requires AllStrings(items)
  {
    if value.None? then k == -1 && forall j: nat :: 2 * j + 1 < |items| ==> NameAt(items, j) != name
    else 0 <= k && IsLastPair(items, k) && NameAt(items, k) == name && value.value == PString(ValueAt(items, k))
  }

  lemma {:induction false} LastNamedAt(items: seq<Reply>, name: seq<byte>) returns (k: int)
    requires AllStrings(items)
    ensures ComesLast(items, name, k, LastNamed(Converted(items), name))
    decreases |items|
  {
    if |items| < 2 {
      k := -1;
    } else {
      var rest := items[2..];
      assert Converted(items)[2..] == Converted(rest);
      k := LastNamedAt(rest, name);
      PairInFront(items, rest, name, k, LastNamed(Converted(rest), name));
      k := if k >= 0 then k + 1 else if NameAt(items, 0) == name then 0 else -1;
    }
  }

  /** One more pair in front counts only for a name that does not come again. */
  lemma {:induction false} PairInFront(
    items: seq<Reply>, rest: seq<Reply>, name: seq<byte>, k: int, value: Option<Php>)
    requires AllStrings(items) && |items| >= 2 && rest == items[2..] && ComesLast(rest, name, k, value)
    ensures value.Some? ==> ComesLast(items, name, k + 1, value)
    ensures value.None? ==>
      (if NameAt(items, 0) == name then ComesLast(items, name, 0, Some(PString(ValueAt(items, 0))))
       else ComesLast(items, name, -1, None))
  {
    forall j: nat | 1 <= j && 2 * j + 1 < |items|
      ensures NameAt(items, j) == NameAt(rest, j - 1) && ValueAt(items, j) == ValueAt(rest, j - 1)
    {
    }
  }

  lemma {:induction false} LookupAt(t: Table, k: Key) returns (i: int)
    ensures Lookup(t, k).None? ==> i == -1 && forall j :: 0 <= j < |t| ==> t[j].0 != k
    ensures Lookup(t, k).Some? ==> 0 <= i < |t| && t[i] == (k, Lookup(t, k).value)
  {
    if t == [] {
      i := -1;
    } else if t[0].0 == k {
      i := 0;
    } else {
      i := LookupAt(t[1..], k);
      i := if i >= 0 then i + 1 else -1;
    }
  }

  lemma {:induction false} ZipNames(table: Table, vs: seq<Php>)
    requires DistinctKeys(table) && forall i :: 0 <= i < |table| ==> table[i].0.Name?
    ensures forall i :: 0 <= i < |ZipOnto(table, vs)| ==> ZipOnto(table, vs)[i].0.Name?
    decreases |vs|
  {
    if |vs| >= 2 {
      var k, v := Name(StringOf(vs[0])), PString(StringOf(vs[1]));
      AddEntryKeys(table, k, v);
      ZipNames(AddEntry(table, k, v), vs[2..]);
    }
  }

  lemma {:induction false} ZipTabulates(items: seq<Reply>)
    requires AllStrings(items)
    ensures Tabulates(ZipOnto([], Converted(items)), items)
  {
    var vs := Converted(items);
    var t := ZipOnto([], vs);
    ZipLooksUp([], vs, []);
    ZipNames([], vs);
    forall i | 0 <= i < |t|
      ensures exists k: nat :: IsLastPair(items, k) && t[i] == (Name(NameAt(items, k)), PString(ValueAt(items, k)))
    {
      var name := t[i].0.s;
      ZipLooksUp([], vs, name);
      var n := LookupAt(t, t[i].0);
      assert n == i;
      var k := LastNamedAt(items, name);
      assert IsLastPair(items, k);
    }
    forall k: nat | 2 * k + 1 < |items|
      ensures exists i :: 0 <= i < |t| && t[i].0 == Name(NameAt(items, k))
    {
      var name := NameAt(items, k);
      ZipLooksUp([], vs, name);
      var last := LastNamedAt(items, name);
      var i := LookupAt(t, Name(name));
    }
  }

  /** Readers beyond the replies are never reached: a block's list may be longer than the
      block. */
  lemma {:induction false} StrayReadersIgnored(fns: seq<Validator>, strays: seq<Validator>, vs: seq<Php>)
    requires |vs| <= |fns|
    ensures Lockstep(fns + strays, vs) == Lockstep(fns, vs)
    decreases |fns|
  {
    if fns != [] && vs != [] {
      assert (fns + strays)[1..] == fns[1..] + strays;
      StrayReadersIgnored(fns[1..], strays, vs[1..]);
    }
  }

  /** With one value for each of the readers, and no reader that skips, the i-th result is
      the i-th value as its own reader sees it. */
  lemma {:induction false} LockstepPairs(fns: seq<Validator>, vs: seq<Php>)
    requires |fns| == |vs| && ReadSkip !in fns
    ensures |Lockstep(fns, vs)| == |fns|
    ensures forall i :: 0 <= i < |fns| ==> Apply(fns[i], vs[i]) == Some(Lockstep(fns, vs)[i])
    decreases |fns|
  {
    if fns != [] {
      LockstepPairs(fns[1..], vs[1..]);
    }
  }

  /** One result for each reader and item, in order, as far as both go. */
  ghost predicate ResultsGive(fns: seq<Validator>, items: seq<Reply>, vs: seq<Php>) {
    && |vs| == (if |fns| < |items| then |fns| else |items|)
    && forall k :: 0 <= k < |vs| ==> Gives(fns[k], items[k], vs[k])
  }

  /** The same as a PHP array with the keys 0, 1, 2 and so on. */
  ghost predicate ArrayGives(fns: seq<Validator>, items: seq<Reply>, v: Php) {
    && v.PArray? && |v.entries| == (if |fns| < |items| then |fns| else |items|)
    && forall k :: 0 <= k < |v.entries| ==> v.entries[k].0 == Index(k) && Gives(fns[k], items[k], v.entries[k].1)
  }

  lemma {:induction false} LockstepGives(fns: seq<Validator>, items: seq<Reply>)
    requires ReadSkip !in fns
    ensures ResultsGive(fns, items, Lockstep(fns, Converted(items)))
    ensures ArrayGives(fns, items, Numbered(Lockstep(fns, Converted(items))))
    decreases |fns|
  {
    if fns != [] && items != [] {
      LockstepGives(fns[1..], items[1..]);
      ApplyGives(fns[0], items[0]);
      assert Converted(items)[1..] == Converted(items[1..]);
    }
  }
}

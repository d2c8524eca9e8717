/** Replies as the PHP object gets them: a reader with the PHP hooks, a fresh zval as its
    private data for each reply, and bytes that arrive in chunks. */
module Delivery {
  import opened Bytes
  import opened Replies
  import opened Machine
  import opened Sessions
  import opened Objects
  import opened Reader

  /** Awaiting for the next reply of the server. */
  ghost predicate Awaiting(r: RedisReader)
    reads r, r.Repr
  {
    r.Ok() && r.fn.PhpHooks? && r.Between() && r.state.fault.None?
  }

  /** The replies still to come from what the reader holds and what arrives. */
  ghost function Coming(s: ReaderState, chunks: seq<seq<byte>>): Trace
    requires ValidState(s)
  {
    Drain(s.p, s.buf + Flat(chunks))
  }

  lemma {:induction false} FeedComing(s: ReaderState, chunks: seq<seq<byte>>)
    requires ValidState(s) && s.fault.None? && chunks != []
    ensures Coming(Feed(s, chunks[0]), chunks[1..]) == Coming(s, chunks)
  {
    Associates(s.buf, chunks[0], Flat(chunks[1..]));
    assert chunks[0] == [] ==> s.buf + chunks[0] == s.buf;
  }

  /** One reply, into a new zval: `redisReplyReaderSetPrivdata` and then `redisGetReply`. What
      earlier replies are made of is not touched. */
  method FetchZval(reader: RedisReader, chunks: seq<seq<byte>>)
    returns (z: Zval, got: bool, rest: seq<seq<byte>>, ghost reply: Reply, ghost cells: set<object>)
    requires Awaiting(reader)
    modifies reader.Repr - reader.Held()
    ensures forall o :: o in reader.Repr ==> o in old(reader.Repr - reader.Held()) || fresh(o)
    ensures got ==> Awaiting(reader) && Coming(old(reader.state), chunks) == Before([reply], Coming(reader.state, rest))
    ensures got ==> Pictures(z, reply, cells) && cells * reader.Repr <= reader.Held()
    ensures !got ==> Coming(old(reader.state), chunks).replies == [] && reader.Ok()
    ensures !got ==> reader.state.fault.Some? || rest == []
  {
    z := new Zval();
    var ok := reader.SetPrivdata(z);
    rest, got, reply, cells := chunks, false, NilReply, {};
    while true
      invariant reader.Ok() && reader.fn.PhpHooks? && reader.RootTarget() == z == reader.privdata
      invariant reader.state.fault.None?
      invariant forall o :: o in reader.Repr ==> o in old(reader.Repr - reader.Held()) || fresh(o)
      invariant Coming(reader.state, rest) == Coming(old(reader.state), chunks)
      decreases |rest|
    {
      ghost var s := reader.state;
      GetConserves(s, Flat(rest));
      var out;
      ok, out, cells := reader.GetReply();
      if !ok {
        return;
      }
      if out != NoObj {
        got, reply := true, GetReply(s).result.reply;
        return;
      }
      if rest == [] {
        Quiet(s);
        return;
      }
      FeedComing(reader.state, rest);
      reader.Feed(rest[0]);
      rest := rest[1..];
    }
  }

  /** A reader that has nothing to give, with nothing more to come. */
  lemma {:induction false} Quiet(s: ReaderState)
    requires ValidState(s) && s.fault.None? && GetReply(s).result.NoReply?
    ensures Coming(s, []).replies == []
  {
    WaitsOnNothing(s.p);
    assert s.buf + [] == s.buf;
  }

  /** The zvals that `send` walks over: one for each reply that the server has sent, in
      order, each the image of its reply. The reader is then ready for the next pipeline, with
      what is left of the stream. */
  method FetchZvals(reader: RedisReader, chunks: seq<seq<byte>>, n: nat)
    returns (zs: seq<Zval>, rest: seq<seq<byte>>, ghost replies: seq<Reply>, ghost cells: seq<set<object>>)
    requires Awaiting(reader)
    modifies reader.Repr - reader.Held()
    ensures |zs| <= n && Images(zs, replies, cells) && replies <= Coming(old(reader.state), chunks).replies
    ensures |zs| < n ==> replies == Coming(old(reader.state), chunks).replies && reader.Ok()
    ensures |zs| < n ==> reader.state.fault.Some? || rest == []
    ensures |zs| == n ==> Awaiting(reader) && Apart(cells, reader)
    ensures |zs| == n ==> Coming(old(reader.state), chunks) == Before(replies, Coming(reader.state, rest))
    ensures |zs| == n ==>
      forall o :: o in reader.Repr && o !in reader.Held() ==> o in old(reader.Repr - reader.Held()) || fresh(o)
  {
    zs, replies, cells := [], [], [];
    rest := chunks;
    ghost var all := Coming(reader.state, chunks);
    BeforeJoins([], [], all);
    while |zs| < n
      invariant |zs| <= n && Awaiting(reader)
      invariant forall o :: o in reader.Repr && o !in reader.Held() ==>
        o in old(reader.Repr - reader.Held()) || fresh(o)
      invariant all == Before(replies, Coming(reader.state, rest))
      invariant Images(zs, replies, cells) && Apart(cells, reader)
    {
      ghost var t := Coming(reader.state, rest);
      var z, got;
      ghost var reply, used;
      z, got, rest, reply, used := FetchZval(reader, rest);
      if !got {
        assert replies + [] == replies;
        return;
      }
      TakesOne(all, replies, t, reply, Coming(reader.state, rest));
      ImagesMore(reader, zs, replies, cells, z, reply, used);
      zs, replies, cells := zs + [z], replies + [reply], cells + [used];
    }
  }

  lemma {:induction false} ImagesMore(
    reader: RedisReader, zs: seq<Zval>, replies: seq<Reply>, cells: seq<set<object>>,
    z: Zval, reply: Reply, used: set<object>)
    requires Images(zs, replies, cells) && Apart(cells, reader)
    requires Pictures(z, reply, used) && used * reader.Repr <= reader.Held()
    ensures Images(zs + [z], replies + [reply], cells + [used]) && Apart(cells + [used], reader)
  {
  }

  lemma {:induction false} TakesOne(all: Trace, replies: seq<Reply>, t: Trace, reply: Reply, u: Trace)
    requires all == Before(replies, t) && t == Before([reply], u)
    ensures all == Before(replies + [reply], u)
  {
    BeforeJoins(replies, [reply], u);
  }

  /** One more pipeline; what earlier ones got stays what it was. */
  method FetchNext(
    reader: RedisReader, chunks: seq<seq<byte>>, n: nat,
    ghost zss: seq<seq<Zval>>, ghost rss: seq<seq<Reply>>, ghost css: seq<seq<set<object>>>, ghost all: Trace)
    returns (zs: seq<Zval>, rest: seq<seq<byte>>, ghost replies: seq<Reply>, ghost cells: seq<set<object>>)
    requires Awaiting(reader) && Kept(reader, zss, rss, css) && all == Before(Flat(rss), Coming(reader.state, chunks))
    modifies reader.Repr - reader.Held()
    ensures AllImages(zss, rss, css) && |zs| == |replies| <= n
    ensures |zs| < n ==> |all.replies| < |Flat(rss)| + n
    ensures |zs| == n ==>
      (&& Awaiting(reader) && Kept(reader, zss + [zs], rss + [replies], css + [cells])
       && all == Before(Flat(rss + [replies]), Coming(reader.state, rest)))
    ensures |zs| == n ==>
      forall o :: o in reader.Repr && o !in reader.Held() ==> o in old(reader.Repr - reader.Held()) || fresh(o)
  {
    ghost var t := Coming(reader.state, chunks);
    KeptParts(reader, zss, rss, css);
    zs, rest, replies, cells := FetchZvals(reader, chunks, n);
    if |zs| == n {
      KeptParts(reader, zss, rss, css);
      TakesMore(all, rss, t, replies, Coming(reader.state, rest));
      KeptMore(reader, zss, rss, css, zs, replies, cells);
    }
  }

  /** A connection from its beginning: pipelines with `ns` replies each. The replies that the
      k-th pipeline gets are the next `ns[k]` of the stream, whatever the chunks it arrives in,
      and the zvals of earlier pipelines stay what they were. */
  method FetchPipelines(chunks: seq<seq<byte>>, ns: seq<nat>)
    returns (zss: seq<seq<Zval>>, ghost rss: seq<seq<Reply>>, ghost css: seq<seq<set<object>>>)
    ensures |zss| <= |ns| && AllImages(zss, rss, css)
    ensures forall k :: 0 <= k < |zss| ==> |rss[k]| == ns[k]
    ensures Flat(rss) <= Drain(IDLE, Flat(chunks)).replies
    ensures |zss| < |ns| ==> |Drain(IDLE, Flat(chunks)).replies| < |Flat(rss)| + ns[|zss|]
  {
    var reader := ReplyReaderCreate(PhpHooks);
    zss, rss, css := [], [], [];
    var rest := chunks;
    ghost var all := Drain(IDLE, Flat(chunks));
    assert [] + Flat(chunks) == Flat(chunks);
    BeforeJoins([], [], all);
    KeptParts(reader, zss, rss, css);
    while |zss| < |ns|
      invariant Awaiting(reader) && |zss| == |rss| == |css| <= |ns| && Kept(reader, zss, rss, css)
      invariant forall o :: o in reader.Repr && o !in reader.Held() ==> fresh(o)
      invariant forall k :: 0 <= k < |zss| ==> |rss[k]| == ns[k]
      invariant all == Before(Flat(rss), Coming(reader.state, rest))
    {
      var zs, more;
      ghost var replies, cells;
      zs, more, replies, cells := FetchNext(reader, rest, ns[|zss|], zss, rss, css, all);
      if |zs| < ns[|zss|] {
        return;
      }
      zss, rss, css, rest := zss + [zs], rss + [replies], css + [cells], more;
    }
    KeptParts(reader, zss, rss, css);
  }

  ghost predicate AllImages(zss: seq<seq<Zval>>, rss: seq<seq<Reply>>, css: seq<seq<set<object>>>)
    reads set k, o | 0 <= k < |css| && o in Memory(css[k]) :: o
  {
    |zss| == |rss| == |css| && forall k :: 0 <= k < |zss| ==> Images(zss[k], rss[k], css[k])
  }

  datatype KeptPart = Intact | Clear

  ghost predicate KeptIn(
    p: KeptPart, reader: RedisReader, zss: seq<seq<Zval>>, rss: seq<seq<Reply>>, css: seq<seq<set<object>>>)
    reads reader, set k, o | 0 <= k < |css| && o in Memory(css[k]) :: o
  {
    match p
    case Intact => AllImages(zss, rss, css)
    case Clear => forall k :: 0 <= k < |css| ==> Apart(css[k], reader)
  }

  /** What earlier pipelines got is intact, and the reader has no hold on it. */
  ghost predicate Kept(reader: RedisReader, zss: seq<seq<Zval>>, rss: seq<seq<Reply>>, css: seq<seq<set<object>>>)
    reads reader, set k, o | 0 <= k < |css| && o in Memory(css[k]) :: o
  {
    forall p: KeptPart :: KeptIn(p, reader, zss, rss, css)
  }

  lemma {:induction false} KeptParts(
    reader: RedisReader, zss: seq<seq<Zval>>, rss: seq<seq<Reply>>, css: seq<seq<set<object>>>)
    ensures Kept(reader, zss, rss, css) <==>
      KeptIn(Intact, reader, zss, rss, css) && KeptIn(Clear, reader, zss, rss, css)
  {
  }

  ghost function Memory(cells: seq<set<object>>): set<object> {
    set k, o | 0 <= k < |cells| && o in cells[k] :: o
  }

  ghost predicate Images(zs: seq<Zval>, replies: seq<Reply>, cells: seq<set<object>>)
    reads Memory(cells)
  {
    |zs| == |replies| == |cells| && forall k :: 0 <= k < |zs| ==> Pictures(zs[k], replies[k], cells[k])
  }

  /** The reader has no hold on these values, except on the last zval. */
  ghost predicate Apart(cells: seq<set<object>>, reader: RedisReader)
    reads reader
  {
    forall k :: 0 <= k < |cells| ==> cells[k] * reader.Repr <= reader.Held()
  }

  lemma {:induction false} KeptMore(
    reader: RedisReader, zss: seq<seq<Zval>>, rss: seq<seq<Reply>>, css: seq<seq<set<object>>>,
    zs: seq<Zval>, replies: seq<Reply>, cells: seq<set<object>>)
    requires Kept(reader, zss, rss, css) && Images(zs, replies, cells) && Apart(cells, reader)
    ensures Kept(reader, zss + [zs], rss + [replies], css + [cells])
  {
    KeptParts(reader, zss, rss, css);
    KeptParts(reader, zss + [zs], rss + [replies], css + [cells]);
  }

  lemma {:induction false} TakesMore(all: Trace, rss: seq<seq<Reply>>, t: Trace, replies: seq<Reply>, u: Trace)
    requires all == Before(Flat(rss), t) && t == Before(replies, u)
    ensures all == Before(Flat(rss + [replies]), u)
  {
    FlatEnds(rss, replies);
    BeforeJoins(Flat(rss), replies, u);
  }
}

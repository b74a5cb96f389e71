/** One-pass value-equality dataflow linking, and what its counts mean. */
module Dataflow {
  import opened ByteStrings
  import opened Graph

  const MIN_TAINT_VALUE := 0x100

  predicate Sentinel(v: int) {
    v == 0 || v == 1 || v == 0xFFFFFFFF || v == 0xFFFFFFFFFFFFFFFF || v == 0x7FFFFFFF
  }

  /** A value worth linking. */
  predicate Taintable(v: int, min: int) {
    v >= min && !Sentinel(v)
  }

  /** Zero, one and the all-ones patterns are never linked. With the default threshold: from 0x100 on, but for these. */
  lemma DefaultTaint(v: int, min: int)
    ensures Taintable(v, min) <==> v >= min && v !in {0, 1, 0x7FFF_FFFF, 0xFFFF_FFFF, 0xFFFF_FFFF_FFFF_FFFF}
    ensures Taintable(v, MIN_TAINT_VALUE)
            <==> v >= 0x100 && v != 0x7FFF_FFFF && v != 0xFFFF_FFFF && v != 0xFFFF_FFFF_FFFF_FFFF
  {
  }

  /** `value` is the integer `v`, worth linking. */
  predicate Carries(value: Value, v: int, min: int) {
    value == Int(v) && Taintable(v, min)
  }

  // ------------------------------------------------------------ specification

  /** Node of the last of the first `e` events that returned `v`. */
  function Producer(es: seq<TraceEvent>, e: nat, v: int, min: int): (p: Option<string>)
    requires e <= |es|
  {
    if e == 0 then None
    else if Carries(es[e - 1].attrs.ret, v, min) then Some(EventId(es[e - 1]))
    else Producer(es, e - 1, v, min)
  }

  /** Node of the last argument equal to `v` before argument `j` of event `e`. */
  function User(es: seq<TraceEvent>, e: nat, j: nat, v: int, min: int): (p: Option<string>)
    requires e < |es| && j <= |es[e].attrs.args|
    decreases e, j
  {
    if j > 0 then
      if Carries(es[e].attrs.args[j - 1], v, min) then Some(EventId(es[e])) else User(es, e, j - 1, v, min)
    else if e == 0 then None
    else User(es, e - 1, |es[e - 1].attrs.args|, v, min)
  }

  /** The edge from an earlier node, if there is one and it is another node. */
  function EdgeFrom(src: Option<string>, dst: string, etype: string): (ks: seq<EdgeKey>) {
    match src
    case Some(s) => if s != dst then [EdgeKey(s, dst, etype)] else []
    case None => []
  }

  /** The edges argument `j` of event `e` makes. */
  function ArgLinks(es: seq<TraceEvent>, e: nat, j: nat, min: int, buffers: bool): (ks: seq<EdgeKey>)
    requires e < |es| && j < |es[e].attrs.args|
  {
    match es[e].attrs.args[j]
    case Other => []
    case Int(v) =>
      if !Taintable(v, min) then []
      else
        EdgeFrom(Producer(es, e, v, min), EventId(es[e]), DATAFLOW)
        + if buffers then EdgeFrom(User(es, e, j, v, min), EventId(es[e]), BUFFER) else []
  }

  /** All edges made before argument `j` of event `e`, in order. */
  function Links(es: seq<TraceEvent>, e: nat, j: nat, min: int, buffers: bool): (ks: seq<EdgeKey>)
    requires e <= |es| && (e == |es| ==> j == 0) && (e < |es| ==> j <= |es[e].attrs.args|)
    decreases e, j
  {
    if j > 0 then Links(es, e, j - 1, min, buffers) + ArgLinks(es, e, j - 1, min, buffers)
    else if e == 0 then []
    else Links(es, e - 1, |es[e - 1].attrs.args|, min, buffers)
  }

  // ----------------------------------------------------------------- the pass

  function Get(m: map<int, string>, v: int): (o: Option<string>) {
    if v in m then Some(m[v]) else None
  }

  /** `_add_edge`. */
  method AddEdge(g: BehaviorGraph, src: string, dst: string, etype: string)
    requires g.Valid()
    modifies g`edges, g`linked
    ensures g.Valid() && g.linked == old(g.linked) + [EdgeKey(src, dst, etype)]
  {
    hide CountsEdges, CountsNodes, CountsCalls;
    var k := EdgeKey(src, dst, etype);
    EdgeTouched(g.edges, g.linked, k);
    if k !in g.edges {
      g.edges := g.edges[k := 1];
    } else {
      g.edges := g.edges[k := g.edges[k] + 1];
    }
    g.linked := g.linked + [k];
  }

  /** The pass of `link_dataflow`: the edges made are exactly `Links`, in order. */
  method LinkEvents(g: BehaviorGraph, min: int, buffers: bool) returns (n: int)
    requires g.Valid()
    modifies g`edges, g`linked
    ensures g.Valid()
    ensures g.linked == old(g.linked) + Links(g.events, |g.events|, 0, min, buffers)
    ensures n == |g.edges| - |old(g.edges)|
  {
    hide CountsEdges, CountsNodes, CountsCalls, Taintable, EventId, ArgLinks;
    var es := g.events;
    var produced: map<int, string> := map[];
    var argUsers: map<int, string> := map[];
    var before := |g.edges|;
    for e := 0 to |es|
      invariant g.Valid() && g.linked == old(g.linked) + Links(es, e, 0, min, buffers)
      invariant forall v :: Get(produced, v) == Producer(es, e, v, min)
      invariant buffers && e < |es| ==> forall v :: Get(argUsers, v) == User(es, e, 0, v, min)
    {
      var id, args := EventId(es[e]), es[e].attrs.args;
      for j := 0 to |args|
        invariant g.Valid() && g.linked == old(g.linked) + Links(es, e, j, min, buffers)
        invariant buffers ==> forall v :: Get(argUsers, v) == User(es, e, j, v, min)
      {
        LinkArg(g, es, e, j, min, buffers, produced, argUsers);
        if args[j].Int? && Taintable(args[j].v, min) && buffers {
          argUsers := argUsers[args[j].v := id];
        }
      }
      if es[e].attrs.ret.Int? && Taintable(es[e].attrs.ret.v, min) {
        produced := produced[es[e].attrs.ret.v := id];
      }
    }
    n := |g.edges| - before;
  }

  /** The edges of one argument. */
  method LinkArg(g: BehaviorGraph, es: seq<TraceEvent>, e: nat, j: nat, min: int, buffers: bool,
                 produced: map<int, string>, argUsers: map<int, string>)
    requires g.Valid() && e < |es| && j < |es[e].attrs.args|
    requires forall v :: Get(produced, v) == Producer(es, e, v, min)
    requires buffers ==> forall v :: Get(argUsers, v) == User(es, e, j, v, min)
    modifies g`edges, g`linked
    ensures g.Valid() && g.linked == old(g.linked) + ArgLinks(es, e, j, min, buffers)
  {
    hide CountsEdges, CountsNodes, CountsCalls, Taintable, EventId, Producer, User, BehaviorGraph.Valid;
    var id := EventId(es[e]);
    match es[e].attrs.args[j]
    case Other =>
    case Int(v) =>
      if Taintable(v, min) {
        ghost var start := g.linked;
        assert Get(produced, v) == Producer(es, e, v, min);
        if v in produced && produced[v] != id {
          AddEdge(g, produced[v], id, DATAFLOW);
        }
        assert g.linked == start + EdgeFrom(Producer(es, e, v, min), id, DATAFLOW);
        if buffers {
          ghost var mid := g.linked;
          assert Get(argUsers, v) == User(es, e, j, v, min);
          if v in argUsers && argUsers[v] != id {
            AddEdge(g, argUsers[v], id, BUFFER);
          }
          assert g.linked == mid + EdgeFrom(User(es, e, j, v, min), id, BUFFER);
        }
      }
  }

  // ------------------------------------------------------ what the counts mean

  /** Before argument `j` of event `e`. */
  predicate Earlier(e1: nat, j1: nat, e: nat, j: nat) {
    e1 < e || (e1 == e && j1 < j)
  }

  /** An argument whose taintable value was last returned by an earlier event at another node. */
  predicate DataflowAt(es: seq<TraceEvent>, e: nat, j: nat, min: int, src: string, dst: string) {
    && e < |es| && j < |es[e].attrs.args| && es[e].attrs.args[j].Int? && Taintable(es[e].attrs.args[j].v, min)
    && EventId(es[e]) == dst && src != dst && Producer(es, e, es[e].attrs.args[j].v, min) == Some(src)
  }

  ghost function DataflowUses(
    es: seq<TraceEvent>, e: nat, j: nat, min: int, src: string, dst: string): (s: set<(nat, nat)>) {
    set e1: nat, j1: nat | e1 < |es| && j1 < |es[e1].attrs.args| && Earlier(e1, j1, e, j)
    && DataflowAt(es, e1, j1, min, src, dst) :: (e1, j1)
  }

  /** The integers among the first `j` arguments. */
  function IntArgs(args: seq<Value>, j: nat): (s: set<int>)
    requires j <= |args|
  {
    if j == 0 then {} else IntArgs(args, j - 1) + if args[j - 1].Int? then {args[j - 1].v} else {}
  }

  /** A distinct value of an event whose last user in an earlier event is another node. */
  predicate BufferAt(es: seq<TraceEvent>, e: nat, v: int, min: int, src: string, dst: string) {
    e < |es| && Taintable(v, min) && EventId(es[e]) == dst && src != dst && User(es, e, 0, v, min) == Some(src)
  }

  function Reached(es: seq<TraceEvent>, e1: nat, e: nat, j: nat): (s: set<int>)
    requires e1 < |es|
  {
    if e1 < e then IntArgs(es[e1].attrs.args, |es[e1].attrs.args|)
    else if e1 == e && j <= |es[e1].attrs.args| then IntArgs(es[e1].attrs.args, j)
    else {}
  }

  ghost function BufferUses(
    es: seq<TraceEvent>, e: nat, j: nat, min: int, src: string, dst: string): (s: set<(nat, int)>) {
    set e1: nat, v: int | e1 < |es| && v in Reached(es, e1, e, j) && BufferAt(es, e1, v, min, src, dst) :: (e1, v)
  }

  /** Within an event an argument's last user is the event itself once the value has occurred. */
  lemma {:induction false} UserWithin(es: seq<TraceEvent>, e: nat, j: nat, v: int, min: int)
    requires e < |es| && j <= |es[e].attrs.args| && Taintable(v, min)
    ensures User(es, e, j, v, min)
            == if v in IntArgs(es[e].attrs.args, j) then Some(EventId(es[e])) else User(es, e, 0, v, min)
    decreases j
  {
    hide Taintable, EventId;
    if j > 0 {
      UserWithin(es, e, j - 1, v, min);
    }
  }

  /** `p` is the last event before `e` that returned `v`. */
  ghost predicate LastReturn(es: seq<TraceEvent>, p: nat, e: nat, v: int, min: int)
    requires e <= |es|
  {
    p < e && Carries(es[p].attrs.ret, v, min) && forall q :: p < q < e ==> !Carries(es[q].attrs.ret, v, min)
  }

  /** The producer map remembers the last return. */
  lemma {:induction false} ProducerIsLast(es: seq<TraceEvent>, e: nat, v: int, min: int, src: string)
    requires e <= |es|
    ensures Producer(es, e, v, min) == Some(src)
            <==> exists p: nat :: LastReturn(es, p, e, v, min) && EventId(es[p]) == src
  {
    hide Carries, EventId;
    if e > 0 {
      ProducerIsLast(es, e - 1, v, min, src);
      if Carries(es[e - 1].attrs.ret, v, min) {
        assert LastReturn(es, e - 1, e, v, min);
      } else {
        assert forall p: nat :: LastReturn(es, p, e, v, min) <==> LastReturn(es, p, e - 1, v, min);
      }
    }
  }

  /** `p` is the last event before `e` with `v` among its arguments. */
  ghost predicate LastUse(es: seq<TraceEvent>, p: nat, e: nat, v: int)
    requires e <= |es|
  {
    p < e && v in IntArgs(es[p].attrs.args, |es[p].attrs.args|)
    && forall q :: p < q < e ==> v !in IntArgs(es[q].attrs.args, |es[q].attrs.args|)
  }

  /** The user map remembers the last event that used the value. */
  lemma {:induction false} UserIsLast(es: seq<TraceEvent>, e: nat, v: int, min: int, src: string)
    requires e < |es| && Taintable(v, min)
    ensures User(es, e, 0, v, min) == Some(src) <==> exists p: nat :: LastUse(es, p, e, v) && EventId(es[p]) == src
  {
    hide Carries, EventId, IntArgs, Taintable;
    if e > 0 {
      UserIsLast(es, e - 1, v, min, src);
      UserWithin(es, e - 1, |es[e - 1].attrs.args|, v, min);
      if v in IntArgs(es[e - 1].attrs.args, |es[e - 1].attrs.args|) {
        assert LastUse(es, e - 1, e, v);
      } else {
        assert forall p: nat :: LastUse(es, p, e, v) <==> LastUse(es, p, e - 1, v);
      }
    }
  }

  lemma OneMore<T>(a: set<T>, b: set<T>, x: T, grows: bool)
    requires b == (if grows then a + {x} else a) && (grows ==> x !in a)
    ensures |b| == |a| + if grows then 1 else 0
  {
  }

  lemma TypesDiffer()
    ensures DATAFLOW != BUFFER
  {
    assert DATAFLOW[0] == 'd' && BUFFER[0] == 'b';
  }

  lemma ArgDataflow(es: seq<TraceEvent>, e: nat, j: nat, min: int, buffers: bool, src: string, dst: string)
    requires e < |es| && j < |es[e].attrs.args|
    ensures multiset(ArgLinks(es, e, j, min, buffers))[EdgeKey(src, dst, DATAFLOW)]
            == if DataflowAt(es, e, j, min, src, dst) then 1 else 0
  {
    hide Taintable, EventId, Producer, User;
    TypesDiffer();
  }

  lemma LinksNext(es: seq<TraceEvent>, e: nat, j: nat, min: int, buffers: bool, k: EdgeKey)
    requires e < |es| && 0 < j <= |es[e].attrs.args|
    ensures multiset(Links(es, e, j, min, buffers))[k]
            == multiset(Links(es, e, j - 1, min, buffers))[k] + multiset(ArgLinks(es, e, j - 1, min, buffers))[k]
  {
    hide ArgLinks;
  }

  /** DATAFLOW edges count the arguments that consume an earlier result. */
  lemma {:induction false} DataflowCount(
    es: seq<TraceEvent>, e: nat, j: nat, min: int, buffers: bool, src: string, dst: string)
    requires e <= |es| && (e == |es| ==> j == 0) && (e < |es| ==> j <= |es[e].attrs.args|)
    ensures multiset(Links(es, e, j, min, buffers))[EdgeKey(src, dst, DATAFLOW)]
            == |DataflowUses(es, e, j, min, src, dst)|
    decreases e, j
  {
    hide ArgLinks, DataflowAt, DataflowUses, EventId;
    if j > 0 {
      DataflowCount(es, e, j - 1, min, buffers, src, dst);
      LinksNext(es, e, j, min, buffers, EdgeKey(src, dst, DATAFLOW));
      hide Links;
      ArgDataflow(es, e, j - 1, min, buffers, src, dst);
      DataflowGrows(es, e, j - 1, min, src, dst);
    } else {
      DataflowStart(es, e, min, src, dst);
      if e > 0 {
        DataflowCount(es, e - 1, |es[e - 1].attrs.args|, min, buffers, src, dst);
      }
    }
  }

  lemma DataflowGrows(es: seq<TraceEvent>, e: nat, j: nat, min: int, src: string, dst: string)
    requires e < |es| && j < |es[e].attrs.args|
    ensures |DataflowUses(es, e, j + 1, min, src, dst)|
            == |DataflowUses(es, e, j, min, src, dst)| + if DataflowAt(es, e, j, min, src, dst) then 1 else 0
  {
    hide DataflowAt;
    var a, b := DataflowUses(es, e, j, min, src, dst), DataflowUses(es, e, j + 1, min, src, dst);
    assert b == if DataflowAt(es, e, j, min, src, dst) then a + {(e, j)} else a;
    OneMore(a, b, (e, j), DataflowAt(es, e, j, min, src, dst));
  }

  lemma DataflowStart(es: seq<TraceEvent>, e: nat, min: int, src: string, dst: string)
    requires e <= |es|
    ensures DataflowUses(es, e, 0, min, src, dst)
            == if e == 0 then {} else DataflowUses(es, e - 1, |es[e - 1].attrs.args|, min, src, dst)
  {
    hide DataflowAt;
  }

  /** Argument `j` adds a new distinct value with an earlier user elsewhere. */
  predicate NewBuffer(es: seq<TraceEvent>, e: nat, j: nat, min: int, src: string, dst: string)
    requires e < |es| && j < |es[e].attrs.args|
  {
    var a := es[e].attrs.args[j];
    a.Int? && a.v !in IntArgs(es[e].attrs.args, j) && BufferAt(es, e, a.v, min, src, dst)
  }

  lemma ArgBuffer(es: seq<TraceEvent>, e: nat, j: nat, min: int, src: string, dst: string)
    requires e < |es| && j < |es[e].attrs.args|
    ensures multiset(ArgLinks(es, e, j, min, true))[EdgeKey(src, dst, BUFFER)]
            == if NewBuffer(es, e, j, min, src, dst) then 1 else 0
  {
    hide Taintable, EventId, Producer, User, IntArgs;
    TypesDiffer();
    match es[e].attrs.args[j]
    case Other =>
    case Int(v) =>
      if Taintable(v, min) {
        UserWithin(es, e, j, v, min);
      }
  }

  /** BUFFER edges count the distinct values of an event that an earlier event elsewhere used last. */
  lemma {:induction false} BufferCount(es: seq<TraceEvent>, e: nat, j: nat, min: int, src: string, dst: string)
    requires e <= |es| && (e == |es| ==> j == 0) && (e < |es| ==> j <= |es[e].attrs.args|)
    ensures multiset(Links(es, e, j, min, true))[EdgeKey(src, dst, BUFFER)] == |BufferUses(es, e, j, min, src, dst)|
    decreases e, j
  {
    hide ArgLinks, BufferAt, BufferUses, NewBuffer;
    if j > 0 {
      BufferCount(es, e, j - 1, min, src, dst);
      ArgBuffer(es, e, j - 1, min, src, dst);
      BufferGrows(es, e, j - 1, min, src, dst);
    } else {
      BufferStart(es, e, min, src, dst);
      if e > 0 {
        BufferCount(es, e - 1, |es[e - 1].attrs.args|, min, src, dst);
      }
    }
  }

  lemma BufferGrows(es: seq<TraceEvent>, e: nat, j: nat, min: int, src: string, dst: string)
    requires e < |es| && j < |es[e].attrs.args|
    ensures |BufferUses(es, e, j + 1, min, src, dst)|
            == |BufferUses(es, e, j, min, src, dst)| + if NewBuffer(es, e, j, min, src, dst) then 1 else 0
  {
    hide BufferAt;
    var a, b := BufferUses(es, e, j, min, src, dst), BufferUses(es, e, j + 1, min, src, dst);
    var grows := NewBuffer(es, e, j, min, src, dst);
    var x := (e, if es[e].attrs.args[j].Int? then es[e].attrs.args[j].v else 0);
    assert b == if grows then a + {x} else a;
    OneMore(a, b, x, grows);
  }

  lemma BufferStart(es: seq<TraceEvent>, e: nat, min: int, src: string, dst: string)
    requires e <= |es|
    ensures BufferUses(es, e, 0, min, src, dst)
            == if e == 0 then {} else BufferUses(es, e - 1, |es[e - 1].attrs.args|, min, src, dst)
  {
    hide BufferAt;
  }

  /** Every edge the pass makes is a dataflow or buffer edge; without `buffers` none is a buffer edge. */
  lemma {:induction false} LinkTypes(es: seq<TraceEvent>, e: nat, j: nat, min: int, buffers: bool)
    requires e <= |es| && (e == |es| ==> j == 0) && (e < |es| ==> j <= |es[e].attrs.args|)
    ensures forall k :: k in Links(es, e, j, min, buffers) ==> k.etype == DATAFLOW || (buffers && k.etype == BUFFER)
    decreases e, j
  {
    hide Taintable, EventId, Producer, User;
    if j > 0 {
      LinkTypes(es, e, j - 1, min, buffers);
    } else if e > 0 {
      LinkTypes(es, e - 1, |es[e - 1].attrs.args|, min, buffers);
    }
  }

  ghost predicate AddedUses(
    was: map<EdgeKey, nat>, now: map<EdgeKey, nat>, es: seq<TraceEvent>, min: int, buffers: bool) {
    && (forall s, d :: Count(now, EdgeKey(s, d, "dataflow"))
                       == Count(was, EdgeKey(s, d, "dataflow")) + |DataflowUses(es, |es|, 0, min, s, d)|)
    && (forall s, d :: Count(now, EdgeKey(s, d, "buffer"))
                       == Count(was, EdgeKey(s, d, "buffer")) + if buffers then |BufferUses(es, |es|, 0, min, s,
                                                                                          d)| else 0)
    && (forall k: EdgeKey :: k.etype != "dataflow" && k.etype != "buffer" ==> Count(now, k) == Count(was, k))
  }

  /** Counting the edges of the pass gives the declarative counts. */
  lemma PassCounts(was: map<EdgeKey, nat>, now: map<EdgeKey, nat>, linked: seq<EdgeKey>,
                   es: seq<TraceEvent>, min: int, buffers: bool)
    requires CountsEdges(was, linked) && CountsEdges(now, linked + Links(es, |es|, 0, min, buffers))
    ensures AddedUses(was, now, es, min, buffers)
    ensures was.Keys <= now.Keys
  {
    hide Links, DataflowUses, BufferUses, AddedUses;
    var links := Links(es, |es|, 0, min, buffers);
    LinkTypes(es, |es|, 0, min, buffers);
    forall k ensures Count(now, k) == Count(was, k) + multiset(links)[k] {
      assert Count(now, k) == multiset(linked + links)[k];
    }
    forall s, d ensures multiset(links)[EdgeKey(s, d, DATAFLOW)] == |DataflowUses(es, |es|, 0, min, s, d)| {
      DataflowCount(es, |es|, 0, min, buffers, s, d);
    }
    if buffers {
      forall s, d ensures multiset(links)[EdgeKey(s, d, BUFFER)] == |BufferUses(es, |es|, 0, min, s, d)| {
        BufferCount(es, |es|, 0, min, s, d);
      }
    }
    forall k | k in was.Keys ensures k in now.Keys {
      assert k in linked + links;
    }
    AddedByLinks(was, now, links, es, min, buffers);
  }

  lemma AddedByLinks(was: map<EdgeKey, nat>, now: map<EdgeKey, nat>, links: seq<EdgeKey>,
                     es: seq<TraceEvent>, min: int, buffers: bool)
    requires forall k :: Count(now, k) == Count(was, k) + multiset(links)[k]
    requires forall k :: k in links ==> k.etype == DATAFLOW || (buffers && k.etype == BUFFER)
    requires forall s, d :: multiset(links)[EdgeKey(s, d, DATAFLOW)] == |DataflowUses(es, |es|, 0, min, s, d)|
    requires buffers ==> forall s, d :: multiset(links)[EdgeKey(s, d, BUFFER)] == |BufferUses(es, |es|, 0, min, s, d)|
    ensures AddedUses(was, now, es, min, buffers)
  {
    hide Count, DataflowUses, BufferUses;
    TypesDiffer();
  }

  lemma KeysGained(was: map<EdgeKey, nat>, now: map<EdgeKey, nat>)
    requires was.Keys <= now.Keys
    ensures |now| - |was| == |now.Keys - was.Keys|
  {
    assert was.Keys + (now.Keys - was.Keys) == now.Keys;
    assert |now| == |now.Keys| && |was| == |was.Keys|;
  }

  /**
   * `link_dataflow`. A DATAFLOW count grows by the arguments at `d` whose value was last returned by an earlier
   * event at another node `s`; a BUFFER count by the distinct argument values of an event at `d` whose last
   * earlier user is another node `s`. The result is the number of edges that are new.
   */
  method LinkDataflow(g: BehaviorGraph, min: int, buffers: bool) returns (n: int)
    requires g.Valid()
    modifies g`edges, g`linked
    ensures g.Valid() && AddedUses(old(g.edges), g.edges, g.events, min, buffers)
    ensures n == |g.edges.Keys - old(g.edges.Keys)|
  {
    hide CountsEdges, CountsNodes, CountsCalls, AddedUses, Links;
    n := LinkEvents(g, min, buffers);
    PassCounts(old(g.edges), g.edges, old(g.linked), g.events, min, buffers);
    KeysGained(old(g.edges), g.edges);
  }
}

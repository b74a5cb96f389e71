/** What the edge counters of a finished trace say. */
module TraceFacts {
  import opened ByteStrings
  import opened Graph
  import opened Sums
  import opened Tracer
  import opened Probes

  /** Summed counters of the edges of one class. */
  ghost function Total(edges: map<EdgeKey, nat>, p: EdgeKey -> bool): (n: nat) {
    SumOver((set k | k in edges && p(k)), edges)
  }

  /** Counters of the edges of one class add up to the number of links made in it. */
  lemma ClassSum(edges: map<EdgeKey, nat>, linked: seq<EdgeKey>, p: EdgeKey -> bool)
    requires CountsEdges(edges, linked)
    ensures Total(edges, p) == |Select(linked, p)|
  {
    hide SumOver, Select;
    var keys, list := (set k | k in edges && p(k)), Select(linked, p);
    SelectAll(linked, p);
    forall k | k in keys ensures edges[k] == multiset(list)[k] {
      SelectKeepsCount(linked, p, k);
      assert Count(edges, k) == multiset(linked)[k];
    }
    SumIsLength(keys, edges, list);
  }

  lemma {:induction false} SelectWithin<T>(s: seq<T>, p: T -> bool, q: T -> bool)
    requires forall x :: q(x) ==> p(x)
    ensures Select(Select(s, p), q) == Select(s, q)
    decreases |s|
  {
    if s != [] {
      var front, last := s[..|s| - 1], s[|s| - 1];
      SelectWithin(front, p, q);
      if p(last) {
        SelectAppend(Select(front, p), last, q);
      } else {
        assert Select(s, p) == Select(front, p);
      }
    }
  }

  function SeqFrom(id: string): EdgeKey -> bool {
    (k: EdgeKey) => k.etype == SEQ && k.src == id
  }

  function SeqTo(id: string): EdgeKey -> bool {
    (k: EdgeKey) => k.etype == SEQ && k.dst == id
  }

  lemma TrailStep(ids: seq<string>)
    ensures |ids| < 2 ==> Trail(ids) == []
    ensures |ids| >= 2 ==> Trail(ids) == Trail(ids[..|ids| - 1]) + [EdgeKey(ids[|ids| - 2], ids[|ids| - 1], SEQ)]
  {
  }

  lemma SelectNothing<T>(p: T -> bool)
    ensures Select([], p) == []
  {
  }

  lemma {:induction false} TrailLength(ids: seq<string>)
    ensures |Trail(ids)| == if ids == [] then 0 else |ids| - 1
    decreases |ids|
  {
    if |ids| >= 2 {
      TrailLength(ids[..|ids| - 1]);
    }
  }

  /** Steps of a trail out of a node: its occurrences but the last place. */
  lemma {:induction false} TrailOut(ids: seq<string>, id: string)
    ensures |Select(Trail(ids), SeqFrom(id))| == if ids == [] then 0 else multiset(ids[..|ids| - 1])[id]
    decreases |ids|
  {
    hide Select, Trail;
    TrailStep(ids);
    SelectNothing(SeqFrom(id));
    if |ids| >= 2 {
      var front, prev := ids[..|ids| - 1], ids[|ids| - 2];
      TrailOut(front, id);
      SelectAppend(Trail(front), EdgeKey(prev, ids[|ids| - 1], SEQ), SeqFrom(id));
      assert front == front[..|front| - 1] + [prev];
    } else if |ids| == 1 {
      assert ids[..0] == [];
    }
  }

  /** Steps of a trail into a node: its occurrences but the first place. */
  lemma {:induction false} TrailIn(ids: seq<string>, id: string)
    ensures |Select(Trail(ids), SeqTo(id))| == if ids == [] then 0 else multiset(ids[1..])[id]
    decreases |ids|
  {
    hide Select, Trail;
    TrailStep(ids);
    SelectNothing(SeqTo(id));
    if |ids| >= 2 {
      var front, last := ids[..|ids| - 1], ids[|ids| - 1];
      TrailIn(front, id);
      SelectAppend(Trail(front), EdgeKey(ids[|ids| - 2], last, SEQ), SeqTo(id));
      assert ids[1..] == front[1..] + [last];
    } else if |ids| == 1 {
      assert ids[1..] == [];
    }
  }

  /**
   * SEQ edges with their counts are the multiset of consecutive pairs of the trace: n - 1 in all, every
   * node as often entered as left except that the first event is not entered and the last is not left.
   */
  lemma TemporalTrail(g: BehaviorGraph, t: BehaviorTracer, id: string)
    requires t.graph == g && t.Valid()
    ensures var ids := EventIds(g.events);
            && (forall s, d :: Count(g.edges, EdgeKey(s, d, "seq")) == |PairsAt(ids, s, d)|)
            && Total(g.edges, IsSeq()) == (if ids == [] then 0 else |ids| - 1)
            && Total(g.edges, SeqFrom(id)) + (if Last(ids) == Some(id) then 1 else 0) == multiset(ids)[id]
            && Total(g.edges, SeqTo(id)) + (if ids != [] && ids[0] == id then 1 else 0) == multiset(ids)[id]
  {
    hide Select, Trail, CountsEdges, CountsNodes, CountsCalls, Total, IsSystemNode, IsCodeNode, EventIds;
    var ids := EventIds(g.events);
    SeqCounts(g.edges, g.linked, ids);
    SeqTotals(g.edges, g.linked, ids, id);
    forall s, d ensures Count(g.edges, EdgeKey(s, d, "seq")) == |PairsAt(ids, s, d)| {
      TrailCount(ids, s, d);
    }
  }

  /** Where `d` comes right after `s`. */
  function PairsAt(ids: seq<string>, s: string, d: string): (places: set<nat>) {
    set i: nat | i < |ids| && PairAt(ids, i, s, d)
  }

  predicate PairAt(ids: seq<string>, i: nat, s: string, d: string) {
    i + 1 < |ids| && ids[i] == s && ids[i + 1] == d
  }

  lemma PairsNext(ids: seq<string>, id: string, s: string, d: string)
    requires ids != []
    ensures |PairsAt(ids + [id], s, d)| == |PairsAt(ids, s, d)| + if ids[|ids| - 1] == s && id == d then 1 else 0
  {
    var n := |ids| - 1;
    assert !PairAt(ids, n, s, d);
    assert PairAt(ids + [id], n, s, d) <==> ids[n] == s && id == d;
    assert forall i: nat :: i < n ==> PairAt(ids + [id], i, s, d) == PairAt(ids, i, s, d);
    assert PairsAt(ids + [id], s, d) == PairsAt(ids, s, d) + if ids[n] == s && id == d then {n} else {};
  }

  lemma {:induction false} TrailCount(ids: seq<string>, s: string, d: string)
    ensures multiset(Trail(ids))[EdgeKey(s, d, SEQ)] == |PairsAt(ids, s, d)|
    decreases |ids|
  {
    if |ids| < 2 {
      assert PairsAt(ids, s, d) == {};
    } else {
      var front, last := ids[..|ids| - 1], ids[|ids| - 1];
      assert ids == front + [last];
      TrailCount(front, s, d);
      PairsNext(front, last, s, d);
    }
  }

  /** The pairs of adjacent frames, counted. */
  lemma {:induction false} AboveCount(frames: seq<string>, a: string, b: string)
    ensures multiset(Above(frames))[(a, b)] == |PairsAt(frames, a, b)|
    decreases |frames|
  {
    if |frames| < 2 {
      assert PairsAt(frames, a, b) == {};
    } else {
      var front, last := frames[..|frames| - 1], frames[|frames| - 1];
      assert frames == front + [last];
      AboveCount(front, a, b);
      PairsNext(front, last, a, b);
    }
  }

  lemma SeqTotals(edges: map<EdgeKey, nat>, linked: seq<EdgeKey>, ids: seq<string>, id: string)
    requires CountsEdges(edges, linked) && Select(linked, IsSeq()) == Trail(ids)
    ensures Total(edges, IsSeq()) == (if ids == [] then 0 else |ids| - 1)
    ensures Total(edges, SeqFrom(id)) + (if Last(ids) == Some(id) then 1 else 0) == multiset(ids)[id]
    ensures Total(edges, SeqTo(id)) + (if ids != [] && ids[0] == id then 1 else 0) == multiset(ids)[id]
  {
    hide Select, Trail, CountsEdges, Total;
    ClassSum(edges, linked, IsSeq());
    ClassSum(edges, linked, SeqFrom(id));
    ClassSum(edges, linked, SeqTo(id));
    SelectWithin(linked, IsSeq(), SeqFrom(id));
    SelectWithin(linked, IsSeq(), SeqTo(id));
    TrailLength(ids);
    TrailOut(ids, id);
    TrailIn(ids, id);
    if ids != [] {
      assert ids == ids[..|ids| - 1] + [ids[|ids| - 1]] && ids == [ids[0]] + ids[1..];
    }
  }

  lemma SeqCounts(edges: map<EdgeKey, nat>, linked: seq<EdgeKey>, ids: seq<string>)
    requires CountsEdges(edges, linked) && Select(linked, IsSeq()) == Trail(ids)
    ensures forall s, d :: Count(edges, EdgeKey(s, d, SEQ)) == multiset(Trail(ids))[EdgeKey(s, d, SEQ)]
  {
    forall s, d ensures Count(edges, EdgeKey(s, d, SEQ)) == multiset(Trail(ids))[EdgeKey(s, d, SEQ)] {
      SelectKeepsCount(linked, IsSeq(), EdgeKey(s, d, SEQ));
    }
  }

  /** Each system node's `calls` and `hits` are its occurrences in the trace. */
  lemma SystemNodeCounts(g: BehaviorGraph, t: BehaviorTracer, id: string)
    requires t.graph == g && t.Valid() && ("api:" <= id || "syscall:" <= id)
    ensures Hits(g.nodes, id) == Calls(g.nodes, id) == multiset(EventIds(g.events))[id]
  {
    SelectKeepsCount(g.touched, IsSystemNode(), id);
  }

  /** Code-edge counts add up to the executed code nodes less one, and link consecutive ones. */
  lemma CodeWalkTotal(g: BehaviorGraph, p: ControlFlowProbe)
    requires g.Valid() && p.Follows(g)
    ensures Total(g.edges, IsCode()) == var n := |Select(g.touched, IsCodeNode())|; if n == 0 then 0 else n - 1
    ensures forall k :: k in g.edges && IsCode()(k) ==>
              exists i :: 0 <= i < |Select(g.touched, IsCodeNode())| - 1
                          && k.src == Select(g.touched, IsCodeNode())[i]
                             && k.dst == Select(g.touched, IsCodeNode())[i + 1]
  {
    hide Select, Total;
    ClassSum(g.edges, g.linked, IsCode());
    var nodes, links := Select(g.touched, IsCodeNode()), Select(g.linked, IsCode());
    forall k | k in g.edges && IsCode()(k)
      ensures exists i :: 0 <= i < |nodes| - 1 && k.src == nodes[i] && k.dst == nodes[i + 1]
    {
      SelectKeepsCount(g.linked, IsCode(), k);
      assert k in links;
      var i :| 0 <= i < |links| && links[i] == k;
      assert k.src == nodes[i] && k.dst == nodes[i + 1];
    }
  }

  function FuncOf(etype: string): EdgeKey -> bool {
    (k: EdgeKey) => IsFunc()(k) && k.etype == etype
  }

  /**
   * For all functions a, b: CALL a->b less RET b->a is how often b sits right above a on the stack with the
   * current function on top; calls less returns is the stack depth.
   */
  lemma CallAccount(g: BehaviorGraph, p: FunctionProbe, a: string, b: string)
    requires g.Valid() && p.Accounts(g)
    requires "func:" <= a && "func:" <= b
    ensures Count(g.edges, EdgeKey(a, b, "call"))
            == Count(g.edges, EdgeKey(b, a, "ret")) + |PairsAt(p.Frames(), a, b)|
    ensures Count(g.edges, EdgeKey(b, a, "ret")) > 0 ==> EdgeKey(a, b, "call") in g.edges
    ensures Total(g.edges, FuncOf("call")) == Total(g.edges, FuncOf("ret")) + |p.stack|
  {
    hide Select, Total, Above;
    AboveCount(p.Frames(), a, b);
    SelectKeepsCount(g.linked, IsFunc(), EdgeKey(a, b, CALL));
    SelectKeepsCount(g.linked, IsFunc(), EdgeKey(b, a, RET));
    ClassSum(g.edges, g.linked, FuncOf(CALL));
    ClassSum(g.edges, g.linked, FuncOf(RET));
    SelectWithin(g.linked, IsFunc(), FuncOf(CALL));
    SelectWithin(g.linked, IsFunc(), FuncOf(RET));
    SelectAll(g.linked, IsFunc());
    FuncOfType(Select(g.linked, IsFunc()), CALL);
    FuncOfType(Select(g.linked, IsFunc()), RET);
  }

  lemma {:induction false} FuncOfType(links: seq<EdgeKey>, etype: string)
    requires forall k :: k in links ==> IsFunc()(k)
    ensures Select(links, FuncOf(etype)) == Select(links, IsType(etype))
    decreases |links|
  {
    if links != [] {
      FuncOfType(links[..|links| - 1], etype);
      assert links[|links| - 1] in links;
    }
  }
}

/** The behaviour graph: nodes and edges aggregated from events, with hit counters. */
module Graph {
  import opened ByteStrings

  datatype EdgeKey = EdgeKey(src: string, dst: string, etype: string)

  datatype Node = Node(kind: string, title: string, addr: nat, hits: nat, calls: nat, category: string)

  /** A recorded argument or return value: an integer, or something else. */
  datatype Value = Int(v: int) | Other

  /** What a probe records of a call; only system calls have a number. */
  datatype CallAttrs = CallAttrs(number: Option<int>, category: string, args: seq<Value>, ret: Value, log: string)

  datatype TraceEvent = TraceEvent(seqNo: nat, kind: string, name: string, site: string, attrs: CallAttrs)

  datatype SystemKind = Syscall | Api

  datatype BehaviorEvent =
    | NodeEvent(addr: nat, nodeKind: string, title: string)
    | EdgeEvent(src: string, dst: string, etype: string)
    | SystemEvent(seqNo: nat, site: nat, kind: SystemKind, name: string, attrs: CallAttrs)

  const SEQ := "seq"
  const INVOKE := "invoke"
  const DATAFLOW := "dataflow"
  const BUFFER := "buffer"
  const CALL := "call"
  const RET := "ret"

  function HexDigits(n: nat): (s: string)
    ensures s != ""
  {
    var d := [if n % 16 < 10 then '0' + (n % 16) as char else 'a' + (n % 16 - 10) as char];
    if n < 16 then d else HexDigits(n / 16) + d
  }

  /** Identity of the code node at an address. */
  function CodeId(addr: nat): (id: string)
    ensures "0x" <= id
  {
    "0x" + HexDigits(addr)
  }

  /** The number a string of hexadecimal digits denotes. */
  function HexValue(s: string): (v: int) {
    if s == "" then 0
    else
      var c := s[|s| - 1];
      16 * HexValue(s[..|s| - 1]) + if c <= '9' then c as int - '0' as int else 10 + (c as int - 'a' as int)
  }

  lemma {:induction false} HexReadBack(n: nat)
    ensures HexValue(HexDigits(n)) == n
    ensures HexDigits(n)[0] == '0' ==> n == 0
  {
    var d := if n % 16 < 10 then '0' + (n % 16) as char else 'a' + (n % 16 - 10) as char;
    if n < 16 {
      assert HexDigits(n) == [d] && [d][..0] == "" && HexValue("") == 0;
    } else {
      var front := HexDigits(n / 16);
      HexReadBack(n / 16);
      assert (front + [d])[..|front|] == front && (front + [d])[0] == front[0];
    }
  }

  /**
   * A code node's identity is `0x` and the address in hexadecimal, without leading zeros: one node for each address.
   */
  lemma CodeIdReadBack(a: nat, b: nat)
    ensures CodeId(a)[..2] == "0x" && HexValue(CodeId(a)[2..]) == a && (CodeId(a)[2] == '0' ==> a == 0)
    ensures CodeId(a) == CodeId(b) ==> a == b
  {
    HexReadBack(a);
    HexReadBack(b);
    assert CodeId(a)[2..] == HexDigits(a) && CodeId(b)[2..] == HexDigits(b);
  }

  function KindName(k: SystemKind): (s: string) {
    match k case Syscall => "syscall" case Api => "api"
  }

  function SystemId(kind: string, name: string): (id: string) {
    kind + ":" + name
  }

  /** One node for each kind and name of a system interaction: `api:` or `syscall:` and the name. */
  lemma SystemIdReadBack(k: SystemKind, name: string, l: SystemKind, other: string)
    ensures SystemId(KindName(k), name) == (if k == Api then "api:" else "syscall:") + name
    ensures SystemId(KindName(k), name) == SystemId(KindName(l), other) ==> k == l && name == other
  {
    var x, y := SystemId(KindName(k), name), SystemId(KindName(l), other);
    assert "api:"[0] == 'a' && "syscall:"[0] == 's';
    if x == y {
      var n := if k == Api then 4 else 8;
      assert x[0] == y[0];
      assert x[n..] == name && y[n..] == other;
    }
  }

  function EventId(e: TraceEvent): (id: string) {
    SystemId(e.kind, e.name)
  }

  /** The node identities of a trace, in order. */
  function EventIds(es: seq<TraceEvent>): (ids: seq<string>)
    ensures |ids| == |es| && forall i :: 0 <= i < |es| ==> ids[i] == EventId(es[i])
  {
    seq(|es|, i requires 0 <= i < |es| => EventId(es[i]))
  }

  lemma EventIdsAppend(es: seq<TraceEvent>, e: TraceEvent)
    ensures EventIds(es + [e]) == EventIds(es) + [EventId(e)]
  {
  }

  // -------------------------------------------------------- aggregated counts

  function Hits(nodes: map<string, Node>, id: string): (n: nat) {
    if id in nodes then nodes[id].hits else 0
  }

  function Calls(nodes: map<string, Node>, id: string): (n: nat) {
    if id in nodes then nodes[id].calls else 0
  }

  function Count(edges: map<EdgeKey, nat>, k: EdgeKey): (n: nat) {
    if k in edges then edges[k] else 0
  }

  /** The maps count a list of touches: an entry for everything touched, with its multiplicity. */
  ghost predicate CountsNodes(nodes: map<string, Node>, touched: seq<string>) {
    forall id :: (id in nodes <==> id in touched) && Hits(nodes, id) == multiset(touched)[id]
  }

  ghost predicate CountsEdges(edges: map<EdgeKey, nat>, linked: seq<EdgeKey>) {
    forall k :: (k in edges <==> k in linked) && Count(edges, k) == multiset(linked)[k]
  }

  ghost predicate CountsCalls(nodes: map<string, Node>, events: seq<TraceEvent>) {
    forall id :: Calls(nodes, id) == multiset(EventIds(events))[id]
  }

  class BehaviorGraph {
    var nodes: map<string, Node>
    var edges: map<EdgeKey, nat>
    var events: seq<TraceEvent>
    /** Every node touch and every edge touch, in order. */
    ghost var touched: seq<string>
    ghost var linked: seq<EdgeKey>

    ghost predicate Valid()
      reads this
    {
      CountsNodes(nodes, touched) && CountsEdges(edges, linked) && CountsCalls(nodes, events)
    }

    constructor ()
      ensures Valid() && nodes == map[] && edges == map[] && events == [] && touched == [] && linked == []
    {
      nodes, edges, events := map[], map[], [];
      touched, linked := [], [];
    }

    /** `_touch_node` and `touch_node_id`. */
    method TouchNode(id: string, kind: string, title: string, addr: nat)
      requires Valid()
      modifies this`nodes, this`touched
      ensures Valid() && touched == old(touched) + [id]
      ensures nodes == old(nodes)[id := Touched(old(nodes), id, kind, title, addr)]
    {
      hide CountsNodes, CountsEdges, CountsCalls;
      var node := if id in nodes then nodes[id] else Node(kind, if title != "" then title else id, addr, 0, 0, "");
      if title != "" {
        node := node.(title := title);
      }
      node := node.(hits := node.hits + 1);
      ghost var was, before := nodes, touched;
      nodes := nodes[id := node];
      touched := touched + [id];
      NodeTouched(was, before, id, node);
      CallsKept(was, events, id, node);
    }

    /** `_touch_edge` and `add_edge`; an empty end makes it do nothing. */
    method TouchEdge(src: string, dst: string, etype: string)
      requires Valid()
      modifies this`edges, this`linked
      ensures Valid()
      ensures linked == if src == "" || dst == "" then old(linked) else old(linked) + [EdgeKey(src, dst, etype)]
      ensures var k := EdgeKey(src, dst, etype);
              edges == if src == "" || dst == "" then old(edges) else old(edges)[k := Count(old(edges), k) + 1]
    {
      hide CountsNodes, CountsEdges, CountsCalls;
      if src == "" || dst == "" {
        return;
      }
      var k := EdgeKey(src, dst, etype);
      EdgeTouched(edges, linked, k);
      if k !in edges {
        edges := edges[k := 1];
      } else {
        edges := edges[k := edges[k] + 1];
      }
      linked := linked + [k];
    }

    method Consume(ev: BehaviorEvent)
      requires Valid()
      modifies this
      ensures Valid()
      ensures touched == old(touched) + TouchesOf(ev)
      ensures linked == old(linked) + LinksOf(ev)
      ensures events == old(events) + RecordsOf(ev)
      ensures nodes == NodesAfter(old(nodes), ev)
    {
      hide CountsNodes, CountsEdges, CountsCalls, CodeId;
      match ev
      case NodeEvent(addr, nodeKind, title) =>
        TouchNode(CodeId(addr), if nodeKind != "" then nodeKind else "block", title, addr);
      case EdgeEvent(src, dst, etype) =>
        TouchEdge(src, dst, etype);
      case SystemEvent(seqNo, site, kind, name, attrs) =>
        RecordCall(seqNo, site, kind, name, attrs);
    }

    method RecordCall(seqNo: nat, site: nat, kind: SystemKind, name: string, attrs: CallAttrs)
      requires Valid()
      modifies this`nodes, this`touched, this`events
      ensures Valid()
      ensures touched == old(touched) + [SystemId(KindName(kind), name)]
      ensures nodes == NodesAfter(old(nodes), SystemEvent(seqNo, site, kind, name, attrs))
      ensures events == old(events) + [TraceEvent(seqNo, KindName(kind), name, CodeId(site), attrs)]
    {
      hide CountsNodes, CountsEdges, CountsCalls, CodeId;
      var id := SystemId(KindName(kind), name);
      TouchNode(id, KindName(kind), name, 0);
      var node := nodes[id];
      ghost var was, before := nodes, events;
      node := node.(calls := node.calls + 1);
      if attrs.category != "" {
        node := node.(category := attrs.category);
      }
      nodes := nodes[id := node];
      var e := TraceEvent(seqNo, KindName(kind), name, CodeId(site), attrs);
      events := events + [e];
      HitsKept(was, touched, id, node);
      CallCounted(was, before, e, node);
    }
  }

  /** A node after one more touch: it keeps its kind and address, and takes a title if there is one. */
  function Touched(was: map<string, Node>, id: string, kind: string, title: string, addr: nat): (n: Node) {
    if id in was then
      was[id].(title := if title != "" then title else was[id].title, hits := was[id].hits + 1)
    else Node(kind, if title != "" then title else id, addr, 1, 0, "")
  }

  /** The node of a system interaction after one more call. */
  function Called(was: map<string, Node>, id: string, kind: string, name: string, category: string): (n: Node) {
    var t := Touched(was, id, kind, name, 0);
    t.(calls := t.calls + 1, category := if category != "" then category else t.category)
  }

  /** The nodes after an event: exactly the one it is about has changed. */
  function NodesAfter(was: map<string, Node>, ev: BehaviorEvent): (now: map<string, Node>) {
    match ev
    case NodeEvent(addr, nodeKind, title) =>
      was[CodeId(addr) := Touched(was, CodeId(addr), if nodeKind != "" then nodeKind else "block", title, addr)]
    case EdgeEvent(_, _, _) => was
    case SystemEvent(_, _, kind, name, attrs) =>
      var id := SystemId(KindName(kind), name);
      was[id := Called(was, id, KindName(kind), name, attrs.category)]
  }

  lemma NodeTouched(nodes: map<string, Node>, touched: seq<string>, id: string, node: Node)
    requires CountsNodes(nodes, touched) && node.hits == Hits(nodes, id) + 1
    ensures CountsNodes(nodes[id := node], touched + [id])
  {
    var now, after := nodes[id := node], touched + [id];
    forall k ensures (k in now <==> k in after) && Hits(now, k) == multiset(after)[k] {
      assert Hits(nodes, k) == multiset(touched)[k];
    }
  }

  lemma EdgeTouched(edges: map<EdgeKey, nat>, linked: seq<EdgeKey>, k: EdgeKey)
    requires CountsEdges(edges, linked)
    ensures CountsEdges(edges[k := Count(edges, k) + 1], linked + [k])
  {
    var now, after := edges[k := Count(edges, k) + 1], linked + [k];
    forall j ensures (j in now <==> j in after) && Count(now, j) == multiset(after)[j] {
      assert Count(edges, j) == multiset(linked)[j];
    }
  }

  lemma CallsKept(was: map<string, Node>, events: seq<TraceEvent>, id: string, node: Node)
    requires CountsCalls(was, events) && node.calls == Calls(was, id)
    ensures CountsCalls(was[id := node], events)
  {
    forall k ensures Calls(was[id := node], k) == multiset(EventIds(events))[k] {
      assert Calls(was, k) == multiset(EventIds(events))[k];
    }
  }

  lemma HitsKept(was: map<string, Node>, touched: seq<string>, id: string, node: Node)
    requires CountsNodes(was, touched) && id in was && node.hits == was[id].hits
    ensures CountsNodes(was[id := node], touched)
  {
    var now := was[id := node];
    forall k ensures (k in now <==> k in touched) && Hits(now, k) == multiset(touched)[k] {
      assert Hits(was, k) == multiset(touched)[k];
    }
  }

  lemma CallCounted(was: map<string, Node>, events: seq<TraceEvent>, e: TraceEvent, node: Node)
    requires CountsCalls(was, events) && node.calls == Calls(was, EventId(e)) + 1
    ensures CountsCalls(was[EventId(e) := node], events + [e])
  {
    EventIdsAppend(events, e);
    var ids := EventIds(events);
    forall k ensures Calls(was[EventId(e) := node], k) == multiset(ids + [EventId(e)])[k] {
      assert Calls(was, k) == multiset(ids)[k];
    }
  }

  // ------------------------------------------------ what an event touches

  function TouchesOf(ev: BehaviorEvent): (ids: seq<string>) {
    match ev
    case NodeEvent(addr, _, _) => [CodeId(addr)]
    case EdgeEvent(_, _, _) => []
    case SystemEvent(_, _, kind, name, _) => [SystemId(KindName(kind), name)]
  }

  function LinksOf(ev: BehaviorEvent): (ks: seq<EdgeKey>) {
    match ev
    case EdgeEvent(src, dst, etype) => if src == "" || dst == "" then [] else [EdgeKey(src, dst, etype)]
    case _ => []
  }

  function RecordsOf(ev: BehaviorEvent): (es: seq<TraceEvent>) {
    match ev
    case SystemEvent(seqNo, site, kind, name, attrs) =>
      [TraceEvent(seqNo, KindName(kind), name, CodeId(site), attrs)]
    case _ => []
  }

  // ------------------------------------------------------ selecting by class

  function Select<T>(s: seq<T>, p: T -> bool): (r: seq<T>) {
    if s == [] then [] else Select(s[..|s| - 1], p) + if p(s[|s| - 1]) then [s[|s| - 1]] else []
  }

  lemma SelectAppend<T>(s: seq<T>, x: T, p: T -> bool)
    ensures Select(s + [x], p) == Select(s, p) + if p(x) then [x] else []
  {
    assert (s + [x])[..|s|] == s;
  }

  lemma {:induction false} SelectKeepsCount<T>(s: seq<T>, p: T -> bool, x: T)
    requires p(x)
    ensures multiset(Select(s, p))[x] == multiset(s)[x]
    decreases |s|
  {
    if s != [] {
      SelectKeepsCount(s[..|s| - 1], p, x);
      assert s == s[..|s| - 1] + [s[|s| - 1]];
    }
  }
}

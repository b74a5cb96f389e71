/** The tracer and its control-flow probe: temporal and control-flow edges are trails. */
module Tracer {
  import opened ByteStrings
  import opened Graph

  // ------------------------------------------------------------- edge classes

  function IsSeq(): EdgeKey -> bool {
    (k: EdgeKey) => k.etype == SEQ
  }

  function IsCode(): EdgeKey -> bool {
    (k: EdgeKey) => "0x" <= k.src && "0x" <= k.dst
  }

  function IsFunc(): EdgeKey -> bool {
    (k: EdgeKey) => "func:" <= k.src && "func:" <= k.dst
  }

  function IsCodeNode(): string -> bool {
    (id: string) => "0x" <= id
  }

  function IsSystemNode(): string -> bool {
    (id: string) => "api:" <= id || "syscall:" <= id
  }

  lemma SystemIdClass(kind: SystemKind, name: string)
    ensures IsSystemNode()(SystemId(KindName(kind), name)) && !IsCodeNode()(SystemId(KindName(kind), name))
    ensures SystemId(KindName(kind), name) != ""
    ensures !("0x" <= SystemId(KindName(kind), name)) && !("func:" <= SystemId(KindName(kind), name))
  {
    var id := SystemId(KindName(kind), name);
    if kind == Api {
      assert id[..4] == "api:" && id[0] == 'a';
    } else {
      assert id[..8] == "syscall:" && id[0] == 's';
    }
  }

  lemma CodeIdClass(addr: nat)
    ensures IsCodeNode()(CodeId(addr)) && !IsSystemNode()(CodeId(addr)) && CodeId(addr) != ""
            && !("func:" <= CodeId(addr))
  {
    assert CodeId(addr)[0] == '0';
  }

  /** The temporal edges of a list of nodes: its consecutive pairs. */
  function Trail(ids: seq<string>): (ks: seq<EdgeKey>) {
    if |ids| < 2 then [] else Trail(ids[..|ids| - 1]) + [EdgeKey(ids[|ids| - 2], ids[|ids| - 1], SEQ)]
  }

  function Last(ids: seq<string>): (o: Option<string>) {
    if ids == [] then None else Some(ids[|ids| - 1])
  }

  lemma TrailAppend(ids: seq<string>, id: string)
    ensures Trail(ids + [id]) == Trail(ids) + match Last(ids) { case None => [] case Some(p) => [EdgeKey(p, id, SEQ)] }
  {
    assert (ids + [id])[..|ids|] == ids;
  }

  // ---------------------------------------------------------------- the tracer

  /** What execution reaches: a resolved export, an unresolved landing without code, or a code unit. */
  datatype Landing =
    | Export(name: string, attrs: CallAttrs)
    | Empty
    | Unit(title: string)

  function InvokeOf(cur: Option<string>, id: string): (ks: seq<EdgeKey>) {
    match cur case None => [] case Some(c) => [EdgeKey(c, id, INVOKE)]
  }

  function SeqOf(last: Option<string>, id: string): (ks: seq<EdgeKey>) {
    match last case None => [] case Some(l) => [EdgeKey(l, id, SEQ)]
  }

  class BehaviorTracer {
    const graph: BehaviorGraph
    var seqNo: nat
    var steps: nat
    var curCode: Option<string>
    var lastEvent: Option<string>

    ghost predicate Valid()
      reads this, graph
    {
      && graph.Valid()
      && lastEvent == Last(EventIds(graph.events))
      && Select(graph.linked, IsSeq()) == Trail(EventIds(graph.events))
      && Select(graph.touched, IsSystemNode()) == EventIds(graph.events)
      && curCode == Last(Select(graph.touched, IsCodeNode()))
    }

    constructor ()
      ensures Valid() && fresh(graph) && graph.events == [] && graph.linked == [] && graph.touched == []
      ensures seqNo == 0 && steps == 0
    {
      graph := new BehaviorGraph();
      seqNo, steps, curCode, lastEvent := 0, 0, None, None;
    }

    method Tick()
      modifies this`seqNo, this`steps
      ensures seqNo == old(seqNo) + 1 && steps == old(steps) + 1
    {
      seqNo := seqNo + 1;
      steps := steps + 1;
    }

    /** `emit`: aggregate the event, then wire a system event to its call site and to its predecessor. */
    method Emit(ev: BehaviorEvent)
      requires Valid()
      requires ev.EdgeEvent? ==> IsCode()(EdgeKey(ev.src, ev.dst, ev.etype)) && ev.etype != SEQ
      modifies this`curCode, this`lastEvent, graph
      ensures Valid()
      ensures graph.events == old(graph.events) + RecordsOf(ev) && graph.nodes == NodesAfter(old(graph.nodes), ev)
      ensures graph.touched == old(graph.touched) + TouchesOf(ev)
      ensures graph.linked == old(graph.linked) + LinksOf(ev) + WiringOf(old(curCode), old(lastEvent), ev)
    {
      hide Select, Trail, IsCodeNode, IsSystemNode, IsSeq, CodeId, KindName, BehaviorGraph.Valid;
      ghost var touched, linked, events := graph.touched, graph.linked, graph.events;
      match ev
      case NodeEvent(addr, _, _) =>
        graph.Consume(ev);
        assert graph.linked == linked && graph.events == events;
        curCode := Some(CodeId(addr));
        NodeEmitted(touched, addr);
      case EdgeEvent(_, _, _) =>
        graph.Consume(ev);
        assert graph.touched == touched && graph.events == events;
        CodeLinkEmitted(linked, EdgeKey(ev.src, ev.dst, ev.etype));
      case SystemEvent(_, _, _, _, _) =>
        EmitSystem(ev);
    }

    method EmitSystem(ev: BehaviorEvent)
      requires Valid() && ev.SystemEvent?
      modifies this`lastEvent, graph
      ensures Valid()
      ensures graph.events == old(graph.events) + RecordsOf(ev) && graph.nodes == NodesAfter(old(graph.nodes), ev)
      ensures graph.touched == old(graph.touched) + TouchesOf(ev)
      ensures graph.linked == old(graph.linked) + WiringOf(curCode, old(lastEvent), ev)
    {
      hide Select, Trail, IsCodeNode, IsSystemNode, IsSeq, CodeId, KindName, BehaviorGraph.Valid, RecordsOf, EventIds;
      ghost var touched, linked, events := graph.touched, graph.linked, graph.events;
      var id := SystemId(KindName(ev.kind), ev.name);
      SystemIdClass(ev.kind, ev.name);
      CurrentNonEmpty(touched);
      SystemEmitted(touched, linked, events, ev, curCode, lastEvent);
      graph.Consume(ev);
      assert graph.linked == linked;
      if curCode.Some? {
        graph.TouchEdge(curCode.value, id, INVOKE);
      }
      assert graph.linked == linked + InvokeOf(curCode, id);
      if lastEvent.Some? {
        graph.TouchEdge(lastEvent.value, id, SEQ);
      }
      assert graph.linked == linked + InvokeOf(curCode, id) + SeqOf(lastEvent, id);
      assert linked + WiringOf(curCode, lastEvent, ev) == linked + InvokeOf(curCode, id) + SeqOf(lastEvent, id);
      lastEvent := Some(id);
    }

    /** `on_code_node`: true when no plain code node is emitted. */
    method OnCodeNode(addr: nat, landing: Landing, nodeKind: string) returns (taken: bool)
      requires Valid()
      modifies this, graph
      ensures Valid()
      ensures taken <==> !landing.Unit?
      ensures steps == old(steps) + if taken then 0 else 1
      ensures seqNo == old(seqNo) + if landing.Empty? then 0 else 1
      ensures graph.events == old(graph.events) + RecordsOfLanding(old(seqNo), addr, landing)
      ensures graph.touched == old(graph.touched) + TouchesOfLanding(addr, landing)
      ensures graph.linked == old(graph.linked) + WiringOfLanding(old(curCode), old(lastEvent), landing)
      ensures graph.nodes == match landing
                             case Export(name, attrs) =>
                               NodesAfter(old(graph.nodes), SystemEvent(old(seqNo) + 1, addr, Api, name, attrs))
                             case Empty => old(graph.nodes)
                             case Unit(title) => NodesAfter(old(graph.nodes), NodeEvent(addr, nodeKind, title))
    {
      hide Select, Trail, IsCodeNode, IsSystemNode, IsSeq, CodeId, BehaviorGraph.Valid, EventIds;
      match landing
      case Export(name, attrs) =>
        seqNo := seqNo + 1;
        Emit(SystemEvent(seqNo, addr, Api, name, attrs));
        taken := true;
      case Empty =>
        taken := true;
      case Unit(title) =>
        Tick();
        Emit(NodeEvent(addr, nodeKind, title));
        taken := false;
    }
  }

  function WiringOf(cur: Option<string>, last: Option<string>, ev: BehaviorEvent): (ks: seq<EdgeKey>) {
    if ev.SystemEvent? then
      InvokeOf(cur, SystemId(KindName(ev.kind), ev.name)) + SeqOf(last, SystemId(KindName(ev.kind), ev.name))
    else []
  }

  function RecordsOfLanding(seqNo: nat, addr: nat, landing: Landing): (es: seq<TraceEvent>) {
    match landing
    case Export(name, attrs) => RecordsOf(SystemEvent(seqNo + 1, addr, Api, name, attrs))
    case _ => []
  }

  function TouchesOfLanding(addr: nat, landing: Landing): (ids: seq<string>) {
    match landing
    case Export(name, _) => [SystemId("api", name)]
    case Empty => []
    case Unit(_) => [CodeId(addr)]
  }

  function WiringOfLanding(cur: Option<string>, last: Option<string>, landing: Landing): (ks: seq<EdgeKey>) {
    match landing
    case Export(name, _) => InvokeOf(cur, SystemId("api", name)) + SeqOf(last, SystemId("api", name))
    case _ => []
  }

  // ------------------------------------------------ how the classes advance

  lemma NodeEmitted(touched: seq<string>, addr: nat)
    ensures Select(touched + [CodeId(addr)], IsSystemNode()) == Select(touched, IsSystemNode())
    ensures Select(touched + [CodeId(addr)], IsCodeNode()) == Select(touched, IsCodeNode()) + [CodeId(addr)]
  {
    CodeIdClass(addr);
    SelectAppend(touched, CodeId(addr), IsSystemNode());
    SelectAppend(touched, CodeId(addr), IsCodeNode());
  }

  lemma CodeLinkEmitted(linked: seq<EdgeKey>, k: EdgeKey)
    requires k.etype != SEQ
    ensures Select(linked + [k], IsSeq()) == Select(linked, IsSeq())
  {
    SelectAppend(linked, k, IsSeq());
  }

  lemma {:induction false} SelectAll<T>(s: seq<T>, p: T -> bool)
    ensures forall x :: x in Select(s, p) ==> x in s && p(x)
  {
    if s != [] {
      SelectAll(s[..|s| - 1], p);
    }
  }

  /** The nodes the tracer remembers have non-empty identities. */
  lemma CurrentNonEmpty(touched: seq<string>)
    ensures Last(Select(touched, IsCodeNode())) != Some("") && Last(Select(touched, IsSystemNode())) != Some("")
  {
    SelectAll(touched, IsCodeNode());
    SelectAll(touched, IsSystemNode());
  }

  lemma SystemEmitted(touched: seq<string>, linked: seq<EdgeKey>, events: seq<TraceEvent>, ev: BehaviorEvent,
                      cur: Option<string>, last: Option<string>)
    requires ev.SystemEvent? && last == Last(EventIds(events))
    ensures var id := SystemId(KindName(ev.kind), ev.name);
            && Select(touched + [id], IsSystemNode()) == Select(touched, IsSystemNode()) + [id]
            && Select(touched + [id], IsCodeNode()) == Select(touched, IsCodeNode())
            && Select(linked + InvokeOf(cur, id) + SeqOf(last, id), IsSeq())
               == Select(linked, IsSeq()) + SeqOf(last, id)
            && EventIds(events + RecordsOf(ev)) == EventIds(events) + [id]
            && Trail(EventIds(events + RecordsOf(ev))) == Trail(EventIds(events)) + SeqOf(last, id)
            && Last(EventIds(events + RecordsOf(ev))) == Some(id)
            && TouchesOf(ev) == [id]
  {
    hide Select, Trail;
    var id := SystemId(KindName(ev.kind), ev.name);
    SystemIdClass(ev.kind, ev.name);
    SelectAppend(touched, id, IsSystemNode());
    SelectAppend(touched, id, IsCodeNode());
    EventIdsAppend(events, RecordsOf(ev)[0]);
    TrailAppend(EventIds(events), id);
    SelectTwo(linked, cur, last, id);
  }

  lemma SelectTwo(linked: seq<EdgeKey>, cur: Option<string>, last: Option<string>, id: string)
    ensures Select(linked + InvokeOf(cur, id) + SeqOf(last, id), IsSeq()) == Select(linked, IsSeq()) + SeqOf(last, id)
  {
    hide Select;
    var mid := linked + InvokeOf(cur, id);
    if cur.Some? {
      SelectAppend(linked, EdgeKey(cur.value, id, INVOKE), IsSeq());
    } else {
      assert mid == linked;
    }
    if last.Some? {
      SelectAppend(mid, EdgeKey(last.value, id, SEQ), IsSeq());
    } else {
      assert mid + SeqOf(last, id) == mid;
    }
  }
}

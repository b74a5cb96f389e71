/** Whole traces: what any interleaving of hook calls leaves in the graph and in the probes. */
module Traces {
  import opened ByteStrings
  import opened Graph
  import opened Tracer
  import opened Probes
  import opened CallStack

  /** One hook call. */
  datatype Happening =
    | CodeUnit(address: nat, size: nat, landing: Landing, group: Group)
    | FuncBlock(address: nat, isExport: bool, title: string, term: Option<Term>)
    | SystemCall(site: nat, name: string, attrs: CallAttrs)

  // --------------------------------------------------- what the hooks amount to

  /** The code units among the hooks. */
  function Units(hs: seq<Happening>): (us: seq<(nat, nat)>) {
    if hs == [] then []
    else
      var h := hs[|hs| - 1];
      Units(hs[..|hs| - 1]) + if h.CodeUnit? && h.landing.Unit? then [(h.address, h.size)] else []
  }

  function LastUnit(hs: seq<Happening>): (u: Option<(nat, nat)>) {
    var us := Units(hs);
    if us == [] then None else Some(us[|us| - 1])
  }

  function UnitIds(us: seq<(nat, nat)>): (ids: seq<string>)
    ensures |ids| == |us| && forall i :: 0 <= i < |us| ==> ids[i] == CodeId(us[i].0)
  {
    seq(|us|, i requires 0 <= i < |us| => CodeId(us[i].0))
  }

  lemma UnitIdsAppend(us: seq<(nat, nat)>, u: (nat, nat))
    ensures UnitIds(us + [u]) == UnitIds(us) + [CodeId(u.0)]
  {
    hide CodeId;
  }

  /** The blocks the function probe is shown. */
  function Blocks(hs: seq<Happening>): (bs: seq<BlockHook>) {
    if hs == [] then []
    else
      var h := hs[|hs| - 1];
      Blocks(hs[..|hs| - 1]) + if h.FuncBlock? then [BlockHook(h.address, h.isExport, h.title, h.term)] else []
  }

  /** Hooks that take a sequence number: units, intercepted APIs and system calls. */
  predicate Numbered(h: Happening) {
    h.SystemCall? || (h.CodeUnit? && !h.landing.Empty?)
  }

  function SeqNoAfter(hs: seq<Happening>): (n: nat) {
    if hs == [] then 0 else SeqNoAfter(hs[..|hs| - 1]) + if Numbered(hs[|hs| - 1]) then 1 else 0
  }

  /** The system node a hook stands for, if any. */
  function SystemOf(h: Happening): (ids: seq<string>) {
    match h
    case CodeUnit(_, _, landing, _) => if landing.Export? then [SystemId("api", landing.name)] else []
    case FuncBlock(_, _, _, _) => []
    case SystemCall(_, name, _) => [SystemId("syscall", name)]
  }

  /** System calls and intercepted APIs, in order. */
  function Systems(hs: seq<Happening>): (ids: seq<string>) {
    if hs == [] then [] else Systems(hs[..|hs| - 1]) + SystemOf(hs[|hs| - 1])
  }

  /** What a hook records, behind the hooks `before`. */
  function RecordsAdded(before: seq<Happening>, h: Happening): (es: seq<TraceEvent>) {
    match h
    case CodeUnit(address, _, landing, _) => RecordsOfLanding(SeqNoAfter(before), address, landing)
    case FuncBlock(_, _, _, _) => []
    case SystemCall(site, name, attrs) => [TraceEvent(SeqNoAfter(before) + 1, "syscall", name, CodeId(site), attrs)]
  }

  function TouchesAdded(before: seq<Happening>, h: Happening): (ids: seq<string>) {
    match h
    case CodeUnit(address, _, landing, _) => TouchesOfLanding(address, landing)
    case FuncBlock(address, isExport, _, _) =>
      var s := ProbeRun(Blocks(before));
      FuncTouch(s.frames, s.pending, isExport, FuncId(address))
    case SystemCall(_, name, _) => [SystemId("syscall", name)]
  }

  /** Edges between code units. */
  function CodeLinksAdded(before: seq<Happening>, h: Happening): (ks: seq<EdgeKey>) {
    if h.CodeUnit? then WalkStep(LastUnit(before), h.address, h.landing, h.group) else []
  }

  /** Edges between functions. */
  function FuncLinksAdded(before: seq<Happening>, h: Happening): (ks: seq<EdgeKey>) {
    var s := ProbeRun(Blocks(before));
    if h.FuncBlock? then FuncLink(s.frames, s.pending, h.isExport, FuncId(h.address)) else []
  }

  /** Edges into a system node: from the last code unit and from the system node before it. */
  function SystemLinksAdded(before: seq<Happening>, h: Happening): (ks: seq<EdgeKey>) {
    if SystemOf(h) == [] then []
    else
      InvokeOf(Tracer.Last(UnitIds(Units(before))), SystemOf(h)[0])
      + SeqOf(Tracer.Last(Systems(before)), SystemOf(h)[0])
  }

  /** Everything `added` by the hooks, in order. */
  function All<T>(hs: seq<Happening>, added: (seq<Happening>, Happening) -> seq<T>): (xs: seq<T>) {
    if hs == [] then [] else All(hs[..|hs| - 1], added) + added(hs[..|hs| - 1], hs[|hs| - 1])
  }

  function Records(): (seq<Happening>, Happening) -> seq<TraceEvent> {
    (before: seq<Happening>, h: Happening) => RecordsAdded(before, h)
  }

  function Touches(): (seq<Happening>, Happening) -> seq<string> {
    (before: seq<Happening>, h: Happening) => TouchesAdded(before, h)
  }

  function CodeLinks(): (seq<Happening>, Happening) -> seq<EdgeKey> {
    (before: seq<Happening>, h: Happening) => CodeLinksAdded(before, h)
  }

  function FuncLinks(): (seq<Happening>, Happening) -> seq<EdgeKey> {
    (before: seq<Happening>, h: Happening) => FuncLinksAdded(before, h)
  }

  function Links(): (seq<Happening>, Happening) -> seq<EdgeKey> {
    (before: seq<Happening>, h: Happening) =>
      SystemLinksAdded(before, h) + CodeLinksAdded(before, h) + FuncLinksAdded(before, h)
  }

  lemma AllNext<T>(hs: seq<Happening>, h: Happening, added: (seq<Happening>, Happening) -> seq<T>)
    ensures All(hs + [h], added) == All(hs, added) + added(hs, h)
  {
    assert (hs + [h])[..|hs|] == hs;
  }

  /** The counters, the trace, the graph's touches, the last unit and the shadow stack. */
  datatype View = View(
    seqNo: nat, steps: nat, events: seq<TraceEvent>, touched: seq<string>, linked: seq<EdgeKey>,
    prev: Option<(nat, nat)>, shadow: Shadow)

  ghost function ViewOf(tracer: BehaviorTracer, control: ControlFlowProbe, funcs: FunctionProbe): (v: View)
    reads tracer, tracer.graph, control, funcs
  {
    var g := tracer.graph;
    View(tracer.seqNo, tracer.steps, g.events, g.touched, g.linked, control.prev,
         Shadow(funcs.Frames(), funcs.prevTerm))
  }

  /** The graph, the trace and both probes are what these hooks amount to. */
  ghost predicate Amounts(v: View, hs: seq<Happening>) {
    && v.seqNo == SeqNoAfter(hs) && v.steps == |Units(hs)|
    && v.events == All(hs, Records()) && v.touched == All(hs, Touches()) && v.linked == All(hs, Links())
    && EventIds(v.events) == Systems(hs)
    && Select(v.touched, IsCodeNode()) == UnitIds(Units(hs)) && Select(v.linked, IsCode()) == All(hs, CodeLinks())
    && Select(v.linked, IsFunc()) == All(hs, FuncLinks())
    && v.prev == LastUnit(hs) && v.shadow == ProbeRun(Blocks(hs))
  }

  lemma NextParts(hs: seq<Happening>, h: Happening)
    ensures var now := hs + [h];
            && SeqNoAfter(now) == SeqNoAfter(hs) + (if Numbered(h) then 1 else 0)
            && Systems(now) == Systems(hs) + SystemOf(h)
            && Units(now) == Units(hs) + (if h.CodeUnit? && h.landing.Unit? then [(h.address, h.size)] else [])
            && Blocks(now)
               == Blocks(hs) + (if h.FuncBlock? then [BlockHook(h.address, h.isExport, h.title, h.term)] else [])
            && All(now, Records()) == All(hs, Records()) + RecordsAdded(hs, h)
            && All(now, Touches()) == All(hs, Touches()) + TouchesAdded(hs, h)
            && All(now, CodeLinks()) == All(hs, CodeLinks()) + CodeLinksAdded(hs, h)
            && All(now, FuncLinks()) == All(hs, FuncLinks()) + FuncLinksAdded(hs, h)
            && All(now, Links())
               == All(hs, Links()) + (SystemLinksAdded(hs, h) + CodeLinksAdded(hs, h) + FuncLinksAdded(hs, h))
  {
    hide RecordsAdded, TouchesAdded, CodeLinksAdded, FuncLinksAdded, SystemLinksAdded, SystemOf, All;
    assert (hs + [h])[..|hs|] == hs;
    AllNext(hs, h, Records());
    AllNext(hs, h, Touches());
    AllNext(hs, h, CodeLinks());
    AllNext(hs, h, FuncLinks());
    AllNext(hs, h, Links());
  }

  lemma Flatten<T>(s: seq<T>, a: seq<T>, b: seq<T>, c: seq<T>)
    ensures s + (a + b + c) == s + a + b + c && (c == [] ==> s + (a + b + c) == s + a + b)
  {
  }

  lemma UnitAmounts(v: View, w: View, hs: seq<Happening>, address: nat, size: nat, landing: Landing, group: Group)
    requires Amounts(v, hs)
    requires w.seqNo == v.seqNo + (if landing.Empty? then 0 else 1)
             && w.steps == v.steps + (if landing.Unit? then 1 else 0)
    requires w.events == v.events + RecordsOfLanding(v.seqNo, address, landing)
    requires w.touched == v.touched + TouchesOfLanding(address, landing)
    requires w.linked == v.linked
                         + WiringOfLanding(Tracer.Last(Select(v.touched, IsCodeNode())),
                                           Tracer.Last(EventIds(v.events)), landing)
                         + WalkStep(v.prev, address, landing, group)
    requires Select(w.touched, IsCodeNode())
             == Select(v.touched, IsCodeNode()) + if landing.Unit? then [CodeId(address)] else []
    requires Select(w.linked, IsCode()) == Select(v.linked, IsCode()) + WalkStep(v.prev, address, landing, group)
    requires Select(w.linked, IsFunc()) == Select(v.linked, IsFunc())
    requires w.prev == (if landing.Unit? then Some((address, size)) else v.prev) && w.shadow == v.shadow
    ensures Amounts(w, hs + [CodeUnit(address, size, landing, group)])
  {
    hide Select, All, CodeId, Units, Systems, SeqNoAfter, Blocks, ProbeRun, WalkStep, EventIds;
    var h := CodeUnit(address, size, landing, group);
    NextParts(hs, h);
    assert FuncLinksAdded(hs, h) == [];
    if landing.Export? {
      EventIdsAppend(v.events, RecordsOfLanding(v.seqNo, address, landing)[0]);
    } else {
      assert v.events + [] == v.events;
    }
    UnitIdsAppend(Units(hs), (address, size));
    var wiring := WiringOfLanding(Tracer.Last(Select(v.touched, IsCodeNode())), Tracer.Last(EventIds(v.events)),
                                  landing);
    assert SystemLinksAdded(hs, h) == wiring;
    Flatten(v.linked, wiring, WalkStep(v.prev, address, landing, group), []);
    assert All(hs, FuncLinks()) + [] == All(hs, FuncLinks());
    assert UnitIds(Units(hs)) + [] == UnitIds(Units(hs)) && Units(hs) + [] == Units(hs);
    assert Blocks(hs) + [] == Blocks(hs) && Systems(hs) + [] == Systems(hs);
  }

  lemma BlockAmounts(v: View, w: View, hs: seq<Happening>, b: BlockHook)
    requires Amounts(v, hs)
    requires w.seqNo == v.seqNo && w.steps == v.steps && w.events == v.events && w.prev == v.prev
    requires var id := FuncId(b.address);
             && w.touched == v.touched + FuncTouch(v.shadow.frames, v.shadow.pending, b.isExport, id)
             && w.linked == v.linked + FuncLink(v.shadow.frames, v.shadow.pending, b.isExport, id)
             && Select(w.linked, IsFunc())
                == Select(v.linked, IsFunc()) + FuncLink(v.shadow.frames, v.shadow.pending, b.isExport, id)
    requires Select(w.touched, IsCodeNode()) == Select(v.touched, IsCodeNode())
    requires Select(w.linked, IsCode()) == Select(v.linked, IsCode())
    requires w.shadow == ProbeStep(v.shadow, b)
    ensures Amounts(w, hs + [FuncBlock(b.address, b.isExport, b.title, b.term)])
  {
    hide Select, All, CodeId, FuncId, Units, Systems, SeqNoAfter, Blocks, EventIds, FuncTouch, FuncLink, ProbeStep;
    var h := FuncBlock(b.address, b.isExport, b.title, b.term);
    NextParts(hs, h);
    assert (Blocks(hs) + [b])[..|Blocks(hs)|] == Blocks(hs);
    assert SystemLinksAdded(hs, h) == [] && CodeLinksAdded(hs, h) == [];
  }

  lemma CallAmounts(v: View, w: View, hs: seq<Happening>, site: nat, name: string, attrs: CallAttrs)
    requires Amounts(v, hs)
    requires w.seqNo == v.seqNo + 1 && w.steps == v.steps && w.prev == v.prev && w.shadow == v.shadow
    requires w.events == v.events + [TraceEvent(w.seqNo, "syscall", name, CodeId(site), attrs)]
    requires var id := SystemId("syscall", name);
             && w.touched == v.touched + [id]
             && w.linked == v.linked + InvokeOf(Tracer.Last(Select(v.touched, IsCodeNode())), id)
                            + SeqOf(Tracer.Last(EventIds(v.events)), id)
    requires Select(w.touched, IsCodeNode()) == Select(v.touched, IsCodeNode())
    requires Select(w.linked, IsCode()) == Select(v.linked, IsCode())
             && Select(w.linked, IsFunc()) == Select(v.linked, IsFunc())
    ensures Amounts(w, hs + [SystemCall(site, name, attrs)])
  {
    hide Select, All, CodeId, Units, Systems, SeqNoAfter, Blocks, ProbeRun, EventIds;
    var h := SystemCall(site, name, attrs);
    NextParts(hs, h);
    EventIdsAppend(v.events, TraceEvent(w.seqNo, "syscall", name, CodeId(site), attrs));
    var id := SystemId("syscall", name);
    var invoke := InvokeOf(Tracer.Last(Select(v.touched, IsCodeNode())), id);
    var after := SeqOf(Tracer.Last(EventIds(v.events)), id);
    assert FuncLinksAdded(hs, h) == [] && CodeLinksAdded(hs, h) == [] && SystemLinksAdded(hs, h) == invoke + after;
    Flatten(v.linked, invoke, after, []);
    Flatten(v.linked, invoke + after, [], []);
    assert All(hs, FuncLinks()) + [] == All(hs, FuncLinks()) && All(hs, CodeLinks()) + [] == All(hs, CodeLinks());
    assert Units(hs) + [] == Units(hs) && Blocks(hs) + [] == Blocks(hs);
  }

  // ------------------------------------------------------------ whole traces

  /**
   * Every interleaving of hook calls: the recorded calls, the node and edge touches, the walk of code units, the
   * function edges and the shadow stack are exactly those of the hooks, in order; trails and call account hold.
   */
  method Trace(hooks: seq<Happening>, nodeKind: string)
    returns (tracer: BehaviorTracer, control: ControlFlowProbe, funcs: FunctionProbe)
    ensures tracer.Valid() && control.Follows(tracer.graph) && funcs.Accounts(tracer.graph)
    ensures Amounts(ViewOf(tracer, control, funcs), hooks)
  {
    hide BehaviorTracer.Valid, ControlFlowProbe.Follows, FunctionProbe.Accounts, ViewOf, Amounts;
    tracer := new BehaviorTracer();
    control := new ControlFlowProbe();
    funcs := new FunctionProbe();
    Start(tracer, control, funcs);
    for i := 0 to |hooks|
      invariant fresh(tracer) && fresh(control) && fresh(funcs) && fresh(tracer.graph)
      invariant tracer.Valid() && control.Follows(tracer.graph) && funcs.Accounts(tracer.graph)
      invariant Amounts(ViewOf(tracer, control, funcs), hooks[..i])
    {
      RunHook(tracer, control, funcs, hooks[i], nodeKind, hooks[..i]);
      assert hooks[..i + 1] == hooks[..i] + [hooks[i]];
    }
    assert hooks[..|hooks|] == hooks;
  }

  lemma Start(tracer: BehaviorTracer, control: ControlFlowProbe, funcs: FunctionProbe)
    requires tracer.graph.linked == [] && tracer.graph.touched == [] && tracer.graph.events == []
    requires tracer.seqNo == 0 && tracer.steps == 0
    requires control.prev == None && funcs.stack == [] && funcs.cur == None && funcs.prevTerm == None
    ensures control.Follows(tracer.graph) && funcs.Accounts(tracer.graph) && Amounts(ViewOf(tracer, control, funcs), [])
  {
  }

  /** A hook call advances what it stands for and leaves the rest alone. */
  method RunHook(
    tracer: BehaviorTracer, control: ControlFlowProbe, funcs: FunctionProbe, hook: Happening, nodeKind: string,
    ghost before: seq<Happening>)
    requires tracer.Valid() && control.Follows(tracer.graph) && funcs.Accounts(tracer.graph)
    requires Amounts(ViewOf(tracer, control, funcs), before)
    modifies tracer, tracer.graph, control, funcs
    ensures tracer.Valid() && control.Follows(tracer.graph) && funcs.Accounts(tracer.graph)
    ensures Amounts(ViewOf(tracer, control, funcs), before + [hook])
  {
    hide Select, Amounts, WalkOf, StackAccount, IsCode, IsFunc, IsCodeNode, Trail, IsSeq, IsSystemNode;
    hide BehaviorGraph.Valid;
    hide FunctionProbe.Frames, FramesAfter, FuncId, CodeId, FuncTouch, FuncLink, WalkStep, RecordsOfLanding, EventIds;
    ghost var v := ViewOf(tracer, control, funcs);
    match hook
    case CodeUnit(address, size, landing, group) =>
      control.OnNode(tracer, address, size, landing, group, nodeKind);
      UnitAmounts(v, ViewOf(tracer, control, funcs), before, address, size, landing, group);
    case FuncBlock(address, isExport, title, term) =>
      funcs.OnBlock(tracer, address, isExport, title, term);
      BlockAmounts(v, ViewOf(tracer, control, funcs), before, BlockHook(address, isExport, title, term));
    case SystemCall(site, name, attrs) =>
      OnSystemCall(tracer, site, name, attrs);
      CallAmounts(v, ViewOf(tracer, control, funcs), before, site, name, attrs);
  }
}

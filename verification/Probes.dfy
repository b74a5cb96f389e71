/** The control-flow, function and system-call probes. */
module Probes {
  import opened ByteStrings
  import opened Graph
  import opened Tracer

  // ------------------------------------------------------------ control flow

  /** How a block ends, as its last instruction's groups say; `Fall` also when it cannot be read. */
  datatype Group = CallGroup | RetGroup | JumpGroup | Fall

  function EdgeName(g: Group, taken: bool): (s: string)
    ensures s != SEQ
  {
    match g
    case CallGroup => assert CALL[0] == 'c'; CALL
    case RetGroup => assert RET[0] == 'r'; RET
    case JumpGroup =>
      assert "jump_true"[0] == 'j' && "jump_false"[0] == 'j';
      if taken then "jump_true" else "jump_false"
    case Fall => assert "fallthrough"[0] == 'f'; "fallthrough"
  }

  /** The code edges are exactly the steps of the walk over the code nodes. */
  ghost predicate WalkOf(nodes: seq<string>, links: seq<EdgeKey>) {
    && |links| == (if nodes == [] then 0 else |nodes| - 1)
    && forall i :: 0 <= i < |links| ==> links[i].src == nodes[i] && links[i].dst == nodes[i + 1]
  }

  class ControlFlowProbe {
    /** Address and size of the last unit. */
    var prev: Option<(nat, nat)>

    ghost predicate Follows(g: BehaviorGraph)
      reads this, g
    {
      && WalkOf(Select(g.touched, IsCodeNode()), Select(g.linked, IsCode()))
      && Last(Select(g.touched, IsCodeNode())) == if prev.None? then None else Some(CodeId(prev.value.0))
    }

    constructor ()
      ensures prev == None
    {
      prev := None;
    }

    /** `_on_node`. */
    method OnNode(tracer: BehaviorTracer, address: nat, size: nat, landing: Landing, group: Group, nodeKind: string)
      requires tracer.Valid() && Follows(tracer.graph)
      modifies this, tracer, tracer.graph
      ensures tracer.Valid() && Follows(tracer.graph)
      ensures prev == if landing.Unit? then Some((address, size)) else old(prev)
      ensures tracer.seqNo == old(tracer.seqNo) + (if landing.Empty? then 0 else 1)
      ensures tracer.steps == old(tracer.steps) + (if landing.Unit? then 1 else 0)
      ensures tracer.graph.events == old(tracer.graph.events) + RecordsOfLanding(old(tracer.seqNo), address, landing)
      ensures tracer.graph.touched == old(tracer.graph.touched) + TouchesOfLanding(address, landing)
      ensures tracer.graph.linked
              == old(tracer.graph.linked) + WiringOfLanding(old(tracer.curCode), old(tracer.lastEvent), landing)
                 + WalkStep(old(prev), address, landing, group)
      ensures tracer.graph.nodes
              == match landing
                 case Export(name, attrs) =>
                   NodesAfter(old(tracer.graph.nodes), SystemEvent(old(tracer.seqNo) + 1, address, Api, name, attrs))
                 case Empty => old(tracer.graph.nodes)
                 case Unit(title) => NodesAfter(old(tracer.graph.nodes), NodeEvent(address, nodeKind, title))
      ensures Select(tracer.graph.linked, IsFunc()) == Select(old(tracer.graph.linked), IsFunc())
      ensures Select(tracer.graph.linked, IsCode())
              == Select(old(tracer.graph.linked), IsCode()) + WalkStep(old(prev), address, landing, group)
      ensures Select(tracer.graph.touched, IsCodeNode())
              == Select(old(tracer.graph.touched), IsCodeNode()) + if landing.Unit? then [CodeId(address)] else []
    {
      hide Select, CodeId, BehaviorTracer.Valid, IsCodeNode, IsCode, IsFunc, EdgeName, Tracer.Last;
      var g := tracer.graph;
      ghost var touched, linked := g.touched, g.linked;
      ghost var cur, last := tracer.curCode, tracer.lastEvent;
      var taken := tracer.OnCodeNode(address, landing, nodeKind);
      LandingClasses(touched, linked, cur, last, address, landing);
      if taken {
        assert Select(g.linked, IsCode()) == Select(linked, IsCode());
        assert Select(g.touched, IsCodeNode()) == Select(touched, IsCodeNode());
        return;
      }
      assert g.linked == linked;
      if prev.Some? {
        var (paddr, psize) := prev.value;
        var etype := EdgeName(group, address != paddr + psize);
        var k := EdgeKey(CodeId(paddr), CodeId(address), etype);
        CodeEdgeClass(linked, paddr, address, etype);
        tracer.Emit(EdgeEvent(k.src, k.dst, etype));
        assert g.linked == linked + [k];
        assert g.touched == touched + [CodeId(address)];
      }
      WalkExtends(touched, linked, prev, address, size, group);
      prev := Some((address, size));
    }
  }

  /** The edge a code unit adds. */
  function WalkStep(prev: Option<(nat, nat)>, address: nat, landing: Landing, group: Group): (ks: seq<EdgeKey>) {
    if landing.Unit? && prev.Some? then
      [EdgeKey(CodeId(prev.value.0), CodeId(address), EdgeName(group, address != prev.value.0 + prev.value.1))]
    else []
  }

  lemma LandingClasses(touched: seq<string>, linked: seq<EdgeKey>, cur: Option<string>, last: Option<string>,
                       address: nat, landing: Landing)
    ensures var wired := linked + WiringOfLanding(cur, last, landing);
            Select(wired, IsFunc()) == Select(linked, IsFunc()) && Select(wired, IsCode()) == Select(linked, IsCode())
    ensures Select(touched + TouchesOfLanding(address, landing), IsCodeNode())
            == Select(touched, IsCodeNode()) + if landing.Unit? then [CodeId(address)] else []
  {
    hide Select, CodeId;
    match landing
    case Export(name, _) =>
      SystemIdClass(Api, name);
      var id := SystemId("api", name);
      assert KindName(Api) == "api";
      SelectAppend(touched, id, IsCodeNode());
      WiringClasses(linked, cur, last, id);
    case Empty =>
      assert touched + [] == touched && linked + [] == linked;
    case Unit(_) =>
      NodeEmitted(touched, address);
      assert linked + [] == linked;
  }

  /** Edges into a system node are neither code nor function edges. */
  lemma WiringClasses(linked: seq<EdgeKey>, cur: Option<string>, last: Option<string>, id: string)
    requires !("0x" <= id) && !("func:" <= id)
    ensures var wired := linked + (InvokeOf(cur, id) + SeqOf(last, id));
            Select(wired, IsFunc()) == Select(linked, IsFunc()) && Select(wired, IsCode()) == Select(linked, IsCode())
  {
    hide Select;
    var mid := linked + InvokeOf(cur, id);
    if cur.Some? {
      SelectAppend(linked, EdgeKey(cur.value, id, INVOKE), IsFunc());
      SelectAppend(linked, EdgeKey(cur.value, id, INVOKE), IsCode());
    } else {
      assert mid == linked;
    }
    if last.Some? {
      SelectAppend(mid, EdgeKey(last.value, id, SEQ), IsFunc());
      SelectAppend(mid, EdgeKey(last.value, id, SEQ), IsCode());
    } else {
      assert mid + SeqOf(last, id) == mid;
    }
    assert linked + (InvokeOf(cur, id) + SeqOf(last, id)) == mid + SeqOf(last, id);
  }

  lemma CodeEdgeClass(linked: seq<EdgeKey>, src: nat, dst: nat, etype: string)
    ensures var k := EdgeKey(CodeId(src), CodeId(dst), etype);
            && IsCode()(k) && k.src != "" && k.dst != ""
            && Select(linked + [k], IsCode()) == Select(linked, IsCode()) + [k]
            && Select(linked + [k], IsFunc()) == Select(linked, IsFunc())
  {
    hide Select;
    var k := EdgeKey(CodeId(src), CodeId(dst), etype);
    CodeIdClass(src);
    CodeIdClass(dst);
    SelectAppend(linked, k, IsCode());
    SelectAppend(linked, k, IsFunc());
  }

  lemma WalkExtends(
    touched: seq<string>, linked: seq<EdgeKey>, prev: Option<(nat, nat)>, address: nat, size: nat, group: Group)
    requires WalkOf(Select(touched, IsCodeNode()), Select(linked, IsCode()))
    requires Last(Select(touched, IsCodeNode())) == if prev.None? then None else Some(CodeId(prev.value.0))
    ensures var now := Select(touched, IsCodeNode()) + [CodeId(address)];
            WalkOf(now, Select(linked, IsCode()) + WalkStep(prev, address, Unit(""), group))
            && Last(now) == Some(CodeId(address))
  {
    hide Select, CodeId, EdgeName;
  }

  // -------------------------------------------------------- shadow call stack

  datatype Term = EndsInCall | EndsInRet

  /** Pairs of a frame and the frame right above it. */
  function Above(frames: seq<string>): (ps: seq<(string, string)>) {
    if |frames| < 2 then [] else Above(frames[..|frames| - 1]) + [(frames[|frames| - 2], frames[|frames| - 1])]
  }

  function IsType(etype: string): EdgeKey -> bool {
    (k: EdgeKey) => k.etype == etype
  }

  /** Calls not yet returned are exactly the adjacent frames. */
  ghost predicate StackAccount(links: seq<EdgeKey>, frames: seq<string>) {
    && (forall a, b :: multiset(links)[EdgeKey(a, b, CALL)]
                       == multiset(links)[EdgeKey(b, a, RET)] + multiset(Above(frames))[(a, b)])
    && |Select(links, IsType(CALL))| == |Select(links, IsType(RET))| + if frames == [] then 0 else |frames| - 1
  }

  function FuncId(address: nat): (id: string)
    ensures "func:" <= id
  {
    "func:" + CodeId(address)
  }

  /** One function node for each entry address, and none of them a code node. */
  lemma FuncIdReadBack(a: nat, b: nat)
    ensures FuncId(a) == "func:" + CodeId(a) && FuncId(a) != CodeId(b)
    ensures FuncId(a) == FuncId(b) ==> a == b
  {
    assert FuncId(a)[5..] == CodeId(a) && FuncId(b)[5..] == CodeId(b);
    assert FuncId(a)[0] == 'f' && CodeId(b)[0] == '0';
    CodeIdReadBack(a, b);
  }

  class FunctionProbe {
    var stack: seq<string>
    var cur: Option<string>
    var prevTerm: Option<Term>

    ghost function Frames(): (fs: seq<string>)
      reads this
    {
      stack + if cur.None? then [] else [cur.value]
    }

    ghost predicate Accounts(g: BehaviorGraph)
      reads this, g
    {
      && (cur.None? ==> stack == [])
      && (forall i :: 0 <= i < |Frames()| ==> "func:" <= Frames()[i])
      && StackAccount(Select(g.linked, IsFunc()), Frames())
    }

    constructor ()
      ensures stack == [] && cur == None && prevTerm == None
    {
      stack, cur, prevTerm := [], None, None;
    }

    /** `_on_block`; `term` is the terminator of this block. */
    method OnBlock(tracer: BehaviorTracer, address: nat, isExport: bool, title: string, term: Option<Term>)
      requires tracer.Valid() && Accounts(tracer.graph)
      modifies this, tracer.graph
      ensures tracer.Valid() && Accounts(tracer.graph)
      ensures Select(tracer.graph.linked, IsCode()) == Select(old(tracer.graph.linked), IsCode())
      ensures Select(tracer.graph.touched, IsCodeNode()) == Select(old(tracer.graph.touched), IsCodeNode())
      ensures prevTerm == if isExport then old(prevTerm) else term
      ensures tracer.graph.events == old(tracer.graph.events)
      ensures tracer.graph.touched
              == old(tracer.graph.touched) + FuncTouch(old(Frames()), old(prevTerm), isExport, FuncId(address))
      ensures tracer.graph.linked
              == old(tracer.graph.linked) + FuncLink(old(Frames()), old(prevTerm), isExport, FuncId(address))
      ensures Select(tracer.graph.linked, IsFunc())
              == Select(old(tracer.graph.linked), IsFunc())
              + FuncLink(old(Frames()), old(prevTerm), isExport, FuncId(address))
      ensures tracer.graph.nodes
              == FuncNodes(old(tracer.graph.nodes), FuncTouch(old(Frames()), old(prevTerm), isExport, FuncId(address)),
                           address, title)
      ensures Frames() == FramesAfter(old(Frames()), old(prevTerm), isExport, FuncId(address))
    {
      hide Select, CodeId, BehaviorTracer.Valid, IsCodeNode, IsCode, IsFunc, StackAccount, FuncId, Touched;
      if isExport {
        return;
      }
      if cur.None? {
        Enter(tracer, address, title);
      } else if prevTerm == Some(EndsInCall) {
        Push(tracer, address, title);
      } else if prevTerm == Some(EndsInRet) {
        if stack != [] {
          Pop(tracer);
        }
      }
      prevTerm := term;
    }

    method Enter(tracer: BehaviorTracer, address: nat, title: string)
      requires tracer.Valid() && Accounts(tracer.graph) && cur.None?
      modifies this`cur, tracer.graph
      ensures tracer.Valid() && Accounts(tracer.graph)
      ensures tracer.graph.linked == old(tracer.graph.linked) && tracer.graph.events == old(tracer.graph.events)
      ensures tracer.graph.touched == old(tracer.graph.touched) + [FuncId(address)]
      ensures tracer.graph.nodes
              == old(tracer.graph.nodes)[FuncId(address) := Touched(old(tracer.graph.nodes), FuncId(address), "func",
                                                                    title, address)]
      ensures Select(tracer.graph.touched, IsCodeNode()) == Select(old(tracer.graph.touched), IsCodeNode())
      ensures Frames() == [FuncId(address)] && cur.Some?
    {
      hide Select, CodeId, BehaviorGraph.Valid, IsCodeNode, IsFunc, IsSeq, IsSystemNode, StackAccount, FuncId, Trail;
      hide EventIds;
      FuncNodeClass(tracer.graph.touched, address);
      assert Frames() == [];
      FirstFrame(Select(tracer.graph.linked, IsFunc()), FuncId(address));
      tracer.graph.TouchNode(FuncId(address), "func", title, address);
      cur := Some(FuncId(address));
      assert Frames() == [FuncId(address)];
    }

    method Push(tracer: BehaviorTracer, address: nat, title: string)
      requires tracer.Valid() && Accounts(tracer.graph) && cur.Some?
      modifies this`cur, this`stack, tracer.graph
      ensures tracer.Valid() && Accounts(tracer.graph)
      ensures Select(tracer.graph.linked, IsCode()) == Select(old(tracer.graph.linked), IsCode())
      ensures Select(tracer.graph.touched, IsCodeNode()) == Select(old(tracer.graph.touched), IsCodeNode())
      ensures tracer.graph.events == old(tracer.graph.events)
      ensures tracer.graph.touched == old(tracer.graph.touched) + [FuncId(address)]
      ensures tracer.graph.nodes
              == old(tracer.graph.nodes)[FuncId(address) := Touched(old(tracer.graph.nodes), FuncId(address), "func",
                                                                    title, address)]
      ensures var k := EdgeKey(old(cur).value, FuncId(address), CALL);
              && tracer.graph.linked == old(tracer.graph.linked) + [k]
              && Select(tracer.graph.linked, IsFunc()) == Select(old(tracer.graph.linked), IsFunc()) + [k]
      ensures Frames() == old(Frames()) + [FuncId(address)] && cur.Some?
    {
      hide Select, CodeId, BehaviorGraph.Valid, IsCodeNode, IsCode, IsFunc, IsSeq, IsSystemNode, StackAccount, FuncId;
      hide Trail, EventIds;
      var id, g := FuncId(address), tracer.graph;
      ghost var linked, frames := g.linked, Frames();
      FuncNodeClass(g.touched, address);
      assert frames[|stack|] == cur.value;
      FuncEdgeClass(linked, cur.value, id, CALL);
      Pushed(Select(linked, IsFunc()), frames, id);
      g.TouchNode(id, "func", title, address);
      g.TouchEdge(cur.value, id, CALL);
      stack := stack + [cur.value];
      cur := Some(id);
      assert Frames() == frames + [id];
    }

    method Pop(tracer: BehaviorTracer)
      requires tracer.Valid() && Accounts(tracer.graph) && cur.Some? && stack != []
      modifies this`cur, this`stack, tracer.graph
      ensures tracer.Valid() && Accounts(tracer.graph)
      ensures Select(tracer.graph.linked, IsCode()) == Select(old(tracer.graph.linked), IsCode())
      ensures tracer.graph.events == old(tracer.graph.events) && tracer.graph.touched == old(tracer.graph.touched)
      ensures tracer.graph.nodes == old(tracer.graph.nodes)
      ensures var k := EdgeKey(old(cur).value, old(stack)[|old(stack)| - 1], RET);
              && tracer.graph.linked == old(tracer.graph.linked) + [k]
              && Select(tracer.graph.linked, IsFunc()) == Select(old(tracer.graph.linked), IsFunc()) + [k]
      ensures Frames() == old(Frames())[..|old(Frames())| - 1] && cur.Some?
    {
      hide Select, BehaviorGraph.Valid, IsCodeNode, IsCode, IsFunc, IsSeq, IsSystemNode, StackAccount, Trail, EventIds;
      var g, caller := tracer.graph, stack[|stack| - 1];
      ghost var linked, frames := g.linked, Frames();
      assert frames[|stack|] == cur.value && frames[|stack| - 1] == caller;
      FuncEdgeClass(linked, cur.value, caller, RET);
      Popped(Select(linked, IsFunc()), frames);
      stack := stack[..|stack| - 1];
      g.TouchEdge(cur.value, caller, RET);
      cur := Some(caller);
      assert Frames() == frames[..|frames| - 1];
    }
  }

  /** The frames, bottom first, after a block. */
  function FramesAfter(frames: seq<string>, prev: Option<Term>, isExport: bool, id: string): (fs: seq<string>) {
    if isExport then frames
    else if frames == [] then [id]
    else if prev == Some(EndsInCall) then frames + [id]
    else if prev == Some(EndsInRet) && |frames| > 1 then frames[..|frames| - 1]
    else frames
  }

  /** The nodes after a block that touches the function node `ids`, or none. */
  function FuncNodes(was: map<string, Node>, ids: seq<string>, address: nat, title: string): (now: map<string, Node>) {
    if ids == [] then was else was[FuncId(address) := Touched(was, FuncId(address), "func", title, address)]
  }

  /** The function node a block touches: a function entered, first or by a call. */
  function FuncTouch(frames: seq<string>, prev: Option<Term>, isExport: bool, id: string): (ids: seq<string>) {
    if !isExport && (frames == [] || prev == Some(EndsInCall)) then [id] else []
  }

  /** The edge between functions a block adds: from the caller on top of the frames, or back to the frame below it. */
  function FuncLink(frames: seq<string>, prev: Option<Term>, isExport: bool, id: string): (ks: seq<EdgeKey>) {
    var n := |frames|;
    if isExport || n == 0 then []
    else if prev == Some(EndsInCall) then [EdgeKey(frames[n - 1], id, CALL)]
    else if prev == Some(EndsInRet) && n > 1 then [EdgeKey(frames[n - 1], frames[n - 2], RET)]
    else []
  }

  lemma FuncNodeClass(touched: seq<string>, address: nat)
    ensures var now := touched + [FuncId(address)];
            && Select(now, IsCodeNode()) == Select(touched, IsCodeNode())
            && Select(now, IsSystemNode()) == Select(touched, IsSystemNode())
            && FuncId(address) != ""
  {
    hide Select, CodeId;
    assert FuncId(address)[0] == 'f';
    SelectAppend(touched, FuncId(address), IsCodeNode());
    SelectAppend(touched, FuncId(address), IsSystemNode());
  }

  lemma FuncEdgeClass(linked: seq<EdgeKey>, src: string, dst: string, etype: string)
    requires "func:" <= src && "func:" <= dst && (etype == CALL || etype == RET)
    ensures src != "" && dst != ""
    ensures var k := EdgeKey(src, dst, etype);
            && Select(linked + [k], IsCode()) == Select(linked, IsCode())
            && Select(linked + [k], IsSeq()) == Select(linked, IsSeq())
            && Select(linked + [k], IsFunc()) == Select(linked, IsFunc()) + [k]
  {
    hide Select;
    assert src[0] == 'f' && CALL[0] == 'c' && RET[0] == 'r' && SEQ[0] == 's';
    var k := EdgeKey(src, dst, etype);
    SelectAppend(linked, k, IsCode());
    SelectAppend(linked, k, IsSeq());
    SelectAppend(linked, k, IsFunc());
  }

  lemma FirstFrame(links: seq<EdgeKey>, id: string)
    requires StackAccount(links, [])
    ensures StackAccount(links, [id])
  {
    assert Above([id]) == Above([]);
  }

  lemma AbovePush(frames: seq<string>, id: string)
    requires frames != []
    ensures Above(frames + [id]) == Above(frames) + [(frames[|frames| - 1], id)]
  {
    assert (frames + [id])[..|frames|] == frames;
  }

  lemma TypeCounts(links: seq<EdgeKey>, k: EdgeKey)
    requires k.etype == CALL || k.etype == RET
    ensures |Select(links + [k], IsType(CALL))| == |Select(links, IsType(CALL))| + if k.etype == CALL then 1 else 0
    ensures |Select(links + [k], IsType(RET))| == |Select(links, IsType(RET))| + if k.etype == RET then 1 else 0
    ensures CALL != RET
  {
    hide Select;
    assert CALL[0] == 'c' && RET[0] == 'r';
    SelectAppend(links, k, IsType(CALL));
    SelectAppend(links, k, IsType(RET));
  }

  lemma Pushed(links: seq<EdgeKey>, frames: seq<string>, id: string)
    requires frames != [] && StackAccount(links, frames)
    ensures StackAccount(links + [EdgeKey(frames[|frames| - 1], id, CALL)], frames + [id])
  {
    hide Select, Above, IsType;
    TypeCounts(links, EdgeKey(frames[|frames| - 1], id, CALL));
    AbovePush(frames, id);
  }

  lemma Popped(links: seq<EdgeKey>, frames: seq<string>)
    requires |frames| >= 2 && StackAccount(links, frames)
    ensures StackAccount(links + [EdgeKey(frames[|frames| - 1], frames[|frames| - 2], RET)], frames[..|frames| - 1])
  {
    hide Select, Above, IsType;
    var below := frames[..|frames| - 1];
    TypeCounts(links, EdgeKey(frames[|frames| - 1], frames[|frames| - 2], RET));
    AbovePush(below, frames[|frames| - 1]);
    assert below + [frames[|frames| - 1]] == frames;
  }

  // ------------------------------------------------------------ system calls

  /** `SyscallProbe._handle`, after the stub has run. */
  method OnSystemCall(tracer: BehaviorTracer, site: nat, name: string, attrs: CallAttrs)
    requires tracer.Valid()
    modifies tracer, tracer.graph
    ensures tracer.Valid()
    ensures tracer.graph.events
            == old(tracer.graph.events) + [TraceEvent(tracer.seqNo, "syscall", name, CodeId(site), attrs)]
    ensures tracer.seqNo == old(tracer.seqNo) + 1 && tracer.steps == old(tracer.steps)
    ensures tracer.graph.touched == old(tracer.graph.touched) + [SystemId("syscall", name)]
    ensures tracer.graph.nodes
            == NodesAfter(old(tracer.graph.nodes), SystemEvent(tracer.seqNo, site, Syscall, name, attrs))
    ensures tracer.graph.linked == old(tracer.graph.linked) + InvokeOf(old(tracer.curCode), SystemId("syscall", name))
                                   + SeqOf(old(tracer.lastEvent), SystemId("syscall", name))
    ensures Select(tracer.graph.linked, IsFunc()) == Select(old(tracer.graph.linked), IsFunc())
    ensures Select(tracer.graph.linked, IsCode()) == Select(old(tracer.graph.linked), IsCode())
    ensures Select(tracer.graph.touched, IsCodeNode()) == Select(old(tracer.graph.touched), IsCodeNode())
  {
    hide Select, CodeId, IsCodeNode, IsCode, IsFunc, IsSeq, IsSystemNode, Trail, EventIds, BehaviorGraph.Valid;
    ghost var touched, linked := tracer.graph.touched, tracer.graph.linked;
    tracer.seqNo := tracer.seqNo + 1;
    var ev := SystemEvent(tracer.seqNo, site, Syscall, name, attrs);
    var id := SystemId("syscall", name);
    assert KindName(Syscall) == "syscall";
    SystemIdClass(Syscall, name);
    WiringClasses(linked, tracer.curCode, tracer.lastEvent, id);
    SelectAppend(touched, id, IsCodeNode());
    assert linked + LinksOf(ev) == linked;
    tracer.Emit(ev);
  }
}

/** What the counters of a finished trace mean: hits of code units, control-flow edges, calls into the system. */
module TraceCounts {
  import opened ByteStrings
  import opened Graph
  import opened Tracer
  import opened Probes
  import opened CallStack
  import opened Traces

  lemma {:induction false} OneMore<T>(a: set<T>, b: set<T>, x: T, grows: bool)
    requires b == (if grows then a + {x} else a) && (grows ==> x !in a)
    ensures |b| == |a| + if grows then 1 else 0
  {
  }

  // ------------------------------------------------------------------- hits

  /** The places at which the unit at `a` is executed. */
  function UnitsAt(us: seq<(nat, nat)>, a: nat): (s: set<nat>) {
    set i: nat | i < |us| && us[i].0 == a
  }

  lemma {:induction false} UnitHits(us: seq<(nat, nat)>, a: nat)
    ensures multiset(UnitIds(us))[CodeId(a)] == |UnitsAt(us, a)|
    decreases |us|
  {
    hide CodeId;
    if us == [] {
      assert UnitsAt(us, a) == {};
    } else {
      var n := |us| - 1;
      var front, u := us[..n], us[n];
      UnitsNext(us, a);
      hide UnitIds, UnitsAt;
      UnitHits(front, a);
      UnitIdsAppend(front, u);
      assert us == front + [u];
      CodeIdReadBack(u.0, a);
    }
  }

  lemma UnitsNext(us: seq<(nat, nat)>, a: nat)
    requires us != []
    ensures |UnitsAt(us, a)| == |UnitsAt(us[..|us| - 1], a)| + if us[|us| - 1].0 == a then 1 else 0
  {
    var n := |us| - 1;
    var front := us[..n];
    assert UnitsAt(us, a) == if us[n].0 == a then UnitsAt(front, a) + {n} else UnitsAt(front, a);
    OneMore(UnitsAt(front, a), UnitsAt(us, a), n, us[n].0 == a);
  }

  /** After any trace the hits of the node of address `a` are the executions of the unit at `a`. */
  lemma HitsOfUnit(tracer: BehaviorTracer, control: ControlFlowProbe, funcs: FunctionProbe, hs: seq<Happening>, a: nat)
    requires tracer.Valid() && Amounts(ViewOf(tracer, control, funcs), hs)
    ensures Hits(tracer.graph.nodes, CodeId(a)) == |UnitsAt(Units(hs), a)|
  {
    hide Select, CodeId, UnitsAt, Units, All, ProbeRun, Trail;
    var g := tracer.graph;
    CodeIdClassOf(a);
    SelectKeepsCount(g.touched, IsCodeNode(), CodeId(a));
    UnitHits(Units(hs), a);
  }

  lemma CodeIdClassOf(a: nat)
    ensures IsCodeNode()(CodeId(a))
  {
    CodeIdClass(a);
  }

  // ------------------------------------------------------- control-flow edges

  /** The code units among the hooks, with all they report. */
  function UnitHooks(hs: seq<Happening>): (us: seq<Happening>)
    ensures forall i :: 0 <= i < |us| ==> us[i].CodeUnit? && us[i].landing.Unit?
  {
    if hs == [] then []
    else
      var h := hs[|hs| - 1];
      UnitHooks(hs[..|hs| - 1]) + if h.CodeUnit? && h.landing.Unit? then [h] else []
  }

  lemma {:induction false} UnitsAreHooks(hs: seq<Happening>)
    ensures |Units(hs)| == |UnitHooks(hs)|
    ensures forall i :: 0 <= i < |Units(hs)| ==> Units(hs)[i] == (UnitHooks(hs)[i].address, UnitHooks(hs)[i].size)
    decreases |hs|
  {
    if hs != [] {
      UnitsAreHooks(hs[..|hs| - 1]);
    }
  }

  /**
   * How execution gets from one unit to the next: by the first one's last instruction, a jump by whether it is taken.
   */
  predicate Passes(from: Happening, to: Happening, etype: string)
    requires from.CodeUnit? && to.CodeUnit?
  {
    match to.group
    case CallGroup => etype == "call"
    case RetGroup => etype == "ret"
    case JumpGroup => etype == if to.address == from.address + from.size then "jump_false" else "jump_true"
    case Fall => etype == "fallthrough"
  }

  /** At place `i` execution passes from the unit at `a` to the one at `b` in this way. */
  predicate StepAt(us: seq<Happening>, i: nat, a: nat, b: nat, etype: string)
    requires forall k :: 0 <= k < |us| ==> us[k].CodeUnit?
  {
    0 < i < |us| && us[i - 1].address == a && us[i].address == b && Passes(us[i - 1], us[i], etype)
  }

  ghost function StepsBetween(us: seq<Happening>, a: nat, b: nat, etype: string): (s: set<nat>)
    requires forall k :: 0 <= k < |us| ==> us[k].CodeUnit?
  {
    set i: nat | i < |us| && StepAt(us, i, a, b, etype)
  }

  lemma {:induction false} CodeLinkCount(hs: seq<Happening>, a: nat, b: nat, etype: string)
    ensures multiset(All(hs, CodeLinks()))[EdgeKey(CodeId(a), CodeId(b), etype)]
            == |StepsBetween(UnitHooks(hs), a, b, etype)|
    decreases |hs|
  {
    hide CodeId, StepAt, CodeLinksAdded;
    if hs == [] {
      assert StepsBetween(UnitHooks(hs), a, b, etype) == {};
    } else {
      var n := |hs| - 1;
      var front, h := hs[..n], hs[n];
      CodeLinkCount(front, a, b, etype);
      assert hs == front + [h];
      AllNext(front, h, CodeLinks());
      LastStep(front, h, a, b, etype);
    }
  }

  /** What one more hook adds, to the links and to the places. */
  lemma LastStep(hs: seq<Happening>, h: Happening, a: nat, b: nat, etype: string)
    ensures multiset(CodeLinksAdded(hs, h))[EdgeKey(CodeId(a), CodeId(b), etype)]
            == |StepsBetween(UnitHooks(hs + [h]), a, b, etype)| - |StepsBetween(UnitHooks(hs), a, b, etype)|
  {
    hide CodeId, StepAt, EdgeName;
    assert (hs + [h])[..|hs|] == hs;
    UnitsAreHooks(hs);
    var us, now := UnitHooks(hs), UnitHooks(hs + [h]);
    var n := |us|;
    var x, y := StepsBetween(us, a, b, etype), StepsBetween(now, a, b, etype);
    if h.CodeUnit? && h.landing.Unit? {
      assert now == us + [h];
      forall i: nat | i < n ensures StepAt(now, i, a, b, etype) <==> StepAt(us, i, a, b, etype) {
        SameStep(us, now, i, a, b, etype);
      }
      var grows := StepAt(now, n, a, b, etype);
      assert y == if grows then x + {n} else x;
      OneMore(x, y, n, grows);
      NewLink(us, h, a, b, etype);
    } else {
      assert now == us;
    }
  }

  lemma SameStep(us: seq<Happening>, now: seq<Happening>, i: nat, a: nat, b: nat, etype: string)
    requires us <= now && forall k :: 0 <= k < |now| ==> now[k].CodeUnit?
    requires i < |us|
    ensures StepAt(now, i, a, b, etype) <==> StepAt(us, i, a, b, etype)
  {
  }

  /** The link a unit adds is of this key exactly when this is how execution got there. */
  lemma NewLink(us: seq<Happening>, h: Happening, a: nat, b: nat, etype: string)
    requires forall k :: 0 <= k < |us| ==> us[k].CodeUnit?
    requires h.CodeUnit? && h.landing.Unit?
    ensures var prev := if us == [] then None else Some((us[|us| - 1].address, us[|us| - 1].size));
            multiset(WalkStep(prev, h.address, h.landing, h.group))[EdgeKey(CodeId(a), CodeId(b), etype)]
            == if StepAt(us + [h], |us|, a, b, etype) then 1 else 0
  {
    hide CodeId;
    if us != [] {
      var from := us[|us| - 1];
      CodeIdReadBack(from.address, a);
      CodeIdReadBack(h.address, b);
      assert (us + [h])[|us| - 1] == from && (us + [h])[|us|] == h;
      PassesByName(from, h, etype);
    }
  }

  lemma PassesByName(from: Happening, to: Happening, etype: string)
    requires from.CodeUnit? && to.CodeUnit?
    ensures Passes(from, to, etype) <==> etype == EdgeName(to.group, to.address != from.address + from.size)
  {
  }

  /** After any trace a control-flow edge counts how often execution passed between its units in its way. */
  lemma CodeEdgeCount(
    tracer: BehaviorTracer, control: ControlFlowProbe, funcs: FunctionProbe, hs: seq<Happening>, a: nat, b: nat,
    etype: string)
    requires tracer.Valid() && Amounts(ViewOf(tracer, control, funcs), hs)
    ensures Count(tracer.graph.edges, EdgeKey(CodeId(a), CodeId(b), etype))
            == |StepsBetween(UnitHooks(hs), a, b, etype)|
  {
    hide Select, CodeId, StepsBetween, Units, All, ProbeRun, Trail, UnitHooks;
    var g, k := tracer.graph, EdgeKey(CodeId(a), CodeId(b), etype);
    assert IsCode()(k);
    SelectKeepsCount(g.linked, IsCode(), k);
    CodeLinkCount(hs, a, b, etype);
  }

  // -------------------------------------------------------- calls into the system

  /** Hook `n` is the call of this system node, and the last unit before it is the one at `a`. */
  predicate InvokedAt(hs: seq<Happening>, n: nat, a: nat, id: string) {
    && n < |hs| && CallsInto(hs[n], id)
    && LastUnit(hs[..n]).Some? && LastUnit(hs[..n]).value.0 == a
  }

  predicate CallsInto(h: Happening, id: string) {
    match h
    case CodeUnit(_, _, landing, _) => landing.Export? && id == "api:" + landing.name
    case FuncBlock(_, _, _, _) => false
    case SystemCall(_, name, _) => id == "syscall:" + name
  }

  ghost function Invocations(hs: seq<Happening>, a: nat, id: string): (s: set<nat>) {
    set n: nat | n < |hs| && InvokedAt(hs, n, a, id)
  }

  lemma {:induction false} InvokeLinkCount(hs: seq<Happening>, a: nat, id: string)
    ensures multiset(All(hs, Links()))[EdgeKey(CodeId(a), id, "invoke")] == |Invocations(hs, a, id)|
    decreases |hs|
  {
    hide CodeId, InvokedAt, SystemLinksAdded, CodeLinksAdded, FuncLinksAdded;
    if hs == [] {
      assert Invocations(hs, a, id) == {};
    } else {
      hide Invocations, All;
      var n := |hs| - 1;
      var front, h := hs[..n], hs[n];
      InvokeLinkCount(front, a, id);
      assert hs == front + [h];
      AllNext(front, h, Links());
      InvocationsNext(front, h, a, id);
      InvokeAdded(front, h, a, id);
    }
  }

  lemma InvocationsNext(front: seq<Happening>, h: Happening, a: nat, id: string)
    ensures |Invocations(front + [h], a, id)|
            == |Invocations(front, a, id)| + if InvokedAt(front + [h], |front|, a, id) then 1 else 0
  {
    hide InvokedAt;
    var n, hs := |front|, front + [h];
    forall i: nat | i < n ensures InvokedAt(hs, i, a, id) <==> InvokedAt(front, i, a, id) {
      SameInvocation(front, h, i, a, id);
    }
    var x, y := Invocations(front, a, id), Invocations(hs, a, id);
    assert y == if InvokedAt(hs, n, a, id) then x + {n} else x;
    OneMore(x, y, n, InvokedAt(hs, n, a, id));
  }

  lemma SameInvocation(front: seq<Happening>, h: Happening, i: nat, a: nat, id: string)
    requires i < |front|
    ensures InvokedAt(front + [h], i, a, id) <==> InvokedAt(front, i, a, id)
  {
    hide LastUnit;
    assert (front + [h])[..i] == front[..i];
  }

  lemma InvokeAdded(front: seq<Happening>, h: Happening, a: nat, id: string)
    ensures var added := SystemLinksAdded(front, h) + CodeLinksAdded(front, h) + FuncLinksAdded(front, h);
            multiset(added)[EdgeKey(CodeId(a), id, "invoke")] == if InvokedAt(front + [h], |front|, a, id) then 1 else 0
  {
    hide CodeId, ProbeRun, Blocks, Systems, EdgeName, FuncId;
    assert (front + [h])[..|front|] == front && (front + [h])[|front|] == h;
    var k := EdgeKey(CodeId(a), id, "invoke");
    var s, c, f := SystemLinksAdded(front, h), CodeLinksAdded(front, h), FuncLinksAdded(front, h);
    assert multiset(s + c + f)[k] == multiset(s)[k] + multiset(c)[k] + multiset(f)[k];
    NoInvoke(front, h, k);
    SystemInvoke(front, h, a, id);
  }

  lemma NoInvoke(front: seq<Happening>, h: Happening, k: EdgeKey)
    requires k.etype == "invoke"
    ensures multiset(CodeLinksAdded(front, h))[k] == 0 && multiset(FuncLinksAdded(front, h))[k] == 0
  {
    hide CodeId, ProbeRun, Blocks, FuncId;
    assert "invoke"[0] == 'i' && CALL[0] == 'c' && RET[0] == 'r';
    forall g: Group, taken: bool ensures EdgeName(g, taken) != "invoke" {
      assert EdgeName(g, taken)[0] != 'i';
    }
  }

  /** Of the two edges into a system node one is an invoke edge. */
  lemma InvokesOnce(cur: Option<string>, last: Option<string>, into: string, src: string, dst: string)
    ensures multiset(InvokeOf(cur, into) + SeqOf(last, into))[EdgeKey(src, dst, "invoke")]
            == if cur == Some(src) && into == dst then 1 else 0
  {
    assert INVOKE == "invoke" && SEQ[0] == 's' && "invoke"[0] == 'i';
  }

  lemma OneSystem(h: Happening)
    ensures |SystemOf(h)| <= 1
  {
  }

  lemma SystemInvoke(front: seq<Happening>, h: Happening, a: nat, id: string)
    ensures multiset(SystemLinksAdded(front, h))[EdgeKey(CodeId(a), id, "invoke")]
            == if CallsInto(h, id) && LastUnit(front).Some? && LastUnit(front).value.0 == a then 1 else 0
  {
    hide CodeId, Systems, Units, SystemOf, CallsInto, InvokeOf, SeqOf;
    CallsByName(h, id);
    if SystemOf(h) != [] {
      InvokesOnce(Tracer.Last(UnitIds(Units(front))), Tracer.Last(Systems(front)), SystemOf(h)[0], CodeId(a), id);
    }
    OneSystem(h);
    if LastUnit(front).Some? {
      CodeIdReadBack(LastUnit(front).value.0, a);
    }
  }

  lemma CallsByName(h: Happening, id: string)
    ensures CallsInto(h, id) <==> SystemOf(h) == [id]
  {
    match h
    case CodeUnit(_, _, landing, _) =>
      if landing.Export? {
        SystemIdReadBack(Api, landing.name, Api, "");
      }
    case SystemCall(_, name, _) => SystemIdReadBack(Syscall, name, Api, "");
    case FuncBlock(_, _, _, _) =>
  }

  /**
   * After any trace an invoke edge counts the calls of its system node made while its code unit was the current one.
   */
  lemma InvokeEdgeCount(
    tracer: BehaviorTracer, control: ControlFlowProbe, funcs: FunctionProbe, hs: seq<Happening>, a: nat, id: string)
    requires tracer.Valid() && Amounts(ViewOf(tracer, control, funcs), hs)
    ensures Count(tracer.graph.edges, EdgeKey(CodeId(a), id, "invoke")) == |Invocations(hs, a, id)|
  {
    hide Select, CodeId, Invocations, Units, ProbeRun, Trail;
    InvokeLinkCount(hs, a, id);
  }

  // ------------------------------------------------------------ the event list

  /** Sequence numbers strictly increase along the trace, and none is beyond the last one drawn. */
  lemma {:induction false} SeqNosIncrease(hs: seq<Happening>)
    ensures var es := All(hs, Records());
            && (forall i :: 0 <= i < |es| ==> es[i].seqNo <= SeqNoAfter(hs))
            && forall i, j :: 0 <= i < j < |es| ==> es[i].seqNo < es[j].seqNo
    decreases |hs|
  {
    hide CodeId;
    if hs != [] {
      var front, h := hs[..|hs| - 1], hs[|hs| - 1];
      SeqNosIncrease(front);
      assert hs == front + [h];
      AllNext(front, h, Records());
    }
  }
}

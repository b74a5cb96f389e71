/** When the shadow stack follows the calls that intercepted APIs end, and when it does not. */
module CallStack {
  import opened ByteStrings
  import opened Graph
  import opened Tracer
  import opened Probes

  /** A block as the function probe sees it. */
  datatype BlockHook = BlockHook(address: nat, isExport: bool, title: string, term: Option<Term>)

  /** The frames, bottom first, and the terminator of the last block taken into account. */
  datatype Shadow = Shadow(frames: seq<string>, pending: Option<Term>)

  /** The probe: an export block is passed over, its caller's terminator stays. */
  function ProbeStep(s: Shadow, h: BlockHook): (r: Shadow) {
    Shadow(FramesAfter(s.frames, s.pending, h.isExport, FuncId(h.address)), if h.isExport then s.pending else h.term)
  }

  function ProbeRun(hs: seq<BlockHook>): (s: Shadow)
    decreases |hs|
  {
    if hs == [] then Shadow([], None) else ProbeStep(ProbeRun(hs[..|hs| - 1]), hs[|hs| - 1])
  }

  /** The reference: the intercepted API returns at once, so its block ends the pending call. */
  function ReferenceStep(s: Shadow, h: BlockHook): (r: Shadow) {
    if !h.isExport then ProbeStep(s, h)
    else s.(pending := if s.pending == Some(EndsInCall) then None else s.pending)
  }

  function ReferenceRun(hs: seq<BlockHook>): (s: Shadow)
    decreases |hs|
  {
    if hs == [] then Shadow([], None) else ReferenceStep(ReferenceRun(hs[..|hs| - 1]), hs[|hs| - 1])
  }

  /** The probe's state is this run of its hooks. */
  method RunBlocks(tracer: BehaviorTracer, probe: FunctionProbe, hs: seq<BlockHook>)
    requires tracer.Valid() && probe.Accounts(tracer.graph)
    requires probe.Frames() == [] && probe.prevTerm == None
    modifies probe, tracer.graph
    ensures tracer.Valid() && probe.Accounts(tracer.graph)
    ensures Shadow(probe.Frames(), probe.prevTerm) == ProbeRun(hs)
  {
    hide BehaviorTracer.Valid, FunctionProbe.Accounts, FunctionProbe.Frames, FramesAfter, FuncId, Select;
    for i := 0 to |hs|
      invariant tracer.Valid() && probe.Accounts(tracer.graph)
      invariant Shadow(probe.Frames(), probe.prevTerm) == ProbeRun(hs[..i])
    {
      probe.OnBlock(tracer, hs[i].address, hs[i].isExport, hs[i].title, hs[i].term);
      assert hs[..i + 1][..i] == hs[..i];
    }
    assert hs[..|hs|] == hs;
  }

  /** Terminator of the last block that is no export. */
  function LastTerm(hs: seq<BlockHook>): (t: Option<Term>)
    decreases |hs|
  {
    if hs == [] then None
    else if hs[|hs| - 1].isExport then LastTerm(hs[..|hs| - 1])
    else hs[|hs| - 1].term
  }

  /** Block `i` is an export reached by a call. */
  predicate Intercepted(hs: seq<BlockHook>, i: nat) {
    i < |hs| && hs[i].isExport && LastTerm(hs[..i]) == Some(EndsInCall)
  }

  /** After an export reached by a call, execution comes back to a block that is no export. */
  ghost predicate ComesBack(hs: seq<BlockHook>) {
    exists i: nat, j: nat :: Intercepted(hs, i) && i < j < |hs| && !hs[j].isExport
  }

  /** Since the last block that is no export, an export was reached by a call. */
  ghost predicate Waiting(hs: seq<BlockHook>) {
    exists i: nat :: Intercepted(hs, i) && forall j :: i < j < |hs| ==> hs[j].isExport
  }

  lemma InterceptedPrefix(hs: seq<BlockHook>, n: nat, i: nat)
    requires n <= |hs| && i < n
    ensures Intercepted(hs[..n], i) <==> Intercepted(hs, i)
  {
    assert hs[..n][..i] == hs[..i];
  }

  lemma {:induction false} PendingIsLastTerm(hs: seq<BlockHook>)
    ensures ProbeRun(hs).pending == LastTerm(hs)
    ensures ProbeRun(hs).frames == [] ==> forall i :: 0 <= i < |hs| ==> hs[i].isExport
    decreases |hs|
  {
    hide FuncId;
    if hs != [] {
      PendingIsLastTerm(hs[..|hs| - 1]);
    }
  }

  /** What a last block does to the two conditions. */
  lemma LastBlock(hs: seq<BlockHook>)
    requires hs != []
    ensures var front, last := hs[..|hs| - 1], hs[|hs| - 1];
            && (ComesBack(hs) <==> ComesBack(front) || (!last.isExport && exists i: nat :: Intercepted(front, i)))
            && (Waiting(hs) <==> last.isExport && (Waiting(front) || LastTerm(front) == Some(EndsInCall)))
  {
    hide LastTerm;
    var n := |hs| - 1;
    var front, last := hs[..n], hs[n];
    forall i: nat | i < n ensures Intercepted(front, i) <==> Intercepted(hs, i) {
      InterceptedPrefix(hs, n, i);
    }
    if ComesBack(hs) {
      var i: nat, j: nat :| Intercepted(hs, i) && i < j < |hs| && !hs[j].isExport;
      assert Intercepted(front, i);
      assert j < n ==> front[j] == hs[j];
    }
    if ComesBack(front) {
      var i: nat, j: nat :| Intercepted(front, i) && i < j < n && !front[j].isExport;
      assert Intercepted(hs, i) && hs[j] == front[j];
    }
    if !last.isExport && exists i: nat :: Intercepted(front, i) {
      var i: nat :| Intercepted(front, i);
      assert Intercepted(hs, i) && !hs[n].isExport;
    }
    WaitingLast(hs);
  }

  lemma WaitingLast(hs: seq<BlockHook>)
    requires hs != []
    ensures var front, last := hs[..|hs| - 1], hs[|hs| - 1];
            Waiting(hs) <==> last.isExport && (Waiting(front) || LastTerm(front) == Some(EndsInCall))
  {
    hide LastTerm;
    var n := |hs| - 1;
    var front, last := hs[..n], hs[n];
    forall i: nat | i < n ensures Intercepted(front, i) <==> Intercepted(hs, i) {
      InterceptedPrefix(hs, n, i);
    }
    if Waiting(hs) {
      var i: nat :| Intercepted(hs, i) && forall j :: i < j < |hs| ==> hs[j].isExport;
      if i < n {
        assert hs[n].isExport;
        assert forall j :: i < j < n ==> front[j] == hs[j];
        assert Intercepted(front, i);
      }
    }
    if last.isExport && Waiting(front) {
      var i: nat :| Intercepted(front, i) && forall j :: i < j < n ==> front[j].isExport;
      assert Intercepted(hs, i);
      assert forall j :: i < j < n ==> hs[j] == front[j];
    }
    if last.isExport && LastTerm(front) == Some(EndsInCall) {
      assert Intercepted(hs, n);
    }
  }

  /** While no intercepted call has come back, the two runs agree but for a call the export has ended. */
  lemma {:induction false} AgreeSoFar(hs: seq<BlockHook>)
    requires !ComesBack(hs)
    ensures ReferenceRun(hs).frames == ProbeRun(hs).frames
    ensures ReferenceRun(hs).pending == if Waiting(hs) then None else ProbeRun(hs).pending
    ensures Waiting(hs) <==> exists i: nat :: Intercepted(hs, i)
    decreases |hs|
  {
    hide FuncId, Intercepted, LastTerm;
    if hs == [] {
      assert forall i: nat :: !Intercepted(hs, i) by { NothingIntercepted(); }
    } else {
      var front := hs[..|hs| - 1];
      LastBlock(hs);
      AgreeSoFar(front);
      PendingIsLastTerm(front);
      SomeIntercepted(hs);
    }
  }

  lemma NothingIntercepted()
    ensures forall i: nat :: !Intercepted([], i)
  {
  }

  lemma SomeIntercepted(hs: seq<BlockHook>)
    requires hs != []
    ensures var front, last := hs[..|hs| - 1], hs[|hs| - 1];
            (exists i: nat :: Intercepted(hs, i)) <==>
            (exists i: nat :: Intercepted(front, i)) || (last.isExport && LastTerm(front) == Some(EndsInCall))
  {
    hide LastTerm;
    var n := |hs| - 1;
    forall i: nat | i < n ensures Intercepted(hs[..n], i) <==> Intercepted(hs, i) {
      InterceptedPrefix(hs, n, i);
    }
    if hs[n].isExport && LastTerm(hs[..n]) == Some(EndsInCall) {
      assert Intercepted(hs, n);
    }
    if exists i: nat :: Intercepted(hs[..n], i) {
      var i: nat :| Intercepted(hs[..n], i);
      assert Intercepted(hs, i);
    }
  }

  /** The first block an intercepted call comes back to is pushed as a callee. */
  lemma ReturnSitePushed(hs: seq<BlockHook>)
    requires hs != [] && ComesBack(hs) && !ComesBack(hs[..|hs| - 1])
    ensures ProbeRun(hs).frames == ReferenceRun(hs).frames + [FuncId(hs[|hs| - 1].address)]
  {
    hide FuncId, Intercepted, LastTerm;
    var front := hs[..|hs| - 1];
    LastBlock(hs);
    AgreeSoFar(front);
    PendingIsLastTerm(front);
    WaitingCalls(front);
  }

  lemma {:induction false} WaitingCalls(hs: seq<BlockHook>)
    requires Waiting(hs)
    ensures LastTerm(hs) == Some(EndsInCall) && exists i :: 0 <= i < |hs| && !hs[i].isExport
    decreases |hs|
  {
    WaitingLast(hs);
    var front := hs[..|hs| - 1];
    if Waiting(front) {
      WaitingCalls(front);
      var i :| 0 <= i < |front| && !front[i].isExport;
      assert !hs[i].isExport;
    } else {
      CalledFrom(front);
      var i :| 0 <= i < |front| && !front[i].isExport;
      assert !hs[i].isExport;
    }
  }

  lemma {:induction false} CalledFrom(hs: seq<BlockHook>)
    requires LastTerm(hs).Some?
    ensures exists i :: 0 <= i < |hs| && !hs[i].isExport
    decreases |hs|
  {
    if hs[|hs| - 1].isExport {
      CalledFrom(hs[..|hs| - 1]);
      var i :| 0 <= i < |hs| - 1 && !hs[..|hs| - 1][i].isExport;
      assert !hs[i].isExport;
    } else {
      assert !hs[|hs| - 1].isExport;
    }
  }

  lemma {:induction false} ComesBackLater(hs: seq<BlockHook>, n: nat)
    requires n <= |hs| && ComesBack(hs[..n])
    ensures ComesBack(hs)
  {
    var i: nat, j: nat :| Intercepted(hs[..n], i) && i < j < n && !hs[..n][j].isExport;
    InterceptedPrefix(hs, n, i);
    assert !hs[j].isExport;
  }

  lemma {:induction false} FirstComeBack(hs: seq<BlockHook>) returns (n: nat)
    requires ComesBack(hs)
    ensures 0 < n <= |hs| && ComesBack(hs[..n]) && !ComesBack(hs[..n - 1])
    decreases |hs|
  {
    assert hs[..|hs|] == hs;
    if ComesBack(hs[..|hs| - 1]) {
      n := FirstComeBack(hs[..|hs| - 1]);
      assert hs[..|hs| - 1][..n] == hs[..n] && hs[..|hs| - 1][..n - 1] == hs[..n - 1];
    } else {
      n := |hs|;
    }
  }

  /** The shadow stack is the reference stack at every moment exactly when no intercepted call comes back. */
  lemma FollowsIff(hs: seq<BlockHook>)
    ensures (forall n: nat :: n <= |hs| ==> ProbeRun(hs[..n]).frames == ReferenceRun(hs[..n]).frames)
            <==> !ComesBack(hs)
  {
    hide ProbeRun, ReferenceRun, ComesBack;
    if ComesBack(hs) {
      var n := FirstComeBack(hs);
      assert hs[..n][..n - 1] == hs[..n - 1];
      ReturnSitePushed(hs[..n]);
      assert |ProbeRun(hs[..n]).frames| != |ReferenceRun(hs[..n]).frames|;
    } else {
      forall n: nat | n <= |hs| ensures ProbeRun(hs[..n]).frames == ReferenceRun(hs[..n]).frames {
        if ComesBack(hs[..n]) {
          ComesBackLater(hs, n);
        } else {
          AgreeSoFar(hs[..n]);
        }
      }
    }
  }

  /** A function that calls an intercepted API is left below its own return site. */
  lemma ReturnSiteEntered(main: nat, api: nat, back: nat, t: Option<Term>)
    ensures var hs := [BlockHook(main, false, "", Some(EndsInCall)), BlockHook(api, true, "", None),
                       BlockHook(back, false, "", t)];
            && ProbeRun(hs).frames == [FuncId(main), FuncId(back)]
            && ReferenceRun(hs).frames == [FuncId(main)]
  {
    hide FuncId;
    var a, b, c := BlockHook(main, false, "", Some(EndsInCall)), BlockHook(api, true, "", None), BlockHook(back, false,
                                                                                                           "", t);
    assert [a, b, c][..2] == [a, b] && [a, b][..1] == [a] && [a][..0] == [];
    assert ProbeRun([a]) == Shadow([FuncId(main)], Some(EndsInCall)) == ReferenceRun([a]);
    assert ProbeRun([a, b]) == Shadow([FuncId(main)], Some(EndsInCall));
    assert ReferenceRun([a, b]) == Shadow([FuncId(main)], None);
  }

  // ------------------------------------------------------------ well-nested code

  /**
   * The run of one function: a last block that returns, a block that goes on within the function, or a block that
   * calls, the run of the callee, and what follows in the caller.
   */
  datatype Activation =
    | Returns(last: nat)
    | GoesOn(block: nat, rest: Activation)
    | Calls(site: nat, callee: Activation, back: Activation)

  /** The address of its first block: the function's entry. */
  function Entry(f: Activation): (a: nat) {
    match f
    case Returns(last) => last
    case GoesOn(block, _) => block
    case Calls(site, _, _) => site
  }

  function Shown(address: nat, term: Option<Term>): (h: BlockHook) {
    BlockHook(address, false, "", term)
  }

  /** Its blocks in the order of execution, the callees' among them. */
  function Executed(f: Activation): (hs: seq<BlockHook>)
    ensures |hs| > 0
  {
    match f
    case Returns(last) => [Shown(last, Some(EndsInRet))]
    case GoesOn(block, rest) => [Shown(block, None)] + Executed(rest)
    case Calls(site, callee, back) => [Shown(site, Some(EndsInCall))] + Executed(callee) + Executed(back)
  }

  /** The entries of the functions being run, outermost first, after block `n`; `frames` those up to this function. */
  function Running(f: Activation, frames: seq<string>, n: nat): (fs: seq<string>)
    requires n < |Executed(f)|
    decreases f
  {
    match f
    case Returns(_) => frames
    case GoesOn(_, rest) => if n == 0 then frames else Running(rest, frames, n - 1)
    case Calls(_, callee, back) =>
      var k := |Executed(callee)|;
      if n == 0 then frames
      else if n <= k then Running(callee, frames + [FuncId(Entry(callee))], n - 1)
      else Running(back, frames, n - 1 - k)
  }

  /** The probe's run from a given state. */
  function RunOn(s: Shadow, hs: seq<BlockHook>): (r: Shadow)
    decreases |hs|
  {
    if hs == [] then s else ProbeStep(RunOn(s, hs[..|hs| - 1]), hs[|hs| - 1])
  }

  lemma {:induction false} RunOnAppend(s: Shadow, a: seq<BlockHook>, b: seq<BlockHook>)
    ensures RunOn(s, a + b) == RunOn(RunOn(s, a), b)
    decreases |b|
  {
    hide ProbeStep;
    if b == [] {
      assert a + b == a;
    } else {
      assert (a + b)[..|a + b| - 1] == a + b[..|b| - 1];
      RunOnAppend(s, a, b[..|b| - 1]);
    }
  }

  lemma {:induction false} RunOnIsRun(hs: seq<BlockHook>)
    ensures RunOn(Shadow([], None), hs) == ProbeRun(hs)
    decreases |hs|
  {
    hide ProbeStep;
    if hs != [] {
      RunOnIsRun(hs[..|hs| - 1]);
    }
  }

  lemma FirstStep(s: Shadow, h: BlockHook, rest: seq<BlockHook>, n: nat)
    requires n <= |rest|
    ensures RunOn(s, ([h] + rest)[..n + 1]) == RunOn(ProbeStep(s, h), rest[..n])
  {
    hide ProbeStep;
    assert ([h] + rest)[..n + 1] == [h] + rest[..n];
    RunOnAppend(s, [h], rest[..n]);
    assert [h][..0] == [] && RunOn(s, [h]) == ProbeStep(RunOn(s, []), h);
  }

  /** The frames after the first block of an activation, if its function is `frames`' last. */
  predicate Begins(s: Shadow, f: Activation, frames: seq<string>) {
    frames != [] && FramesAfter(s.frames, s.pending, false, FuncId(Entry(f))) == frames
  }

  /**
   * Over the run of a function, begun in any state in which its first block leaves `frames`, the shadow stack holds
   * after every block exactly the entries of the functions being run; at the end a return is pending.
   */
  lemma {:induction false} NestedRun(s: Shadow, f: Activation, frames: seq<string>, n: nat)
    requires Begins(s, f, frames) && n < |Executed(f)|
    ensures RunOn(s, Executed(f)[..n + 1]).frames == Running(f, frames, n)
    ensures n == |Executed(f)| - 1 ==> RunOn(s, Executed(f)[..n + 1]) == Shadow(frames, Some(EndsInRet))
    decreases f, n
  {
    hide FuncId;
    match f
    case Returns(last) =>
      FirstStep(s, Shown(last, Some(EndsInRet)), [], 0);
      assert [Shown(last, Some(EndsInRet))] + [] == Executed(f);
    case GoesOn(block, rest) =>
      var h := Shown(block, None);
      FirstStep(s, h, Executed(rest), n);
      if n > 0 {
        NestedRun(ProbeStep(s, h), rest, frames, n - 1);
      }
    case Calls(site, callee, back) =>
      NestedCall(s, f, frames, n);
  }

  /** The states in which callee and rest of a calling function begin. */
  lemma CallBegins(s: Shadow, f: Activation, frames: seq<string>)
    requires f.Calls? && Begins(s, f, frames)
    ensures var s1, called := ProbeStep(s, Shown(f.site, Some(EndsInCall))), frames + [FuncId(Entry(f.callee))];
            && s1.frames == frames && RunOn(s1, []) == s1
            && Begins(s1, f.callee, called) && Begins(Shadow(called, Some(EndsInRet)), f.back, frames)
  {
    hide FuncId;
  }

  lemma CallUnfolds(f: Activation, frames: seq<string>, n: nat)
    requires f.Calls? && n < |Executed(f)|
    ensures var k, called := |Executed(f.callee)|, frames + [FuncId(Entry(f.callee))];
            && Executed(f) == [Shown(f.site, Some(EndsInCall))] + (Executed(f.callee) + Executed(f.back))
            && (n == 0 ==> Running(f, frames, n) == frames)
            && (0 < n <= k ==> Running(f, frames, n) == Running(f.callee, called, n - 1))
            && (n > k ==> Running(f, frames, n) == Running(f.back, frames, n - 1 - k))
  {
    hide FuncId;
  }

  lemma {:induction false} NestedCall(s: Shadow, f: Activation, frames: seq<string>, n: nat)
    requires Begins(s, f, frames) && n < |Executed(f)| && f.Calls?
    ensures RunOn(s, Executed(f)[..n + 1]).frames == Running(f, frames, n)
    ensures n == |Executed(f)| - 1 ==> RunOn(s, Executed(f)[..n + 1]) == Shadow(frames, Some(EndsInRet))
    decreases f, n, 0
  {
    hide FuncId, Running, Executed, RunOn, ProbeStep, FramesAfter, Begins;
    var h, inner, outer := Shown(f.site, Some(EndsInCall)), Executed(f.callee), Executed(f.back);
    var k, called := |inner|, frames + [FuncId(Entry(f.callee))];
    var s1 := ProbeStep(s, h);
    CallBegins(s, f, frames);
    CallUnfolds(f, frames, n);
    FirstStep(s, h, inner + outer, n);
    if 0 < n <= k {
      NestedRun(s1, f.callee, called, n - 1);
      assert (inner + outer)[..n] == inner[..n];
    } else if n > k {
      NestedRun(s1, f.callee, called, k - 1);
      assert inner[..k] == inner;
      NestedRun(Shadow(called, Some(EndsInRet)), f.back, frames, n - 1 - k);
      assert (inner + outer)[..n] == inner + outer[..n - k];
      RunOnAppend(s1, inner, outer[..n - k]);
    }
  }

  /** On every well-nested execution the shadow stack is, after every block, exactly the functions being run. */
  lemma NestingFollowed(f: Activation, n: nat)
    requires n < |Executed(f)|
    ensures ProbeRun(Executed(f)[..n + 1]).frames == Running(f, [FuncId(Entry(f))], n)
  {
    hide FuncId, RunOn, ProbeRun;
    NestedRun(Shadow([], None), f, [FuncId(Entry(f))], n);
    RunOnIsRun(Executed(f)[..n + 1]);
  }
}

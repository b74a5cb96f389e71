/** Reverse execution on values: an undo log per step, and the full-snapshot machine it refines. */
module Journal {
  import opened ByteStrings
  import opened Spans
  import opened Memory

  type Regs = map<string, int>

  const MAX_BACK := 4096

  datatype Write = Write(addr: int, data: Bytes)

  /** A hook's record: the bytes a write is about to replace. */
  datatype Undo = Undo(addr: int, replaced: Bytes)

  datatype Entry = Entry(ctx: Regs, undo: seq<Undo>)

  /**
   * What one emulated instruction does: it attempts `writes` in order, each announced to the hook
   * first, and leaves the registers `regs`. It stops at the first write to unmapped memory, and may
   * fault on its own after its writes.
   */
  datatype Action = Action(writes: seq<Write>, regs: Regs, faults: bool)

  predicate Lands(mem: Mem, w: Write) {
    Mapped(mem, w.addr, |w.data|)
  }

  function Apply(mem: Mem, writes: seq<Write>): (r: Mem)
    ensures r.Keys == mem.Keys
    decreases |writes|
  {
    if writes == [] || !Lands(mem, writes[0]) then mem
    else Apply(Store(mem, writes[0].addr, writes[0].data), writes[1..])
  }

  /** The undo records of the writes that land. */
  function UndoOf(mem: Mem, writes: seq<Write>): (log: seq<Undo>)
    decreases |writes|
  {
    if writes == [] || !Lands(mem, writes[0]) then []
    else
      [Undo(writes[0].addr, Load(mem, writes[0].addr, |writes[0].data|))]
      + UndoOf(Store(mem, writes[0].addr, writes[0].data), writes[1..])
  }

  /** The ranges announced to the hook: those that land and the one that faults. */
  function Announced(mem: Mem, writes: seq<Write>): (s: seq<Span>)
    decreases |writes|
  {
    if writes == [] then []
    else
      [Span(writes[0].addr, writes[0].addr + |writes[0].data|)]
      + if Lands(mem, writes[0]) then Announced(Store(mem, writes[0].addr, writes[0].data), writes[1..]) else []
  }

  predicate AllLand(mem: Mem, writes: seq<Write>)
    decreases |writes|
  {
    writes == [] || (Lands(mem, writes[0]) && AllLand(Store(mem, writes[0].addr, writes[0].data), writes[1..]))
  }

  // --------------------------------------------- what an instruction's writes do

  predicate Over(w: Write, a: int) {
    w.addr <= a < w.addr + |w.data|
  }

  /** Write `i` is attempted: every write before it is to mapped memory. */
  predicate Tried(mem: Mem, writes: seq<Write>, i: nat) {
    i < |writes| && forall j :: 0 <= j < i ==> Mapped(mem, writes[j].addr, |writes[j].data|)
  }

  predicate Landed(mem: Mem, writes: seq<Write>, i: nat) {
    Tried(mem, writes, i) && Mapped(mem, writes[i].addr, |writes[i].data|)
  }

  ghost predicate TriedAt(mem: Mem, writes: seq<Write>, a: int) {
    exists i: nat :: Tried(mem, writes, i) && Over(writes[i], a)
  }

  /** Write `i` is the last to land on `a`. */
  ghost predicate LastOn(mem: Mem, writes: seq<Write>, a: int, i: nat) {
    && Landed(mem, writes, i) && Over(writes[i], a)
    && forall j :: i < j < |writes| && Landed(mem, writes, j) ==> !Over(writes[j], a)
  }

  /** Writes to the same mapping land alike. */
  lemma TailTried(mem: Mem, writes: seq<Write>, i: nat)
    requires writes != [] && Lands(mem, writes[0]) && i > 0
    ensures var next := Store(mem, writes[0].addr, writes[0].data);
            && (Tried(mem, writes, i) <==> Tried(next, writes[1..], i - 1))
            && (Landed(mem, writes, i) <==> Landed(next, writes[1..], i - 1))
  {
    var next, rest := Store(mem, writes[0].addr, writes[0].data), writes[1..];
    forall w: Write ensures Mapped(next, w.addr, |w.data|) <==> Mapped(mem, w.addr, |w.data|) {
      SameMapping(mem, next, w.addr, |w.data|);
    }
    hide Mapped, Store;
    assert forall j :: 0 < j < |writes| ==> writes[j] == rest[j - 1];
    if Tried(next, rest, i - 1) {
      forall j | 0 <= j < i ensures Mapped(mem, writes[j].addr, |writes[j].data|) {
        assert j > 0 ==> Mapped(next, rest[j - 1].addr, |rest[j - 1].data|);
      }
    }
  }

  lemma SameMapping(m: Mem, n: Mem, addr: int, k: nat)
    requires m.Keys == n.Keys
    ensures Mapped(m, addr, k) <==> Mapped(n, addr, k)
  {
    assert forall a :: a in m <==> a in n;
  }

  /** The announced ranges are those of the writes attempted: up to and with the first that faults. */
  lemma {:induction false} AnnouncedMeans(mem: Mem, writes: seq<Write>, a: int)
    ensures Covers(Announced(mem, writes), a) <==> TriedAt(mem, writes, a)
    decreases |writes|
  {
    hide Mapped, Store;
    if writes != [] {
      var w, rest := writes[0], writes[1..];
      var s, out := Span(w.addr, w.addr + |w.data|), Announced(mem, writes);
      assert Tried(mem, writes, 0);
      if Lands(mem, w) {
        var next := Store(mem, w.addr, w.data);
        AnnouncedMeans(next, rest, a);
        assert out[1..] == Announced(next, rest);
        forall i: nat | i > 0 ensures Tried(mem, writes, i) <==> Tried(next, rest, i - 1) {
          TailTried(mem, writes, i);
        }
        if TriedAt(next, rest, a) {
          var i: nat :| Tried(next, rest, i) && Over(rest[i], a);
          assert Tried(mem, writes, i + 1) && writes[i + 1] == rest[i];
        }
        if TriedAt(mem, writes, a) && !Over(w, a) {
          var i: nat :| Tried(mem, writes, i) && Over(writes[i], a);
          assert Tried(next, rest, i - 1) && rest[i - 1] == writes[i];
        }
      } else {
        assert out[1..] == [];
      }
      CoversCons(out, a);
    }
  }

  /** The instruction's writes all land exactly when each one is to mapped memory. */
  lemma {:induction false} AllLandMeans(mem: Mem, writes: seq<Write>)
    ensures AllLand(mem, writes) <==> forall i: nat :: i < |writes| ==> Mapped(mem, writes[i].addr, |writes[i].data|)
    decreases |writes|
  {
    hide Mapped, Store;
    if writes != [] && Lands(mem, writes[0]) {
      var next, rest := Store(mem, writes[0].addr, writes[0].data), writes[1..];
      AllLandMeans(next, rest);
      forall w: Write ensures Mapped(next, w.addr, |w.data|) <==> Mapped(mem, w.addr, |w.data|) {
        SameMapping(mem, next, w.addr, |w.data|);
      }
      assert forall i: nat :: i < |rest| ==> rest[i] == writes[i + 1];
      assert forall i: nat :: 0 < i < |writes| ==> writes[i] == rest[i - 1];
    }
  }

  /** After the instruction a mapped address holds the byte of the last write that landed on it, else what it held. */
  lemma {:induction false} ApplyMeans(mem: Mem, writes: seq<Write>, a: int)
    requires a in mem
    ensures forall i: nat :: LastOn(mem, writes, a, i) ==>
              Apply(mem, writes)[a] == writes[i].data[a - writes[i].addr]
    ensures (forall i: nat :: !LastOn(mem, writes, a, i)) ==> Apply(mem, writes)[a] == mem[a]
    decreases |writes|
  {
    hide Mapped;
    if writes != [] && Lands(mem, writes[0]) {
      var w, rest := writes[0], writes[1..];
      var next := Store(mem, w.addr, w.data);
      ApplyMeans(next, rest, a);
      LastOnTail(mem, writes, a);
    }
  }

  /** The last write on `a` of a list whose first write lands. */
  lemma LastOnTail(mem: Mem, writes: seq<Write>, a: int)
    requires writes != [] && Lands(mem, writes[0])
    ensures var next, rest := Store(mem, writes[0].addr, writes[0].data), writes[1..];
            && (forall i: nat :: i > 0 ==> (LastOn(mem, writes, a, i) <==> LastOn(next, rest, a, i - 1)))
            && (forall i: nat :: LastOn(next, rest, a, i) ==> LastOn(mem, writes, a, i + 1))
            && (LastOn(mem, writes, a, 0) <==> Over(writes[0], a) && forall i: nat :: !LastOn(next, rest, a, i))
  {
    hide Mapped, Store, Over, Landed;
    var next, rest := Store(mem, writes[0].addr, writes[0].data), writes[1..];
    forall i: nat | i > 0 ensures Landed(mem, writes, i) <==> Landed(next, rest, i - 1) {
      TailTried(mem, writes, i);
    }
    assert forall j :: 0 < j < |writes| ==> writes[j] == rest[j - 1];
    forall i: nat | i > 0 ensures LastOn(mem, writes, a, i) <==> LastOn(next, rest, a, i - 1) {
      LastOnShift(mem, next, writes, rest, a, i);
    }
    FewLanded(next, rest);
    if exists i :: 0 <= i < |rest| && Landed(next, rest, i) && Over(rest[i], a) {
      var i :| 0 <= i < |rest| && Landed(next, rest, i) && Over(rest[i], a);
      SomeLast(next, rest, a, i);
      assert Landed(mem, writes, i + 1) <==> Landed(next, rest, i);
      assert Over(writes[i + 1], a);
    }
    FirstLands(mem, writes);
  }

  lemma FirstLands(mem: Mem, writes: seq<Write>)
    requires writes != [] && Lands(mem, writes[0])
    ensures Landed(mem, writes, 0)
    ensures forall i: nat :: Landed(mem, writes, i) ==> i < |writes|
  {
  }

  lemma LastOnShift(mem: Mem, next: Mem, writes: seq<Write>, rest: seq<Write>, a: int, i: nat)
    requires writes != [] && rest == writes[1..] && i > 0
    requires forall j: nat :: j > 0 ==> (Landed(mem, writes, j) <==> Landed(next, rest, j - 1))
    ensures LastOn(mem, writes, a, i) <==> LastOn(next, rest, a, i - 1)
  {
    hide Landed, Over;
    FewLanded(mem, writes);
    FewLanded(next, rest);
    if LastOn(mem, writes, a, i) {
      forall j | i - 1 < j < |rest| && Landed(next, rest, j) ensures !Over(rest[j], a) {
        assert Landed(mem, writes, j + 1) && writes[j + 1] == rest[j];
      }
    }
    if LastOn(next, rest, a, i - 1) {
      forall j | i < j < |writes| && Landed(mem, writes, j) ensures !Over(writes[j], a) {
        assert Landed(next, rest, j - 1) && writes[j] == rest[j - 1];
      }
    }
  }

  lemma FewLanded(mem: Mem, writes: seq<Write>)
    ensures forall i: nat :: Landed(mem, writes, i) ==> i < |writes|
  {
  }

  /** Where some write lands there is a last one. */
  lemma {:induction false} SomeLast(mem: Mem, writes: seq<Write>, a: int, i: nat)
    requires Landed(mem, writes, i) && Over(writes[i], a)
    ensures exists k: nat :: LastOn(mem, writes, a, k)
    decreases |writes| - i
  {
    hide Landed, Over;
    FewLanded(mem, writes);
    if !LastOn(mem, writes, a, i) {
      var j: nat :| i < j < |writes| && Landed(mem, writes, j) && Over(writes[j], a);
      SomeLast(mem, writes, a, j);
    }
  }

  /** Replaying a log backwards: the last record first. */
  function Rollback(mem: Mem, log: seq<Undo>): (r: Mem)
    ensures r.Keys == mem.Keys
    decreases |log|
  {
    if log == [] then mem else Store(Rollback(mem, log[1..]), log[0].addr, log[0].replaced)
  }

  /** The emulator's state as far as reverse execution and write tracking go. */
  datatype Machine = Machine(regs: Regs, mem: Mem, history: seq<Entry>, written: seq<Span>, wx: seq<int>)

  function Keep<T>(s: seq<T>): (r: seq<T>) {
    if |s| > MAX_BACK then s[1..] else s
  }

  function PcOf(regs: Regs, pcName: string): (pc: int) {
    if pcName in regs then regs[pcName] else 0
  }

  function Stepped(m: Machine, pcName: string, act: Action): (r: Machine) {
    var pc := PcOf(m.regs, pcName);
    Machine(act.regs, Apply(m.mem, act.writes), Keep(m.history + [Entry(m.regs, UndoOf(m.mem, act.writes))]),
            m.written + Announced(m.mem, act.writes),
            if pc !in m.wx && Covers(m.written, pc) then m.wx + [pc] else m.wx)
  }

  function Backed(m: Machine): (r: Machine) {
    if m.history == [] then m
    else
      var n := |m.history| - 1;
      m.(regs := m.history[n].ctx, mem := Rollback(m.mem, m.history[n].undo), history := m.history[..n])
  }

  datatype Op = Step(act: Action) | StepBack | WriteReg(name: string, value: int)

  function Do(m: Machine, pcName: string, op: Op): (r: Machine) {
    match op
    case Step(act) => Stepped(m, pcName, act)
    case StepBack => Backed(m)
    case WriteReg(name, value) => m.(regs := m.regs[name := value])
  }

  function Run(m: Machine, pcName: string, ops: seq<Op>): (r: Machine)
    decreases |ops|
  {
    if ops == [] then m else Run(Do(m, pcName, ops[0]), pcName, ops[1..])
  }

  // --------------------------------------------------- the reference machine

  datatype Snapshot = Snapshot(regs: Regs, mem: Mem)

  /** A machine that keeps whole snapshots: stepping back pops one. */
  datatype Reference = Reference(regs: Regs, mem: Mem, past: seq<Snapshot>)

  function RefDo(r: Reference, op: Op): (s: Reference) {
    match op
    case Step(act) => Reference(act.regs, Apply(r.mem, act.writes), Keep(r.past + [Snapshot(r.regs, r.mem)]))
    case StepBack =>
      if r.past == [] then r
      else var last := r.past[|r.past| - 1]; Reference(last.regs, last.mem, r.past[..|r.past| - 1])
    case WriteReg(name, value) => r.(regs := r.regs[name := value])
  }

  function RefRun(r: Reference, ops: seq<Op>): (s: Reference)
    decreases |ops|
  {
    if ops == [] then r else RefRun(RefDo(r, ops[0]), ops[1..])
  }

  /** Memory right after the step that pushed snapshot `k`. */
  function MemAfter(mem: Mem, past: seq<Snapshot>, k: nat): (m: Mem)
    requires k < |past|
  {
    if k + 1 < |past| then past[k + 1].mem else mem
  }

  /** The undo log stands for the snapshots. */
  ghost predicate Simulates(m: Machine, r: Reference) {
    && m.regs == r.regs && m.mem == r.mem && |m.history| == |r.past| <= MAX_BACK
    && forall k :: 0 <= k < |r.past| ==>
         m.history[k].ctx == r.past[k].regs && Rollback(MemAfter(r.mem, r.past, k), m.history[k].undo) == r.past[k].mem
  }

  /** Rolling back a step's log undoes its writes, overlapping or cut short by a fault. */
  lemma {:induction false} RollbackUndoes(mem: Mem, writes: seq<Write>)
    ensures Rollback(Apply(mem, writes), UndoOf(mem, writes)) == mem
    decreases |writes|
  {
    if writes != [] && Lands(mem, writes[0]) {
      var w := writes[0];
      RollbackUndoes(Store(mem, w.addr, w.data), writes[1..]);
      assert UndoOf(mem, writes)[1..] == UndoOf(Store(mem, w.addr, w.data), writes[1..]);
      StoreUndo(mem, w.addr, w.data);
    }
  }

  lemma StepSimulates(m: Machine, r: Reference, pcName: string, act: Action)
    requires Simulates(m, r)
    ensures Simulates(Stepped(m, pcName, act), RefDo(r, Step(act)))
  {
    RollbackUndoes(m.mem, act.writes);
    hide Rollback, Apply, UndoOf, Announced, Covers;
    var h := m.history + [Entry(m.regs, UndoOf(m.mem, act.writes))];
    var p := r.past + [Snapshot(r.regs, r.mem)];
    var mem' := Apply(r.mem, act.writes);
    var d := if |h| > MAX_BACK then 1 else 0;
    forall k | 0 <= k < |Keep(p)|
      ensures Keep(h)[k].ctx == Keep(p)[k].regs
              && Rollback(MemAfter(mem', Keep(p), k), Keep(h)[k].undo) == Keep(p)[k].mem
    {
      assert Keep(h)[k] == h[k + d] && Keep(p)[k] == p[k + d];
      assert k + d + 1 < |p| ==> Keep(p)[k + 1] == p[k + d + 1];
    }
  }

  lemma BackSimulates(m: Machine, r: Reference)
    requires Simulates(m, r)
    ensures Simulates(Backed(m), RefDo(r, StepBack))
  {
    hide Rollback;
    if r.past != [] {
      var n := |r.past| - 1;
      assert MemAfter(r.mem, r.past, n) == r.mem;
      forall k | 0 <= k < n
        ensures MemAfter(r.past[n].mem, r.past[..n], k) == MemAfter(r.mem, r.past, k)
      {
      }
    }
  }

  /** Reverse execution is exact over every run: the undo logs behave as whole snapshots would. */
  lemma {:induction false} JournalRefines(m: Machine, r: Reference, pcName: string, ops: seq<Op>)
    requires Simulates(m, r)
    ensures Simulates(Run(m, pcName, ops), RefRun(r, ops))
    decreases |ops|
  {
    hide Simulates, Stepped, Backed;
    if ops != [] {
      match ops[0] {
        case Step(act) => StepSimulates(m, r, pcName, act);
        case StepBack => BackSimulates(m, r);
        case WriteReg(name, value) => WriteRegSimulates(m, r, name, value);
      }
      JournalRefines(Do(m, pcName, ops[0]), RefDo(r, ops[0]), pcName, ops[1..]);
    }
  }

  lemma WriteRegSimulates(m: Machine, r: Reference, name: string, value: int)
    requires Simulates(m, r)
    ensures Simulates(m.(regs := m.regs[name := value]), r.(regs := r.regs[name := value]))
  {
  }

  lemma {:induction false} RunAppend(m: Machine, pcName: string, a: seq<Op>, b: seq<Op>)
    ensures Run(m, pcName, a + b) == Run(Run(m, pcName, a), pcName, b)
    decreases |a|
  {
    hide Do;
    if a == [] {
      assert a + b == b;
    } else {
      assert (a + b)[1..] == a[1..] + b;
      RunAppend(Do(m, pcName, a[0]), pcName, a[1..], b);
    }
  }

  predicate OnlySteps(ops: seq<Op>) {
    forall i :: 0 <= i < |ops| ==> !ops[i].StepBack?
  }

  function CountSteps(ops: seq<Op>): (n: nat) {
    if ops == [] then 0 else (if ops[0].Step? then 1 else 0) + CountSteps(ops[1..])
  }

  /** `n` times step_back. */
  function Backs(n: nat): (ops: seq<Op>) {
    Repeat(StepBack, n)
  }

  /** How many of the oldest snapshots `n` more steps push out of a history of this depth. */
  function Dropped(depth: nat, n: nat): (d: nat) {
    if depth + n <= MAX_BACK then 0 else depth + n - MAX_BACK
  }

  /**
   * After some steps the history is the old one, less what was pushed out, and behind it the state before the first.
   */
  lemma {:induction false} RefUnwinds(r: Reference, ops: seq<Op>)
    requires OnlySteps(ops) && |r.past| <= MAX_BACK && CountSteps(ops) <= MAX_BACK
    ensures var s, n := RefRun(r, ops), CountSteps(ops);
            var d := Dropped(|r.past|, n);
            && d <= |r.past| && |s.past| == |r.past| - d + n && s.past[..|r.past| - d] == r.past[d..]
            && (n > 0 ==> s.past[|r.past| - d].mem == r.mem)
            && (ops != [] && ops[0].Step? ==> s.past[|r.past| - d].regs == r.regs)
    decreases |ops|
  {
    hide Apply;
    if ops != [] {
      var r1 := RefDo(r, ops[0]);
      RefUnwinds(r1, ops[1..]);
      var s := RefRun(r1, ops[1..]);
      if ops[0].Step? {
        var d, d1 := Dropped(|r.past|, CountSteps(ops)), Dropped(|r1.past|, CountSteps(ops[1..]));
        var before := Snapshot(r.regs, r.mem);
        KeptTail(r.past, before, d, d1);
        PastBefore(s.past, r.past[d..], before);
      }
    }
  }

  lemma PastBefore<T>(s: seq<T>, prior: seq<T>, x: T)
    requires |s| > |prior| && s[..|prior| + 1] == prior + [x]
    ensures s[|prior|] == x && s[..|prior|] == prior
  {
    assert s[|prior|] == s[..|prior| + 1][|prior|];
    assert s[..|prior|] == s[..|prior| + 1][..|prior|];
  }

  lemma KeptTail<T>(past: seq<T>, x: T, d: nat, d1: nat)
    requires |past| <= MAX_BACK && d <= |past|
    requires d1 == if |past| == MAX_BACK then d - 1 else d
    ensures |Keep(past + [x])| - d1 == |past| - d + 1 && Keep(past + [x])[d1..] == past[d..] + [x]
  {
  }

  lemma {:induction false} RefBacks(r: Reference, n: nat)
    requires 0 < n <= |r.past|
    ensures RefRun(r, Backs(n))
            == Reference(r.past[|r.past| - n].regs, r.past[|r.past| - n].mem, r.past[..|r.past| - n])
    decreases n
  {
    var r1 := RefDo(r, StepBack);
    assert Backs(n)[1..] == Backs(n - 1);
    if n > 1 {
      RefBacks(r1, n - 1);
    } else {
      assert RefRun(r1, []) == r1;
    }
  }

  /**
   * Any run of up to 4096 steps, with register writes between them, is undone by as many steps back, however full
   * the history was: memory and registers are what they were before the first step. The history has its old length,
   * less the entries the steps pushed out of it.
   */
  lemma UnwindRestores(m: Machine, r: Reference, pcName: string, ops: seq<Op>)
    requires Simulates(m, r) && OnlySteps(ops) && 0 < CountSteps(ops) <= 4096
    ensures var s := Run(m, pcName, ops + Backs(CountSteps(ops)));
            && s.mem == m.mem && (ops[0].Step? ==> s.regs == m.regs)
            && |s.history| == Min(|m.history|, 4096 - CountSteps(ops))
  {
    hide Simulates, Run, RefRun, Backs, OnlySteps;
    var n := CountSteps(ops);
    SimulatesHistory(m, r);
    JournalRefines(m, r, pcName, ops + Backs(n));
    RefRunAppend(r, ops, Backs(n));
    RefUnwinds(r, ops);
    RefBacks(RefRun(r, ops), n);
    SimulatesHistory(Run(m, pcName, ops + Backs(n)), RefRun(r, ops + Backs(n)));
  }

  lemma SimulatesHistory(m: Machine, r: Reference)
    requires Simulates(m, r)
    ensures |m.history| == |r.past| <= MAX_BACK && m.mem == r.mem && m.regs == r.regs
  {
  }

  lemma {:induction false} RefRunAppend(r: Reference, a: seq<Op>, b: seq<Op>)
    ensures RefRun(r, a + b) == RefRun(RefRun(r, a), b)
    decreases |a|
  {
    hide RefDo;
    if a == [] {
      assert a + b == b;
    } else {
      assert (a + b)[1..] == a[1..] + b;
      RefRunAppend(RefDo(r, a[0]), a[1..], b);
    }
  }

  // ------------------------------------------------- write-then-execute trace

  /** Each step's PC, and whether it had been written by then. */
  function Trace(m: Machine, pcName: string, ops: seq<Op>): (t: seq<(int, bool)>)
    decreases |ops|
  {
    if ops == [] then []
    else
      var pc := if pcName in m.regs then m.regs[pcName] else 0;
      (if ops[0].Step? then [(pc, Covers(m.written, pc))] else []) + Trace(Do(m, pcName, ops[0]), pcName, ops[1..])
  }

  /** `wx` lists, without repetition and in order of first occurrence, the PCs stepped while written. */
  ghost predicate WxExact(wx: seq<int>, t: seq<(int, bool)>) {
    && (forall i, j :: 0 <= i < j < |wx| ==> wx[i] != wx[j])
    && (forall pc :: pc in wx <==> (pc, true) in t)
    && (forall i, j :: 0 <= i < j < |wx| ==> HitBefore(t, wx[i], wx[j]))
  }

  /** Some hit of `p` in the trace comes before every hit of `q`. */
  ghost predicate HitBefore(t: seq<(int, bool)>, p: int, q: int) {
    exists i :: 0 <= i < |t| && t[i] == (p, true) && forall j :: 0 <= j <= i ==> t[j] != (q, true)
  }

  lemma HitKept(t: seq<(int, bool)>, e: (int, bool), p: int, q: int)
    requires HitBefore(t, p, q)
    ensures HitBefore(t + [e], p, q)
  {
    var k :| 0 <= k < |t| && t[k] == (p, true) && forall j :: 0 <= j <= k ==> t[j] != (q, true);
    assert (t + [e])[k] == t[k];
  }

  lemma HitThenNew(t: seq<(int, bool)>, e: (int, bool), p: int, q: int)
    requires (p, true) in t && (q, true) !in t
    ensures HitBefore(t + [e], p, q)
  {
    var k :| 0 <= k < |t| && t[k] == (p, true);
    assert (t + [e])[k] == (p, true);
    assert forall j :: 0 <= j <= k ==> (t + [e])[j] == t[j];
  }

  lemma InAppend<T>(s: seq<T>, e: T)
    ensures forall x :: x in s + [e] <==> x in s || x == e
  {
    assert (s + [e])[|s|] == e;
  }

  lemma WxStep(wx: seq<int>, t: seq<(int, bool)>, pc: int, hit: bool)
    requires WxExact(wx, t)
    ensures WxExact(if pc !in wx && hit then wx + [pc] else wx, t + [(pc, hit)])
  {
    hide HitBefore;
    var e := (pc, hit);
    InAppend(t, e);
    if pc !in wx && hit {
      InAppend(wx, pc);
      forall i, j | 0 <= i < j < |wx + [pc]| ensures HitBefore(t + [e], (wx + [pc])[i], (wx + [pc])[j]) {
        if j < |wx| {
          HitKept(t, e, wx[i], wx[j]);
        } else {
          HitThenNew(t, e, wx[i], pc);
        }
      }
    } else {
      forall i, j | 0 <= i < j < |wx| ensures HitBefore(t + [e], wx[i], wx[j]) {
        HitKept(t, e, wx[i], wx[j]);
      }
    }
  }

  /** Over every run the events are exactly the write-then-execute steps. */
  lemma {:induction false} WxOverRun(m: Machine, pcName: string, ops: seq<Op>, t: seq<(int, bool)>)
    requires WxExact(m.wx, t)
    ensures WxExact(Run(m, pcName, ops).wx, t + Trace(m, pcName, ops))
    decreases |ops|
  {
    hide WxExact, Covers, Apply, UndoOf, Announced, Rollback;
    if ops == [] {
      assert t + [] == t;
    } else {
      var pc := PcOf(m.regs, pcName);
      var m1 := Do(m, pcName, ops[0]);
      var head := if ops[0].Step? then [(pc, Covers(m.written, pc))] else [];
      if ops[0].Step? {
        WxStep(m.wx, t, pc, Covers(m.written, pc));
      } else {
        assert t + [] == t;
      }
      WxOverRun(m1, pcName, ops[1..], t + head);
      assert t + head + Trace(m1, pcName, ops[1..]) == t + Trace(m, pcName, ops);
    }
  }

  /** Some step of the run attempted to write `a`. */
  ghost predicate TriedInRun(m: Machine, pcName: string, ops: seq<Op>, a: int) {
    exists k :: 0 <= k < |ops| && StepTries(m, pcName, ops, k, a)
  }

  ghost predicate StepTries(m: Machine, pcName: string, ops: seq<Op>, k: nat, a: int)
    requires k < |ops|
  {
    ops[k].Step? && TriedAt(Run(m, pcName, ops[..k]).mem, ops[k].act.writes, a)
  }

  /** Over every run, stepping back included: written is what was written before, or attempted by some step. */
  lemma {:induction false} WrittenOverRun(m: Machine, pcName: string, ops: seq<Op>, a: int)
    ensures Covers(Run(m, pcName, ops).written, a) <==> Covers(m.written, a) || TriedInRun(m, pcName, ops, a)
    decreases |ops|
  {
    hide Covers, Apply, UndoOf, Announced, Rollback, TriedAt, PcOf;
    if ops != [] {
      var m1, rest := Do(m, pcName, ops[0]), ops[1..];
      WrittenOverRun(m1, pcName, rest, a);
      StepWrites(m, pcName, ops[0], a);
      assert ops[..0] == [];
      forall k | 0 <= k < |rest| ensures StepTries(m1, pcName, rest, k, a) <==> StepTries(m, pcName, ops, k + 1, a) {
        assert ops[..k + 1][1..] == rest[..k] && ops[..k + 1][0] == ops[0];
      }
      hide StepTries, Run, Do;
      RunTries(m, m1, pcName, ops, rest, a);
    }
  }

  /** What one operation adds to the written addresses. */
  lemma StepWrites(m: Machine, pcName: string, op: Op, a: int)
    ensures Covers(Do(m, pcName, op).written, a)
            <==> Covers(m.written, a) || (op.Step? && TriedAt(m.mem, op.act.writes, a))
  {
    hide Covers, Apply, UndoOf, Announced, Rollback, TriedAt, PcOf;
    if op.Step? {
      AnnouncedMeans(m.mem, op.act.writes, a);
      CoversConcat(m.written, Announced(m.mem, op.act.writes), a);
    }
  }

  lemma CoversConcat(x: seq<Span>, y: seq<Span>, a: int)
    ensures Covers(x + y, a) <==> Covers(x, a) || Covers(y, a)
  {
    if Covers(x, a) {
      var i :| 0 <= i < |x| && In(x[i], a);
      assert In((x + y)[i], a);
    }
    if Covers(y, a) {
      var i :| 0 <= i < |y| && In(y[i], a);
      assert In((x + y)[|x| + i], a);
    }
  }

  lemma RunTries(m: Machine, m1: Machine, pcName: string, ops: seq<Op>, rest: seq<Op>, a: int)
    requires ops != [] && rest == ops[1..]
    requires forall k :: 0 <= k < |rest| ==>
               (StepTries(m1, pcName, rest, k, a) <==> StepTries(m, pcName, ops, k + 1, a))
    ensures TriedInRun(m, pcName, ops, a) <==> StepTries(m, pcName, ops, 0, a) || TriedInRun(m1, pcName, rest, a)
  {
    hide StepTries;
    if TriedInRun(m, pcName, ops, a) {
      var k :| 0 <= k < |ops| && StepTries(m, pcName, ops, k, a);
      assert k > 0 ==> StepTries(m1, pcName, rest, k - 1, a);
    }
  }

  /** An address counts as written exactly when it lies in the coalesced ranges. */
  lemma WrittenIffInRanges(m: Machine, a: int)
    ensures Covers(m.written, a) <==> Covers(Coalesced(m.written), a)
  {
    CoalescedFacts(m.written);
  }
}

/** The emulator: mapped memory, registers, the reverse-execution journal and the synthetic GDT. */
module Emulator {
  import Bits
  import opened ByteStrings
  import opened MemoryRegions
  import opened Spans
  import opened Memory
  import opened Journal
  import opened Segments
  import opened Materialise

  /** The synthetic table: a null descriptor, then one flat ring-3 data descriptor for each base. */
  function GdtBytes(bases: seq<nat>): (b: Bytes)
    ensures |b| == 8 * (|bases| + 1)
  {
    if bases == [] then Zeros(8)
    else GdtBytes(bases[..|bases| - 1]) + Descriptor(bases[|bases| - 1], 0xF_FFFF, 0xF2, 0xC)
  }

  /** The non-zero segment bases in the order fs, gs. */
  function SegmentBases(fsBase: nat, gsBase: nat): (b: seq<nat>)
    ensures |b| <= 2
  {
    (if fsBase != 0 then [fsBase] else []) + (if gsBase != 0 then [gsBase] else [])
  }

  /** Selector of GDT entry `i`, requested at privilege level 3. */
  function Selector(i: nat): (s: nat) {
    i * 8 + 3
  }

  class MSLEmulator {
    const bits: nat
    const pcName: string
    const gprNames: seq<string>
    const regions: seq<EmuRegion>
    var mem: Mem
    var regs: Regs
    var mapped: seq<Span>
    var history: seq<Entry>
    var pending: Option<seq<Undo>>
    var written: seq<Span>
    var wxEvents: seq<int>
    var wxSeen: set<int>
    /** The whole snapshots the journal stands for. */
    ghost var past: seq<Snapshot>

    function State(): (m: Machine)
      reads this
    {
      Machine(regs, mem, history, written, wxEvents)
    }

    ghost predicate Valid()
      reads this
    {
      && GoodSpans(mapped) && MapsExactly(mem, mapped)
      && pending.None? && SeenIs(wxSeen, wxEvents)
      && Simulates(State(), Reference(regs, mem, past))
    }

    constructor (bits: nat, pcName: string, gprNames: seq<string>, regions: seq<EmuRegion>)
      ensures this.bits == bits && this.pcName == pcName && this.gprNames == gprNames && this.regions == regions
      ensures Valid() && mem == map[] && mapped == [] && history == [] && written == [] && wxEvents == []
    {
      this.bits, this.pcName, this.gprNames, this.regions := bits, pcName, gprNames, regions;
      mem, regs, mapped, history, pending := map[], map[], [], [], None;
      written, wxEvents, wxSeen, past := [], [], {}, [];
    }

    // ------------------------------------------------------------- execution

    /** The write hook: called before the write, so memory still holds the old bytes. */
    method OnMemWrite(address: int, size: nat)
      modifies this`written, this`pending
      ensures written == old(written) + [Span(address, address + size)]
      ensures pending == if old(pending).None? || !Mapped(mem, address, size) then old(pending)
                         else Some(old(pending).value + [Undo(address, Load(mem, address, size))])
    {
      written := written + [Span(address, address + size)];
      if pending.None? {
        return;
      }
      if !IsMapped(address, size) {
        return;
      }
      pending := Some(pending.value + [Undo(address, Load(mem, address, size))]);
    }

    predicate IsMapped(address: int, size: nat)
      reads this`mem
      ensures IsMapped(address, size) == Mapped(mem, address, size)
    {
      forall a :: address <= a < address + size ==> a in mem
    }

    /** The engine running one instruction: every write is announced, then applied if mapped. */
    method Emulate(act: Action) returns (ok: bool)
      requires pending.Some?
      modifies this`mem, this`regs, this`written, this`pending
      ensures mem == Apply(old(mem), act.writes) && regs == act.regs
      ensures written == old(written) + Announced(old(mem), act.writes)
      ensures pending == Some(old(pending).value + UndoOf(old(mem), act.writes))
      ensures ok == (!act.faults && AllLand(old(mem), act.writes))
    {
      hide Mapped;
      ok := true;
      var i := 0;
      assert act.writes[0..] == act.writes;
      while i < |act.writes| && ok
        invariant i <= |act.writes| && pending.Some?
        invariant ok ==> Apply(mem, act.writes[i..]) == Apply(old(mem), act.writes)
        invariant ok ==> written + Announced(mem, act.writes[i..]) == old(written) + Announced(old(mem), act.writes)
        invariant ok ==>
                    pending.value + UndoOf(mem, act.writes[i..]) == old(pending).value + UndoOf(old(mem), act.writes)
        invariant ok ==> AllLand(mem, act.writes[i..]) == AllLand(old(mem), act.writes)
        invariant !ok ==>
                    && mem == Apply(old(mem), act.writes) && written == old(written) + Announced(old(mem), act.writes)
                    && pending.value == old(pending).value + UndoOf(old(mem), act.writes)
                       && !AllLand(old(mem), act.writes)
        decreases |act.writes| - i, ok
      {
        var w := act.writes[i];
        ghost var rest := act.writes[i + 1..];
        assert act.writes[i..][0] == w && act.writes[i..][1..] == rest;
        WriteUnfolds(mem, w, rest, written, pending.value);
        assert act.writes[i..] == [w] + rest;
        OnMemWrite(w.addr, |w.data|);
        if IsMapped(w.addr, |w.data|) {
          mem := Store(mem, w.addr, w.data);
          i := i + 1;
        } else {
          ok := false;
        }
      }
      if ok {
        assert act.writes[i..] == [];
        assert written + [] == written && pending.value + [] == pending.value;
      }
      regs := act.regs;
      ok := ok && !act.faults;
    }

    /** `step`: emulate one instruction, journalled. */
    method Step(act: Action) returns (ok: bool)
      requires Valid()
      modifies this`mem, this`regs, this`history, this`pending, this`written, this`wxEvents, this`wxSeen, this`past
      ensures Valid() && State() == Stepped(old(State()), pcName, act)
      ensures past == Keep(old(past) + [Snapshot(old(regs), old(mem))])
      ensures ok == (!act.faults && AllLand(old(mem), act.writes))
    {
      hide Simulates, Apply, UndoOf, Announced, AllLand, GoodSpans, MapsExactly, SeenIs, Covers, PcOf;
      StepSimulates(State(), Reference(regs, mem, past), pcName, act);
      var pc := PcOf(regs, pcName);
      NoteExecution(pc);
      var ctx := regs;
      ghost var before := mem;
      pending := Some([]);
      ok := Emulate(act);
      var writes := pending.value;
      pending := None;
      assert [] + UndoOf(before, act.writes) == UndoOf(before, act.writes);
      SameKeys(before, mem, mapped);
      history := history + [Entry(ctx, writes)];
      if |history| > MAX_BACK {
        history := history[1..];
      }
      past := Keep(past + [Snapshot(ctx, before)]);
    }

    /** Record, once, that execution entered written memory. */
    method NoteExecution(pc: int)
      requires SeenIs(wxSeen, wxEvents)
      modifies this`wxEvents, this`wxSeen
      ensures SeenIs(wxSeen, wxEvents)
      ensures wxEvents == if pc !in old(wxEvents) && Covers(written, pc) then old(wxEvents) + [pc] else old(wxEvents)
    {
      if pc !in wxSeen && IsWritten(pc) {
        InAppend(wxEvents, pc);
        wxSeen := wxSeen + {pc};
        wxEvents := wxEvents + [pc];
      }
    }

    predicate IsWritten(addr: int)
      reads this`written
      ensures IsWritten(addr) == Covers(written, addr)
    {
      exists i :: 0 <= i < |written| && In(written[i], addr)
    }

    /** `step_back`: false exactly when there is nothing to undo; otherwise the last snapshot is back. */
    method StepBack() returns (undone: bool)
      requires Valid()
      modifies this`mem, this`regs, this`history, this`past
      ensures Valid() && State() == Backed(old(State()))
      ensures undone == (old(history) != [])
      ensures undone ==>
                && |old(past)| > 0 && Snapshot(regs, mem) == old(past)[|old(past)| - 1]
                && past == old(past)[..|old(past)| - 1]
    {
      assert history == [] ==> Backed(State()) == State();
      hide Simulates, GoodSpans, MapsExactly, SeenIs, Rollback, Backed;
      if history == [] {
        return false;
      }
      ghost var m, r := State(), Reference(regs, mem, past);
      var n := |history| - 1;
      var entry := history[n];
      history := history[..n];
      regs := entry.ctx;
      RevertWrites(entry.undo);
      past := past[..n];
      undone := true;
      BackFacts(m, r);
      SameKeys(m.mem, mem, mapped);
    }

    /** The write-back loop of `step_back`: the last record first. */
    method RevertWrites(undo: seq<Undo>)
      modifies this`mem
      ensures mem == Rollback(old(mem), undo)
    {
      var k := |undo|;
      assert undo[..k] == undo;
      while k > 0
        invariant 0 <= k <= |undo|
        invariant Rollback(mem, undo[..k]) == Rollback(old(mem), undo)
      {
        k := k - 1;
        RollbackLast(mem, undo[..k], undo[k]);
        assert undo[..k + 1] == undo[..k] + [undo[k]];
        mem := Store(mem, undo[k].addr, undo[k].replaced);
      }
      assert undo[..0] == [];
    }

    /** A register write from outside. */
    method SetReg(name: string, value: int)
      requires Valid()
      modifies this`regs
      ensures Valid() && State() == old(State()).(regs := old(regs)[name := value])
    {
      WriteRegSimulates(State(), Reference(regs, mem, past), name, value);
      hide Simulates;
      regs := regs[name := value];
    }

    // --------------------------------------------------------- address space

    /** Map `[lo, lo + size)` with zeros; false where the engine refuses. */
    method MemMap(lo: int, size: int) returns (ok: bool)
      modifies this`mem
      ensures ok == (size > 0 && forall a :: lo <= a < lo + size ==> a !in old(mem))
      ensures mem == if ok then MapZero(old(mem), lo, lo + size) else old(mem)
    {
      ok := size > 0 && forall a :: lo <= a < lo + size ==> a !in mem;
      if ok {
        mem := MapZero(mem, lo, lo + size);
      }
    }

    /** Overwrite mapped memory, not announced to the hook; false where the engine refuses. */
    method MemWrite(addr: int, data: Bytes) returns (ok: bool)
      modifies this`mem
      ensures ok == Mapped(old(mem), addr, |data|)
      ensures mem == if ok then Store(old(mem), addr, data) else old(mem)
    {
      ok := IsMapped(addr, |data|);
      if ok {
        mem := Store(mem, addr, data);
      }
    }

    /** Map the coalesced spans, each once; the engine refuses an empty one. */
    method MapSpans() returns (ok: bool)
      requires mem == map[] && Gapped(mapped)
      modifies this`mem
      ensures ok <==> NonEmpty(mapped)
      ensures ok ==> MapsExactly(mem, mapped) && forall a :: a in mem ==> mem[a] == 0
    {
      assert ZerosOver(mem, mapped[..0]);
      hide MapZero, Gapped, ZerosOver;
      for i := 0 to |mapped|
        invariant ZerosOver(mem, mapped[..i])
        invariant forall k :: 0 <= k < i ==> mapped[k].lo < mapped[k].hi
      {
        OneSpanMore(mem, mapped, i);
        ok := MemMap(mapped[i].lo, mapped[i].hi - mapped[i].lo);
        if !ok {
          return;
        }
      }
      assert mapped[..|mapped|] == mapped;
      ZerosAre(mem, mapped);
      ok := true;
    }

    /** Write one region's captured pages. */
    method WriteRegion(r: EmuRegion) returns (ok: bool)
      requires WellFormed(r) && Mapped(mem, r.base, r.size)
      modifies this`mem
      ensures ok && mem.Keys == old(mem.Keys)
      ensures forall a :: a in mem ==> mem[a] == if InPages(r, a) then PageByte(r, a) else old(mem)[a]
    {
      hide WellFormed, InPages, PageByte;
      ghost var start := mem;
      var todo := r.pages.Keys;
      ghost var done: set<int> := {};
      MemStarts(r, mem);
      while todo != {}
        invariant todo + done == r.pages.Keys && todo !! done
        invariant MemHolds(r, mem, start, done)
        decreases |todo|
      {
        PickOne(todo);
        var p :| p in todo;
        hide MemHolds;
        PageMapped(r, start, mem, done, p);
        ghost var before := mem;
        ok := MemWrite(p, r.pages[p]);
        MemGrows(r, before, start, done, p);
        todo, done := todo - {p}, done + {p};
      }
      MemComplete(r, mem, start, done);
      ok := true;
    }

    /** `_map_memory`; false, exactly where a coalesced span is empty, as the engine refuses to map it. */
    method MapMemory() returns (ok: bool)
      requires Valid() && mem == map[] && mapped == [] && history == []
      requires forall i :: 0 <= i < |regions| ==> WellFormed(regions[i])
      modifies this`mem, this`mapped, this`past
      ensures mapped == Coalesced(RegionSpans(regions))
      ensures ok <==> NonEmpty(Coalesced(RegionSpans(regions)))
      ensures ok ==> Valid() && forall a :: a in mem ==> mem[a] == OverlayAt(regions, a)
      ensures ok ==> forall a :: a in mem <==> exists i :: 0 <= i < |regions| && InPageOf(regions[i], a)
    {
      hide GoodSpans, WellFormed, OverlayAt, NonEmpty, RegionSpans, Coalesced, MapsExactly, SeenIs, Gapped;
      CoalescedFacts(RegionSpans(regions));
      mapped := Coalesce(RegionSpans(regions));
      ok := MapSpans();
      if !ok {
        return;
      }
      SpansOfRegions(regions);
      AllRegionsMapped(regions, mapped, mem);
      ghost var zeros := mem;
      WriteRegions();
      SameKeys(zeros, mem, mapped);
      PagesMapped(regions, mapped, mem);
      past := [];
      ok := true;
    }

    /** Write the captured pages of every region, in order. */
    method WriteRegions()
      requires forall i :: 0 <= i < |regions| ==>
                 WellFormed(regions[i]) && Mapped(mem, regions[i].base, regions[i].size)
      requires forall a :: a in mem ==> mem[a] == 0
      modifies this`mem
      ensures mem.Keys == old(mem.Keys)
      ensures forall a :: a in mem ==> mem[a] == OverlayAt(regions, a)
    {
      assert forall a :: OverlayAt([], a) == 0;
      assert regions[..0] == [];
      ghost var start := mem;
      hide WellFormed, OverlayAt, InPages;
      for i := 0 to |regions|
        invariant mem.Keys == start.Keys
        invariant forall a :: a in mem ==> mem[a] == OverlayAt(regions[..i], a)
      {
        ghost var before := mem;
        assert Mapped(start, regions[i].base, regions[i].size);
        var ok := WriteRegion(regions[i]);
        forall a | a in mem ensures mem[a] == OverlayAt(regions[..i + 1], a) {
          OverlayNext(regions, i, a);
          assert before[a] == OverlayAt(regions[..i], a);
        }
      }
      assert regions[..|regions|] == regions;
    }

    /**
     * `_seed_x86_segments`: map a free page for the table, write it there, load table register and
     * selectors; false where no address space is left. Nothing mapped before is touched.
     */
    method SeedSegments(fsBase: nat, gsBase: nat) returns (ok: bool)
      requires GoodSpans(mapped) && MapsExactly(mem, mapped)
      modifies this`mem, this`regs, this`mapped
      ensures GoodSpans(mapped) && MapsExactly(mem, mapped)
      ensures forall a :: a in old(mem) ==> a in mem && mem[a] == old(mem)[a]
      ensures !ok ==>
                && mem == old(mem) && regs == old(regs) && mapped == old(mapped)
                && forall c :: !Fits(mapped, c, PAGE, Pow2i(bits))
      ensures ok && SegmentBases(fsBase, gsBase) == [] ==> mem == old(mem) && regs == old(regs) && mapped == old(mapped)
      ensures ok && SegmentBases(fsBase, gsBase) != [] ==>
                Installed(Pow2i(bits), old(mapped), mapped, mem, old(regs), regs, fsBase, gsBase)
      ensures ok && fsBase != 0 ==> Reaches(mem, regs, "fs", fsBase)
      ensures ok && gsBase != 0 ==> Reaches(mem, regs, "gs", gsBase)
    {
      hide GoodSpans, Covers, Fits, Coalesced, GdtBytes, MapZero, Reaches, SegmentRegs;
      var bases := SegmentBases(fsBase, gsBase);
      if bases == [] {
        return true;
      }
      var gdt := GdtBytes(bases);
      assert AlignUp(|gdt|) == PAGE;
      GoodParts(mapped);
      var g := FindFreePage(mapped, |gdt|, Pow2i(bits));
      if g.None? {
        return false;
      }
      ghost var before, spans := mem, mapped;
      FreshWindow(mem, mapped, g.value, Pow2i(bits));
      ok := MemMap(g.value, PAGE);
      AddSpan(before, mem, spans, g.value);
      ghost var zeroed := mem;
      ok := MemWrite(g.value, gdt);
      mapped := Coalesce(mapped + [Span(g.value, g.value + PAGE)]);
      SameKeys(zeroed, mem, mapped);
      regs := SegmentRegs(regs, g.value, |gdt|, fsBase != 0, gsBase != 0);
      assert Load(mem, g.value, |gdt|) == gdt;
      assert TableAt(g.value, Pow2i(bits), old(mapped), mapped, mem, old(regs), regs, fsBase, gsBase);
      SelectorsReach(g.value, Pow2i(bits), old(mapped), mapped, mem, old(regs), regs, fsBase, gsBase);
    }

    /**
     * `switch_thread`: clear the general registers, seed the thread's, install its segments on
     * 32-bit x86, and drop the history. Memory mapped so far keeps its contents. When the segments
     * do not fit, the source raises before dropping the history.
     */
    method SwitchThread(seed: Regs, isX86: bool, fsBase: nat, gsBase: nat) returns (ok: bool)
      requires Valid()
      modifies this`mem, this`regs, this`mapped, this`history, this`past
      ensures Valid()
      ensures forall a :: a in old(mem) ==> a in mem && mem[a] == old(mem)[a]
      ensures ok ==> history == [] && past == []
      ensures var start := Cleared(old(regs), gprNames) + seed;
              && (!ok || !isX86 || SegmentBases(fsBase, gsBase) == [] ==> regs == start && mapped == old(mapped))
              && (ok && isX86 && SegmentBases(fsBase, gsBase) != [] ==>
                    Installed(Pow2i(bits), old(mapped), mapped, mem, start, regs, fsBase, gsBase))
      ensures ok && isX86 && fsBase != 0 ==> Reaches(mem, regs, "fs", fsBase)
      ensures ok && isX86 && gsBase != 0 ==> Reaches(mem, regs, "gs", gsBase)
      ensures !ok ==> isX86 && history == old(history) && mem == old(mem) && mapped == old(mapped)
      ensures written == old(written) && wxEvents == old(wxEvents)
    {
      hide GoodSpans, MapsExactly, SeenIs, Fits, Coalesced, GdtBytes, Installed, Reaches;
      ghost var before := State();
      regs := Cleared(regs, gprNames) + seed;
      ok := true;
      if isX86 {
        ok := SeedSegments(fsBase, gsBase);
      }
      if ok {
        history := [];
        past := [];
      } else {
        SwapRegs(before, Reference(before.regs, before.mem, past), regs);
      }
    }
  }

  /** Exactly the addresses covered by the spans are mapped. */
  ghost predicate MapsExactly(mem: Mem, spans: seq<Span>) {
    forall a :: a in mem <==> Covers(spans, a)
  }

  lemma SameKeys(m: Mem, n: Mem, spans: seq<Span>)
    requires m.Keys == n.Keys && MapsExactly(m, spans)
    ensures MapsExactly(n, spans)
  {
    hide Covers;
    forall a ensures a in n <==> Covers(spans, a) {
      assert a in m <==> a in n;
    }
  }

  ghost predicate SeenIs(seen: set<int>, events: seq<int>) {
    forall pc :: pc in seen <==> pc in events
  }

  /** Memory once the pages in `done` have been written over `start`. */
  ghost predicate MemHolds(r: EmuRegion, mem: Mem, start: Mem, done: set<int>)
    requires done <= r.pages.Keys
  {
    mem.Keys == start.Keys && forall a :: a in mem ==> mem[a] == SoFar(r, done, a, start[a])
  }

  lemma MemStarts(r: EmuRegion, mem: Mem)
    ensures MemHolds(r, mem, mem, {})
  {
    forall a | a in mem ensures mem[a] == SoFar(r, {}, a, mem[a]) {
      SoFarNone(r, a, mem[a]);
    }
  }

  lemma PageMapped(r: EmuRegion, start: Mem, mem: Mem, done: set<int>, p: int)
    requires WellFormed(r) && Mapped(start, r.base, r.size) && done <= r.pages.Keys && MemHolds(r, mem, start, done)
             && p in r.pages
    ensures Mapped(mem, p, |r.pages[p]|)
  {
    hide SoFar;
    forall a | p <= a < p + |r.pages[p]| ensures a in mem {
      assert a in start;
    }
  }

  lemma MemGrows(r: EmuRegion, mem: Mem, start: Mem, done: set<int>, p: int)
    requires WellFormed(r) && done <= r.pages.Keys && MemHolds(r, mem, start, done) && p in r.pages
    ensures MemHolds(r, Store(mem, p, r.pages[p]), start, done + {p})
  {
    hide SoFar, PageHas;
    var next := Store(mem, p, r.pages[p]);
    forall a | a in next ensures next[a] == SoFar(r, done + {p}, a, start[a]) {
      SoFarAdd(r, done, p, a, start[a]);
      PageHasIs(r, p, a);
    }
  }

  lemma MemComplete(r: EmuRegion, mem: Mem, start: Mem, done: set<int>)
    requires WellFormed(r) && done == r.pages.Keys && MemHolds(r, mem, start, done)
    ensures mem.Keys == start.Keys
    ensures forall a :: a in mem ==> mem[a] == if InPages(r, a) then PageByte(r, a) else start[a]
  {
    hide SoFar, InPages;
    forall a | a in mem ensures mem[a] == if InPages(r, a) then PageByte(r, a) else start[a] {
      SoFarAll(r, done, a, start[a]);
    }
  }

  lemma PageHasIs(r: EmuRegion, p: int, a: int)
    requires p in r.pages
    ensures PageHas(r, p, a) <==> p <= a < p + |r.pages[p]|
  {
  }

  /** The next span to map is disjoint from those mapped before it. */
  /** Zeros exactly where the spans are. */
  ghost predicate ZerosOver(mem: Mem, spans: seq<Span>) {
    MapsExactly(mem, spans) && forall a :: a in mem ==> mem[a] == 0
  }

  lemma ZerosAre(mem: Mem, spans: seq<Span>)
    requires ZerosOver(mem, spans)
    ensures MapsExactly(mem, spans) && forall a :: a in mem ==> mem[a] == 0
  {
  }

  /** The next span is free, and mapping it keeps the zeros. */
  lemma OneSpanMore(mem: Mem, spans: seq<Span>, i: nat)
    requires i < |spans| && Gapped(spans) && ZerosOver(mem, spans[..i])
    ensures forall a :: spans[i].lo <= a < spans[i].hi ==> a !in mem
    ensures ZerosOver(MapZero(mem, spans[i].lo, spans[i].hi), spans[..i + 1])
  {
    hide Covers, MapZero;
    SpanIsNew(spans, i);
    var after := MapZero(mem, spans[i].lo, spans[i].hi);
    forall a ensures a in after <==> Covers(spans[..i + 1], a) {
      assert In(spans[i], a) <==> spans[i].lo <= a < spans[i].hi;
    }
  }

  lemma SpanIsNew(spans: seq<Span>, i: nat)
    requires i < |spans| && Gapped(spans)
    ensures forall a :: In(spans[i], a) ==> !Covers(spans[..i], a)
    ensures forall a :: Covers(spans[..i + 1], a) <==> Covers(spans[..i], a) || In(spans[i], a)
  {
    forall a ensures Covers(spans[..i + 1], a) <==> Covers(spans[..i], a) || In(spans[i], a) {
      if Covers(spans[..i], a) {
        var k :| 0 <= k < i && In(spans[..i][k], a);
        assert In(spans[..i + 1][k], a);
      }
      if In(spans[i], a) {
        assert In(spans[..i + 1][i], a);
      }
      if Covers(spans[..i + 1], a) {
        var k :| 0 <= k < i + 1 && In(spans[..i + 1][k], a);
        assert k < i ==> In(spans[..i][k], a);
      }
    }
  }

  lemma WriteUnfolds(mem: Mem, w: Write, rest: seq<Write>, written: seq<Span>, log: seq<Undo>)
    ensures var ws := [w] + rest;
            && (Lands(mem, w) ==>
                  var next := Store(mem, w.addr, w.data);
                  && Apply(mem, ws) == Apply(next, rest) && AllLand(mem, ws) == AllLand(next, rest)
                  && written + Announced(mem, ws) == written + [Span(w.addr, w.addr + |w.data|)] + Announced(next, rest)
                  && log + UndoOf(mem, ws) == log + [Undo(w.addr, Load(mem, w.addr, |w.data|))] + UndoOf(next, rest))
            && (!Lands(mem, w) ==>
                  && Apply(mem, ws) == mem && !AllLand(mem, ws)
                  && written + Announced(mem, ws) == written + [Span(w.addr, w.addr + |w.data|)]
                  && log + UndoOf(mem, ws) == log)
  {
    hide Mapped, Store;
    assert ([w] + rest)[1..] == rest;
    var s := Span(w.addr, w.addr + |w.data|);
    if Lands(mem, w) {
      var next := Store(mem, w.addr, w.data);
      Assoc(written, s, Announced(next, rest));
      Assoc(log, Undo(w.addr, Load(mem, w.addr, |w.data|)), UndoOf(next, rest));
    } else {
      assert log + [] == log;
      assert [s] + [] == [s];
    }
  }

  lemma Assoc<T>(a: seq<T>, x: T, b: seq<T>)
    ensures a + ([x] + b) == a + [x] + b
  {
  }

  /** Rolling back a log starts with its last record. */
  lemma {:induction false} RollbackLast(mem: Mem, log: seq<Undo>, u: Undo)
    ensures Rollback(mem, log + [u]) == Rollback(Store(mem, u.addr, u.replaced), log)
    decreases |log|
  {
    if log == [] {
      assert log + [u] == [u];
      assert [u][1..] == [];
    } else {
      assert (log + [u])[1..] == log[1..] + [u];
      RollbackLast(mem, log[1..], u);
    }
  }

  /** Everything one step back does, to the journal and to the snapshots it stands for. */
  lemma BackFacts(m: Machine, r: Reference)
    requires Simulates(m, r) && m.history != []
    ensures var n := |m.history| - 1;
            && |r.past| == n + 1 && m.history[n].ctx == r.past[n].regs
               && Rollback(m.mem, m.history[n].undo) == r.past[n].mem
            && Backed(m)
               == Machine(m.history[n].ctx, Rollback(m.mem, m.history[n].undo), m.history[..n], m.written, m.wx)
            && Simulates(Backed(m), Reference(r.past[n].regs, r.past[n].mem, r.past[..n]))
  {
    assert MemAfter(r.mem, r.past, |r.past| - 1) == r.mem;
    BackSimulates(m, r);
  }

  /** 2 to the power of the address width. */
  function Pow2i(bits: nat): (p: int) {
    Bits.Pow2(bits)
  }

  function Cleared(regs: Regs, names: seq<string>): (r: Regs)
    decreases |names|
  {
    if names == [] then regs else Cleared(regs[names[0] := 0], names[1..])
  }

  /** Clearing zeroes the named registers and leaves the others. */
  lemma {:induction false} ClearedMeans(regs: Regs, names: seq<string>)
    ensures Cleared(regs, names).Keys == regs.Keys + set n | n in names
    ensures forall n :: n in Cleared(regs, names) ==> Cleared(regs, names)[n] == if n in names then 0 else regs[n]
    decreases |names|
  {
    if names != [] {
      ClearedMeans(regs[names[0] := 0], names[1..]);
    }
  }

  /** The table lies in the lowest free page, which is now mapped, and the registers point at it. */
  ghost predicate TableAt(
    g: int, limit: int, before: seq<Span>, after: seq<Span>, mem: Mem, regs0: Regs, regs1: Regs, fsBase: nat,
    gsBase: nat)
  {
    var gdt := GdtBytes(SegmentBases(fsBase, gsBase));
    && Fits(before, g, PAGE, limit) && (forall c :: c < g ==> !Fits(before, c, PAGE, limit))
    && Mapped(mem, g, PAGE) && |gdt| <= PAGE && Load(mem, g, |gdt|) == gdt
    && after == Coalesced(before + [Span(g, g + PAGE)])
    && regs1 == SegmentRegs(regs0, g, |gdt|, fsBase != 0, gsBase != 0)
  }

  ghost predicate Installed(
    limit: int, before: seq<Span>, after: seq<Span>, mem: Mem, regs0: Regs, regs1: Regs, fsBase: nat, gsBase: nat)
  {
    exists g :: TableAt(g, limit, before, after, mem, regs0, regs1, fsBase, gsBase)
  }

  /** The selector in `seg` names a present flat ring-3 data descriptor with this base, within the table. */
  ghost predicate Reaches(mem: Mem, regs: Regs, seg: string, base: nat) {
    && "gdtr_base" in regs && "gdtr_limit" in regs && seg in regs
    && var entry := regs[seg] / 8 * 8;
    var at := regs["gdtr_base"] + entry;
    && 8 <= entry && entry + 7 <= regs["gdtr_limit"] && regs[seg] % 8 == 3 && Mapped(mem, at, 8)
    && var d := FromLE(Load(mem, at, 8));
    && DescriptorBase(d) == base % 0x1_0000_0000 && DescriptorLimit(d) == 0xF_FFFF
    && DescriptorAccess(d) == 0xF2 && DescriptorGran(d) == 0xC
  }

  /** Entry `i + 1` of the table is the descriptor of the base `i`. */
  lemma {:induction false} GdtEntry(bases: seq<nat>, i: nat)
    requires i < |bases|
    ensures 8 * (i + 1) + 8 <= |GdtBytes(bases)|
    ensures GdtBytes(bases)[8 * (i + 1)..8 * (i + 1) + 8] == Descriptor(bases[i], 0xF_FFFF, 0xF2, 0xC)
    decreases |bases|
  {
    hide Descriptor;
    var front := bases[..|bases| - 1];
    if i < |front| {
      GdtEntry(front, i);
      assert GdtBytes(bases)[8 * (i + 1)..8 * (i + 1) + 8] == GdtBytes(front)[8 * (i + 1)..8 * (i + 1) + 8];
    }
  }

  lemma LoadWithin(mem: Mem, g: int, b: Bytes, off: nat)
    requires Mapped(mem, g, |b|) && Load(mem, g, |b|) == b && off + 8 <= |b|
    ensures Mapped(mem, g + off, 8) && Load(mem, g + off, 8) == b[off..off + 8]
  {
    var l := Load(mem, g + off, 8);
    assert forall i :: 0 <= i < 8 ==> l[i] == Load(mem, g, |b|)[off + i];
  }

  lemma SegmentNames()
    ensures "fs" != "gs" && "fs" != "gdtr_base" && "gs" != "gdtr_base" && "fs" != "gdtr_limit" && "gs" != "gdtr_limit"
    ensures "gdtr_base" != "gdtr_limit"
  {
    assert "fs"[0] == 'f' && "gs"[0] == 'g' && "gdtr_base"[1] == 'd' && "gs"[1] == 's' && "gdtr_limit"[1] == 'd';
    assert "gdtr_base"[5] == 'b' && "gdtr_limit"[5] == 'l';
  }

  lemma EntryReached(mem: Mem, regs: Regs, g: int, bases: seq<nat>, i: nat, seg: string)
    requires i < |bases| && Mapped(mem, g, |GdtBytes(bases)|) && Load(mem, g, |GdtBytes(bases)|) == GdtBytes(bases)
    requires "gdtr_base" in regs && regs["gdtr_base"] == g && "gdtr_limit" in regs
             && regs["gdtr_limit"] == |GdtBytes(bases)| - 1
    requires seg in regs && regs[seg] == Selector(i + 1)
    ensures Reaches(mem, regs, seg, bases[i])
  {
    hide GdtBytes, Descriptor, DescriptorBase, DescriptorLimit, DescriptorAccess, DescriptorGran, FromLE, Mapped;
    GdtEntry(bases, i);
    LoadWithin(mem, g, GdtBytes(bases), 8 * (i + 1));
    DescriptorDecodes(bases[i], 0xF_FFFF, 0xF2, 0xC);
    assert Selector(i + 1) / 8 * 8 == 8 * (i + 1) && Selector(i + 1) % 8 == 3;
  }

  /** Every base present is reached through its own selector. */
  lemma SelectorsReach(
    g: int, limit: int, before: seq<Span>, after: seq<Span>, mem: Mem, regs0: Regs, regs1: Regs, fsBase: nat,
    gsBase: nat)
    requires TableAt(g, limit, before, after, mem, regs0, regs1, fsBase, gsBase)
    ensures fsBase != 0 ==> Reaches(mem, regs1, "fs", fsBase)
    ensures gsBase != 0 ==> Reaches(mem, regs1, "gs", gsBase)
  {
    hide GdtBytes, Reaches, Fits, Coalesced, Load;
    var bases := SegmentBases(fsBase, gsBase);
    SegmentNames();
    if fsBase != 0 {
      EntryReached(mem, regs1, g, bases, 0, "fs");
    }
    if gsBase != 0 {
      EntryReached(mem, regs1, g, bases, |bases| - 1, "gs");
    }
  }

  /** Table register and selectors: GDT entry 1 is the first base present, fs before gs. */
  function SegmentRegs(regs: Regs, g: int, size: nat, hasFs: bool, hasGs: bool): (r: Regs) {
    var r0 := regs["gdtr_base" := g]["gdtr_limit" := size - 1];
    var r1 := if hasFs then r0["fs" := Selector(1)] else r0;
    if hasGs then r1["gs" := Selector(if hasFs then 2 else 1)] else r1
  }

  lemma SwapRegs(m: Machine, r: Reference, regs: Regs)
    requires Simulates(m, r)
    ensures Simulates(m.(regs := regs), r.(regs := regs))
  {
  }

  lemma GoodParts(spans: seq<Span>)
    requires GoodSpans(spans)
    ensures Aligned(spans) && NonEmpty(spans) && forall i :: 0 <= i < |spans| ==> spans[i].lo >= 0
  {
  }

  lemma SpansOfRegions(rs: seq<EmuRegion>)
    requires NonEmpty(Coalesced(RegionSpans(rs)))
    ensures GoodSpans(Coalesced(RegionSpans(rs)))
  {
    CoalescedAligned(RegionSpans(rs));
  }

  lemma RegionMapped(rs: seq<EmuRegion>, spans: seq<Span>, mem: Mem, i: nat)
    requires i < |rs| && spans == Coalesced(RegionSpans(rs)) && MapsExactly(mem, spans)
    ensures Mapped(mem, rs[i].base, rs[i].size)
  {
    CoalescedFacts(RegionSpans(rs));
    hide Coalesced, RegionSpans;
    forall a | rs[i].base <= a < rs[i].base + rs[i].size ensures a in mem {
      assert In(RegionSpans(rs)[i], a);
      assert Covers(RegionSpans(rs), a);
    }
  }

  lemma AllRegionsMapped(rs: seq<EmuRegion>, spans: seq<Span>, mem: Mem)
    requires spans == Coalesced(RegionSpans(rs)) && MapsExactly(mem, spans)
    ensures forall i :: 0 <= i < |rs| ==> Mapped(mem, rs[i].base, rs[i].size)
  {
    hide Coalesced, RegionSpans, MapsExactly, Mapped;
    forall i | 0 <= i < |rs| ensures Mapped(mem, rs[i].base, rs[i].size) {
      RegionMapped(rs, spans, mem, i);
    }
  }

  /** Exactly the pages of the regions are mapped. */
  lemma PagesMapped(rs: seq<EmuRegion>, spans: seq<Span>, mem: Mem)
    requires spans == Coalesced(RegionSpans(rs)) && MapsExactly(mem, spans)
    ensures forall a :: a in mem <==> exists i :: 0 <= i < |rs| && InPageOf(rs[i], a)
  {
    CoalescedFacts(RegionSpans(rs));
    hide Coalesced, RegionSpan, InPageOf, In;
    forall a ensures a in mem <==> exists i :: 0 <= i < |rs| && InPageOf(rs[i], a) {
      if Covers(RegionSpans(rs), a) {
        var i :| 0 <= i < |RegionSpans(rs)| && In(RegionSpans(rs)[i], a);
        SpanIsPages(rs[i], a);
      }
      if exists i :: 0 <= i < |rs| && InPageOf(rs[i], a) {
        var i :| 0 <= i < |rs| && InPageOf(rs[i], a);
        SpanIsPages(rs[i], a);
        assert In(RegionSpans(rs)[i], a);
      }
    }
  }

  lemma OverlayNext(rs: seq<EmuRegion>, i: nat, a: int)
    requires i < |rs|
    ensures OverlayAt(rs[..i + 1], a) == if InPages(rs[i], a) then PageByte(rs[i], a) else OverlayAt(rs[..i], a)
  {
    assert rs[..i + 1][..i] == rs[..i];
  }

  /** A free window is unmapped. */
  lemma FreshWindow(mem: Mem, spans: seq<Span>, g: int, limit: int)
    requires MapsExactly(mem, spans) && Fits(spans, g, PAGE, limit)
    ensures forall a :: g <= a < g + PAGE ==> a !in mem
    ensures g >= PAGE && g % PAGE == 0
  {
    forall a | g <= a < g + PAGE ensures !Covers(spans, a) {
      forall i | 0 <= i < |spans| ensures !In(spans[i], a) {
        assert !Overlaps(spans[i], g, PAGE);
      }
    }
  }

  /** Adding the mapped window to the spans keeps the bookkeeping right. */
  lemma AddSpan(before: Mem, after: Mem, spans: seq<Span>, g: int)
    requires GoodSpans(spans) && MapsExactly(before, spans) && g >= PAGE && g % PAGE == 0
    requires after == MapZero(before, g, g + PAGE)
    ensures GoodSpans(Coalesced(spans + [Span(g, g + PAGE)]))
            && MapsExactly(after, Coalesced(spans + [Span(g, g + PAGE)]))
    ensures Mapped(after, g, PAGE)
  {
    var s := Span(g, g + PAGE);
    var all := spans + [s];
    assert Aligned(all) && NonEmpty(all);
    CoalescedFacts(all);
    CoalescedAligned(all);
    hide Coalesced, GoodSpans;
    forall a ensures a in after <==> Covers(Coalesced(all), a) {
      CoversAppend(spans, s, a);
    }
  }

  lemma CoversAppend(spans: seq<Span>, s: Span, a: int)
    ensures Covers(spans + [s], a) <==> Covers(spans, a) || In(s, a)
  {
    var all := spans + [s];
    assert all[|spans|] == s;
    if Covers(spans, a) {
      var i :| 0 <= i < |spans| && In(spans[i], a);
      assert In(all[i], a);
    }
    if Covers(all, a) {
      var i :| 0 <= i < |all| && In(all[i], a);
      assert i < |spans| ==> In(spans[i], a);
    }
  }
}

/** The blocks `acquire` writes before the regions: module list, other tables, thread contexts. */
module Metadata {
  import opened ByteStrings
  import opened Integrity
  import opened Compression
  import opened Blocks
  import opened MemoryRegions
  import opened Threads
  import opened Modules
  import opened Writer
  import opened Loader

  /** Blocks the loader can read, none of them a region or an end. */
  ghost predicate MetaBlocks(meta: seq<Block>, arch: nat) {
    && AllParse(meta, arch)
    && forall i :: 0 <= i < |meta| ==>
         meta[i].btype != MEMORY_REGION && meta[i].btype != END_OF_CAPTURE && !IsContinuation(meta[i].flags)
  }

  /** Readable blocks that add these threads and modules to an image and no region. */
  ghost predicate Adds(bs: seq<Block>, arch: nat, threads: seq<EmuThread>, modules: seq<EmuModule>) {
    MetaBlocks(bs, arch) && ThreadsOf(bs, arch) == threads && ModulesOf(bs, arch) == modules
  }

  // ---------------------------------------------------------- appending logs

  lemma AllParseAppend(a: seq<Block>, b: seq<Block>, arch: nat)
    requires AllParse(a, arch) && AllParse(b, arch)
    ensures AllParse(a + b, arch)
  {
    hide Parses;
  }

  lemma {:induction false} RegionsAppend(a: seq<Block>, b: seq<Block>, arch: nat)
    requires AllParse(a, arch) && AllParse(b, arch) && AllParse(a + b, arch)
    ensures RegionsOf(a + b, arch) == RegionsOf(a, arch) + RegionsOf(b, arch)
    decreases |a|
  {
    hide Parses, RegionPart;
    if a == [] {
      assert a + b == b;
    } else {
      assert (a + b)[1..] == a[1..] + b && (a + b)[0] == a[0];
      RegionsAppend(a[1..], b, arch);
    }
  }

  lemma {:induction false} ThreadsAppend(a: seq<Block>, b: seq<Block>, arch: nat)
    requires AllParse(a, arch) && AllParse(b, arch) && AllParse(a + b, arch)
    ensures ThreadsOf(a + b, arch) == ThreadsOf(a, arch) + ThreadsOf(b, arch)
    decreases |a|
  {
    hide Parses, ThreadPart;
    if a == [] {
      assert a + b == b;
    } else {
      assert (a + b)[1..] == a[1..] + b && (a + b)[0] == a[0];
      ThreadsAppend(a[1..], b, arch);
    }
  }

  lemma {:induction false} ModulesAppend(a: seq<Block>, b: seq<Block>, arch: nat)
    requires AllParse(a, arch) && AllParse(b, arch) && AllParse(a + b, arch)
    ensures ModulesOf(a + b, arch) == ModulesOf(a, arch) + ModulesOf(b, arch)
    decreases |a|
  {
    hide Parses, ModulePart;
    if a == [] {
      assert a + b == b;
    } else {
      assert (a + b)[1..] == a[1..] + b && (a + b)[0] == a[0];
      ModulesAppend(a[1..], b, arch);
    }
  }

  lemma PartsAppend(a: seq<Block>, b: seq<Block>, arch: nat)
    requires AllParse(a, arch) && AllParse(b, arch)
    ensures AllParse(a + b, arch)
    ensures RegionsOf(a + b, arch) == RegionsOf(a, arch) + RegionsOf(b, arch)
    ensures ThreadsOf(a + b, arch) == ThreadsOf(a, arch) + ThreadsOf(b, arch)
    ensures ModulesOf(a + b, arch) == ModulesOf(a, arch) + ModulesOf(b, arch)
  {
    hide AllParse, RegionsOf, ThreadsOf, ModulesOf;
    AllParseAppend(a, b, arch);
    RegionsAppend(a, b, arch);
    ThreadsAppend(a, b, arch);
    ModulesAppend(a, b, arch);
  }

  lemma AddsAppend(a: seq<Block>, b: seq<Block>, arch: nat,
                   ts: seq<EmuThread>, ms: seq<EmuModule>, us: seq<EmuThread>, ns: seq<EmuModule>)
    requires Adds(a, arch, ts, ms) && Adds(b, arch, us, ns)
    ensures Adds(a + b, arch, ts + us, ms + ns)
  {
    hide Parses, ThreadsOf, ModulesOf, RegionsOf, IsContinuation;
    PartsAppend(a, b, arch);
    forall i | 0 <= i < |a + b|
      ensures (a + b)[i].btype != MEMORY_REGION && (a + b)[i].btype != END_OF_CAPTURE
              && !IsContinuation((a + b)[i].flags)
    {
      assert (a + b)[i] == if i < |a| then a[i] else b[i - |a|];
    }
  }

  lemma AddsNothing(arch: nat)
    ensures Adds([], arch, [], [])
  {
  }

  /** One block of these types adds what it holds. */
  lemma AddsOne(b: Block, arch: nat)
    requires b.btype != MEMORY_REGION && b.btype != END_OF_CAPTURE && !IsContinuation(b.flags) && Parses(b, arch)
    ensures Adds([b], arch, ThreadPart(b, arch), ModulePart(b))
  {
    hide IsContinuation, ParsedThread, ParsedModule, ParsedRegion;
    var bs := [b];
    assert bs[1..] == [] && AllParse(bs, arch);
    assert ThreadsOf(bs, arch) == ThreadPart(b, arch) + ThreadsOf([], arch);
    assert ModulesOf(bs, arch) == ModulePart(b) + ModulesOf([], arch);
    assert ThreadPart(b, arch) + [] == ThreadPart(b, arch) && ModulePart(b) + [] == ModulePart(b);
  }

  // ----------------------------------------------------------------- threads

  /** A thread block yields the thread of its context. */
  lemma ThreadBlockAdds(b: Block, t: ThreadContext, arch: nat)
    requires ThreadFits(t) && b.btype == THREAD_CONTEXT && b.flags == 0 && b.payload == ThreadPayload(t)
    ensures Adds([b], arch, [EmuOf(t, arch)], [])
  {
    hide ThreadFits, ThreadPayload, PadBytes, ParsedThread;
    ThreadRoundTrip(t, arch);
    AddsOne(b, arch);
  }

  /** Some blocks more: what lies behind `start` grows by what lies behind `mid`. */
  lemma LogTail(start: seq<Block>, mid: seq<Block>, end: seq<Block>)
    requires start <= mid <= end
    ensures start <= end && end[|start|..] == mid[|start|..] + end[|mid|..]
  {
  }

  /** The contexts that are written. */
  function Kept(cs: seq<ThreadContext>): (r: seq<ThreadContext>) {
    if cs == [] then []
    else Kept(cs[..|cs| - 1]) + if cs[|cs| - 1].registers != [] then [cs[|cs| - 1]] else []
  }

  ghost predicate IsThread(b: Block, t: ThreadContext) {
    ThreadFits(t) && b.btype == 0x0011 && b.flags == 0 && b.payload == ThreadPayload(t) && b.parent == Zeros(16)
  }

  /** One block for each context, in order. */
  ghost predicate ThreadBlocks(bs: seq<Block>, ts: seq<ThreadContext>) {
    |bs| == |ts| && forall i :: 0 <= i < |bs| ==> IsThread(bs[i], ts[i])
  }

  lemma ThreadBlocksNext(bs: seq<Block>, ts: seq<ThreadContext>, b: Block, t: ThreadContext)
    requires ThreadBlocks(bs, ts) && IsThread(b, t)
    ensures ThreadBlocks(bs + [b], ts + [t])
  {
    hide IsThread;
  }

  lemma KeptNext(cs: seq<ThreadContext>, i: nat)
    requires i < |cs|
    ensures Kept(cs[..i + 1]) == Kept(cs[..i]) + if HasRegisters(cs[i]) then [cs[i]] else []
  {
    assert cs[..i + 1][..i] == cs[..i];
  }

  /**
   * The thread loop of `acquire`: contexts without registers are skipped, `n` of the contexts are handled, and
   * the loop raises exactly at the first one with registers that cannot be written.
   */
  method WriteThreads(w: MSLWriter, contexts: seq<ThreadContext>, uuids: nat -> Uuid, ghost arch: nat)
    returns (e: Option<WriteError>, ghost n: nat)
    requires w.Valid()
    modifies w`output, w`blockIndex, w`log, w.chain, w.encryptor
    ensures w.Valid() && w.IsSealed() == old(w.IsSealed()) && old(w.log) <= w.log
    ensures n <= |contexts| && Adds(w.log[|old(w.log)|..], arch, Loaded(contexts[..n], arch), [])
    ensures ThreadBlocks(w.log[|old(w.log)|..], Kept(contexts[..n]))
    ensures forall i :: 0 <= i < n && HasRegisters(contexts[i]) ==> ThreadWritable(contexts[i]) && !old(w.IsSealed())
    ensures if e.None? then n == |contexts|
            else n < |contexts| && HasRegisters(contexts[n]) && (old(w.IsSealed()) || !ThreadWritable(contexts[n]))
  {
    hide MSLWriter.Valid, MSLWriter.IsSealed, Adds, Loaded, ThreadWritable, HasRegisters, Kept, ThreadBlocks, IsThread;
    n := 0;
    NoThreads();
    AddsNothing(arch);
    LoadedNothing(arch);
    assert contexts[..0] == [] && w.log[|w.log|..] == [];
    for i := 0 to |contexts|
      invariant w.Valid() && w.IsSealed() == old(w.IsSealed()) && old(w.log) <= w.log
      invariant n == i && Adds(w.log[|old(w.log)|..], arch, Loaded(contexts[..i], arch), [])
      invariant ThreadBlocks(w.log[|old(w.log)|..], Kept(contexts[..i]))
      invariant forall j :: 0 <= j < i && HasRegisters(contexts[j]) ==>
                  ThreadWritable(contexts[j]) && !old(w.IsSealed())
    {
      LoadedNext(contexts, i, arch);
      KeptNext(contexts, i);
      if HasRegisters(contexts[i]) {
        ghost var before := w.log;
        var r := w.WriteThreadContext(contexts[i], None, uuids(i));
        if r.Err? {
          return Some(r.error), n;
        }
        OneThread(before, w.log, contexts[i], arch);
        LogTail(old(w.log), before, w.log);
        ThreadBlocksNext(before[|old(w.log)|..], Kept(contexts[..i]), w.log[|before|], contexts[i]);
        AddsAppend(before[|old(w.log)|..], w.log[|before|..], arch, Loaded(contexts[..i], arch), [],
                   [EmuOf(contexts[i], arch)], []);
        NoneTwice();
      } else {
        assert Loaded(contexts[..i], arch) + [] == Loaded(contexts[..i], arch);
        assert Kept(contexts[..i]) + [] == Kept(contexts[..i]);
      }
      n := i + 1;
    }
    assert contexts[..|contexts|] == contexts;
    e := None;
  }

  lemma NoThreads()
    ensures ThreadBlocks([], Kept([]))
  {
  }

  lemma NoneTwice()
    ensures var none: seq<EmuModule> := []; none + none == none
    ensures var none: seq<EmuThread> := []; none + none == none
  {
  }

  lemma LoadedNothing(arch: nat)
    ensures Loaded([], arch) == []
  {
  }

  /** One context more, at the end. */
  lemma {:induction false} LoadedSnoc(cs: seq<ThreadContext>, c: ThreadContext, arch: nat)
    ensures Loaded(cs + [c], arch) == Loaded(cs, arch) + if HasRegisters(c) then [EmuOf(c, arch)] else []
    decreases |cs|
  {
    hide EmuOf, HasRegisters;
    var all := cs + [c];
    if cs == [] {
      assert all == [c] && all[1..] == [];
    } else {
      assert all[1..] == cs[1..] + [c] && all[0] == cs[0];
      LoadedSnoc(cs[1..], c, arch);
    }
  }

  lemma LoadedNext(cs: seq<ThreadContext>, i: nat, arch: nat)
    requires i < |cs|
    ensures Loaded(cs[..i + 1], arch)
            == Loaded(cs[..i], arch) + if HasRegisters(cs[i]) then [EmuOf(cs[i], arch)] else []
  {
    hide EmuOf, Loaded, HasRegisters;
    assert cs[..i + 1] == cs[..i] + [cs[i]];
    LoadedSnoc(cs[..i], cs[i], arch);
  }

  lemma OneThread(before: seq<Block>, after: seq<Block>, t: ThreadContext, arch: nat)
    requires ThreadWritable(t) && |after| == |before| + 1 && before <= after
    requires var b := after[|before|]; b.btype == THREAD_CONTEXT && b.flags == 0 && b.payload == ThreadPayload(t)
    ensures Adds(after[|before|..], arch, [EmuOf(t, arch)], [])
    ensures after[|before|..] == [after[|before|]]
    ensures after[|before|].parent == Zeros(16) ==> IsThread(after[|before|], t)
  {
    hide Adds, ThreadFits, ThreadPayload, EmuOf;
    assert after[|before|..] == [after[|before|]];
    ThreadBlockAdds(after[|before|], t, arch);
  }

  // ----------------------------------------------------------------- modules

  /** The loader's view of the modules: a path ends at its first NUL. */
  function EmuModules(ms: seq<ModuleEntry>): (r: seq<EmuModule>) {
    if ms == [] then []
    else
      var m := ms[|ms| - 1];
      EmuModules(ms[..|ms| - 1]) + [EmuModule(m.baseAddr, m.moduleSize, BeforeNul(m.path + [0]))]
  }

  lemma ModuleBlockAdds(b: Block, m: ModuleEntry, uuid: Uuid, index: Uuid, arch: nat)
    requires ModuleBlock(b, m, uuid, index)
    ensures Adds([b], arch, [], [EmuModule(m.baseAddr, m.moduleSize, BeforeNul(m.path + [0]))])
  {
    hide ModulePayload, PadBytes, ParsedModule, ModuleFits, BeforeNul;
    LoaderParses(m);
    AddsOne(b, arch);
  }

  /** A module list, or a part of it, adds its modules in order. */
  lemma {:induction false} ListAdds(
    bs: seq<Block>, ms: seq<ModuleEntry>, uuids: seq<Uuid>, index: Uuid, n: nat, arch: nat)
    requires |ms| == |uuids| && n <= |ms| && ListBlocks(bs, ms, uuids, index, n)
    ensures Adds(bs, arch, [], EmuModules(ms[..n]))
    decreases n
  {
    hide IndexRows, RowsFit, ModuleFits, ModulePayload, Adds, LE;
    if n == 0 {
      AddsOne(bs[0], arch);
      assert bs == [bs[0]];
      assert ms[..0] == [];
    } else {
      var m := ms[n - 1];
      assert ModuleBlock(bs[1 + (n - 1)], ms[n - 1], uuids[n - 1], index);
      hide ModuleBlock, IndexBlock;
      assert ListBlocks(bs[..n], ms, uuids, index, n - 1);
      ListAdds(bs[..n], ms, uuids, index, n - 1, arch);
      ModuleBlockAdds(bs[n], m, uuids[n - 1], index, arch);
      AddsAppend(bs[..n], [bs[n]], arch, [], EmuModules(ms[..n - 1]), [],
                 [EmuModule(m.baseAddr, m.moduleSize, BeforeNul(m.path + [0]))]);
      NoneTwice();
      assert bs == bs[..n] + [bs[n]];
      assert ms[..n][..n - 1] == ms[..n - 1];
    }
  }

  // ------------------------------------------------------------ other tables

  /** A block of a type the loader passes over: process identity, system context and its tables. */
  datatype Table = Table(btype: U16, payload: Bytes, parent: Option<Uuid>)

  predicate Inert(t: Table) {
    t.btype != MEMORY_REGION && t.btype != THREAD_CONTEXT && t.btype != MODULE_ENTRY && t.btype != END_OF_CAPTURE
  }

  ghost predicate IsTable(b: Block, t: Table) {
    && b.btype == t.btype && b.flags == 0 && b.payload == t.payload
    && b.parent == if t.parent.Some? then t.parent.value else Zeros(16)
  }

  /** One block for each table, in order. */
  ghost predicate TableBlocks(bs: seq<Block>, ts: seq<Table>) {
    |bs| == |ts| && forall i :: 0 <= i < |bs| ==> IsTable(bs[i], ts[i])
  }

  method WriteTable(w: MSLWriter, t: Table, uuid: Uuid, ghost arch: nat) returns (e: Option<WriteError>)
    requires w.Valid() && Inert(t)
    modifies w`output, w`blockIndex, w`log, w.chain, w.encryptor
    ensures w.Valid() && w.IsSealed() == old(w.IsSealed()) && old(w.log) <= w.log
    ensures Adds(w.log[|old(w.log)|..], arch, [], [])
    ensures e.None? <==> PayloadFits(t.payload) && !old(w.IsSealed())
    ensures if e.None? then TableBlocks(w.log[|old(w.log)|..], [t]) else w.log == old(w.log)
  {
    hide MSLWriter.Valid, MSLWriter.IsSealed, Adds, Writable, PayloadFits;
    PlainWritable(w.codec, Block(t.btype, 0, t.payload, uuid, if t.parent.Some? then t.parent.value else Zeros(16),
                                 if w.enc.Some? then Zeros(32) else w.chain.prevHash));
    ghost var before := w.log;
    var r := w.WriteBlock(t.btype, t.payload, 0, t.parent, None, uuid);
    AddsNothing(arch);
    if r.Err? {
      assert w.log[|before|..] == [];
      return Some(r.error);
    }
    var b := before + [w.log[|before|]];
    assert w.log[|before|..] == [w.log[|before|]];
    AddsOne(w.log[|before|], arch);
    e := None;
  }

  method WriteTables(w: MSLWriter, ts: seq<Table>, uuids: nat -> Uuid, ghost arch: nat) returns (e: Option<WriteError>)
    requires w.Valid() && forall i :: 0 <= i < |ts| ==> Inert(ts[i])
    modifies w`output, w`blockIndex, w`log, w.chain, w.encryptor
    ensures w.Valid() && w.IsSealed() == old(w.IsSealed()) && old(w.log) <= w.log
    ensures Adds(w.log[|old(w.log)|..], arch, [], [])
    ensures e.None? <==> forall i :: 0 <= i < |ts| ==> PayloadFits(ts[i].payload) && !old(w.IsSealed())
    ensures e.None? ==> TableBlocks(w.log[|old(w.log)|..], ts)
  {
    hide MSLWriter.Valid, MSLWriter.IsSealed, Adds, PayloadFits, Inert, TableBlocks;
    AddsNothing(arch);
    NoTables(ts);
    assert w.log[|w.log|..] == [];
    for i := 0 to |ts|
      invariant w.Valid() && w.IsSealed() == old(w.IsSealed()) && old(w.log) <= w.log
      invariant Adds(w.log[|old(w.log)|..], arch, [], [])
      invariant forall j :: 0 <= j < i ==> PayloadFits(ts[j].payload) && !old(w.IsSealed())
      invariant TableBlocks(w.log[|old(w.log)|..], ts[..i])
    {
      ghost var before := w.log;
      e := WriteTable(w, ts[i], uuids(i), arch);
      LogTail(old(w.log), before, w.log);
      AddsAppend(before[|old(w.log)|..], w.log[|before|..], arch, [], [], [], []);
      NoneTwice();
      if e.Some? {
        return e;
      }
      TableBlocksNext(before[|old(w.log)|..], w.log[|before|..], ts, i);
    }
    assert ts[..|ts|] == ts;
    e := None;
  }

  lemma NoTables(ts: seq<Table>)
    ensures TableBlocks([], ts[..0])
  {
  }

  lemma TableBlocksNext(bs: seq<Block>, one: seq<Block>, ts: seq<Table>, i: nat)
    requires i < |ts| && TableBlocks(bs, ts[..i]) && TableBlocks(one, [ts[i]])
    ensures TableBlocks(bs + one, ts[..i + 1])
  {
    hide IsTable;
  }

  // ------------------------------------------------------------- all of them

  /** What `acquire` has collected by the time it writes. */
  datatype Collected = Collected(
    identity: Table, modules: seq<ModuleEntry>, moduleUuids: seq<Uuid>, indexUuid: Uuid, tables: seq<Table>,
    contexts: seq<ThreadContext>)

  predicate CollectedOk(c: Collected) {
    && Inert(c.identity) && |c.modules| == |c.moduleUuids|
    && forall i :: 0 <= i < |c.tables| ==> Inert(c.tables[i])
  }

  /** Everything collected can be written. */
  predicate AllFits(c: Collected)
    requires CollectedOk(c)
  {
    && PayloadFits(c.identity.payload)
    && (c.modules != [] ==> IndexWritable(c.modules, c.moduleUuids))
    && (forall k :: 0 <= k < |c.modules| ==> ModuleWritable(c.modules[k]))
    && (forall i :: 0 <= i < |c.tables| ==> PayloadFits(c.tables[i].payload))
    && (forall i :: 0 <= i < |c.contexts| && HasRegisters(c.contexts[i]) ==> ThreadWritable(c.contexts[i]))
  }

  /** The blocks of a module list, if there are modules. */
  function ListLen(c: Collected): (n: nat) {
    if c.modules == [] then 0 else 1 + |c.modules|
  }

  /** The identity, then the module list, then the tables. */
  ghost predicate HeadInOrder(bs: seq<Block>, c: Collected)
    requires CollectedOk(c)
  {
    var at := 1 + ListLen(c);
    && |bs| == at + |c.tables| && TableBlocks(bs[..1], [c.identity])
    && (c.modules != [] ==> ListBlocks(bs[1..at], c.modules, c.moduleUuids, c.indexUuid, |c.modules|))
    && TableBlocks(bs[at..], c.tables)
  }

  function HeadLen(c: Collected): (n: nat) {
    1 + ListLen(c) + |c.tables|
  }

  /** Everything before the regions, in order: identity, module list, tables, threads. */
  ghost predicate MetaInOrder(bs: seq<Block>, c: Collected)
    requires CollectedOk(c)
  {
    && |bs| >= HeadLen(c) && HeadInOrder(bs[..HeadLen(c)], c)
    && ThreadBlocks(bs[HeadLen(c)..], Kept(c.contexts))
  }

  lemma HeadParts(a: seq<Block>, b: seq<Block>, d: seq<Block>, c: Collected)
    requires CollectedOk(c) && TableBlocks(a, [c.identity]) && TableBlocks(d, c.tables) && |b| == ListLen(c)
    requires c.modules != [] ==> ListBlocks(b, c.modules, c.moduleUuids, c.indexUuid, |c.modules|)
    ensures HeadInOrder(a + b + d, c)
  {
    hide IsTable, ListBlocks;
    var bs := a + b + d;
    assert bs[..1] == a && bs[1..1 + |b|] == b && bs[1 + |b|..] == d;
  }

  /** Identity, module list and tables. */
  method WriteHead(w: MSLWriter, c: Collected, uuids: nat -> Uuid, ghost arch: nat)
    returns (e: Option<WriteError>, ghost modules: seq<EmuModule>)
    requires w.Valid() && !w.IsSealed() && CollectedOk(c)
    modifies w`output, w`blockIndex, w`log, w.chain, w.encryptor
    ensures w.Valid() && !w.IsSealed() && old(w.log) <= w.log
    ensures Adds(w.log[|old(w.log)|..], arch, [], modules)
    ensures e.None? ==> modules == EmuModules(c.modules)
    ensures e.None? <==> PayloadFits(c.identity.payload)
                         && (c.modules != [] ==> IndexWritable(c.modules, c.moduleUuids))
                         && (forall k :: 0 <= k < |c.modules| ==> ModuleWritable(c.modules[k]))
                         && forall i :: 0 <= i < |c.tables| ==> PayloadFits(c.tables[i].payload)
    ensures e.None? ==> HeadInOrder(w.log[|old(w.log)|..], c)
  {
    hide MSLWriter.Valid, MSLWriter.IsSealed, Adds, PayloadFits, Inert, IndexWritable, ModuleWritable, ListBlocks;
    hide EmuModules, TableBlocks, HeadInOrder;
    ghost var start := w.log;
    modules := [];
    e := WriteTable(w, c.identity, uuids(0), arch);
    if e.Some? {
      return;
    }
    NoModules();
    ghost var first := w.log;
    if c.modules != [] {
      e, modules := WriteModules(w, c, arch, w.log[|old(w.log)|..], old(w.log));
      if e.Some? {
        return;
      }
    }
    ghost var before := w.log;
    e := WriteTables(w, c.tables, (i: nat) => uuids(i + 1), arch);
    LogTail(old(w.log), before, w.log);
    AddsAppend(before[|old(w.log)|..], w.log[|before|..], arch, [], modules, [], []);
    NoneTwice();
    assert modules + [] == modules;
    if e.None? {
      LogTail(start, first, before);
      HeadParts(first[|start|..], before[|first|..], w.log[|before|..], c);
    }
  }

  lemma NoModules()
    ensures EmuModules([]) == []
  {
  }

  method WriteModules(w: MSLWriter, c: Collected, ghost arch: nat, ghost done: seq<Block>, ghost start: seq<Block>)
    returns (e: Option<WriteError>, ghost modules: seq<EmuModule>)
    requires w.Valid() && !w.IsSealed() && CollectedOk(c) && c.modules != []
    requires start <= w.log && done == w.log[|start|..] && Adds(done, arch, [], [])
    modifies w`output, w`blockIndex, w`log, w.chain, w.encryptor
    ensures w.Valid() && !w.IsSealed() && start <= w.log && old(w.log) <= w.log
    ensures Adds(w.log[|start|..], arch, [], modules)
    ensures e.None? ==> modules == EmuModules(c.modules)
    ensures e.None? <==> (&& IndexWritable(c.modules, c.moduleUuids)
                          && forall k :: 0 <= k < |c.modules| ==> ModuleWritable(c.modules[k]))
    ensures e.None? ==>
              var bs := w.log[|old(w.log)|..];
              |bs| == 1 + |c.modules| && ListBlocks(bs, c.modules, c.moduleUuids, c.indexUuid, |c.modules|)
  {
    hide MSLWriter.Valid, MSLWriter.IsSealed, Adds, PayloadFits, Inert, IndexWritable, ModuleWritable, ListBlocks;
    hide EmuModules;
    ghost var before := w.log;
    var r, n := w.WriteModuleList(c.modules, c.moduleUuids, c.indexUuid);
    modules := [];
    if w.log != before {
      modules := EmuModules(c.modules[..n]);
      ListAdds(w.log[|before|..], c.modules, c.moduleUuids, c.indexUuid, n, arch);
      LogTail(start, before, w.log);
      AddsAppend(done, w.log[|before|..], arch, [], [], [], modules);
      NoneTwice();
      assert [] + modules == modules;
    }
    if r.Err? {
      return Some(r.error), modules;
    }
    assert c.modules[..|c.modules|] == c.modules;
    ListLength(w.log[|before|..], c.modules, c.moduleUuids, c.indexUuid, n);
    e := None;
  }

  lemma ListLength(bs: seq<Block>, ms: seq<ModuleEntry>, uuids: seq<Uuid>, index: Uuid, n: nat)
    requires |ms| == |uuids| && n <= |ms| && ListBlocks(bs, ms, uuids, index, n)
    ensures |bs| == 1 + n
  {
  }

  /**
   * All blocks before the regions, in the order of `acquire`. It raises exactly when something collected
   * cannot be written; without an error the loader gets exactly the modules and the threads with registers.
   */
  method WriteMetadata(w: MSLWriter, c: Collected, uuids: nat -> Uuid, threadUuids: nat -> Uuid, ghost arch: nat)
    returns (e: Option<WriteError>, ghost threads: seq<EmuThread>, ghost modules: seq<EmuModule>)
    requires w.Valid() && !w.IsSealed() && CollectedOk(c)
    modifies w`output, w`blockIndex, w`log, w.chain, w.encryptor
    ensures w.Valid() && !w.IsSealed() && old(w.log) <= w.log
    ensures Adds(w.log[|old(w.log)|..], arch, threads, modules)
    ensures e.None? ==> threads == Loaded(c.contexts, arch) && modules == EmuModules(c.modules)
    ensures e.None? <==> AllFits(c)
    ensures e.None? ==> MetaInOrder(w.log[|old(w.log)|..], c)
  {
    hide MSLWriter.Valid, MSLWriter.IsSealed, Adds, PayloadFits, Inert, IndexWritable, ModuleWritable, ThreadWritable;
    hide Loaded, EmuModules, HasRegisters, HeadInOrder, ThreadBlocks, Kept;
    ghost var start := w.log;
    threads := [];
    e, modules := WriteHead(w, c, uuids, arch);
    if e.Some? {
      return;
    }
    ghost var before := w.log;
    ghost var n: nat;
    e, n := WriteThreads(w, c.contexts, threadUuids, arch);
    threads := Loaded(c.contexts[..n], arch);
    LogTail(old(w.log), before, w.log);
    AddsAppend(before[|old(w.log)|..], w.log[|before|..], arch, [], modules, threads, []);
    assert [] + threads == threads && modules + [] == modules;
    assert c.contexts[..|c.contexts|] == c.contexts;
    if e.None? {
      HeadLength(before[|start|..], c);
      assert w.log[|start|..][..HeadLen(c)] == before[|start|..];
      assert w.log[|start|..][HeadLen(c)..] == w.log[|before|..];
    }
  }

  lemma HeadLength(bs: seq<Block>, c: Collected)
    requires CollectedOk(c) && HeadInOrder(bs, c)
    ensures |bs| == HeadLen(c)
  {
  }
}

/** The acquisition loop over the target's ranges, its counters, and the slice it leaves. */
module Engine {
  import opened ByteStrings
  import Bits
  import opened Integrity
  import opened Compression
  import opened PageMap
  import opened MemoryRegions
  import opened Acquisition
  import opened RegionFidelity
  import opened CaptureLaw
  import opened Blocks
  import opened BlockStream
  import opened Threads
  import opened Modules
  import opened Writer
  import opened SliceFile
  import opened Loader
  import opened Metadata
  import opened Sums

  datatype MemoryRange = MemoryRange(base: nat, size: nat, protection: U8, regionType: U8)

  type Reason = string

  /** Counters of one acquisition. */
  datatype Stats = Stats(
    regionsCaptured: nat, regionsSkipped: nat, skipReasons: map<Reason, nat>, bytesAttempted: nat, bytesCaptured: nat,
    pagesCaptured: nat, pagesFailed: nat, rwxRegions: nat)

  /** A range that was read, and the moment its reading began. */
  datatype Capture = Capture(range: MemoryRange, clock: nat, now: U64)

  predicate IsRwx(protection: U8) {
    protection % 8 == 7
  }

  /** Readable, writable and executable: bits 0, 1 and 2. */
  lemma RwxBits(protection: U8)
    ensures IsRwx(protection) <==> protection % 2 == 1 && protection / 2 % 2 == 1 && protection / 4 % 2 == 1
  {
  }

  /** The region built for a capture. */
  function RegionFor(t: Target, cap: Capture, pageSize: nat, maxChunk: nat): (m: MemoryRegion)
    requires pageSize > 0 && maxChunk > 0
  {
    BuildRegion(RegionReads(t, cap.clock, cap.range.base, cap.range.size, pageSize, maxChunk),
                cap.range.base, pageSize, cap.range.protection, cap.range.regionType, cap.now)
  }

  function CountCaptured(states: seq<PageState>): (n: nat)
    ensures n <= |states|
  {
    if states == [] then 0 else (if states[0].CAPTURED? then 1 else 0) + CountCaptured(states[1..])
  }

  /** The pages that were captured. */
  function CapturedAmong(states: seq<PageState>): (pages: set<nat>) {
    set i: nat | i < |states| && states[i].CAPTURED?
  }

  lemma {:induction false} CountCapturedMeans(states: seq<PageState>)
    ensures CountCaptured(states) == |CapturedAmong(states)|
    decreases |states|
  {
    if states != [] {
      CountCapturedMeans(states[1..]);
      CapturedNext(states);
    }
  }

  lemma CapturedNext(states: seq<PageState>)
    requires states != []
    ensures |CapturedAmong(states)| == |CapturedAmong(states[1..])| + if states[0].CAPTURED? then 1 else 0
  {
    var all, tail := CapturedAmong(states), CapturedAmong(states[1..]);
    ShiftedSize(tail, all - {0});
    if states[0].CAPTURED? {
      assert all == all - {0} + {0};
    } else {
      assert all == all - {0};
    }
  }

  /** Sets that differ by one in every element have the same size. */
  lemma {:induction false} ShiftedSize(a: set<nat>, b: set<nat>)
    requires (forall i :: i in a ==> i + 1 in b) && forall i :: i in b ==> i > 0 && i - 1 in a
    ensures |a| == |b|
    decreases |a|
  {
    if a == {} {
      assert forall i :: i !in b;
    } else {
      var i :| i in a;
      ShiftedSize(a - {i}, b - {i + 1});
    }
  }

  /** The writer takes the region of a capture. */
  predicate Takes(c: Codec, algo: CompAlgo, t: Target, cap: Capture, pageSize: nat, maxChunk: nat)
    requires pageSize > 0 && maxChunk > 0
  {
    RegionWritable(c, algo, RegionFor(t, cap, pageSize, maxChunk))
  }

  ghost predicate AllTaken(caps: seq<Capture>, c: Codec, algo: CompAlgo, t: Target, pageSize: nat, maxChunk: nat)
    requires pageSize > 0 && maxChunk > 0
  {
    forall k :: 0 <= k < |caps| ==> Takes(c, algo, t, caps[k], pageSize, maxChunk)
  }

  lemma NoneTaken(c: Codec, algo: CompAlgo, t: Target, pageSize: nat, maxChunk: nat)
    requires pageSize > 0 && maxChunk > 0
    ensures AllTaken([], c, algo, t, pageSize, maxChunk)
  {
  }

  lemma TakenNext(caps: seq<Capture>, cap: Capture, c: Codec, algo: CompAlgo, t: Target, pageSize: nat, maxChunk: nat)
    requires pageSize > 0 && maxChunk > 0 && AllTaken(caps, c, algo, t, pageSize, maxChunk)
             && Takes(c, algo, t, cap, pageSize, maxChunk)
    ensures AllTaken(caps + [cap], c, algo, t, pageSize, maxChunk)
  {
    hide Takes;
  }

  /** A range whose block is short enough however much of it is read, in chunks that split no page. */
  ghost predicate Modest(r: MemoryRange, pageSize: nat, maxChunk: nat) {
    && Representable(r.base, r.size, pageSize) && maxChunk > 0 && (r.size <= maxChunk || maxChunk % pageSize == 0)
    && Pad8(32 + Pad8((Ceil(r.size, pageSize) + 3) / 4) + r.size) <= MAX_PAYLOAD
  }

  lemma ModestRead(t: Target, cap: Capture, pageSize: nat, maxChunk: nat)
    requires Modest(cap.range, pageSize, maxChunk)
    ensures var m := RegionFor(t, cap, pageSize, maxChunk);
            RegionCheck(m).None? && |Join(m.pageDataChunks)| <= cap.range.size
            && |m.pageStates| == Ceil(cap.range.size, pageSize)
  {
    hide RegionReads, RegionCheck, Faithful, Pad8, Ceil;
    var r := RegionReads(t, cap.clock, cap.range.base, cap.range.size, pageSize, maxChunk);
    BuiltRegionAccepted(t, cap.clock, cap.range.base, cap.range.size, pageSize, maxChunk, cap.range.protection,
                        cap.range.regionType, cap.now);
    RegionReadsFaithful(t, cap.clock, cap.range.base, cap.range.size, pageSize, maxChunk);
    FaithfulSize(t, cap.range.base, cap.range.size, pageSize, r);
    ReadsWithinSize(t, cap.clock, cap.range.base, cap.range.size, pageSize, maxChunk);
  }

  /** Without compression the writer takes every modest range, whatever is read of it. */
  lemma ModestTaken(c: Codec, t: Target, cap: Capture, pageSize: nat, maxChunk: nat)
    requires Modest(cap.range, pageSize, maxChunk)
    ensures Takes(c, NONE, t, cap, pageSize, maxChunk)
  {
    hide RegionCheck, RegionFor, CompressedFits, Pad8, Ceil;
    var m := RegionFor(t, cap, pageSize, maxChunk);
    ModestRead(t, cap, pageSize, maxChunk);
    PlainRegion(c, m, cap.range.size);
    PadMonotone(|RegionPayload(m)|, 32 + Pad8((Ceil(cap.range.size, pageSize) + 3) / 4) + cap.range.size);
  }

  lemma PadMonotone(a: nat, b: nat)
    requires a <= b
    ensures Pad8(a) <= Pad8(b)
  {
  }

  lemma FaithfulSize(t: Target, base: int, size: nat, pageSize: nat, r: Reads)
    requires pageSize > 0 && Faithful(t, base, size, pageSize, r)
    ensures r.dataSize == |Join(r.chunks)| && |r.states| == Ceil(size, pageSize)
  {
  }

  lemma PlainRegion(c: Codec, m: MemoryRegion, size: nat)
    requires RegionCheck(m).None? && |Join(m.pageDataChunks)| <= size
    ensures |RegionPayload(m)| <= 32 + Pad8((|m.pageStates| + 3) / 4) + size
    ensures RegionWritable(c, NONE, m) <==> Pad8(|RegionPayload(m)|) <= MAX_PAYLOAD
  {
    hide RegionHeader, EncodedMap, RegionCheck;
    PlainWritable(c, Block(0, CompFlags(NONE), RegionPayload(m), Zeros(16), Zeros(16), Zeros(32)));
  }

  /** The block a capture leaves. */
  ghost predicate IsRegionBlock(b: Block, t: Target, cap: Capture, pageSize: nat, maxChunk: nat, flags: U16)
    requires pageSize > 0 && maxChunk > 0
  {
    && b.btype == MEMORY_REGION && b.flags == flags
    && RegionCheck(RegionFor(t, cap, pageSize, maxChunk)).None?
    && b.payload == RegionPayload(RegionFor(t, cap, pageSize, maxChunk))
  }

  // ------------------------------------------------------------ accounting

  type Pos = n: nat | n > 0 witness 1

  /**
   * One run of the region loop: the target, the moment the loop begins, the filter, the page and chunk sizes, the
   * timestamps.
   */
  datatype Sweep = Sweep(
    target: Target, start: nat, skip: MemoryRange -> Option<Reason>, pageSize: Pos, maxChunk: Pos, now: nat -> U64)

  /** What is read of a capture. */
  function ReadsOf(p: Sweep, cap: Capture): (r: Reads) {
    RegionReads(p.target, cap.clock, cap.range.base, cap.range.size, p.pageSize, p.maxChunk)
  }

  /**
   * The moment the loop comes to the range behind `done`: a test of the abort flag for each range, and the reads of
   * those that pass.
   */
  function ClockAfter(p: Sweep, done: seq<MemoryRange>): (clock: nat) {
    if done == [] then p.start
    else
      var n := |done| - 1;
      var clock := ClockAfter(p, done[..n]);
      if p.skip(done[n]).Some? then clock + 1 else ReadsOf(p, CaptureAt(p, done[n], n, clock)).clock
  }

  /** The capture of range number `i` when the loop comes to it at `clock`: read from right after the abort test on. */
  function CaptureAt(p: Sweep, r: MemoryRange, i: nat, clock: nat): (cap: Capture) {
    Capture(r, clock + 1, p.now(i))
  }

  /** The captures made of `done`: the ranges the filter lets pass, in order, each at the moment it is really read. */
  function CapturesIn(p: Sweep, done: seq<MemoryRange>): (caps: seq<Capture>) {
    if done == [] then []
    else
      var n := |done| - 1;
      CapturesIn(p, done[..n])
      + if p.skip(done[n]).Some? then [] else [CaptureAt(p, done[n], n, ClockAfter(p, done[..n]))]
  }

  lemma SweepNext(p: Sweep, ranges: seq<MemoryRange>, i: nat)
    requires i < |ranges|
    ensures var done, clock := ranges[..i], ClockAfter(p, ranges[..i]);
            var cap := CaptureAt(p, ranges[i], i, clock);
            && ClockAfter(p, ranges[..i + 1]) == (if p.skip(ranges[i]).Some? then clock + 1 else ReadsOf(p, cap).clock)
            && CapturesIn(p, ranges[..i + 1]) == CapturesIn(p, done) + (if p.skip(ranges[i]).Some? then [] else [cap])
            && ReasonsIn(p, ranges[..i + 1])
               == ReasonsIn(p, done) + (if p.skip(ranges[i]).Some? then [p.skip(ranges[i]).value] else [])
  {
    hide ReadsOf;
    assert ranges[..i + 1][..i] == ranges[..i];
  }

  function Total(caps: seq<Capture>, amount: Capture -> nat): (n: nat) {
    if caps == [] then 0 else Total(caps[..|caps| - 1], amount) + amount(caps[|caps| - 1])
  }

  lemma TotalAppend(caps: seq<Capture>, cap: Capture, amount: Capture -> nat)
    ensures Total(caps + [cap], amount) == Total(caps, amount) + amount(cap)
  {
    assert (caps + [cap])[..|caps|] == caps;
  }

  function Size(): Capture -> nat {
    (cap: Capture) => cap.range.size
  }

  function DataSize(p: Sweep): Capture -> nat {
    (cap: Capture) => ReadsOf(p, cap).dataSize
  }

  function CapturedPages(p: Sweep): Capture -> nat {
    (cap: Capture) => CountCaptured(ReadsOf(p, cap).states)
  }

  function FailedPages(p: Sweep): Capture -> nat {
    (cap: Capture) => |ReadsOf(p, cap).states| - CountCaptured(ReadsOf(p, cap).states)
  }

  function Pages(p: Sweep): Capture -> nat {
    (cap: Capture) => Ceil(cap.range.size, p.pageSize)
  }

  function Rwx(): Capture -> nat {
    (cap: Capture) => if IsRwx(cap.range.protection) then 1 else 0
  }

  /** The reasons the filter gives, in order. */
  function ReasonsIn(p: Sweep, done: seq<MemoryRange>): (r: seq<Reason>) {
    if done == [] then []
    else
      var n := |done| - 1;
      ReasonsIn(p, done[..n]) + if p.skip(done[n]).Some? then [p.skip(done[n]).value] else []
  }

  /** `m` counts how often each reason occurs, and holds no other. */
  ghost predicate CountsOf(m: map<Reason, nat>, reasons: seq<Reason>) {
    forall r :: (r in m <==> r in reasons) && (r in m ==> m[r] == multiset(reasons)[r])
  }

  lemma CountsNext(m: map<Reason, nat>, reasons: seq<Reason>, r: Reason)
    requires CountsOf(m, reasons)
    ensures CountsOf(Bump(m, r), reasons + [r])
  {
    if r !in m {
      assert r !in multiset(reasons);
    }
  }

  /** `d[reason] = d.get(reason, 0) + 1`. */
  function Bump(m: map<Reason, nat>, r: Reason): (n: map<Reason, nat>) {
    m[r := (if r in m then m[r] else 0) + 1]
  }

  lemma SumBump(m: map<Reason, nat>, r: Reason)
    ensures SumOver(Bump(m, r).Keys, Bump(m, r)) == SumOver(m.Keys, m) + 1
  {
    var n := Bump(m, r);
    SumRemove(n.Keys, n, r);
    if r in m {
      SumRemove(m.Keys, m, r);
      assert n.Keys == m.Keys;
      SumExtends(m.Keys - {r}, m, n);
    } else {
      assert n.Keys - {r} == m.Keys;
      SumExtends(m.Keys, m, n);
    }
  }

  lemma {:induction false} TryPagesSize(t: Target, clock: nat, addr: int, rem: nat, pageSize: nat)
    requires pageSize > 0
    ensures TryPages(t, clock, addr, rem, pageSize).dataSize <= rem
    decreases rem
  {
    if rem > 0 && clock < t.abortAt {
      TryPagesSize(t, clock + 2, addr + pageSize, rem - Min(pageSize, rem), pageSize);
    }
  }

  lemma {:induction false} ChunkLoopSize(
    t: Target, acc: Reads, base: int, size: nat, pageSize: nat, maxChunk: nat, offset: nat)
    requires pageSize > 0 && maxChunk > 0 && offset <= size && acc.dataSize <= offset
    ensures ChunkLoop(t, acc, base, size, pageSize, maxChunk, offset).dataSize <= size
    decreases size - offset
  {
    hide TryPages, Mark, Overlay, Ceil;
    if offset < size && acc.clock < t.abortAt {
      var chunk := Min(maxChunk, size - offset);
      TryPagesSize(t, acc.clock + 2, base + offset, chunk, pageSize);
      var acc' := ChunkStep(t, acc.(clock := acc.clock + 1), base + offset, chunk, offset / pageSize, pageSize);
      ChunkLoopSize(t, acc', base, size, pageSize, maxChunk, offset + chunk);
    }
  }

  /** A region read never counts more bytes than the range has, aligned chunks or not. */
  lemma ReadsWithinSize(t: Target, clock: nat, base: int, size: nat, pageSize: nat, maxChunk: nat)
    requires pageSize > 0 && maxChunk > 0
    ensures var r := RegionReads(t, clock, base, size, pageSize, maxChunk);
            r.dataSize <= size && |r.states| == Ceil(size, pageSize)
  {
    TryPagesSize(t, clock + 1, base, size, pageSize);
    TryPagesCount(t, clock + 1, base, size, pageSize);
    ChunkLoopSize(t, Reads(Repeat(FAILED, Ceil(size, pageSize)), [], 0, clock), base, size, pageSize, maxChunk, 0);
  }

  /** What every counter says after the ranges `done`, the captures made of them, and a range read but refused. */
  ghost predicate Accounted(p: Sweep, s: Stats, done: seq<MemoryRange>, caps: seq<Capture>, refused: Option<Capture>) {
    && s.regionsCaptured == |caps| && s.regionsSkipped == |done| - |caps|
    && CountsOf(s.skipReasons, ReasonsIn(p, done)) && SumOver(s.skipReasons.Keys, s.skipReasons) == s.regionsSkipped
    && s.bytesAttempted == Total(caps, Size()) + (if refused.Some? then refused.value.range.size else 0)
    && s.bytesCaptured == Total(caps, DataSize(p)) && s.bytesCaptured <= Total(caps, Size())
    && s.pagesCaptured == Total(caps, CapturedPages(p)) && s.pagesFailed == Total(caps, FailedPages(p))
    && s.pagesCaptured + s.pagesFailed == Total(caps, Pages(p))
    && s.rwxRegions == Total(caps, Rwx())
  }

  /** No abort was seen at the ranges before `i`. */
  ghost predicate NotAborted(p: Sweep, ranges: seq<MemoryRange>, i: nat)
    requires i <= |ranges|
  {
    forall j :: 0 <= j < i ==> ClockAfter(p, ranges[..j]) < p.target.abortAt
  }

  /**
   * How the region loop ends: all ranges handled, the abort flag found up at the next one, or that one read and
   * refused by the writer; `clock` is the moment of the end.
   */
  ghost predicate Ended(p: Sweep, ranges: seq<MemoryRange>, handled: nat, refused: Option<Capture>, clock: nat)
    requires handled <= |ranges|
  {
    var at := ClockAfter(p, ranges[..handled]);
    && NotAborted(p, ranges, handled)
    && if refused.Some? then
         && handled < |ranges| && p.skip(ranges[handled]).None? && at < p.target.abortAt
         && refused.value == CaptureAt(p, ranges[handled], handled, at) && clock == ReadsOf(p, refused.value).clock
       else if handled < |ranges| then at >= p.target.abortAt && clock == at + 1
       else clock == at
  }

  /** A run of the region loop, whole: where it stopped, when, what it captured and every counter. */
  ghost predicate Swept(
    p: Sweep, ranges: seq<MemoryRange>, handled: nat, caps: seq<Capture>, refused: Option<Capture>, clock: nat,
    s: Stats) {
    && handled <= |ranges| && Ended(p, ranges, handled, refused, clock)
    && caps == CapturesIn(p, ranges[..handled]) && Accounted(p, s, ranges[..handled], caps, refused)
  }

  /** The ranges the filter lets pass, in order. */
  ghost function Passing(ranges: seq<MemoryRange>, skip: MemoryRange -> Option<Reason>): (r: seq<MemoryRange>) {
    if ranges == [] then []
    else
      var n := |ranges| - 1;
      Passing(ranges[..n], skip) + if skip(ranges[n]).None? then [ranges[n]] else []
  }

  ghost predicate CapturesOf(caps: seq<Capture>, ranges: seq<MemoryRange>) {
    |caps| == |ranges| && forall i :: 0 <= i < |caps| ==> caps[i].range == ranges[i]
  }

  /** Every range that passes is captured, in order, and each capture begins after all earlier ones. */
  lemma {:induction false} CapturesPass(p: Sweep, done: seq<MemoryRange>)
    ensures CapturesOf(CapturesIn(p, done), Passing(done, p.skip))
    ensures forall i, j :: 0 <= i < j < |CapturesIn(p, done)| ==>
              CapturesIn(p, done)[i].clock < CapturesIn(p, done)[j].clock
    ensures forall i :: 0 <= i < |CapturesIn(p, done)| ==> p.start < CapturesIn(p, done)[i].clock <= ClockAfter(p, done)
    decreases |done|
  {
    hide RegionReads;
    if done != [] {
      var n := |done| - 1;
      CapturesPass(p, done[..n]);
      SweepForward(p, done[..n]);
      ReadsForward(p.target, ClockAfter(p, done[..n]) + 1, done[n].base, done[n].size, p.pageSize, p.maxChunk);
    }
  }

  lemma {:induction false} SweepForward(p: Sweep, done: seq<MemoryRange>)
    ensures p.start <= ClockAfter(p, done)
    decreases |done|
  {
    hide RegionReads;
    if done != [] {
      var n := |done| - 1;
      SweepForward(p, done[..n]);
      ReadsForward(p.target, ClockAfter(p, done[..n]) + 1, done[n].base, done[n].size, p.pageSize, p.maxChunk);
    }
  }

  lemma {:induction false} ChunksForward(
    t: Target, acc: Reads, base: int, size: nat, pageSize: nat, maxChunk: nat, offset: nat)
    requires pageSize > 0 && maxChunk > 0
    ensures ChunkLoop(t, acc, base, size, pageSize, maxChunk, offset).clock >= acc.clock
    decreases size - offset
  {
    hide TryPages, Mark, Overlay, Ceil;
    if offset < size && acc.clock < t.abortAt {
      var chunk := Min(maxChunk, size - offset);
      PagesLater(t, acc.clock + 2, base + offset, chunk, pageSize);
      var acc' := ChunkStep(t, acc.(clock := acc.clock + 1), base + offset, chunk, offset / pageSize, pageSize);
      ChunksForward(t, acc', base, size, pageSize, maxChunk, offset + chunk);
    }
  }

  /** Reading never turns the clock back. */
  lemma ReadsForward(t: Target, clock: nat, base: int, size: nat, pageSize: nat, maxChunk: nat)
    requires pageSize > 0 && maxChunk > 0
    ensures RegionReads(t, clock, base, size, pageSize, maxChunk).clock >= clock
  {
    hide TryPages, ChunkLoop, Ceil;
    PagesLater(t, clock + 1, base, size, pageSize);
    ChunksForward(t, Reads(Repeat(FAILED, Ceil(size, pageSize)), [], 0, clock), base, size, pageSize, maxChunk, 0);
  }

  ghost predicate RegionBlocks(bs: seq<Block>, t: Target, caps: seq<Capture>, pageSize: nat, maxChunk: nat, flags: U16)
    requires pageSize > 0 && maxChunk > 0
  {
    |bs| == |caps| && forall k :: 0 <= k < |bs| ==> IsRegionBlock(bs[k], t, caps[k], pageSize, maxChunk, flags)
  }

  /**
   * The region loop of `acquire`, over the ranges already put in order. `skip` is the region filter.
   * The loop ends early when the abort flag is found up or when the writer raises; it raises exactly at the
   * first range that passes the filter and whose region, as read, the writer does not take.
   */
  method CaptureRegions(
    reader: RegionReader, w: MSLWriter, ranges: seq<MemoryRange>, skip: MemoryRange -> Option<Reason>, pageSize: nat,
    now: nat -> U64, uuids: nat -> Uuid)
    returns (s: Stats, raised: Option<WriteError>, ghost handled: nat, ghost caps: seq<Capture>,
             ghost refused: Option<Capture>)
    requires w.Valid() && pageSize > 0 && reader.maxChunk > 0
    requires reader != w as object && reader != w.chain as object && reader != w.encryptor as object?
    modifies reader`clock, w`output, w`blockIndex, w`log, w.chain, w.encryptor
    ensures w.Valid() && w.IsSealed() == old(w.IsSealed())
    ensures raised.Some? <==> refused.Some?
    ensures refused.Some? ==>
              old(w.IsSealed()) || !Takes(w.codec, w.compAlgo, reader.target, refused.value, pageSize, reader.maxChunk)
    ensures AllTaken(caps, w.codec, w.compAlgo, reader.target, pageSize, reader.maxChunk)
    ensures caps != [] ==> !old(w.IsSealed())
    ensures var p := Sweep(reader.target, old(reader.clock), skip, pageSize, reader.maxChunk, now);
            Swept(p, ranges, handled, caps, refused, reader.clock, s)
    ensures |w.log| == |old(w.log)| + |caps| && w.log[..|old(w.log)|] == old(w.log)
    ensures RegionBlocks(w.log[|old(w.log)|..], reader.target, caps, pageSize, reader.maxChunk, CompFlags(w.compAlgo))
  {
    hide MSLWriter.Valid, MSLWriter.IsSealed;
    hide Accounted, RegionBlocks, IsRegionBlock, Bump, Stream, Chained, AllWritable, Takes, AllTaken;
    hide CapturesIn, ClockAfter, RegionReads, NotAborted, CountCaptured;
    ghost var p := Sweep(reader.target, reader.clock, skip, pageSize, reader.maxChunk, now);
    NoneTaken(w.codec, w.compAlgo, reader.target, pageSize, reader.maxChunk);
    refused := None;
    s, raised, handled, caps := Stats(0, 0, map[], 0, 0, 0, 0, 0), None, 0, [];
    NothingYet(p, ranges, w.log, CompFlags(w.compAlgo));
    var i := 0;
    while i < |ranges|
      invariant w.Valid() && w.IsSealed() == old(w.IsSealed())
      invariant handled == i <= |ranges| && caps == CapturesIn(p, ranges[..i])
                && reader.clock == ClockAfter(p, ranges[..i])
      invariant NotAborted(p, ranges, i)
      invariant Accounted(p, s, ranges[..i], caps, None) && raised.None? && refused.None?
      invariant AllTaken(caps, w.codec, w.compAlgo, reader.target, pageSize, reader.maxChunk)
      invariant caps != [] ==> !old(w.IsSealed())
      invariant |w.log| == |old(w.log)| + |caps| && w.log[..|old(w.log)|] == old(w.log)
      invariant RegionBlocks(w.log[|old(w.log)|..], reader.target, caps, pageSize, reader.maxChunk,
                             CompFlags(w.compAlgo))
    {
      var aborted := reader.IsAborted();
      if aborted {
        break;
      }
      NotAbortedNext(p, ranges, i);
      SweepNext(p, ranges, i);
      var r := ranges[i];
      var reason := skip(r);
      if reason.Some? {
        AccountSkip(p, s, ranges, i, caps);
        s := s.(regionsSkipped := s.regionsSkipped + 1, skipReasons := Bump(s.skipReasons, reason.value));
      } else {
        ghost var s0, cap, before := s, Capture(r, reader.clock, now(i)), w.log;
        s := s.(bytesAttempted := s.bytesAttempted + r.size);
        var e;
        s, e := CaptureOne(reader, w, r, pageSize, now(i), uuids(i), s);
        if e.Some? {
          AccountRefused(p, s0, ranges[..i], caps, cap);
          raised, refused := e, Some(cap);
          break;
        }
        AccountCapture(p, s0, ranges, i, caps, cap);
        LogGrows(old(w.log), before, w.log, reader.target, caps, cap, pageSize, reader.maxChunk, CompFlags(w.compAlgo));
        TakenNext(caps, cap, w.codec, w.compAlgo, reader.target, pageSize, reader.maxChunk);
        caps := caps + [cap];
      }
      i := i + 1;
      handled := i;
    }
  }

  /** The counters after a range has been read and its block written. */
  function AfterCapture(s: Stats, r: MemoryRange, got: Reads): (n: Stats) {
    var captured := CountCaptured(got.states);
    s.(regionsCaptured := s.regionsCaptured + 1, bytesCaptured := s.bytesCaptured + got.dataSize,
       pagesCaptured := s.pagesCaptured + captured, pagesFailed := s.pagesFailed + (|got.states| - captured),
       rwxRegions := s.rwxRegions + if IsRwx(r.protection) then 1 else 0)
  }

  /** Read one range and write its block, exactly if the writer takes the region that was read. */
  method CaptureOne(reader: RegionReader, w: MSLWriter, r: MemoryRange, pageSize: nat, now: U64, uuid: Uuid, s0: Stats)
    returns (s: Stats, e: Option<WriteError>)
    requires w.Valid() && pageSize > 0 && reader.maxChunk > 0
    requires reader != w as object && reader != w.chain as object && reader != w.encryptor as object?
    modifies reader`clock, w`output, w`blockIndex, w`log, w.chain, w.encryptor
    ensures w.Valid() && w.IsSealed() == old(w.IsSealed())
    ensures var cap := Capture(r, old(reader.clock), now);
            e.None? <==> !old(w.IsSealed()) && Takes(w.codec, w.compAlgo, reader.target, cap, pageSize, reader.maxChunk)
    ensures e.Some? ==> s == s0 && w.log == old(w.log)
    ensures e.None? ==>
              && |w.log| == |old(w.log)| + 1 && w.log[..|old(w.log)|] == old(w.log)
              && var b, cap := w.log[|old(w.log)|], Capture(r, old(reader.clock), now);
                 IsRegionBlock(b, reader.target, cap, pageSize, reader.maxChunk, CompFlags(w.compAlgo))
    ensures var got := RegionReads(reader.target, old(reader.clock), r.base, r.size, pageSize, reader.maxChunk);
            reader.clock == got.clock && (e.None? ==> s == AfterCapture(s0, r, got))
  {
    hide RegionPayload, RegionCheck, CompressedFits, BlockBytes, CountCaptured, Stream, Chained, RegionReads;
    var region, dataSize := reader.ReadRegion(r.base, r.size, r.protection, r.regionType, pageSize, now);
    var written := w.WriteMemoryRegion(region, None, uuid);
    if written.Err? {
      return s0, Some(written.error);
    }
    var captured := CountCaptured(region.pageStates);
    s := s0.(regionsCaptured := s0.regionsCaptured + 1,
             bytesCaptured := s0.bytesCaptured + dataSize,
             pagesCaptured := s0.pagesCaptured + captured,
             pagesFailed := s0.pagesFailed + (|region.pageStates| - captured),
             rwxRegions := s0.rwxRegions + if IsRwx(r.protection) then 1 else 0);
    e := None;
  }

  lemma NothingYet(p: Sweep, ranges: seq<MemoryRange>, log: seq<Block>, flags: U16)
    ensures Accounted(p, Stats(0, 0, map[], 0, 0, 0, 0, 0), ranges[..0], [], None)
    ensures CapturesIn(p, ranges[..0]) == [] && ClockAfter(p, ranges[..0]) == p.start && NotAborted(p, ranges, 0)
    ensures log[..|log|] == log && RegionBlocks(log[|log|..], p.target, [], p.pageSize, p.maxChunk, flags)
  {
    var m: map<Reason, nat> := map[];
    assert m.Keys == {} && ranges[..0] == [];
  }

  lemma NotAbortedNext(p: Sweep, ranges: seq<MemoryRange>, i: nat)
    requires i < |ranges| && NotAborted(p, ranges, i) && ClockAfter(p, ranges[..i]) < p.target.abortAt
    ensures NotAborted(p, ranges, i + 1)
  {
    hide ClockAfter;
  }

  lemma AccountSkip(p: Sweep, s: Stats, ranges: seq<MemoryRange>, i: nat, caps: seq<Capture>)
    requires i < |ranges| && p.skip(ranges[i]).Some? && Accounted(p, s, ranges[..i], caps, None)
    ensures var n := s.(regionsSkipped := s.regionsSkipped + 1,
                        skipReasons := Bump(s.skipReasons, p.skip(ranges[i]).value));
            Accounted(p, n, ranges[..i + 1], caps, None)
  {
    hide SumOver, Bump, CountsOf, ReasonsIn, CapturesIn, ClockAfter, Total;
    SweepNext(p, ranges, i);
    SumBump(s.skipReasons, p.skip(ranges[i]).value);
    CountsNext(s.skipReasons, ReasonsIn(p, ranges[..i]), p.skip(ranges[i]).value);
  }

  lemma AccountRefused(p: Sweep, s: Stats, done: seq<MemoryRange>, caps: seq<Capture>, cap: Capture)
    requires Accounted(p, s, done, caps, None)
    ensures Accounted(p, s.(bytesAttempted := s.bytesAttempted + cap.range.size), done, caps, Some(cap))
  {
  }

  lemma AccountCapture(p: Sweep, s: Stats, ranges: seq<MemoryRange>, i: nat, caps: seq<Capture>, cap: Capture)
    requires i < |ranges| && p.skip(ranges[i]).None? && Accounted(p, s, ranges[..i], caps, None)
             && cap.range == ranges[i]
    ensures var n := AfterCapture(s.(bytesAttempted := s.bytesAttempted + cap.range.size), cap.range, ReadsOf(p, cap));
            Accounted(p, n, ranges[..i + 1], caps + [cap], None)
  {
    hide SumOver, Bump, CountsOf, ReasonsIn, CapturesIn, ClockAfter, Total, Ceil, RegionReads, CountCaptured;
    SweepNext(p, ranges, i);
    ReadsWithinSize(p.target, cap.clock, cap.range.base, cap.range.size, p.pageSize, p.maxChunk);
    assert ReasonsIn(p, ranges[..i + 1]) == ReasonsIn(p, ranges[..i]);
    TotalAppend(caps, cap, Size());
    TotalAppend(caps, cap, DataSize(p));
    TotalAppend(caps, cap, CapturedPages(p));
    TotalAppend(caps, cap, FailedPages(p));
    TotalAppend(caps, cap, Pages(p));
    TotalAppend(caps, cap, Rwx());
  }

  lemma {:induction false} PassedIsCaptured(p: Sweep, ranges: seq<MemoryRange>, j: nat, i: nat)
    requires j < i <= |ranges| && p.skip(ranges[j]).None?
    ensures CaptureAt(p, ranges[j], j, ClockAfter(p, ranges[..j])) in CapturesIn(p, ranges[..i])
    decreases i
  {
    hide ClockAfter, CapturesIn, ReasonsIn;
    SweepNext(p, ranges, i - 1);
    if j < i - 1 {
      PassedIsCaptured(p, ranges, j, i - 1);
    }
  }

  /** A run of the loop over an open writer: it stops at the first region, as read, that the writer does not take. */
  ghost predicate Finished(
    p: Sweep, c: Codec, algo: CompAlgo, ranges: seq<MemoryRange>, handled: nat, caps: seq<Capture>,
    refused: Option<Capture>, clock: nat, s: Stats) {
    && Swept(p, ranges, handled, caps, refused, clock, s)
    && AllTaken(caps, c, algo, p.target, p.pageSize, p.maxChunk)
    && (refused.Some? ==> !Takes(c, algo, p.target, refused.value, p.pageSize, p.maxChunk))
  }

  /** The filter, the reads, the abort flag and what the writer takes leave the loop exactly one outcome. */
  lemma OutcomeUnique(
    p: Sweep, c: Codec, algo: CompAlgo, ranges: seq<MemoryRange>,
    i: nat, caps: seq<Capture>, refused: Option<Capture>, clock: nat, s: Stats,
    j: nat, caps': seq<Capture>, refused': Option<Capture>, clock': nat, s': Stats)
    requires Finished(p, c, algo, ranges, i, caps, refused, clock, s)
    requires Finished(p, c, algo, ranges, j, caps', refused', clock', s')
    ensures i == j && caps == caps' && refused == refused' && clock == clock' && s == s'
  {
    hide ClockAfter, CapturesIn, RegionReads, SumOver, ReasonsIn, Total, Takes;
    NoEarlierEnd(p, c, algo, ranges, i, caps, refused, clock, s, j, caps', refused', clock', s');
    NoEarlierEnd(p, c, algo, ranges, j, caps', refused', clock', s', i, caps, refused, clock, s);
    SameEnd(p, c, algo, ranges, i, caps, refused, clock, s, refused', clock', s');
  }

  lemma NoEarlierEnd(
    p: Sweep, c: Codec, algo: CompAlgo, ranges: seq<MemoryRange>,
    i: nat, caps: seq<Capture>, refused: Option<Capture>, clock: nat, s: Stats,
    j: nat, caps': seq<Capture>, refused': Option<Capture>, clock': nat, s': Stats)
    requires Finished(p, c, algo, ranges, i, caps, refused, clock, s)
    requires Finished(p, c, algo, ranges, j, caps', refused', clock', s')
    ensures i >= j
  {
    hide ClockAfter, CapturesIn, RegionReads, Accounted, Takes;
    if i < j {
      assert ClockAfter(p, ranges[..i]) < p.target.abortAt;
      PassedIsCaptured(p, ranges, i, j);
    }
  }

  lemma SameEnd(
    p: Sweep, c: Codec, algo: CompAlgo, ranges: seq<MemoryRange>, i: nat, caps: seq<Capture>,
    refused: Option<Capture>, clock: nat, s: Stats, refused': Option<Capture>, clock': nat, s': Stats)
    requires Finished(p, c, algo, ranges, i, caps, refused, clock, s)
    requires Finished(p, c, algo, ranges, i, caps, refused', clock', s')
    ensures refused == refused' && clock == clock' && s == s'
  {
    hide ClockAfter, CapturesIn, RegionReads, SumOver, ReasonsIn, Total, Takes;
    forall r ensures r in s.skipReasons <==> r in s'.skipReasons {
    }
    assert s.skipReasons == s'.skipReasons;
  }

  lemma LogGrows(
    start: seq<Block>, before: seq<Block>, after: seq<Block>, t: Target, caps: seq<Capture>, cap: Capture,
    pageSize: nat, maxChunk: nat, flags: U16)
    requires pageSize > 0 && maxChunk > 0
    requires |before| == |start| + |caps| && before[..|start|] == start
    requires |after| == |before| + 1 && after[..|before|] == before
    requires RegionBlocks(before[|start|..], t, caps, pageSize, maxChunk, flags)
    requires IsRegionBlock(after[|before|], t, cap, pageSize, maxChunk, flags)
    ensures after[..|start|] == start
    ensures RegionBlocks(after[|start|..], t, caps + [cap], pageSize, maxChunk, flags)
  {
    hide IsRegionBlock;
    assert after == before + [after[|before|]];
    assert after[|start|..] == before[|start|..] + [after[|before|]];
  }

  // ------------------------------------------------------------ end to end

  /** Image region `e` holds exactly the captured pages of capture `cap`, byte for byte those of the target. */
  ghost predicate HoldsCapture(e: EmuRegion, t: Target, cap: Capture, pageSize: nat, maxChunk: nat)
    requires pageSize > 0 && maxChunk > 0
  {
    MemoryRegions.Recovered(e, RegionFor(t, cap, pageSize, maxChunk),
                            PageBytes(t.mem, cap.range.base, cap.range.size, pageSize))
  }

  /**
   * From the target to the image: a page is in the loaded region exactly when a read that could bring it succeeds
   * and no abort is seen before it, and then it is the target's page.
   */
  lemma LoadedPages(e: EmuRegion, t: Target, cap: Capture, pageSize: nat, maxChunk: nat, p: nat)
    requires pageSize > 0 && maxChunk > 0 && (cap.range.size <= maxChunk || maxChunk % pageSize == 0)
    requires HoldsCapture(e, t, cap, pageSize, maxChunk) && p < Ceil(cap.range.size, pageSize)
    ensures var a := PageAddr(cap.range.base, pageSize, p);
            && (a in e.pages <==> PageRead(t, cap.clock, cap.range.base, cap.range.size, pageSize, maxChunk, p))
            && (a in e.pages ==>
                  e.pages[a] == PadBytes(PageBytes(t.mem, cap.range.base, cap.range.size, pageSize)(p)))
  {
    hide RegionReads, PageRead, PageAddr, PadBytes, Ceil, PageBytes;
    RegionReadsLaw(t, cap.clock, cap.range.base, cap.range.size, pageSize, maxChunk, p);
    var states := RegionFor(t, cap, pageSize, maxChunk).pageStates;
    var a := PageAddr(cap.range.base, pageSize, p);
    if a in e.pages {
      var i :| 0 <= i < |states| && states[i].CAPTURED? && a == PageAddr(cap.range.base, pageSize, i);
      if i < p {
        PageAddrMonotone(cap.range.base, pageSize, i, p);
      } else if p < i {
        PageAddrMonotone(cap.range.base, pageSize, p, i);
      }
    }
  }

  /** A region the writer's checks accept is one the format represents. */
  lemma AcceptedRepresentable(t: Target, cap: Capture, pageSize: nat, maxChunk: nat)
    requires pageSize > 0 && maxChunk > 0 && RegionCheck(RegionFor(t, cap, pageSize, maxChunk)).None?
    ensures Representable(cap.range.base, cap.range.size, pageSize)
  {
    hide RegionReads, Ceil, Bits.Pow2;
    var m := RegionFor(t, cap, pageSize, maxChunk);
    assert 10 <= PageSizeLog2(m.pageSize) <= 40 && pageSize == Bits.Pow2(PageSizeLog2(m.pageSize));
    ReadsWithinSize(t, cap.clock, cap.range.base, cap.range.size, pageSize, maxChunk);
  }

  lemma CaptureRecovered(b: Block, t: Target, cap: Capture, pageSize: nat, maxChunk: nat, flags: U16)
    requires maxChunk > 0 && pageSize > 0
    requires cap.range.size <= maxChunk || maxChunk % pageSize == 0
    requires IsRegionBlock(b, t, cap, pageSize, maxChunk, flags)
    ensures ParsedRegion(PadBytes(b.payload)).Some?
    ensures HoldsCapture(ParsedRegion(PadBytes(b.payload)).value, t, cap, pageSize, maxChunk)
  {
    AcceptedRepresentable(t, cap, pageSize, maxChunk);
    PageFidelity(t, cap.clock, cap.range.base, cap.range.size, pageSize, maxChunk, cap.range.protection,
                 cap.range.regionType, cap.now);
  }

  /** No chunk splits a page of any of the captures. */
  ghost predicate AllSound(caps: seq<Capture>, pageSize: nat, maxChunk: nat) {
    && maxChunk > 0 && pageSize > 0
    && forall i :: 0 <= i < |caps| ==> caps[i].range.size <= maxChunk || maxChunk % pageSize == 0
  }

  lemma {:induction false} RegionsOfCaptures(
    bs: seq<Block>, t: Target, caps: seq<Capture>, pageSize: nat, maxChunk: nat, flags: U16, arch: nat)
    requires AllSound(caps, pageSize, maxChunk) && RegionBlocks(bs, t, caps, pageSize, maxChunk, flags)
    ensures AllParse(bs, arch)
    ensures |RegionsOf(bs, arch)| == |caps|
    ensures forall k :: 0 <= k < |caps| ==> HoldsCapture(RegionsOf(bs, arch)[k], t, caps[k], pageSize, maxChunk)
    decreases |bs|
  {
    hide ParsedRegion, HoldsCapture, Representable, RegionFor, PadBytes;
    if bs != [] {
      CaptureRecovered(bs[0], t, caps[0], pageSize, maxChunk, flags);
      hide IsRegionBlock;
      RegionsOfCaptures(bs[1..], t, caps[1..], pageSize, maxChunk, flags, arch);
      assert bs[0].btype == MEMORY_REGION;
      forall i | 0 <= i < |bs| ensures Parses(bs[i], arch) {
        assert i > 0 ==> bs[i] == bs[1..][i - 1];
      }
      forall k | 0 <= k < |caps| ensures HoldsCapture(RegionsOf(bs, arch)[k], t, caps[k], pageSize, maxChunk) {
        assert k > 0 ==> RegionsOf(bs, arch)[k] == RegionsOf(bs[1..], arch)[k - 1];
      }
    }
  }

  lemma {:induction false} NoRegions(bs: seq<Block>, arch: nat)
    requires AllParse(bs, arch) && forall i :: 0 <= i < |bs| ==> bs[i].btype != MEMORY_REGION
    ensures RegionsOf(bs, arch) == []
    decreases |bs|
  {
    hide Parses;
    if bs != [] {
      NoRegions(bs[1..], arch);
    }
  }

  /** Region blocks add no thread and no module. */
  lemma {:induction false} OnlyRegions(
    bs: seq<Block>, t: Target, caps: seq<Capture>, pageSize: nat, maxChunk: nat, flags: U16, arch: nat)
    requires pageSize > 0 && maxChunk > 0 && AllParse(bs, arch) && RegionBlocks(bs, t, caps, pageSize, maxChunk, flags)
    ensures ThreadsOf(bs, arch) == [] && ModulesOf(bs, arch) == []
    decreases |bs|
  {
    hide ParsedRegion, ParsedThread, ParsedModule, RegionFor, PadBytes, RegionPayload, RegionCheck;
    if bs != [] {
      assert IsRegionBlock(bs[0], t, caps[0], pageSize, maxChunk, flags);
      OnlyRegions(bs[1..], t, caps[1..], pageSize, maxChunk, flags, arch);
    }
  }

  /**
   * The image holds exactly these threads and modules, and a region for every capture with exactly its captured pages.
   */
  ghost predicate ImageHolds(
    img: SliceImage, h: FileHeader, threads: seq<EmuThread>, modules: seq<EmuModule>, t: Target, caps: seq<Capture>,
    pageSize: nat, maxChunk: nat)
    requires pageSize > 0 && maxChunk > 0
  {
    && img.arch == ArchCode(h.archType) && img.os == OsCode(h.osType) && img.threads == threads
       && img.modules == modules
    && |img.regions| == |caps|
    && forall k :: 0 <= k < |caps| ==> HoldsCapture(img.regions[k], t, caps[k], pageSize, maxChunk)
  }

  /** What a finished acquisition promises of its output file. */
  ghost predicate FileHolds(
    c: Codec, h: FileHeader, file: Bytes, threads: seq<EmuThread>, modules: seq<EmuModule>, t: Target,
    caps: seq<Capture>, pageSize: nat, maxChunk: nat)
    requires pageSize > 0 && maxChunk > 0
  {
    var img := LoadedImage(c, file);
    img.Some? && ImageHolds(img.value, h, threads, modules, t, caps, pageSize, maxChunk)
  }

  lemma EndAdds(eoc: Block, arch: nat)
    requires eoc.btype == END_OF_CAPTURE
    ensures AllParse([eoc], arch) && RegionsOf([eoc], arch) == [] && ThreadsOf([eoc], arch) == []
            && ModulesOf([eoc], arch) == []
  {
    var bs := [eoc];
    assert bs[1..] == [];
    assert ThreadsOf(bs, arch) == ThreadPart(eoc, arch) + ThreadsOf([], arch);
    assert ModulesOf(bs, arch) == ModulePart(eoc) + ModulesOf([], arch);
    assert RegionsOf(bs, arch) == RegionPart(eoc) + RegionsOf([], arch);
  }

  /** The parts of a whole log. */
  lemma LogParts(meta: seq<Block>, regions: seq<Block>, eoc: Block, arch: nat)
    requires AllParse(meta, arch) && AllParse(regions, arch) && eoc.btype == END_OF_CAPTURE
    requires forall i :: 0 <= i < |meta| ==> meta[i].btype != MEMORY_REGION
    ensures var log := meta + regions + [eoc];
            && AllParse(log, arch) && RegionsOf(log, arch) == RegionsOf(regions, arch)
            && ThreadsOf(log, arch) == ThreadsOf(meta, arch) + ThreadsOf(regions, arch)
            && ModulesOf(log, arch) == ModulesOf(meta, arch) + ModulesOf(regions, arch)
  {
    hide AllParse, RegionsOf, ThreadsOf, ModulesOf;
    EndAdds(eoc, arch);
    NoRegions(meta, arch);
    PartsAppend(meta, regions, arch);
    PartsAppend(meta + regions, [eoc], arch);
    var rs, ts, ms := RegionsOf(regions, arch), ThreadsOf(meta + regions, arch), ModulesOf(meta + regions, arch);
    assert [] + rs + [] == rs && ts + [] == ts && ms + [] == ms;
  }

  /**
   * Capture, serialise, iterate and parse: the finished slice loads into an image with the threads and
   * modules of its metadata blocks, whose regions are the captures in order, each with exactly its captured
   * pages and the target's bytes in them.
   */
  lemma SliceFidelity(
    c: Codec, h: FileHeader, meta: seq<Block>, regions: seq<Block>, eoc: Block, threads: seq<EmuThread>,
    modules: seq<EmuModule>, t: Target, caps: seq<Capture>, pageSize: nat, maxChunk: nat, flags: U16)
    requires CodecOk(c) && ReadableHeader(h) && AllSound(caps, pageSize, maxChunk)
    requires AllWritable(c, meta + regions + [eoc]) && Closed(meta + regions + [eoc])
    requires Adds(meta, ArchCode(h.archType), threads, modules)
    requires eoc.btype == END_OF_CAPTURE && RegionBlocks(regions, t, caps, pageSize, maxChunk, flags)
    ensures FileHolds(c, h, BaseHeader(h, 64) + Stream(c, meta + regions + [eoc]), threads, modules, t, caps, pageSize,
                      maxChunk)
  {
    hide LoadedImage, Stream, BaseHeader, HoldsCapture, AllWritable, AllParse, RegionBlocks, Closed, CodecOk, RegionsOf;
    hide ThreadsOf, ModulesOf;
    var arch := ArchCode(h.archType);
    RegionsOfCaptures(regions, t, caps, pageSize, maxChunk, flags, arch);
    OnlyRegions(regions, t, caps, pageSize, maxChunk, flags, arch);
    LogParts(meta, regions, eoc, arch);
    LoadWritten(c, h, meta + regions + [eoc]);
    assert threads + [] == threads && modules + [] == modules;
  }

  lemma ClosedLog(meta: seq<Block>, regions: seq<Block>, eoc: Block, t: Target, caps: seq<Capture>,
                  pageSize: nat, maxChunk: nat, algo: CompAlgo, arch: nat)
    requires pageSize > 0 && maxChunk > 0 && MetaBlocks(meta, arch)
    requires RegionBlocks(regions, t, caps, pageSize, maxChunk, CompFlags(algo))
    requires eoc.btype == END_OF_CAPTURE && !IsContinuation(eoc.flags)
    ensures Closed(meta + regions + [eoc])
  {
    hide CompFlags, RegionPayload, RegionFor, IsContinuation, AllParse;
    var log := meta + regions + [eoc];
    forall i | 0 <= i < |log|
      ensures !IsContinuation(log[i].flags) && (i < |log| - 1 ==> log[i].btype != END_OF_CAPTURE)
    {
      if i < |meta| {
        assert log[i] == meta[i];
      } else if i < |meta| + |regions| {
        assert log[i] == regions[i - |meta|];
        assert IsRegionBlock(regions[i - |meta|], t, caps[i - |meta|], pageSize, maxChunk, CompFlags(algo));
      }
    }
  }

  /** Every range that passes the filter is modest. */
  ghost predicate AllModest(
    ranges: seq<MemoryRange>, skip: MemoryRange -> Option<Reason>, pageSize: nat, maxChunk: nat) {
    forall i :: 0 <= i < |ranges| && skip(ranges[i]).None? ==> Modest(ranges[i], pageSize, maxChunk)
  }

  /** The last block closes the file: the hash of every byte before it, and the time of the end. */
  ghost predicate EndsLog(hash: Hash, c: Codec, header: Bytes, log: seq<Block>, acqEnd: U64) {
    && log != [] && AllWritable(c, log)
    && var n := |log| - 1;
       && log[n].btype == 0x0FFF && log[n].flags == 0 && log[n].parent == Zeros(16)
       && log[n].payload == EocPayload(hash(header + Stream(c, log[..n])), acqEnd)
  }

  /** The blocks between the first `n` and the last one are those of the captures. */
  ghost predicate RegionsBehind(
    log: seq<Block>, n: nat, t: Target, caps: seq<Capture>, pageSize: nat, maxChunk: nat, flags: U16)
    requires pageSize > 0 && maxChunk > 0
  {
    |log| == n + |caps| + 1 && RegionBlocks(log[n..n + |caps|], t, caps, pageSize, maxChunk, flags)
  }

  /**
   * The end of `acquire`: the region loop, then `finalize` whatever happened in it. Loading the
   * output file gives back the metadata written before and every captured page of every range that was read.
   */
  method AcquireRegions(
    reader: RegionReader, w: MSLWriter, ranges: seq<MemoryRange>, skip: MemoryRange -> Option<Reason>, pageSize: nat,
    now: nat -> U64, uuids: nat -> Uuid, acqEnd: U64, eocUuid: Uuid, ghost threads: seq<EmuThread>,
    ghost modules: seq<EmuModule>)
    returns (s: Stats, raised: Option<WriteError>, ghost handled: nat, ghost caps: seq<Capture>,
             ghost refused: Option<Capture>)
    requires w.Valid() && !w.IsSealed() && pageSize > 0 && reader.maxChunk > 0
    requires reader != w as object && reader != w.chain as object && reader != w.encryptor as object?
    modifies reader`clock, w`output, w`blockIndex, w`log, w.chain, w.encryptor
    ensures w.Valid()
    ensures raised.Some? <==> refused.Some?
    ensures w.compAlgo.NONE? && AllModest(ranges, skip, pageSize, reader.maxChunk) ==> raised.None?
    ensures var p := Sweep(reader.target, old(reader.clock), skip, pageSize, reader.maxChunk, now);
            Finished(p, w.codec, w.compAlgo, ranges, handled, caps, refused, reader.clock, s)
    ensures EndsLog(w.hash, w.codec, w.headerBytes, w.log, acqEnd) && (w.IsSealed() <==> w.enc.Some?)
    ensures old(w.log) <= w.log
            && RegionsBehind(w.log, |old(w.log)|, reader.target, caps, pageSize, reader.maxChunk, CompFlags(w.compAlgo))
    ensures w.enc.None? && CodecOk(w.codec) && ReadableHeader(w.header)
            && Adds(old(w.log), ArchCode(w.header.archType), threads, modules)
            && AllSound(caps, pageSize, reader.maxChunk)
            ==> FileHolds(w.codec, w.header, w.output, threads, modules, reader.target, caps, pageSize, reader.maxChunk)
  {
    hide MSLWriter.Valid, MSLWriter.IsSealed, Accounted, RegionBlocks, Adds, AllSound, FileHolds, Modest, Takes;
    hide AllTaken, EndsLog;
    hide CapturesIn, ClockAfter, RegionReads, NotAborted;
    hide CodecOk, ReadableHeader, Stream, AllWritable, Chained, EocPayload, CompFlags, BaseHeader;
    s, raised, handled, caps, refused := CaptureRegions(reader, w, ranges, skip, pageSize, now, uuids);
    if w.compAlgo.NONE? && AllModest(ranges, skip, pageSize, reader.maxChunk) && refused.Some? {
      ModestTaken(w.codec, reader.target, refused.value, pageSize, reader.maxChunk);
    }
    ghost var meta, regions := old(w.log), w.log[|old(w.log)|..];
    LogWritable(w);
    ghost var before := w.log;
    var e := w.Finalize(acqEnd, eocUuid);
    ghost var eoc := w.log[|w.log| - 1];
    EndWritten(w, before, eoc, acqEnd);
    assert w.log == meta + regions + [eoc];
    LogPieces(w.log, meta, regions, eoc);
    if w.enc.None? && CodecOk(w.codec) && ReadableHeader(w.header)
       && Adds(meta, ArchCode(w.header.archType), threads, modules) && AllSound(caps, pageSize, reader.maxChunk) {
      PlainOutput(w);
      FinishedFile(w.codec, w.header, w.compAlgo, meta, regions, eoc, threads, modules, reader.target, caps, pageSize,
                   reader.maxChunk);
    }
  }

  lemma LogWritable(w: MSLWriter)
    requires w.Valid()
    ensures AllWritable(w.codec, w.log)
  {
  }

  lemma EndWritten(w: MSLWriter, before: seq<Block>, b: Block, acqEnd: U64)
    requires w.Valid() && w.log == before + [b] && AllWritable(w.codec, before)
    requires b.btype == 0x0FFF && b.flags == 0 && b.parent == Zeros(16)
    requires b.payload == EocPayload(w.hash(w.headerBytes + Stream(w.codec, before)), acqEnd)
    ensures EndsLog(w.hash, w.codec, w.headerBytes, w.log, acqEnd)
  {
    hide EocPayload, Stream, Writable, HeaderBytes, Chained, NextPrevHash, MSLWriter.EncryptorMatches;
    assert w.log[..|w.log| - 1] == before;
  }

  lemma LogPieces(log: seq<Block>, meta: seq<Block>, regions: seq<Block>, eoc: Block)
    requires log == meta + regions + [eoc]
    ensures log[..|log| - 1] == meta + regions && log[|meta|..|meta| + |regions|] == regions && meta <= log
  {
  }

  lemma FinishedFile(
    c: Codec, h: FileHeader, algo: CompAlgo, meta: seq<Block>, regions: seq<Block>, eoc: Block,
    threads: seq<EmuThread>, modules: seq<EmuModule>, t: Target, caps: seq<Capture>, pageSize: nat, maxChunk: nat)
    requires CodecOk(c) && ReadableHeader(h) && AllSound(caps, pageSize, maxChunk)
    requires Adds(meta, ArchCode(h.archType), threads, modules)
    requires AllWritable(c, meta + regions + [eoc]) && eoc.btype == END_OF_CAPTURE && eoc.flags == 0
    requires RegionBlocks(regions, t, caps, pageSize, maxChunk, CompFlags(algo))
    ensures FileHolds(c, h, BaseHeader(h, 64) + Stream(c, meta + regions + [eoc]), threads, modules, t, caps, pageSize,
                      maxChunk)
  {
    ClosedLog(meta, regions, eoc, t, caps, pageSize, maxChunk, algo, ArchCode(h.archType));
    hide CodecOk, ReadableHeader, Closed, AllWritable, RegionBlocks, Stream, BaseHeader, HoldsCapture, CompFlags;
    hide FileHolds, Adds;
    SliceFidelity(c, h, meta, regions, eoc, threads, modules, t, caps, pageSize, maxChunk, CompFlags(algo));
  }

  /**
   * `acquire` from the collected metadata on: thread contexts are built, everything before the regions is
   * written, then the regions, and the file is finalized whatever happened. The region loop is reached exactly
   * when all collected metadata can be written; the finished file then loads into the modules, the threads with
   * registers and every captured page.
   */
  method Acquire(
    reader: RegionReader, w: MSLWriter, collected: Collected, threads: seq<ThreadInfo>, ranges: seq<MemoryRange>,
    skip: MemoryRange -> Option<Reason>, pageSize: nat, now: nat -> U64, uuids: nat -> Uuid, metaUuids: nat -> Uuid,
    threadUuids: nat -> Uuid, acqEnd: U64, eocUuid: Uuid)
    returns (s: Stats, raised: Option<WriteError>, ghost handled: nat, ghost caps: seq<Capture>,
             ghost refused: Option<Capture>)
    requires w.Valid() && w.log == [] && !w.IsSealed() && pageSize > 0 && reader.maxChunk > 0 && CollectedOk(collected)
    requires reader != w as object && reader != w.chain as object && reader != w.encryptor as object?
    modifies reader`clock, w`output, w`blockIndex, w`log, w.chain, w.encryptor
    ensures w.Valid()
    ensures EndsLog(w.hash, w.codec, w.headerBytes, w.log, acqEnd) && (w.IsSealed() <==> w.enc.Some?)
    ensures var all := collected.(contexts := Contexts(threads));
            AllFits(all) ==>
              && |w.log| > |caps| && MetaInOrder(w.log[..|w.log| - 1 - |caps|], all)
              && RegionsBehind(w.log, |w.log| - 1 - |caps|, reader.target, caps, pageSize, reader.maxChunk,
                               CompFlags(w.compAlgo))
    ensures var all := collected.(contexts := Contexts(threads));
            var arch := ArchCode(w.header.archType);
            var p := Sweep(reader.target, old(reader.clock), skip, pageSize, reader.maxChunk, now);
            && (!AllFits(all) ==>
                  && raised.Some? && refused.None? && caps == [] && handled == 0
                  && reader.clock == old(reader.clock) && s == Stats(0, 0, map[], 0, 0, 0, 0, 0))
            && (AllFits(all) ==>
                  && (raised.Some? <==> refused.Some?)
                  && (w.compAlgo.NONE? && AllModest(ranges, skip, pageSize, reader.maxChunk) ==> raised.None?)
                  && Finished(p, w.codec, w.compAlgo, ranges, handled, caps, refused, reader.clock, s)
                  && (&& w.enc.None? && CodecOk(w.codec) && ReadableHeader(w.header)
                      && AllSound(caps, pageSize, p.maxChunk) ==>
                        FileHolds(w.codec, w.header, w.output, Loaded(Contexts(threads), arch),
                                  EmuModules(collected.modules), reader.target, caps, pageSize, p.maxChunk)))
  {
    hide MSLWriter.Valid, MSLWriter.IsSealed, Finished, Adds, AllSound, FileHolds, AllModest, AllFits, CollectedOk;
    hide CodecOk, ReadableHeader, Stream, AllWritable, Chained, EocPayload, Loaded, EmuModules, Contexts, Takes;
    hide MetaInOrder, RegionBlocks, EndsLog;
    var contexts := BuildThreadContexts(threads);
    var all := collected.(contexts := contexts);
    SameTables(collected, contexts);
    ghost var arch := ArchCode(w.header.archType);
    ghost var loaded: seq<EmuThread>;
    ghost var modules: seq<EmuModule>;
    raised, loaded, modules := WriteMetadata(w, all, metaUuids, threadUuids, arch);
    ghost var meta := w.log;
    if raised.Some? {
      LogWritable(w);
      var e := w.Finalize(acqEnd, eocUuid);
      EndWritten(w, meta, w.log[|meta|], acqEnd);
      s, handled, caps, refused := Stats(0, 0, map[], 0, 0, 0, 0, 0), 0, [], None;
      return;
    }
    assert w.log[|old(w.log)|..] == w.log;
    s, raised, handled, caps, refused :=
      AcquireRegions(reader, w, ranges, skip, pageSize, now, uuids, acqEnd, eocUuid, loaded, modules);
    assert w.log[..|w.log| - 1 - |caps|] == meta;
  }

  lemma SameTables(c: Collected, contexts: seq<ThreadContext>)
    requires CollectedOk(c)
    ensures CollectedOk(c.(contexts := contexts))
  {
  }

  /** The default thread of a loaded slice: the first marked thread with registers, else the first with registers. */
  lemma DefaultThreadOfImage(
    c: Codec, h: FileHeader, file: Bytes, threads: seq<ThreadInfo>, modules: seq<EmuModule>, t: Target,
    caps: seq<Capture>, pageSize: nat, maxChunk: nat, k: nat)
    requires pageSize > 0 && maxChunk > 0 && IsDefault(threads, k)
    requires FileHolds(c, h, file, Loaded(Contexts(threads), ArchCode(h.archType)), modules, t, caps, pageSize,
                       maxChunk)
    ensures var arch := ArchCode(h.archType);
            CurrentThread(LoadedImage(c, file).value.threads)
            == Some(EmuThread(threads[k].tid, true, arch, RecoveredAll(RegistersOf(threads[k].registers), arch)))
  {
    hide LoadedImage, Loaded, Contexts, MarkedSet, Carries, HoldsCapture;
    DefaultThread(threads, ArchCode(h.archType), k);
  }
}

/** Every byte a region read keeps is the target's byte at the page's address. */
module RegionFidelity {
  import opened ByteStrings
  import opened Bits
  import opened PageMap
  import opened MemoryRegions
  import opened Acquisition

  /** The target's bytes for the captured pages of `states`, whose first page is at `addr`. */
  function TrueData(mem: int -> Byte, addr: int, rem: nat, pageSize: nat, states: seq<PageState>): (d: Bytes)
    decreases |states|
  {
    if states == [] then []
    else
      var len := Min(pageSize, rem);
      (if states[0].CAPTURED? then MemSlice(mem, addr, len) else [])
      + TrueData(mem, addr + pageSize, rem - len, pageSize, states[1..])
  }

  /** The data collected is exactly the target's data for the pages marked captured. */
  ghost predicate Faithful(t: Target, base: int, size: nat, pageSize: nat, r: Reads)
    requires pageSize > 0
  {
    && |r.states| == Ceil(size, pageSize)
    && Join(r.chunks) == TrueData(t.mem, base, size, pageSize, r.states)
    && r.dataSize == |Join(r.chunks)|
  }

  // ------------------------------------------------------- shape of TrueData

  lemma {:induction false} TrueDataAllFailed(mem: int -> Byte, addr: int, rem: nat, pageSize: nat, n: nat)
    ensures TrueData(mem, addr, rem, pageSize, Repeat(FAILED, n)) == []
    decreases n
  {
    if n > 0 {
      assert Repeat(FAILED, n)[1..] == Repeat(FAILED, n - 1);
      TrueDataAllFailed(mem, addr + pageSize, rem - Min(pageSize, rem), pageSize, n - 1);
    }
  }

  lemma {:induction false} TrueDataAllCaptured(mem: int -> Byte, addr: int, rem: nat, pageSize: nat)
    requires pageSize > 0
    ensures TrueData(mem, addr, rem, pageSize, Repeat(CAPTURED, Ceil(rem, pageSize))) == MemSlice(mem, addr, rem)
    decreases rem
  {
    if rem == 0 {
      CeilZero(pageSize);
    } else {
      var n := Ceil(rem, pageSize);
      var len := Min(pageSize, rem);
      CeilStep(rem, pageSize);
      assert Repeat(CAPTURED, n)[1..] == Repeat(CAPTURED, n - 1);
      TrueDataAllCaptured(mem, addr + pageSize, rem - len, pageSize);
      assert MemSlice(mem, addr, rem) == MemSlice(mem, addr, len) + MemSlice(mem, addr + len, rem - len);
    }
  }

  /** `off` bytes are exactly `n` whole pages. */
  ghost predicate WholePages(n: nat, pageSize: nat, off: int) {
    if n == 0 then off == 0 else WholePages(n - 1, pageSize, off - pageSize)
  }

  lemma {:induction false} WholePagesIs(n: nat, pageSize: nat, off: int)
    ensures WholePages(n, pageSize, off) <==> off == n * pageSize
  {
    if n > 0 {
      WholePagesIs(n - 1, pageSize, off - pageSize);
      MulStep(n - 1, pageSize);
    }
  }

  lemma {:induction false} WholePagesAtLeast(n: nat, pageSize: nat, off: int)
    requires WholePages(n, pageSize, off)
    ensures n == 0 || off >= pageSize
  {
    if n > 1 {
      WholePagesAtLeast(n - 1, pageSize, off - pageSize);
    }
  }

  lemma WholePagesAdd(n: nat, k: nat, pageSize: nat, a: nat, b: nat)
    requires WholePages(n, pageSize, a) && WholePages(k, pageSize, b)
    ensures WholePages(n + k, pageSize, a + b)
  {
    WholePagesIs(n, pageSize, a);
    WholePagesIs(k, pageSize, b);
    WholePagesIs(n + k, pageSize, a + b);
    assert (n + k) * pageSize == n * pageSize + k * pageSize;
  }

  /** Whole pages first, then the rest. */
  lemma {:induction false} TrueDataAppend(
    mem: int -> Byte, addr: int, rem: nat, pageSize: nat, a: seq<PageState>, b: seq<PageState>, off: nat)
    requires pageSize > 0 && WholePages(|a|, pageSize, off) && off <= rem
    ensures TrueData(mem, addr, rem, pageSize, a + b)
            == TrueData(mem, addr, rem, pageSize, a) + TrueData(mem, addr + off, rem - off, pageSize, b)
    decreases |a|
  {
    if a == [] {
      assert a + b == b;
    } else {
      WholePagesAtLeast(|a|, pageSize, off);
      assert (a + b)[1..] == a[1..] + b;
      TrueDataAppend(mem, addr + pageSize, rem - pageSize, pageSize, a[1..], b, off - pageSize);
    }
  }

  /** Whole pages do not care how much of the region follows them. */
  lemma {:induction false} TrueDataWhole(
    mem: int -> Byte, addr: int, rem: nat, pageSize: nat, states: seq<PageState>, off: nat)
    requires pageSize > 0 && WholePages(|states|, pageSize, off) && off <= rem
    ensures TrueData(mem, addr, off, pageSize, states) == TrueData(mem, addr, rem, pageSize, states)
    decreases |states|
  {
    if states != [] {
      WholePagesAtLeast(|states|, pageSize, off);
      TrueDataWhole(mem, addr + pageSize, rem - pageSize, pageSize, states[1..], off - pageSize);
    }
  }

  // ------------------------------------------------------------ the readers

  lemma {:induction false} TryPagesFaithful(t: Target, clock: nat, addr: int, rem: nat, pageSize: nat)
    requires pageSize > 0
    ensures Faithful(t, addr, rem, pageSize, TryPages(t, clock, addr, rem, pageSize))
    decreases rem
  {
    TryPagesCount(t, clock, addr, rem, pageSize);
    if rem == 0 {
    } else if clock >= t.abortAt {
      TrueDataAllFailed(t.mem, addr, rem, pageSize, Ceil(rem, pageSize));
    } else {
      var rest := TryPages(t, clock + 2, addr + pageSize, rem - Min(pageSize, rem), pageSize);
      TryPagesFaithful(t, clock + 2, addr + pageSize, rem - Min(pageSize, rem), pageSize);
      var s := if t.fails(clock + 1) then FAILED else CAPTURED;
      assert ([s] + rest.states)[1..] == rest.states;
      assert ([MemSlice(t.mem, addr, Min(pageSize, rem))] + rest.chunks)[1..] == rest.chunks;
    }
  }

  /** What one chunk contributes: its states and its chunks, nothing when the fallback got no byte. */
  function ChunkPart(t: Target, clock: nat, addr: int, chunk: nat, pageSize: nat): (r: Reads)
    requires pageSize > 0
  {
    if !t.fails(clock) then
      Reads(Repeat(CAPTURED, Ceil(chunk, pageSize)), [MemSlice(t.mem, addr, chunk)], chunk, clock + 1)
    else
      var fb := TryPages(t, clock + 1, addr, chunk, pageSize);
      if fb.dataSize > 0 then fb else Reads(Repeat(FAILED, Ceil(chunk, pageSize)), [], 0, fb.clock)
  }

  lemma ChunkPartFaithful(t: Target, clock: nat, addr: int, chunk: nat, pageSize: nat)
    requires pageSize > 0
    ensures Faithful(t, addr, chunk, pageSize, ChunkPart(t, clock, addr, chunk, pageSize))
  {
    TryPagesFaithful(t, clock + 1, addr, chunk, pageSize);
    TrueDataAllCaptured(t.mem, addr, chunk, pageSize);
    TrueDataAllFailed(t.mem, addr, chunk, pageSize, Ceil(chunk, pageSize));
    JoinOne(MemSlice(t.mem, addr, chunk));
  }

  /** A chunk only touches its own pages: the ones before it stay, the ones after it are still FAILED. */
  lemma ChunkStepStates(t: Target, acc: Reads, addr: int, chunk: nat, pageSize: nat, done: seq<PageState>, left: nat)
    requires pageSize > 0
    requires acc.states == done + Repeat(FAILED, Ceil(chunk, pageSize) + left)
    ensures var part := ChunkPart(t, acc.clock, addr, chunk, pageSize);
            ChunkStep(t, acc, addr, chunk, |done|, pageSize)
            == Reads(done + part.states + Repeat(FAILED, left), acc.chunks + part.chunks, acc.dataSize + part.dataSize,
                     part.clock)
  {
    TryPagesCount(t, acc.clock + 1, addr, chunk, pageSize);
    assert acc.chunks + [] == acc.chunks;
  }

  /** The chunk loop's invariant at `offset`: the pages before it are done and faithful. */
  ghost predicate DoneUpTo(
    t: Target, acc: Reads, base: int, size: nat, pageSize: nat, offset: nat, done: seq<PageState>)
    requires pageSize > 0
  {
    && offset <= size && WholePages(|done|, pageSize, offset)
    && acc.states == done + Repeat(FAILED, Ceil(size - offset, pageSize))
    && Join(acc.chunks) == TrueData(t.mem, base, size, pageSize, done)
    && acc.dataSize == |Join(acc.chunks)|
  }

  lemma DoneIsFaithful(t: Target, acc: Reads, base: int, size: nat, pageSize: nat, offset: nat, done: seq<PageState>)
    requires pageSize > 0 && |acc.states| == Ceil(size, pageSize)
    requires DoneUpTo(t, acc, base, size, pageSize, offset, done)
    ensures Faithful(t, base, size, pageSize, acc)
  {
    var n := Ceil(size - offset, pageSize);
    TrueDataAppend(t.mem, base, size, pageSize, done, Repeat(FAILED, n), offset);
    TrueDataAllFailed(t.mem, base + offset, size - offset, pageSize, n);
  }

  lemma WholeCeil(n: nat, pageSize: nat, off: nat, more: nat)
    requires pageSize > 0 && WholePages(n, pageSize, off)
    ensures off / pageSize == n && Ceil(off + more, pageSize) == n + Ceil(more, pageSize)
  {
    WholePagesIs(n, pageSize, off);
    ModUnique(off, pageSize, n, 0);
    var q, r := (more + pageSize - 1) / pageSize, (more + pageSize - 1) % pageSize;
    assert (n + q) * pageSize == n * pageSize + q * pageSize;
    ModUnique(off + more + pageSize - 1, pageSize, n + q, r);
  }

  /** A chunk of `k` whole pages extends the invariant by its own states. */
  lemma DoneAfterWholeChunk(
    t: Target, acc: Reads, base: int, size: nat, pageSize: nat, offset: nat, done: seq<PageState>, chunk: nat, k: nat)
    requires pageSize > 0 && WholePages(k, pageSize, chunk) && chunk <= size - offset
    requires DoneUpTo(t, acc, base, size, pageSize, offset, done)
    ensures var part := ChunkPart(t, acc.clock, base + offset, chunk, pageSize);
            DoneUpTo(t, ChunkStep(t, acc, base + offset, chunk, offset / pageSize, pageSize), base, size, pageSize,
                     offset + chunk, done + part.states)
  {
    hide Ceil, ChunkStep, ChunkPart, TrueData;
    var part := ChunkPart(t, acc.clock, base + offset, chunk, pageSize);
    WholeCeil(|done|, pageSize, offset, 0);
    WholeCeil(k, pageSize, chunk, 0);
    WholeCeil(k, pageSize, chunk, size - offset - chunk);
    CeilZero(pageSize);
    ChunkPartFaithful(t, acc.clock, base + offset, chunk, pageSize);
    ChunkStepStates(t, acc, base + offset, chunk, pageSize, done, Ceil(size - offset - chunk, pageSize));
    TrueDataWhole(t.mem, base + offset, size - offset, pageSize, part.states, chunk);
    TrueDataAppend(t.mem, base, size, pageSize, done, part.states, offset);
    JoinAppend(acc.chunks, part.chunks);
    WholePagesAdd(|done|, k, pageSize, offset, chunk);
  }

  /** The last chunk, which may end in a short page, completes the region. */
  lemma DoneAfterLastChunk(
    t: Target, acc: Reads, base: int, size: nat, pageSize: nat, offset: nat, done: seq<PageState>)
    requires pageSize > 0
    requires DoneUpTo(t, acc, base, size, pageSize, offset, done)
    ensures Faithful(t, base, size, pageSize,
                     ChunkStep(t, acc, base + offset, size - offset, offset / pageSize, pageSize))
  {
    hide Ceil, ChunkStep, ChunkPart, TrueData;
    var chunk := size - offset;
    var part := ChunkPart(t, acc.clock, base + offset, chunk, pageSize);
    WholeCeil(|done|, pageSize, offset, 0);
    WholeCeil(|done|, pageSize, offset, chunk);
    CeilZero(pageSize);
    ChunkPartFaithful(t, acc.clock, base + offset, chunk, pageSize);
    ChunkStepStates(t, acc, base + offset, chunk, pageSize, done, 0);
    assert done + part.states + Repeat(FAILED, 0) == done + part.states;
    TrueDataAppend(t.mem, base, size, pageSize, done, part.states, offset);
    JoinAppend(acc.chunks, part.chunks);
  }

  lemma {:induction false} ChunkLoopFaithful(
    t: Target, acc: Reads, base: int, size: nat, pageSize: nat, maxChunk: nat, pagesPerChunk: nat, offset: nat,
    done: seq<PageState>)
    requires pageSize > 0 && maxChunk > 0 && WholePages(pagesPerChunk, pageSize, maxChunk)
    requires |acc.states| == Ceil(size, pageSize)
    requires DoneUpTo(t, acc, base, size, pageSize, offset, done)
    ensures Faithful(t, base, size, pageSize, ChunkLoop(t, acc, base, size, pageSize, maxChunk, offset))
    decreases size - offset
  {
    hide ChunkStep, ChunkPart, Ceil;
    if offset >= size || acc.clock >= t.abortAt {
      DoneIsFaithful(t, acc, base, size, pageSize, offset, done);
    } else {
      var acc1 := acc.(clock := acc.clock + 1);
      var chunk := Min(maxChunk, size - offset);
      var acc2 := ChunkStep(t, acc1, base + offset, chunk, offset / pageSize, pageSize);
      if maxChunk < size - offset {
        DoneAfterWholeChunk(t, acc1, base, size, pageSize, offset, done, maxChunk, pagesPerChunk);
        var part := ChunkPart(t, acc1.clock, base + offset, maxChunk, pageSize);
        ChunkLoopFaithful(t, acc2, base, size, pageSize, maxChunk, pagesPerChunk, offset + maxChunk,
                          done + part.states);
      } else {
        DoneAfterLastChunk(t, acc1, base, size, pageSize, offset, done);
        assert ChunkLoop(t, acc2, base, size, pageSize, maxChunk, size) == acc2;
      }
    }
  }

  /** Whatever fails and whenever the abort strikes, an aligned read keeps only true bytes. */
  lemma RegionReadsFaithful(t: Target, clock: nat, base: int, size: nat, pageSize: nat, maxChunk: nat)
    requires pageSize > 0 && maxChunk > 0
    requires size <= maxChunk || maxChunk % pageSize == 0
    ensures Faithful(t, base, size, pageSize, RegionReads(t, clock, base, size, pageSize, maxChunk))
  {
    if size <= maxChunk {
      TryPagesFaithful(t, clock + 1, base, size, pageSize);
      TrueDataAllCaptured(t.mem, base, size, pageSize);
      JoinOne(MemSlice(t.mem, base, size));
    } else {
      var n := Ceil(size, pageSize);
      var acc := Reads(Repeat(FAILED, n), [], 0, clock);
      assert [] + Repeat(FAILED, n) == Repeat(FAILED, n);
      WholePagesIs(maxChunk / pageSize, pageSize, maxChunk);
      ChunkLoopFaithful(t, acc, base, size, pageSize, maxChunk, maxChunk / pageSize, 0, []);
    }
  }

  // ------------------------------------------------------------ page by page

  /** Bytes of the region from page `i` on. */
  function Rem(size: nat, pageSize: nat, i: nat): (n: nat) {
    if i * pageSize <= size then size - i * pageSize else 0
  }

  /** The target's bytes of page `i`; the last page of a region may be short. */
  function PageBytes(mem: int -> Byte, base: int, size: nat, pageSize: nat): nat -> Bytes {
    (i: nat) => MemSlice(mem, PageAddr(base, pageSize, i), Min(pageSize, Rem(size, pageSize, i)))
  }

  lemma RemStep(size: nat, pageSize: nat, i: nat)
    ensures Rem(size, pageSize, i + 1) == Rem(size, pageSize, i) - Min(pageSize, Rem(size, pageSize, i))
  {
    MulStep(i, pageSize);
  }

  lemma {:induction false} TrueDataByPage(
    mem: int -> Byte, base: int, size: nat, pageSize: nat, states: seq<PageState>, i: nat)
    ensures TrueData(mem, PageAddr(base, pageSize, i), Rem(size, pageSize, i), pageSize, states)
            == CapturedData(PageBytes(mem, base, size, pageSize), states, i)
    decreases |states|
  {
    if states != [] {
      RemStep(size, pageSize, i);
      PageAddrNext(base, pageSize, i);
      TrueDataByPage(mem, base, size, pageSize, states[1..], i + 1);
    }
  }

  lemma PageBytesLengths(mem: int -> Byte, base: int, size: nat, pageSize: nat, states: seq<PageState>)
    requires pageSize > 0
    requires forall j :: 0 <= j < |states| && states[j].CAPTURED? ==> Rem(size, pageSize, j) > 0
    ensures PageLengths(PageBytes(mem, base, size, pageSize), states, pageSize)
  {
    forall i, j | 0 <= i < j < |states| && states[i].CAPTURED? && states[j].CAPTURED?
      ensures Rem(size, pageSize, i) >= pageSize
    {
      RemMonotone(size, pageSize, i, j);
    }
  }

  lemma RemMonotone(size: nat, pageSize: nat, i: nat, j: nat)
    requires i < j && pageSize > 0 && Rem(size, pageSize, j) > 0
    ensures Rem(size, pageSize, i) >= pageSize
  {
    MulAtLeast(pageSize, j - i);
    assert j * pageSize == i * pageSize + pageSize * (j - i);
  }

  lemma RemPositive(size: nat, pageSize: nat, i: nat)
    requires pageSize > 0 && i < Ceil(size, pageSize)
    ensures Rem(size, pageSize, i) > 0
  {
    var n := Ceil(size, pageSize);
    assert n * pageSize <= size + pageSize - 1;
    MulStep(n - 1, pageSize);
    if i < n - 1 {
      MulAtLeast(pageSize, n - 1 - i);
      assert (n - 1) * pageSize == i * pageSize + pageSize * (n - 1 - i);
    }
  }

  /** Any faithful read of the pages of `size` bytes survives the block format. */
  lemma FaithfulRoundTrip(mem: int -> Byte, base: nat, size: nat, pageSize: nat, m: MemoryRegion)
    requires pageSize > 0 && m.pageSize == pageSize && m.baseAddr == base && RegionCheck(m).None?
    requires forall j :: 0 <= j < |m.pageStates| && m.pageStates[j].CAPTURED? ==> j < Ceil(size, pageSize)
    requires Join(m.pageDataChunks) == TrueData(mem, base, size, pageSize, m.pageStates)
    ensures ParsedRegion(PadBytes(RegionPayload(m))).Some?
    ensures Recovered(ParsedRegion(PadBytes(RegionPayload(m))).value, m, PageBytes(mem, base, size, pageSize))
  {
    forall j | 0 <= j < |m.pageStates| && m.pageStates[j].CAPTURED? ensures Rem(size, pageSize, j) > 0 {
      RemPositive(size, pageSize, j);
    }
    PageBytesLengths(mem, base, size, pageSize, m.pageStates);
    TrueDataByPage(mem, base, size, pageSize, m.pageStates, 0);
    RegionRoundTrip(m, PageBytes(mem, base, size, pageSize));
  }

  /** The region read at `clock` is written and parsed back to the target's own pages. */
  ghost predicate EndToEnd(t: Target, clock: nat, base: nat, size: nat, pageSize: nat, maxChunk: nat,
                           protection: U8, regionType: U8, now: U64)
    requires pageSize > 0 && maxChunk > 0
  {
    var m := BuildRegion(RegionReads(t, clock, base, size, pageSize, maxChunk), base, pageSize, protection, regionType,
                         now);
    && RegionCheck(m).None?
    && var e := ParsedRegion(PadBytes(RegionPayload(m)));
       e.Some? && Recovered(e.value, m, PageBytes(t.mem, base, size, pageSize))
  }

  /** A page size and a region that the block header can represent. */
  ghost predicate Representable(base: nat, size: nat, pageSize: nat) {
    && pageSize > 0 && (exists k: nat :: 10 <= k <= 40 && pageSize == Pow2(k))
    && base < 0x1_0000_0000_0000_0000 && Ceil(size, pageSize) * pageSize < 0x1_0000_0000_0000_0000
  }

  /** Every region built passes the writer's checks, aligned chunks or not. */
  lemma BuiltRegionAccepted(
    t: Target, clock: nat, base: nat, size: nat, pageSize: nat, maxChunk: nat, protection: U8, regionType: U8, now: U64)
    requires Representable(base, size, pageSize) && maxChunk > 0
    ensures var r := RegionReads(t, clock, base, size, pageSize, maxChunk);
            |r.states| == Ceil(size, pageSize)
            && RegionCheck(BuildRegion(r, base, pageSize, protection, regionType, now)).None?
  {
    var k: nat :| 10 <= k <= 40 && pageSize == Pow2(k);
    TryPagesCount(t, clock + 1, base, size, pageSize);
    var r := RegionReads(t, clock, base, size, pageSize, maxChunk);
    assert |r.states| == Ceil(size, pageSize);
    hide RegionReads, Ceil, Pow2, RegionCheck;
    RegionAccepted(BuildRegion(r, base, pageSize, protection, regionType, now), k);
  }

  /** End-to-end page fidelity, for every failure pattern and abort point. */
  lemma PageFidelity(
    t: Target, clock: nat, base: nat, size: nat, pageSize: nat, maxChunk: nat, protection: U8, regionType: U8, now: U64)
    requires Representable(base, size, pageSize) && maxChunk > 0
    requires size <= maxChunk || maxChunk % pageSize == 0
    ensures EndToEnd(t, clock, base, size, pageSize, maxChunk, protection, regionType, now)
  {
    BuiltRegionAccepted(t, clock, base, size, pageSize, maxChunk, protection, regionType, now);
    RegionReadsFaithful(t, clock, base, size, pageSize, maxChunk);
    var r := RegionReads(t, clock, base, size, pageSize, maxChunk);
    FaithfulRoundTrip(t.mem, base, size, pageSize, BuildRegion(r, base, pageSize, protection, regionType, now));
  }

  // --------------------------------------------- chunks that split a page

  function Ones(): int -> Byte {
    _ => 1
  }

  /** A target whose first chunk is read and whose abort comes right after it. */
  function AbortAfterFirstChunk(): (t: Target) {
    Target(Ones(), _ => false, 2)
  }

  lemma {:induction false} TrailingFailed(
    mem: int -> Byte, addr: int, rem: nat, pageSize: nat, a: seq<PageState>, n: nat)
    ensures TrueData(mem, addr, rem, pageSize, a + Repeat(FAILED, n)) == TrueData(mem, addr, rem, pageSize, a)
    decreases |a|
  {
    if a == [] {
      assert a + Repeat(FAILED, n) == Repeat(FAILED, n);
      TrueDataAllFailed(mem, addr, rem, pageSize, n);
    } else {
      assert (a + Repeat(FAILED, n))[1..] == a[1..] + Repeat(FAILED, n);
      TrailingFailed(mem, addr + pageSize, rem - Min(pageSize, rem), pageSize, a[1..], n);
    }
  }

  /** The states such a capture leaves: every page the first chunk touches counts as captured. */
  lemma FirstChunkReads(base: int, size: nat, pageSize: nat, maxChunk: nat)
    requires pageSize > 0 && 0 < maxChunk < size
    ensures Ceil(maxChunk, pageSize) <= Ceil(size, pageSize)
    ensures RegionReads(AbortAfterFirstChunk(), 0, base, size, pageSize, maxChunk)
            == Reads(Repeat(CAPTURED, Ceil(maxChunk, pageSize))
                     + Repeat(FAILED, Ceil(size, pageSize) - Ceil(maxChunk, pageSize)),
                     [MemSlice(Ones(), base, maxChunk)], maxChunk, 3)
  {
    var t := AbortAfterFirstChunk();
    CeilMonotone(maxChunk, size, pageSize);
    CeilZero(pageSize);
    ModUnique(0, pageSize, 0, 0);
    var acc := Reads(Repeat(FAILED, Ceil(size, pageSize)), [], 0, 0);
    var acc2 := ChunkStep(t, acc.(clock := 1), base, maxChunk, 0, pageSize);
    assert acc2.chunks == [MemSlice(t.mem, base, maxChunk)];
    assert ChunkLoop(t, acc2, base, size, pageSize, maxChunk, maxChunk) == acc2.(clock := 3);
    assert ChunkLoop(t, acc, base, size, pageSize, maxChunk, 0)
           == ChunkLoop(t, acc2, base, size, pageSize, maxChunk, maxChunk);
  }

  lemma MulGap(q: nat, p: nat, m: nat)
    requires q < p
    ensures p * m >= q * m + m
  {
    MulAtLeast(m, p - q);
    assert p * m == q * m + m * (p - q);
  }

  lemma CeilMonotone(a: nat, b: nat, pageSize: nat)
    requires pageSize > 0 && a <= b
    ensures Ceil(a, pageSize) <= Ceil(b, pageSize)
  {
    var p, q := Ceil(a, pageSize), Ceil(b, pageSize);
    if p > q {
      MulGap(q, p, pageSize);
    }
  }

  /** The page at `maxChunk / pageSize` is cut by the chunk's end: fewer bytes of it are on disk than in the target. */
  lemma CutPage(size: nat, pageSize: nat, maxChunk: nat) returns (p: nat)
    requires pageSize > 0 && 0 < maxChunk < size && maxChunk % pageSize != 0
    ensures p < Ceil(maxChunk, pageSize) && Rem(maxChunk, pageSize, p) < Min(pageSize, Rem(size, pageSize, p))
  {
    p := maxChunk / pageSize;
    var r := maxChunk % pageSize;
    assert maxChunk == p * pageSize + r;
    MulStep(p, pageSize);
    ModUnique(maxChunk + pageSize - 1, pageSize, p + 1, r - 1);
  }

  /** Two all-ones prefixes of different length stay different after zero padding. */
  lemma PaddedOnesDiffer(a: int, n: nat, m: nat)
    requires n < m
    ensures PadBytes(MemSlice(Ones(), a, n)) != PadBytes(MemSlice(Ones(), a, m))
  {
    var x, y := PadBytes(MemSlice(Ones(), a, n)), PadBytes(MemSlice(Ones(), a, m));
    assert y[n] == y[..m][n] == 1;
    if n < |x| {
      assert x[n] == 0;
    }
  }

  /** What that capture really holds: the first `maxChunk` bytes, as if the region ended there. */
  lemma FirstChunkRecovered(m: MemoryRegion, base: nat, size: nat, pageSize: nat, maxChunk: nat)
    requires pageSize > 0 && 0 < maxChunk < size
    requires m.pageSize == pageSize && m.baseAddr == base && RegionCheck(m).None?
    requires Ceil(maxChunk, pageSize) <= Ceil(size, pageSize)
    requires m.pageStates
             == Repeat(CAPTURED, Ceil(maxChunk, pageSize))
                + Repeat(FAILED, Ceil(size, pageSize) - Ceil(maxChunk, pageSize))
    requires m.pageDataChunks == [MemSlice(Ones(), base, maxChunk)]
    ensures ParsedRegion(PadBytes(RegionPayload(m))).Some?
    ensures Recovered(ParsedRegion(PadBytes(RegionPayload(m))).value, m, PageBytes(Ones(), base, maxChunk, pageSize))
  {
    var n := Ceil(maxChunk, pageSize);
    TrailingFailed(Ones(), base, maxChunk, pageSize, Repeat(CAPTURED, n), Ceil(size, pageSize) - n);
    TrueDataAllCaptured(Ones(), base, maxChunk, pageSize);
    JoinOne(MemSlice(Ones(), base, maxChunk));
    FaithfulRoundTrip(Ones(), base, maxChunk, pageSize, m);
  }

  /** One page map cannot hold both the cut page and the whole one. */
  lemma CutPageConflict(e: EmuRegion, m: MemoryRegion, base: nat, size: nat, pageSize: nat, maxChunk: nat, p: nat)
    requires pageSize > 0 && m.pageSize == pageSize && m.baseAddr == base
    requires p < |m.pageStates| && m.pageStates[p].CAPTURED?
    requires Rem(maxChunk, pageSize, p) < Min(pageSize, Rem(size, pageSize, p))
    requires Recovered(e, m, PageBytes(Ones(), base, maxChunk, pageSize))
    ensures !Recovered(e, m, PageBytes(Ones(), base, size, pageSize))
  {
    var addr := PageAddr(base, pageSize, p);
    PaddedOnesDiffer(addr, Rem(maxChunk, pageSize, p), Min(pageSize, Rem(size, pageSize, p)));
    assert e.pages[addr] == PadBytes(PageBytes(Ones(), base, maxChunk, pageSize)(p));
  }

  lemma FirstChunkNotWhole(m: MemoryRegion, base: nat, size: nat, pageSize: nat, maxChunk: nat)
    requires pageSize > 0 && 0 < maxChunk < size && maxChunk % pageSize != 0
    requires m.pageSize == pageSize && m.baseAddr == base && RegionCheck(m).None?
    requires Ceil(maxChunk, pageSize) <= Ceil(size, pageSize)
    requires m.pageStates
             == Repeat(CAPTURED, Ceil(maxChunk, pageSize))
                + Repeat(FAILED, Ceil(size, pageSize) - Ceil(maxChunk, pageSize))
    requires m.pageDataChunks == [MemSlice(Ones(), base, maxChunk)]
    ensures ParsedRegion(PadBytes(RegionPayload(m))).Some?
    ensures !Recovered(ParsedRegion(PadBytes(RegionPayload(m))).value, m, PageBytes(Ones(), base, size, pageSize))
  {
    FirstChunkRecovered(m, base, size, pageSize, maxChunk);
    var p := CutPage(size, pageSize, maxChunk);
    CutPageConflict(ParsedRegion(PadBytes(RegionPayload(m))).value, m, base, size, pageSize, maxChunk, p);
  }

  /** With a chunk size that is no multiple of the page size, that capture is not recovered. */
  lemma MisalignedChunkLosesBytes(
    base: nat, size: nat, pageSize: nat, maxChunk: nat, protection: U8, regionType: U8, now: U64)
    requires Representable(base, size, pageSize) && 0 < maxChunk < size && maxChunk % pageSize != 0
    ensures !EndToEnd(AbortAfterFirstChunk(), 0, base, size, pageSize, maxChunk, protection, regionType, now)
  {
    var r := RegionReads(AbortAfterFirstChunk(), 0, base, size, pageSize, maxChunk);
    BuiltRegionAccepted(AbortAfterFirstChunk(), 0, base, size, pageSize, maxChunk, protection, regionType, now);
    FirstChunkReads(base, size, pageSize, maxChunk);
    FirstChunkNotWhole(BuildRegion(r, base, pageSize, protection, regionType, now), base, size, pageSize, maxChunk);
  }

  /** Page fidelity for every target, failure pattern and abort point holds exactly when no chunk splits a page. */
  lemma PageFidelityIff(base: nat, size: nat, pageSize: nat, maxChunk: nat, protection: U8, regionType: U8, now: U64)
    requires Representable(base, size, pageSize) && maxChunk > 0
    ensures (forall t: Target, clock: nat ::
               EndToEnd(t, clock, base, size, pageSize, maxChunk, protection, regionType, now))
            <==> (size <= maxChunk || maxChunk % pageSize == 0)
  {
    if size <= maxChunk || maxChunk % pageSize == 0 {
      forall t: Target, clock: nat
        ensures EndToEnd(t, clock, base, size, pageSize, maxChunk, protection, regionType, now)
      {
        PageFidelity(t, clock, base, size, pageSize, maxChunk, protection, regionType, now);
      }
    } else {
      MisalignedChunkLosesBytes(base, size, pageSize, maxChunk, protection, regionType, now);
    }
  }
}

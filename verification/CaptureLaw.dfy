/** When a page is captured: exactly when the reads that could bring it succeed, at the moments they are made. */
module CaptureLaw {
  import opened ByteStrings
  import opened PageMap
  import opened MemoryRegions
  import opened Acquisition
  import opened RegionFidelity

  /** The page fallback begun at `clock` brings page `i`: no abort at its turn, and its own read succeeds. */
  predicate PageComes(t: Target, clock: nat, i: nat) {
    clock + 2 * i < t.abortAt && !t.fails(clock + 2 * i + 1)
  }

  /**
   * The page fallback goes on behind a page that cannot be read: a page is captured exactly when no abort is seen up
   * to its turn and its own read succeeds, and failed otherwise.
   */
  lemma {:induction false} TryPagesLaw(t: Target, clock: nat, addr: int, rem: nat, pageSize: nat, i: nat)
    requires pageSize > 0 && i < Ceil(rem, pageSize)
    ensures var s := TryPages(t, clock, addr, rem, pageSize).states;
            && |s| == Ceil(rem, pageSize)
            && s[i] == if PageComes(t, clock, i) then CAPTURED else FAILED
    decreases rem
  {
    hide MemSlice, Ceil;
    TryPagesCount(t, clock, addr, rem, pageSize);
    if rem == 0 {
      CeilZero(pageSize);
    } else if clock < t.abortAt {
      CeilStep(rem, pageSize);
      if i > 0 {
        TryPagesLaw(t, clock + 2, addr + pageSize, rem - Min(pageSize, rem), pageSize, i - 1);
      }
    }
  }

  /** A fallback without a byte is a fallback without a page. */
  lemma {:induction false} NoBytesNoPages(t: Target, clock: nat, addr: int, rem: nat, pageSize: nat)
    requires pageSize > 0 && TryPages(t, clock, addr, rem, pageSize).dataSize == 0
    ensures forall i :: 0 <= i < |TryPages(t, clock, addr, rem, pageSize).states| ==>
              TryPages(t, clock, addr, rem, pageSize).states[i] == FAILED
    decreases rem
  {
    if rem > 0 && clock < t.abortAt {
      NoBytesNoPages(t, clock + 2, addr + pageSize, rem - Min(pageSize, rem), pageSize);
    }
  }

  /** A chunk begun at `clock` brings its page `i`: its whole read succeeds, or the page comes on its own. */
  predicate ChunkBrings(t: Target, clock: nat, i: nat) {
    !t.fails(clock) || PageComes(t, clock + 1, i)
  }

  lemma ChunkPartLaw(t: Target, clock: nat, addr: int, chunk: nat, pageSize: nat, i: nat)
    requires pageSize > 0 && i < Ceil(chunk, pageSize)
    ensures var s := ChunkPart(t, clock, addr, chunk, pageSize).states;
            && |s| == Ceil(chunk, pageSize)
            && s[i] == if ChunkBrings(t, clock, i) then CAPTURED else FAILED
  {
    hide Ceil;
    if t.fails(clock) {
      TryPagesLaw(t, clock + 1, addr, chunk, pageSize, i);
      if TryPages(t, clock + 1, addr, chunk, pageSize).dataSize == 0 {
        NoBytesNoPages(t, clock + 1, addr, chunk, pageSize);
      }
    }
  }

  /** The moment a chunk ends whose abort test, not seeing one, is at `clock`. */
  function ChunkEnd(t: Target, clock: nat, addr: int, chunk: nat, pageSize: nat): (m: nat)
    requires pageSize > 0
  {
    if !t.fails(clock + 1) then clock + 2 else TryPages(t, clock + 2, addr, chunk, pageSize).clock
  }

  /** The moment of the abort test before chunk `k` of the `rem` bytes at `addr`, as long as none has seen one. */
  function ChunkMoment(t: Target, clock: nat, addr: int, rem: nat, pageSize: nat, maxChunk: nat, k: nat): (m: nat)
    requires pageSize > 0
    decreases k
  {
    if k == 0 then clock
    else
      var chunk := Min(maxChunk, rem);
      ChunkMoment(t, ChunkEnd(t, clock, addr, chunk, pageSize), addr + maxChunk, rem - chunk, pageSize, maxChunk, k - 1)
  }

  lemma {:induction false} PagesLater(t: Target, clock: nat, addr: int, rem: nat, pageSize: nat)
    requires pageSize > 0
    ensures TryPages(t, clock, addr, rem, pageSize).clock >= clock
    decreases rem
  {
    hide Ceil;
    if rem > 0 && clock < t.abortAt {
      PagesLater(t, clock + 2, addr + pageSize, rem - Min(pageSize, rem), pageSize);
    }
  }

  lemma {:induction false} MomentsLater(
    t: Target, clock: nat, addr: int, rem: nat, pageSize: nat, maxChunk: nat, k: nat)
    requires pageSize > 0
    ensures ChunkMoment(t, clock, addr, rem, pageSize, maxChunk, k) >= clock
    decreases k
  {
    hide TryPages;
    if k > 0 {
      var chunk := Min(maxChunk, rem);
      PagesLater(t, clock + 2, addr, chunk, pageSize);
      MomentsLater(t, ChunkEnd(t, clock, addr, chunk, pageSize), addr + maxChunk, rem - chunk, pageSize, maxChunk,
                   k - 1);
    }
  }

  /** Page `i` of chunk `k` is captured: no abort is seen before the chunk, and the chunk brings the page. */
  predicate PageOfChunk(
    t: Target, clock: nat, addr: int, rem: nat, pageSize: nat, maxChunk: nat, k: nat, i: nat)
    requires pageSize > 0
  {
    var m := ChunkMoment(t, clock, addr, rem, pageSize, maxChunk, k);
    m < t.abortAt && ChunkBrings(t, m + 1, i)
  }

  /** What a whole turn of the chunk loop does to the states. */
  lemma TurnStates(
    t: Target, acc: Reads, base: int, size: nat, pageSize: nat, offset: nat, done: seq<PageState>, chunk: nat, n: nat)
    requires pageSize > 0 && DoneUpTo(t, acc, base, size, pageSize, offset, done) && chunk <= size - offset
    requires WholePages(n, pageSize, chunk) || chunk == size - offset
    ensures var part := ChunkPart(t, acc.clock, base + offset, chunk, pageSize);
            var left := Ceil(size - offset - chunk, pageSize);
            ChunkStep(t, acc, base + offset, chunk, offset / pageSize, pageSize)
            == Reads(done + part.states + Repeat(FAILED, left), acc.chunks + part.chunks, acc.dataSize + part.dataSize,
                     part.clock)
    ensures ChunkPart(t, acc.clock, base + offset, chunk, pageSize).clock
            == if !t.fails(acc.clock) then acc.clock + 1
               else TryPages(t, acc.clock + 1, base + offset, chunk, pageSize).clock
  {
    hide Ceil, ChunkStep, TrueData, TryPages;
    WholeCeil(|done|, pageSize, offset, 0);
    CeilZero(pageSize);
    if chunk < size - offset {
      WholeCeil(n, pageSize, chunk, size - offset - chunk);
      WholeCeil(n, pageSize, chunk, 0);
    }
    ChunkStepStates(t, acc, base + offset, chunk, pageSize, done, Ceil(size - offset - chunk, pageSize));
  }

  /** The loop leaves the pages done before alone. */
  lemma {:induction false} ChunkLoopKeeps(
    t: Target, acc: Reads, base: int, size: nat, pageSize: nat, maxChunk: nat, ppc: nat, offset: nat,
    done: seq<PageState>)
    requires pageSize > 0 && maxChunk > 0 && WholePages(ppc, pageSize, maxChunk)
    requires DoneUpTo(t, acc, base, size, pageSize, offset, done)
    ensures done <= ChunkLoop(t, acc, base, size, pageSize, maxChunk, offset).states
    decreases size - offset
  {
    hide ChunkStep, ChunkPart, Ceil, TrueData, WholePages;
    if offset < size && acc.clock < t.abortAt {
      var acc1 := acc.(clock := acc.clock + 1);
      var chunk := Min(maxChunk, size - offset);
      var acc2 := ChunkStep(t, acc1, base + offset, chunk, offset / pageSize, pageSize);
      var part := ChunkPart(t, acc1.clock, base + offset, chunk, pageSize);
      TurnStates(t, acc1, base, size, pageSize, offset, done, chunk, ppc);
      if maxChunk < size - offset {
        DoneAfterWholeChunk(t, acc1, base, size, pageSize, offset, done, maxChunk, ppc);
        ChunkLoopKeeps(t, acc2, base, size, pageSize, maxChunk, ppc, offset + maxChunk, done + part.states);
        var s := ChunkLoop(t, acc2, base, size, pageSize, maxChunk, offset + maxChunk).states;
        assert s[..|done|] == s[..|done + part.states|][..|done|];
      } else {
        assert ChunkLoop(t, acc2, base, size, pageSize, maxChunk, size) == acc2;
      }
    }
  }

  /** The pages of the chunk the loop is at. */
  lemma ThisChunkLaw(
    t: Target, acc: Reads, base: int, size: nat, pageSize: nat, maxChunk: nat, ppc: nat, offset: nat,
    done: seq<PageState>, i: nat)
    requires pageSize > 0 && maxChunk > 0 && WholePages(ppc, pageSize, maxChunk)
    requires DoneUpTo(t, acc, base, size, pageSize, offset, done) && acc.clock < t.abortAt && offset < size
    requires i < Ceil(Min(maxChunk, size - offset), pageSize)
    ensures var s := ChunkLoop(t, acc, base, size, pageSize, maxChunk, offset).states;
            && |done| + i < |s|
            && s[|done| + i] == if ChunkBrings(t, acc.clock + 1, i) then CAPTURED else FAILED
  {
    hide ChunkStep, ChunkPart, Ceil, TrueData, WholePages, TryPages, ChunkBrings;
    var acc1 := acc.(clock := acc.clock + 1);
    var chunk := Min(maxChunk, size - offset);
    var acc2 := ChunkStep(t, acc1, base + offset, chunk, offset / pageSize, pageSize);
    var part := ChunkPart(t, acc1.clock, base + offset, chunk, pageSize);
    TurnStates(t, acc1, base, size, pageSize, offset, done, chunk, ppc);
    ChunkPartLaw(t, acc1.clock, base + offset, chunk, pageSize, i);
    if maxChunk < size - offset {
      DoneAfterWholeChunk(t, acc1, base, size, pageSize, offset, done, maxChunk, ppc);
      ChunkLoopKeeps(t, acc2, base, size, pageSize, maxChunk, ppc, offset + maxChunk, done + part.states);
      var s := ChunkLoop(t, acc2, base, size, pageSize, maxChunk, offset + maxChunk).states;
      assert s[|done| + i] == s[..|done + part.states|][|done| + i];
    } else {
      assert ChunkLoop(t, acc2, base, size, pageSize, maxChunk, size) == acc2;
    }
  }

  lemma {:induction false} ChunkLoopLaw(
    t: Target, acc: Reads, base: int, size: nat, pageSize: nat, maxChunk: nat, ppc: nat, offset: nat,
    done: seq<PageState>, k: nat, i: nat)
    requires pageSize > 0 && maxChunk > 0 && WholePages(ppc, pageSize, maxChunk)
    requires DoneUpTo(t, acc, base, size, pageSize, offset, done)
    requires k * maxChunk < size - offset && i < Ceil(Min(maxChunk, size - offset - k * maxChunk), pageSize)
    ensures var s, p := ChunkLoop(t, acc, base, size, pageSize, maxChunk, offset).states, |done| + k * ppc + i;
            && p < |s|
            && s[p] == if PageOfChunk(t, acc.clock, base + offset, size - offset, pageSize, maxChunk, k, i)
                       then CAPTURED else FAILED
    decreases size - offset
  {
    hide ChunkStep, ChunkPart, Ceil, TrueData, WholePages, TryPages, ChunkBrings;
    PageInside(size - offset, pageSize, maxChunk, ppc, k, i);
    if acc.clock >= t.abortAt {
      MomentsLater(t, acc.clock, base + offset, size - offset, pageSize, maxChunk, k);
      hide ChunkMoment;
    } else if k == 0 {
      ThisChunkLaw(t, acc, base, size, pageSize, maxChunk, ppc, offset, done, i);
    } else {
      LaterChunk(maxChunk, k);
      LaterChunk(ppc, k);
      var acc2 := NextTurn(t, acc, base, size, pageSize, maxChunk, ppc, offset, done);
      hide DoneUpTo;
      var part := ChunkPart(t, acc.clock + 1, base + offset, maxChunk, pageSize);
      ChunkLoopLaw(t, acc2, base, size, pageSize, maxChunk, ppc, offset + maxChunk, done + part.states, k - 1, i);
    }
  }

  /** The loop goes on behind a whole chunk. */
  lemma NextTurn(
    t: Target, acc: Reads, base: int, size: nat, pageSize: nat, maxChunk: nat, ppc: nat, offset: nat,
    done: seq<PageState>) returns (next: Reads)
    requires pageSize > 0 && maxChunk > 0 && WholePages(ppc, pageSize, maxChunk) && maxChunk < size - offset
    requires DoneUpTo(t, acc, base, size, pageSize, offset, done) && acc.clock < t.abortAt
    ensures var part := ChunkPart(t, acc.clock + 1, base + offset, maxChunk, pageSize);
            && |part.states| == ppc && next.clock == ChunkEnd(t, acc.clock, base + offset, maxChunk, pageSize)
            && DoneUpTo(t, next, base, size, pageSize, offset + maxChunk, done + part.states)
            && ChunkLoop(t, acc, base, size, pageSize, maxChunk, offset)
               == ChunkLoop(t, next, base, size, pageSize, maxChunk, offset + maxChunk)
  {
    hide ChunkStep, ChunkPart, Ceil, TrueData, WholePages, TryPages, DoneUpTo;
    var acc1 := acc.(clock := acc.clock + 1);
    next := ChunkStep(t, acc1, base + offset, maxChunk, offset / pageSize, pageSize);
    ClockAside(t, acc, base, size, pageSize, offset, done);
    TurnStates(t, acc1, base, size, pageSize, offset, done, maxChunk, ppc);
    DoneAfterWholeChunk(t, acc1, base, size, pageSize, offset, done, maxChunk, ppc);
    ChunkPartLength(t, acc1.clock, base + offset, maxChunk, pageSize, ppc);
  }

  lemma ClockAside(t: Target, acc: Reads, base: int, size: nat, pageSize: nat, offset: nat, done: seq<PageState>)
    requires pageSize > 0 && DoneUpTo(t, acc, base, size, pageSize, offset, done)
    ensures DoneUpTo(t, acc.(clock := acc.clock + 1), base, size, pageSize, offset, done)
  {
  }

  lemma LaterChunk(maxChunk: nat, k: nat)
    requires k > 0
    ensures k * maxChunk == (k - 1) * maxChunk + maxChunk && (k - 1) * maxChunk >= 0
  {
  }

  lemma ChunkPartLength(t: Target, clock: nat, addr: int, chunk: nat, pageSize: nat, n: nat)
    requires pageSize > 0 && WholePages(n, pageSize, chunk)
    ensures |ChunkPart(t, clock, addr, chunk, pageSize).states| == n
  {
    hide TryPages, Ceil;
    WholeCeil(n, pageSize, chunk, 0);
    CeilZero(pageSize);
    TryPagesCount(t, clock + 1, addr, chunk, pageSize);
  }

  /** Page `i` exists exactly when it starts before the end. */
  lemma CeilAbove(n: nat, pageSize: nat, i: nat)
    requires pageSize > 0
    ensures i < Ceil(n, pageSize) <==> i * pageSize < n
  {
    var q, r := (n + pageSize - 1) / pageSize, (n + pageSize - 1) % pageSize;
    assert n + pageSize - 1 == q * pageSize + r;
    if i < q {
      assert q * pageSize == i * pageSize + (q - i) * pageSize;
      MulAtLeast(pageSize, q - i);
    } else {
      assert i * pageSize == q * pageSize + (i - q) * pageSize && (i - q) * pageSize >= 0;
    }
  }

  /** Page `i` of chunk `k` is a page of the whole. */
  lemma PageInside(rem: nat, pageSize: nat, maxChunk: nat, ppc: nat, k: nat, i: nat)
    requires pageSize > 0 && maxChunk > 0 && WholePages(ppc, pageSize, maxChunk)
    requires k * maxChunk < rem && i < Ceil(Min(maxChunk, rem - k * maxChunk), pageSize)
    ensures k * ppc >= 0 && k * ppc + i < Ceil(rem, pageSize)
  {
    hide Ceil;
    var left := Min(maxChunk, rem - k * maxChunk);
    WholePagesIs(ppc, pageSize, maxChunk);
    CeilAbove(left, pageSize, i);
    CeilAbove(rem, pageSize, k * ppc + i);
    assert (k * ppc + i) * pageSize == k * ppc * pageSize + i * pageSize;
    assert k * ppc * pageSize == k * (ppc * pageSize);
  }

  /** Page `p` lies in chunk `p / ppc`. */
  lemma ChunkOfPage(size: nat, pageSize: nat, maxChunk: nat, ppc: nat, p: nat)
    requires pageSize > 0 && maxChunk > 0 && ppc > 0 && maxChunk == ppc * pageSize && p < Ceil(size, pageSize)
    ensures var k, i := p / ppc, p % ppc;
            && p == k * ppc + i && k * maxChunk < size && i < Ceil(Min(maxChunk, size - k * maxChunk), pageSize)
  {
    hide Ceil;
    var k, i := p / ppc, p % ppc;
    CeilAbove(size, pageSize, p);
    assert p == k * ppc + i;
    assert p * pageSize == k * maxChunk + i * pageSize by {
      assert (k * ppc + i) * pageSize == k * ppc * pageSize + i * pageSize;
      assert k * ppc * pageSize == k * (ppc * pageSize);
    }
    assert i * pageSize < maxChunk by {
      assert ppc * pageSize == i * pageSize + (ppc - i) * pageSize;
      MulAtLeast(pageSize, ppc - i);
    }
    CeilAbove(Min(maxChunk, size - k * maxChunk), pageSize, i);
  }

  // --------------------------------------------------------------- regions

  /**
   * Page `p` of a region whose reading begins at `clock` is captured: the whole read or the read of its chunk
   * succeeds, or its own read does in the fallback, and no abort is seen before the chunk or the page.
   */
  predicate PageRead(t: Target, clock: nat, base: int, size: nat, pageSize: nat, maxChunk: nat, p: nat)
    requires pageSize > 0 && maxChunk > 0 && (size <= maxChunk || maxChunk % pageSize == 0)
  {
    if size <= maxChunk then ChunkBrings(t, clock, p)
    else
      PagesPerChunk(maxChunk, pageSize);
      var ppc := maxChunk / pageSize;
      PageOfChunk(t, clock, base, size, pageSize, maxChunk, p / ppc, p % ppc)
  }

  lemma PagesPerChunk(maxChunk: nat, pageSize: nat)
    requires pageSize > 0 && maxChunk > 0 && maxChunk % pageSize == 0
    ensures maxChunk / pageSize > 0 && maxChunk == maxChunk / pageSize * pageSize
  {
  }

  /** Every page of a region is captured exactly when a read that could bring it succeeds, and failed otherwise. */
  lemma RegionReadsLaw(t: Target, clock: nat, base: int, size: nat, pageSize: nat, maxChunk: nat, p: nat)
    requires pageSize > 0 && maxChunk > 0 && (size <= maxChunk || maxChunk % pageSize == 0) && p < Ceil(size, pageSize)
    ensures var s := RegionReads(t, clock, base, size, pageSize, maxChunk).states;
            && |s| == Ceil(size, pageSize)
            && s[p] == if PageRead(t, clock, base, size, pageSize, maxChunk, p) then CAPTURED else FAILED
  {
    hide ChunkLoop, TryPages, Ceil, ChunkMoment;
    if size <= maxChunk {
      TryPagesCount(t, clock + 1, base, size, pageSize);
      TryPagesLaw(t, clock + 1, base, size, pageSize, p);
    } else {
      var ppc, n := maxChunk / pageSize, Ceil(size, pageSize);
      var acc := Reads(Repeat(FAILED, n), [], 0, clock);
      PagesPerChunk(maxChunk, pageSize);
      assert [] + Repeat(FAILED, n) == Repeat(FAILED, n);
      WholePagesIs(ppc, pageSize, maxChunk);
      ChunkOfPage(size, pageSize, maxChunk, ppc, p);
      assert DoneUpTo(t, acc, base, size, pageSize, 0, []);
      ChunkLoopLaw(t, acc, base, size, pageSize, maxChunk, ppc, 0, [], p / ppc, p % ppc);
    }
  }

  lemma {:induction false} PlainMoments(
    t: Target, clock: nat, addr: int, rem: nat, pageSize: nat, maxChunk: nat, k: nat)
    requires pageSize > 0 && forall c :: c >= clock ==> !t.fails(c)
    ensures ChunkMoment(t, clock, addr, rem, pageSize, maxChunk, k) == clock + 2 * k
    decreases k
  {
    if k > 0 {
      var chunk := Min(maxChunk, rem);
      PlainMoments(t, clock + 2, addr + maxChunk, rem - chunk, pageSize, maxChunk, k - 1);
    }
  }

  /** When no read fails and no abort comes, every page is captured and the data is all of the region. */
  lemma UndisturbedRead(t: Target, clock: nat, base: int, size: nat, pageSize: nat, maxChunk: nat)
    requires pageSize > 0 && maxChunk > 0 && (size <= maxChunk || maxChunk % pageSize == 0)
    requires (forall c :: c >= clock ==> !t.fails(c)) && t.abortAt >= clock + 2 * Ceil(size, maxChunk)
    ensures var r := RegionReads(t, clock, base, size, pageSize, maxChunk);
            && r.states == Repeat(CAPTURED, Ceil(size, pageSize)) && r.dataSize == size
            && Join(r.chunks) == MemSlice(t.mem, base, size)
  {
    hide RegionReads, Ceil, ChunkMoment, TrueData;
    var r := RegionReads(t, clock, base, size, pageSize, maxChunk);
    RegionReadsFaithful(t, clock, base, size, pageSize, maxChunk);
    forall p | 0 <= p < |r.states| ensures r.states[p] == CAPTURED {
      RegionReadsLaw(t, clock, base, size, pageSize, maxChunk, p);
      if size > maxChunk {
        var ppc := maxChunk / pageSize;
        PagesPerChunk(maxChunk, pageSize);
        ChunkOfPage(size, pageSize, maxChunk, ppc, p);
        CeilAbove(size, maxChunk, p / ppc);
        PlainMoments(t, clock, base, size, pageSize, maxChunk, p / ppc);
      }
    }
    assert r.states == Repeat(CAPTURED, Ceil(size, pageSize));
    TrueDataAllCaptured(t.mem, base, size, pageSize);
  }
}

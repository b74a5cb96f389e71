/** Reading one region of the target: whole, then by chunk, then by page, while an abort may strike. */
module Acquisition {
  import opened ByteStrings
  import opened PageMap
  import opened MemoryRegions

  /**
   * The target and everything the engine cannot control: its memory, which of the bridge's reads
   * fail, and from which moment on the abort flag is up. Moments are numbered by bridge reads and
   * flag tests, so an abort may fall between any two of them.
   */
  datatype Target = Target(mem: int -> Byte, fails: nat -> bool, abortAt: nat)

  function MemSlice(mem: int -> Byte, addr: int, n: nat): (b: Bytes)
    ensures |b| == n && forall i :: 0 <= i < n ==> b[i] == mem(addr + i)
  {
    seq(n, i => mem(addr + i))
  }

  /** Number of pages covering `size` bytes: `(size + page_size - 1) // page_size`. */
  function Ceil(size: nat, pageSize: nat): (n: nat)
    requires pageSize > 0
  {
    (size + pageSize - 1) / pageSize
  }

  lemma CeilStep(size: nat, pageSize: nat)
    requires pageSize > 0 && size > 0
    ensures Ceil(size, pageSize) == 1 + Ceil(if size <= pageSize then 0 else size - pageSize, pageSize)
  {
    if size <= pageSize {
      ModUnique(size + pageSize - 1, pageSize, 1, size - 1);
      ModUnique(pageSize - 1, pageSize, 0, pageSize - 1);
    } else {
      var q, r := (size - 1) / pageSize, (size - 1) % pageSize;
      MulStep(q, pageSize);
      ModUnique(size + pageSize - 1, pageSize, q + 1, r);
    }
  }

  lemma CeilZero(pageSize: nat)
    requires pageSize > 0
    ensures Ceil(0, pageSize) == 0
  {
    ModUnique(pageSize - 1, pageSize, 0, pageSize - 1);
  }

  lemma AlignedPages(n: nat, pageSize: nat)
    requires pageSize > 0
    ensures n * pageSize / pageSize == n
  {
    ModUnique(n * pageSize, pageSize, n, 0);
  }

  /** What a read attempt leaves: page states, data chunks, their size, and the clock. */
  datatype Reads = Reads(states: seq<PageState>, chunks: seq<Bytes>, dataSize: nat, clock: nat)

  /** `_try_read_pages` from the page at `addr` on, with `rem` bytes of the range left. */
  function TryPages(t: Target, clock: nat, addr: int, rem: nat, pageSize: nat): (r: Reads)
    requires pageSize > 0
    decreases rem
  {
    if rem == 0 then Reads([], [], 0, clock)
    else if clock >= t.abortAt then Reads(Repeat(FAILED, Ceil(rem, pageSize)), [], 0, clock + 1)
    else
      var len := Min(pageSize, rem);
      var rest := TryPages(t, clock + 2, addr + pageSize, rem - len, pageSize);
      if t.fails(clock + 1) then rest.(states := [FAILED] + rest.states)
      else
        Reads([CAPTURED] + rest.states, [MemSlice(t.mem, addr, len)] + rest.chunks, len + rest.dataSize, rest.clock)
  }

  /** Earlier reads followed by the rest of a page loop. */
  function After(states: seq<PageState>, chunks: seq<Bytes>, dataSize: nat, rest: Reads): (r: Reads) {
    Reads(states + rest.states, chunks + rest.chunks, dataSize + rest.dataSize, rest.clock)
  }

  lemma AfterNothing(rest: Reads)
    ensures After([], [], 0, rest) == rest
  {
  }

  lemma AfterEnd(states: seq<PageState>, chunks: seq<Bytes>, dataSize: nat, tail: seq<PageState>, clock: nat)
    ensures After(states, chunks, dataSize, Reads(tail, [], 0, clock)) == Reads(states + tail, chunks, dataSize, clock)
  {
    assert chunks + [] == chunks;
  }

  lemma AfterCaptured(states: seq<PageState>, chunks: seq<Bytes>, dataSize: nat, data: Bytes, rest: Reads)
    ensures After(states, chunks, dataSize,
                  Reads([CAPTURED] + rest.states, [data] + rest.chunks, |data| + rest.dataSize, rest.clock))
            == After(states + [CAPTURED], chunks + [data], dataSize + |data|, rest)
  {
    assert states + ([CAPTURED] + rest.states) == states + [CAPTURED] + rest.states;
    assert chunks + ([data] + rest.chunks) == chunks + [data] + rest.chunks;
  }

  lemma AfterFailed(states: seq<PageState>, chunks: seq<Bytes>, dataSize: nat, rest: Reads)
    ensures After(states, chunks, dataSize, rest.(states := [FAILED] + rest.states))
            == After(states + [FAILED], chunks, dataSize, rest)
  {
    assert states + ([FAILED] + rest.states) == states + [FAILED] + rest.states;
  }

  /** A chunk read whole marks pages `lo` to `hi` captured. */
  function Mark(states: seq<PageState>, lo: nat, hi: nat): (r: seq<PageState>)
    ensures |r| == |states|
  {
    seq(|states|, k requires 0 <= k < |states| => if lo <= k < hi then CAPTURED else states[k])
  }

  /** A chunk read by page overwrites the states from page `first` on. */
  function Overlay(states: seq<PageState>, first: nat, part: seq<PageState>): (r: seq<PageState>)
    ensures |r| == |states|
  {
    seq(|states|, k requires 0 <= k < |states| => if first <= k < first + |part| then part[k - first] else states[k])
  }

  /** One iteration of the chunk loop at `offset`, the flag having been found down. */
  function ChunkStep(t: Target, acc: Reads, addr: int, chunk: nat, first: nat, pageSize: nat): (r: Reads)
    requires pageSize > 0
    ensures |r.states| == |acc.states|
  {
    if !t.fails(acc.clock) then
      Reads(Mark(acc.states, first, first + Ceil(chunk, pageSize)), acc.chunks + [MemSlice(t.mem, addr, chunk)],
            acc.dataSize + chunk, acc.clock + 1)
    else
      var fb := TryPages(t, acc.clock + 1, addr, chunk, pageSize);
      if fb.dataSize > 0 then
        Reads(Overlay(acc.states, first, fb.states), acc.chunks + fb.chunks, acc.dataSize + fb.dataSize, fb.clock)
      else acc.(clock := fb.clock)
  }

  /** The chunk loop of `_read_region` from `offset` on. */
  function ChunkLoop(t: Target, acc: Reads, base: int, size: nat, pageSize: nat, maxChunk: nat, offset: nat): (r: Reads)
    requires pageSize > 0 && maxChunk > 0
    ensures |r.states| == |acc.states|
    decreases size - offset
  {
    if offset >= size then acc
    else if acc.clock >= t.abortAt then acc.(clock := acc.clock + 1)
    else
      var chunk := Min(maxChunk, size - offset);
      var acc' := ChunkStep(t, acc.(clock := acc.clock + 1), base + offset, chunk, offset / pageSize, pageSize);
      ChunkLoop(t, acc', base, size, pageSize, maxChunk, offset + chunk)
  }

  /** What `_read_region` collects. */
  function RegionReads(t: Target, clock: nat, base: int, size: nat, pageSize: nat, maxChunk: nat): (r: Reads)
    requires pageSize > 0 && maxChunk > 0
  {
    if size <= maxChunk then
      if t.fails(clock) then TryPages(t, clock + 1, base, size, pageSize)
      else Reads(Repeat(CAPTURED, Ceil(size, pageSize)), [MemSlice(t.mem, base, size)], size, clock + 1)
    else
      ChunkLoop(t, Reads(Repeat(FAILED, Ceil(size, pageSize)), [], 0, clock), base, size, pageSize, maxChunk, 0)
  }

  /** The region record `_read_region` builds from its reads. */
  function BuildRegion(
    r: Reads, base: nat, pageSize: nat, protection: U8, regionType: U8, now: U64): (m: MemoryRegion) {
    MemoryRegion(base, |r.states| * pageSize, protection, regionType, pageSize, now, r.states, r.chunks)
  }

  /** The engine's reading side: a bridge to the target and the abort flag, sharing one clock. */
  class RegionReader {
    const target: Target
    const maxChunk: nat
    var clock: nat

    constructor (target: Target, maxChunk: nat)
      ensures this.target == target && this.maxChunk == maxChunk && clock == 0
    {
      this.target, this.maxChunk, clock := target, maxChunk, 0;
    }

    /** The bridge contract: `size` bytes of the target, or None. */
    method ReadMemory(addr: int, size: nat) returns (r: Option<Bytes>)
      modifies this`clock
      ensures clock == old(clock) + 1
      ensures r == if target.fails(old(clock)) then None else Some(MemSlice(target.mem, addr, size))
    {
      r := if target.fails(clock) then None else Some(MemSlice(target.mem, addr, size));
      clock := clock + 1;
    }

    /** `self._abort.is_set()`. */
    method IsAborted() returns (b: bool)
      modifies this`clock
      ensures clock == old(clock) + 1
      ensures b == (old(clock) >= target.abortAt)
    {
      b := clock >= target.abortAt;
      clock := clock + 1;
    }

    method TryReadPages(base: int, size: nat, pageSize: nat)
      returns (states: seq<PageState>, chunks: seq<Bytes>, dataSize: nat)
      requires pageSize > 0
      modifies this`clock
      ensures Reads(states, chunks, dataSize, clock) == TryPages(target, old(clock), base, size, pageSize)
    {
      hide After, Ceil;
      var numPages := Ceil(size, pageSize);
      states, chunks, dataSize := [], [], 0;
      var i := 0;
      ghost var addr, rem: nat := base, size;
      AfterNothing(TryPages(target, clock, base, size, pageSize));
      CeilZero(pageSize);
      while i < numPages
        invariant addr == base + i * pageSize
        invariant numPages - i == Ceil(rem, pageSize)
        invariant rem > 0 ==> rem == size - i * pageSize
        invariant After(states, chunks, dataSize, TryPages(target, clock, addr, rem, pageSize))
                  == TryPages(target, old(clock), base, size, pageSize)
        decreases numPages - i
      {
        var aborted := IsAborted();
        if aborted {
          AfterEnd(states, chunks, dataSize, Repeat(FAILED, numPages - i), clock);
          states := states + Repeat(FAILED, numPages - i);
          return;
        }
        CeilStep(rem, pageSize);
        MulStep(i, pageSize);
        var readSize := Min(pageSize, size - i * pageSize);
        ghost var rest := TryPages(target, clock + 1, addr + pageSize, rem - readSize, pageSize);
        var data := ReadMemory(base + i * pageSize, readSize);
        if data.Some? {
          AfterCaptured(states, chunks, dataSize, data.value, rest);
          states, chunks, dataSize := states + [CAPTURED], chunks + [data.value], dataSize + |data.value|;
        } else {
          AfterFailed(states, chunks, dataSize, rest);
          states := states + [FAILED];
        }
        addr, rem := addr + pageSize, rem - readSize;
        i := i + 1;
      }
      if rem > 0 {
        CeilStep(rem, pageSize);
      }
      AfterEnd(states, chunks, dataSize, [], clock);
      assert states + [] == states;
    }

    method ReadRegion(base: nat, size: nat, protection: U8, regionType: U8, pageSize: nat, now: U64)
      returns (region: MemoryRegion, dataSize: nat)
      requires pageSize > 0 && maxChunk > 0
      modifies this`clock
      ensures var r := RegionReads(target, old(clock), base, size, pageSize, maxChunk);
              && region == BuildRegion(r, base, pageSize, protection, regionType, now)
              && dataSize == r.dataSize && clock == r.clock
    {
      hide ChunkStep;
      var alignedSize := Ceil(size, pageSize) * pageSize;
      AlignedPages(Ceil(size, pageSize), pageSize);
      var numPages := alignedSize / pageSize;
      var states, chunks := [], [];
      dataSize := 0;
      ghost var r := RegionReads(target, clock, base, size, pageSize, maxChunk);
      if size <= maxChunk {
        var data := ReadMemory(base, size);
        if data.Some? {
          states, chunks, dataSize := Repeat(CAPTURED, numPages), [data.value], |data.value|;
        } else {
          states, chunks, dataSize := TryReadPages(base, size, pageSize);
          TryPagesCount(target, old(clock) + 1, base, size, pageSize);
        }
      } else {
        states := Repeat(FAILED, numPages);
        var offset := 0;
        while offset < size
          invariant |states| == numPages
          invariant ChunkLoop(target, Reads(states, chunks, dataSize, clock), base, size, pageSize, maxChunk, offset)
                    == r
          decreases size - offset
        {
          var aborted := IsAborted();
          if aborted {
            break;
          }
          states, chunks, dataSize, offset := ReadChunk(base, size, pageSize, offset, states, chunks, dataSize);
        }
      }
      region := MemoryRegion(base, alignedSize, protection, regionType, pageSize, now, states, chunks);
    }

    /** The body of the chunk loop. */
    method ReadChunk(
      base: int, size: nat, pageSize: nat, offset0: nat, states0: seq<PageState>, chunks0: seq<Bytes>, dataSize0: nat)
      returns (states: seq<PageState>, chunks: seq<Bytes>, dataSize: nat, offset: nat)
      requires pageSize > 0 && maxChunk > 0 && offset0 < size
      modifies this`clock
      ensures var chunk := Min(maxChunk, size - offset0);
              && offset == offset0 + chunk
              && Reads(states, chunks, dataSize, clock)
                 == ChunkStep(target, Reads(states0, chunks0, dataSize0, old(clock)), base + offset0, chunk,
                              offset0 / pageSize, pageSize)
    {
      hide Ceil, TryPages;
      states, chunks, dataSize := states0, chunks0, dataSize0;
      var chunkSize := Min(maxChunk, size - offset0);
      var firstPage := offset0 / pageSize;
      var data := ReadMemory(base + offset0, chunkSize);
      if data.Some? {
        chunks, dataSize := chunks + [data.value], dataSize + |data.value|;
        var hi := Min(firstPage + Ceil(chunkSize, pageSize), |states0|);
        var pi := firstPage;
        while pi < hi
          invariant firstPage <= pi
          invariant |states| == |states0|
          invariant forall k :: 0 <= k < |states0| ==>
                      states[k] == if firstPage <= k < pi then CAPTURED else states0[k]
          invariant pi <= hi || pi == firstPage
        {
          states := states[pi := CAPTURED];
          pi := pi + 1;
        }
        assert states == Mark(states0, firstPage, firstPage + Ceil(chunkSize, pageSize));
      } else {
        var fbStates, fbChunks, fbSize := TryReadPages(base + offset0, chunkSize, pageSize);
        if fbSize > 0 {
          chunks, dataSize := chunks + fbChunks, dataSize + fbSize;
          for off := 0 to |fbStates|
            invariant |states| == |states0|
            invariant forall k :: 0 <= k < |states0| ==>
                        states[k] == if firstPage <= k < firstPage + off then fbStates[k - firstPage] else states0[k]
          {
            if firstPage + off < |states| {
              states := states[firstPage + off := fbStates[off]];
            }
          }
          assert states == Overlay(states0, firstPage, fbStates);
        }
      }
      offset := offset0 + chunkSize;
    }
  }

  /** The page fallback yields one state per page, whatever happens. */
  lemma {:induction false} TryPagesCount(t: Target, clock: nat, addr: int, rem: nat, pageSize: nat)
    requires pageSize > 0
    ensures |TryPages(t, clock, addr, rem, pageSize).states| == Ceil(rem, pageSize)
    decreases rem
  {
    if rem == 0 {
      CeilZero(pageSize);
    } else if clock < t.abortAt {
      CeilStep(rem, pageSize);
      TryPagesCount(t, clock + 2, addr + pageSize, rem - Min(pageSize, rem), pageSize);
    }
  }
}

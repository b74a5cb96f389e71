/** Half-open address spans: coalescing them, and finding the lowest free page between them. */
module Spans {
  import opened ByteStrings
  import opened Sorting

  datatype Span = Span(lo: int, hi: int)

  /** Python's order on pairs. */
  function SpanOrder(): (Span, Span) -> bool {
    (a: Span, b: Span) => a.lo < b.lo || (a.lo == b.lo && a.hi <= b.hi)
  }

  lemma SpanOrderTotal()
    ensures TotalOrder(SpanOrder())
  {
  }

  predicate In(s: Span, a: int) {
    s.lo <= a < s.hi
  }

  predicate Covers(spans: seq<Span>, a: int) {
    exists i :: 0 <= i < |spans| && In(spans[i], a)
  }

  /** Strictly positive gaps, in ascending order. */
  ghost predicate Gapped(spans: seq<Span>) {
    forall i, j :: 0 <= i < j < |spans| ==> spans[i].hi < spans[j].lo
  }

  ghost predicate NonEmpty(spans: seq<Span>) {
    forall i :: 0 <= i < |spans| ==> spans[i].lo < spans[i].hi
  }

  function Max(a: int, b: int): (m: int) {
    if a < b then b else a
  }

  /** One turn of the coalescing loop. */
  function Merge(out: seq<Span>, s: Span): (r: seq<Span>) {
    if out != [] && s.lo <= out[|out| - 1].hi then
      out[|out| - 1 := Span(out[|out| - 1].lo, Max(out[|out| - 1].hi, s.hi))]
    else out + [s]
  }

  function MergeAll(out: seq<Span>, spans: seq<Span>): (r: seq<Span>)
    decreases |spans|
  {
    if spans == [] then out else MergeAll(Merge(out, spans[0]), spans[1..])
  }

  function Coalesced(spans: seq<Span>): (r: seq<Span>) {
    MergeAll([], Sorted(spans, SpanOrder()))
  }

  method Coalesce(spans: seq<Span>) returns (out: seq<Span>)
    ensures out == Coalesced(spans)
  {
    out := [];
    var sorted := Sorted(spans, SpanOrder());
    for i := 0 to |sorted|
      invariant MergeAll(out, sorted[i..]) == MergeAll([], sorted)
    {
      assert sorted[i..][1..] == sorted[i + 1..];
      var s := sorted[i];
      if out != [] && s.lo <= out[|out| - 1].hi {
        var last := out[|out| - 1];
        out := out[|out| - 1 := Span(last.lo, Max(last.hi, s.hi))];
      } else {
        out := out + [s];
      }
    }
  }

  // ------------------------------------------------------------ correctness

  /** The loop's output so far: gapped, ascending, and ending no later than where `lo` starts. */
  ghost predicate Progress(out: seq<Span>, lo: int) {
    && (forall i :: 0 <= i < |out| ==> out[i].lo <= lo)
    && (forall i, j :: 0 <= i < j < |out| ==> out[i].lo <= out[j].lo && out[i].hi < out[j].lo)
  }

  lemma MergeProgress(out: seq<Span>, s: Span)
    requires Progress(out, s.lo)
    ensures Progress(Merge(out, s), s.lo)
    ensures NonEmpty(out) && s.lo < s.hi ==> NonEmpty(Merge(out, s))
  {
    if out != [] && s.lo > out[|out| - 1].hi {
      assert forall i :: 0 <= i < |out| - 1 ==> out[i].hi < out[|out| - 1].lo <= s.lo;
    }
  }

  lemma MergeCovers(out: seq<Span>, s: Span, a: int)
    requires Progress(out, s.lo)
    ensures Covers(Merge(out, s), a) <==> Covers(out, a) || In(s, a)
  {
    var r := Merge(out, s);
    var n := |out| - 1;
    if out != [] && s.lo <= out[n].hi {
      assert In(r[n], a) <==> In(out[n], a) || In(s, a);
      assert forall i :: 0 <= i < n ==> r[i] == out[i];
    } else {
      assert r[n + 1] == s;
      assert forall i :: 0 <= i < |out| ==> r[i] == out[i];
    }
  }

  lemma {:induction false} MergeAllFacts(out: seq<Span>, spans: seq<Span>)
    requires Ordered(spans, SpanOrder())
    requires |spans| > 0 ==> Progress(out, spans[0].lo)
    requires |spans| == 0 ==> Gapped(out)
    ensures Gapped(MergeAll(out, spans))
    ensures NonEmpty(out) && NonEmpty(spans) ==> NonEmpty(MergeAll(out, spans))
    ensures forall a :: Covers(MergeAll(out, spans), a) <==> Covers(out, a) || Covers(spans, a)
    decreases |spans|
  {
    if spans != [] {
      var s, rest := spans[0], spans[1..];
      var next := Merge(out, s);
      MergeProgress(out, s);
      if rest != [] {
        assert SpanOrder()(spans[0], spans[1]);
        assert Progress(next, rest[0].lo);
      }
      OrderedTail(spans);
      MergeAllFacts(next, rest);
      assert MergeAll(out, spans) == MergeAll(next, rest);
      hide Merge, Progress;
      forall a ensures Covers(MergeAll(out, spans), a) <==> Covers(out, a) || Covers(spans, a) {
        MergeCovers(out, s, a);
        CoversCons(spans, a);
      }
    }
  }

  lemma OrderedTail(spans: seq<Span>)
    requires |spans| > 0 && Ordered(spans, SpanOrder())
    ensures Ordered(spans[1..], SpanOrder())
  {
    forall i, j | 0 <= i < j < |spans[1..]| ensures SpanOrder()(spans[1..][i], spans[1..][j]) {
      assert spans[1..][i] == spans[i + 1] && spans[1..][j] == spans[j + 1];
    }
  }

  lemma CoversCons(spans: seq<Span>, a: int)
    requires |spans| > 0
    ensures Covers(spans, a) <==> In(spans[0], a) || Covers(spans[1..], a)
  {
    if Covers(spans, a) {
      var i :| 0 <= i < |spans| && In(spans[i], a);
      assert i > 0 ==> spans[1..][i - 1] == spans[i];
    }
    if Covers(spans[1..], a) {
      var i :| 0 <= i < |spans[1..]| && In(spans[1..][i], a);
      assert spans[i + 1] == spans[1..][i];
    }
  }

  /** Coalescing keeps the covered addresses, and leaves strictly positive gaps. */
  lemma CoalescedFacts(spans: seq<Span>)
    ensures Gapped(Coalesced(spans))
    ensures NonEmpty(spans) ==> NonEmpty(Coalesced(spans))
    ensures forall a :: Covers(Coalesced(spans), a) <==> Covers(spans, a)
  {
    SpanOrderTotal();
    SortedFacts(spans, SpanOrder());
    var sorted := Sorted(spans, SpanOrder());
    assert Progress([], if sorted == [] then 0 else sorted[0].lo);
    MergeAllFacts([], sorted);
    SameCover(sorted, spans);
    assert NonEmpty(spans) ==> NonEmpty(sorted) by {
      assert forall i :: 0 <= i < |sorted| ==> sorted[i] in sorted;
    }
  }

  /** Coverage depends only on which spans occur. */
  lemma SameCover(x: seq<Span>, y: seq<Span>)
    requires forall s :: s in x <==> s in y
    ensures forall a :: Covers(x, a) <==> Covers(y, a)
  {
    forall a ensures Covers(x, a) <==> Covers(y, a) {
      CoversMember(x, a);
      CoversMember(y, a);
    }
  }

  lemma CoversMember(x: seq<Span>, a: int)
    ensures Covers(x, a) <==> exists s :: s in x && In(s, a)
  {
    if Covers(x, a) {
      var i :| 0 <= i < |x| && In(x[i], a);
      assert x[i] in x;
    }
  }

  // -------------------------------------------------------------- canonical

  lemma FirstCovered(x: seq<Span>, a: int)
    requires |x| > 0 && Gapped(x) && NonEmpty(x)
    ensures Covers(x, x[0].lo)
    ensures Covers(x, a) ==> x[0].lo <= a
    ensures !Covers(x, x[0].hi)
    ensures Covers(x[1..], a) <==> Covers(x, a) && x[0].hi <= a
    ensures Gapped(x[1..]) && NonEmpty(x[1..])
  {
    assert In(x[0], x[0].lo);
    CoversCons(x, a);
    assert forall i :: 0 < i < |x| ==> x[0].hi < x[i].lo;
    assert forall i :: 0 <= i < |x[1..]| ==> x[1..][i] == x[i + 1];
  }

  /** A gapped list of non-empty spans is determined by the addresses it covers. */
  lemma {:induction false} Canonical(x: seq<Span>, y: seq<Span>)
    requires Gapped(x) && NonEmpty(x) && Gapped(y) && NonEmpty(y)
    requires forall a :: Covers(x, a) <==> Covers(y, a)
    ensures x == y
    decreases |x|
  {
    if x == [] || y == [] {
      if x != [] {
        FirstCovered(x, 0);
      }
      if y != [] {
        FirstCovered(y, 0);
      }
    } else {
      SameFirst(x, y);
      forall a ensures Covers(x[1..], a) <==> Covers(y[1..], a) {
        FirstCovered(x, a);
        FirstCovered(y, a);
      }
      FirstCovered(x, 0);
      FirstCovered(y, 0);
      Canonical(x[1..], y[1..]);
      assert x == [x[0]] + x[1..] && y == [y[0]] + y[1..];
    }
  }

  lemma SameFirst(x: seq<Span>, y: seq<Span>)
    requires |x| > 0 && |y| > 0 && Gapped(x) && NonEmpty(x) && Gapped(y) && NonEmpty(y)
    requires forall a :: Covers(x, a) <==> Covers(y, a)
    ensures x[0] == y[0]
  {
    FirstCovered(x, y[0].lo);
    FirstCovered(y, x[0].lo);
    FirstCovered(x, y[0].hi);
    FirstCovered(y, x[0].hi);
    if x[0].hi < y[0].hi {
      assert In(y[0], x[0].hi);
    } else if y[0].hi < x[0].hi {
      assert In(x[0], y[0].hi);
    }
  }

  /** The coalesced form depends on the covered set alone. */
  lemma CoalescedCanonical(x: seq<Span>, y: seq<Span>)
    requires NonEmpty(x) && NonEmpty(y)
    ensures Coalesced(x) == Coalesced(y) <==> forall a :: Covers(x, a) <==> Covers(y, a)
  {
    CoalescedFacts(x);
    CoalescedFacts(y);
    if forall a :: Covers(x, a) <==> Covers(y, a) {
      Canonical(Coalesced(x), Coalesced(y));
    }
  }

  // --------------------------------------------------------------- first fit

  const PAGE := 0x1000

  function AlignUp(a: int): (r: int)
    ensures a <= r < a + PAGE && r % PAGE == 0
  {
    (a + PAGE - 1) / PAGE * PAGE
  }

  ghost predicate Aligned(spans: seq<Span>) {
    forall i :: 0 <= i < |spans| ==> spans[i].lo % PAGE == 0 && spans[i].hi % PAGE == 0
  }

  predicate Overlaps(s: Span, c: int, size: nat) {
    c < s.hi && c + size > s.lo
  }

  predicate FreeWindow(mapped: seq<Span>, c: int, size: nat) {
    forall i :: 0 <= i < |mapped| ==> !Overlaps(mapped[i], c, size)
  }

  /** A window the allocator may hand out. */
  ghost predicate Fits(mapped: seq<Span>, c: int, size: nat, limit: int) {
    c >= PAGE && c % PAGE == 0 && c + size <= limit && FreeWindow(mapped, c, size)
  }

  function IntOrder(): (int, int) -> bool {
    (a: int, b: int) => a <= b
  }

  /** The candidate addresses: each span's end rounded up, and the first page above zero. */
  function Candidates(mapped: seq<Span>): (r: seq<int>)
    ensures |r| == |mapped| + 1
  {
    seq(|mapped|, i requires 0 <= i < |mapped| => AlignUp(mapped[i].hi)) + [PAGE]
  }

  /** `_find_free_page`: the lowest free page-aligned window; None where the source raises. */
  method FindFreePage(mapped: seq<Span>, size0: nat, limit: int) returns (r: Option<int>)
    requires Aligned(mapped) && NonEmpty(mapped) && forall i :: 0 <= i < |mapped| ==> mapped[i].lo >= 0
    ensures r.Some? ==>
              && Fits(mapped, r.value, AlignUp(size0), limit)
              && forall c :: c < r.value ==> !Fits(mapped, c, AlignUp(size0), limit)
    ensures r.None? ==> forall c :: !Fits(mapped, c, AlignUp(size0), limit)
  {
    hide Fits, FreeWindow, Candidates;
    var size := AlignUp(size0);
    var candidates := Sorted(Candidates(mapped), IntOrder());
    SortedFacts(Candidates(mapped), IntOrder());
    for i := 0 to |candidates|
      invariant forall k :: 0 <= k < i ==> !Fits(mapped, candidates[k], size, limit)
    {
      var c := candidates[i];
      CandidateFits(mapped, c, size, limit);
      if c + size <= limit && FreeWindow(mapped, c, size) {
        forall x | x < c ensures !Fits(mapped, x, size, limit) {
          if Fits(mapped, x, size, limit) {
            var k := CandidateBelow(mapped, candidates, x, size, limit);
          }
        }
        return Some(c);
      }
    }
    forall x ensures !Fits(mapped, x, size, limit) {
      if Fits(mapped, x, size, limit) {
        var k := CandidateBelow(mapped, candidates, x, size, limit);
      }
    }
    r := None;
  }

  /** Every candidate is page-aligned and above the zero page. */
  lemma CandidateFits(mapped: seq<Span>, c: int, size: nat, limit: int)
    requires Aligned(mapped) && NonEmpty(mapped) && forall i :: 0 <= i < |mapped| ==> mapped[i].lo >= 0
    requires c in Candidates(mapped)
    ensures Fits(mapped, c, size, limit) <==> c + size <= limit && FreeWindow(mapped, c, size)
  {
    var i :| 0 <= i < |Candidates(mapped)| && Candidates(mapped)[i] == c;
    if i < |mapped| {
      assert mapped[i].hi > 0 && mapped[i].hi % PAGE == 0;
    }
  }

  /** Sliding any fitting window down by pages ends at a candidate that fits. */
  lemma {:induction false} SlideDown(mapped: seq<Span>, c: int, size: nat, limit: int) returns (d: int)
    requires Aligned(mapped) && Fits(mapped, c, size, limit)
    ensures d <= c && d in Candidates(mapped) && Fits(mapped, d, size, limit)
    decreases c
  {
    if c == PAGE {
      d := c;
      assert Candidates(mapped)[|mapped|] == c;
    } else if FreeWindow(mapped, c - PAGE, size) {
      d := SlideDown(mapped, c - PAGE, size, limit);
    } else {
      var i :| 0 <= i < |mapped| && Overlaps(mapped[i], c - PAGE, size);
      assert !Overlaps(mapped[i], c, size);
      d := c;
      assert AlignUp(mapped[i].hi) == c;
      assert Candidates(mapped)[i] == c;
    }
  }

  /** Below any fitting window some candidate fits. */
  lemma CandidateBelow(mapped: seq<Span>, candidates: seq<int>, x: int, size: nat, limit: int) returns (k: nat)
    requires Aligned(mapped) && Fits(mapped, x, size, limit)
    requires forall y :: y in candidates <==> y in Candidates(mapped)
    ensures k < |candidates| && candidates[k] <= x && Fits(mapped, candidates[k], size, limit)
  {
    hide Candidates;
    var d := SlideDown(mapped, x, size, limit);
    k :| 0 <= k < |candidates| && candidates[k] == d;
  }
}

/** The memory probe's region lookup by binary search. */
module RegionLookup {
  import opened ByteStrings
  import opened MemoryRegions

  predicate Holds(r: EmuRegion, addr: int) {
    r.base <= addr < r.base + r.size
  }

  ghost predicate SortedByBase(rs: seq<EmuRegion>) {
    forall i, j :: 0 <= i < j < |rs| ==> rs[i].base <= rs[j].base
  }

  /** `bisect_right`: the number of bases not above the address. */
  method BisectRight(rs: seq<EmuRegion>, addr: int) returns (lo: nat)
    requires SortedByBase(rs)
    ensures lo <= |rs| && (forall i :: 0 <= i < lo ==> rs[i].base <= addr)
            && forall i :: lo <= i < |rs| ==> rs[i].base > addr
  {
    lo := 0;
    var hi: nat := |rs|;
    while lo < hi
      invariant lo <= hi <= |rs|
      invariant forall i :: 0 <= i < lo ==> rs[i].base <= addr
      invariant forall i :: hi <= i < |rs| ==> rs[i].base > addr
    {
      var mid := (lo + hi) / 2;
      if addr < rs[mid].base {
        hi := mid;
      } else {
        lo := mid + 1;
      }
    }
  }

  /** The last of the first `n` regions to start at or below the address. */
  function LastStart(rs: seq<EmuRegion>, addr: int, n: nat): (j: Option<nat>)
    requires n <= |rs|
    ensures j.Some? ==> j.value < n && rs[j.value].base <= addr && forall i :: j.value < i < n ==> rs[i].base > addr
    ensures j.None? ==> forall i :: 0 <= i < n ==> rs[i].base > addr
  {
    if n == 0 then None else if rs[n - 1].base <= addr then Some(n - 1) else LastStart(rs, addr, n - 1)
  }

  /** The region that starts last at or below the address, if it holds the address. */
  function Found(rs: seq<EmuRegion>, addr: int): (r: Option<nat>)
    ensures r.Some? ==> r.value < |rs| && Holds(rs[r.value], addr)
  {
    var j := LastStart(rs, addr, |rs|);
    if j.Some? && Holds(rs[j.value], addr) then j else None
  }

  /** `_region_at`. */
  method RegionAt(rs: seq<EmuRegion>, addr: int) returns (r: Option<nat>)
    requires SortedByBase(rs)
    ensures r == Found(rs, addr)
  {
    var i := BisectRight(rs, addr);
    if i == 0 {
      return None;
    }
    r := if Holds(rs[i - 1], addr) then Some(i - 1) else None;
  }

  /** An address some region holds is found. */
  predicate FoundIfHeld(rs: seq<EmuRegion>, addr: int) {
    (exists i :: 0 <= i < |rs| && Holds(rs[i], addr)) ==> Found(rs, addr).Some?
  }

  /** Region `i` reaches past the end of the later-starting region `j` into a gap behind it. */
  predicate Overhangs(rs: seq<EmuRegion>, i: nat, j: nat) {
    && i < j < |rs| && rs[j].base + rs[j].size < rs[i].base + rs[i].size
    && (j + 1 == |rs| || rs[j].base + rs[j].size < rs[j + 1].base)
  }

  /** The lookup is complete at every address exactly when no region overhangs a later-starting one. */
  lemma CompleteIffNoOverhang(rs: seq<EmuRegion>)
    requires SortedByBase(rs)
    ensures (forall addr :: FoundIfHeld(rs, addr)) <==> forall i: nat, j: nat :: !Overhangs(rs, i, j)
  {
    forall i: nat, j: nat | Overhangs(rs, i, j) ensures !FoundIfHeld(rs, rs[j].base + rs[j].size) {
      MissedBehind(rs, i, j);
    }
    forall addr | !FoundIfHeld(rs, addr) ensures exists i: nat, j: nat :: Overhangs(rs, i, j) {
      var i :| 0 <= i < |rs| && Holds(rs[i], addr);
      var j := LastStart(rs, addr, |rs|).value;
      assert Overhangs(rs, i, j);
    }
  }

  /** The first address behind the later-starting region is held by the other and not found. */
  lemma MissedBehind(rs: seq<EmuRegion>, i: nat, j: nat)
    requires SortedByBase(rs) && Overhangs(rs, i, j)
    ensures !FoundIfHeld(rs, rs[j].base + rs[j].size)
  {
    var addr := rs[j].base + rs[j].size;
    assert Holds(rs[i], addr);
    var k := LastStart(rs, addr, |rs|);
    assert k == Some(j);
  }
}

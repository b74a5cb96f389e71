/** Mapped memory: a finite map from addresses to bytes. */
module Memory {
  import opened ByteStrings

  type Mem = map<int, Byte>

  predicate Mapped(mem: Mem, addr: int, n: nat) {
    forall a :: addr <= a < addr + n ==> a in mem
  }

  function Load(mem: Mem, addr: int, n: nat): (b: Bytes)
    requires Mapped(mem, addr, n)
    ensures |b| == n && forall i :: 0 <= i < n ==> b[i] == mem[addr + i]
  {
    seq(n, i requires 0 <= i < n => mem[addr + i])
  }

  /** Overwrite the mapped bytes at `addr`. */
  function Store(mem: Mem, addr: int, data: Bytes): (r: Mem)
    ensures r.Keys == mem.Keys
    ensures forall a :: a in mem ==> r[a] == if addr <= a < addr + |data| then data[a - addr] else mem[a]
  {
    map a | a in mem :: if addr <= a < addr + |data| then data[a - addr] else mem[a]
  }

  predicate InRange(lo: int, a: int, hi: int) {
    lo <= a < hi
  }

  /** Map `[lo, hi)` with zero bytes. */
  function MapZero(mem: Mem, lo: int, hi: int): (r: Mem)
    ensures forall a :: a in r <==> a in mem || lo <= a < hi
    ensures forall a :: a in r ==> r[a] == if lo <= a < hi then 0 else mem[a]
  {
    mem + map a: int | lo <= a < hi && InRange(lo, a, hi) :: 0 as Byte
  }

  /** Writing a range and writing its old bytes back changes nothing. */
  lemma StoreUndo(mem: Mem, addr: int, data: Bytes)
    requires Mapped(mem, addr, |data|)
    ensures Store(Store(mem, addr, data), addr, Load(mem, addr, |data|)) == mem
  {
  }
}

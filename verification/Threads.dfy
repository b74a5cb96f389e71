/** Thread state from the bridge's registers to a ThreadContext block and back to the emulator's thread. */
module Threads {
  import opened ByteStrings

  datatype Role = PC | SP | FP | FLAGS | TLS | LR | GENERAL

  /** A register as the bridge reports it; `size` 0 means unknown, None is a value `int()` raises on. */
  datatype RegisterValue = RegisterValue(name: Bytes, value: Option<int>, size: int, role: Role)

  datatype ThreadInfo = ThreadInfo(
    tid: nat, registers: seq<RegisterValue>, name: Bytes, isCurrent: bool, state: nat, suspended: bool, partial_: bool)

  datatype ThreadRegister = ThreadRegister(name: Bytes, value: Bytes, flags: nat)

  datatype ThreadContext = ThreadContext(
    threadId: nat, startTimeNs: nat, flags: nat, state: nat, arch: nat, name: Bytes, registers: seq<ThreadRegister>)

  function RoleFlag(r: Role): (f: nat) {
    match r
    case PC => 1
    case SP => 2
    case FP => 4
    case FLAGS => 8
    case TLS => 16
    case LR => 32
    case GENERAL => 0
  }

  /** Registers that are encoded; the others are skipped. */
  predicate Usable(rv: RegisterValue) {
    rv.value.Some? && rv.size >= 0
  }

  function Width(rv: RegisterValue): (w: nat)
    requires Usable(rv)
  {
    if rv.size == 0 then 8 else rv.size
  }

  /** Masking to the width, then little-endian bytes of that width. */
  function RegisterOf(rv: RegisterValue): (r: ThreadRegister)
    requires Usable(rv)
  {
    ThreadRegister(rv.name, LE(rv.value.value % Pow256(Width(rv)), Width(rv)), RoleFlag(rv.role))
  }

  function RegistersOf(rvs: seq<RegisterValue>): (r: seq<ThreadRegister>) {
    if rvs == [] then []
    else
      var last := rvs[|rvs| - 1];
      RegistersOf(rvs[..|rvs| - 1]) + if Usable(last) then [RegisterOf(last)] else []
  }

  /** Some register of the thread is encoded. */
  predicate Carries(t: ThreadInfo) {
    exists i :: 0 <= i < |t.registers| && Usable(t.registers[i])
  }

  lemma {:induction false} CarriesIff(rvs: seq<RegisterValue>)
    ensures RegistersOf(rvs) != [] <==> exists i :: 0 <= i < |rvs| && Usable(rvs[i])
    decreases |rvs|
  {
    hide RegisterOf;
    if rvs != [] {
      CarriesIff(rvs[..|rvs| - 1]);
      assert forall i :: 0 <= i < |rvs| - 1 ==> rvs[..|rvs| - 1][i] == rvs[i];
    }
  }

  /** Bit 0 is Current, bit 2 Suspended, bit 3 Partial. */
  function ContextFlags(t: ThreadInfo): (f: nat) {
    (if t.isCurrent then 1 else 0) + (if t.suspended then 4 else 0) + (if t.partial_ then 8 else 0)
  }

  function ContextOf(t: ThreadInfo): (c: ThreadContext) {
    ThreadContext(t.tid, 0, ContextFlags(t), if t.state <= 7 then t.state else 0, 0, t.name, RegistersOf(t.registers))
  }

  predicate IsCurrent(c: ThreadContext) {
    c.flags % 2 == 1
  }

  predicate HasRegisters(c: ThreadContext) {
    c.registers != []
  }

  /** A block that is written and carries the Current flag. */
  predicate WrittenCurrent(c: ThreadContext) {
    HasRegisters(c) && IsCurrent(c)
  }

  method EncodeRegisters(rvs: seq<RegisterValue>) returns (regs: seq<ThreadRegister>)
    ensures regs == RegistersOf(rvs)
  {
    regs := [];
    for j := 0 to |rvs|
      invariant regs == RegistersOf(rvs[..j])
    {
      assert rvs[..j + 1][..j] == rvs[..j];
      if !Usable(rvs[j]) {
        continue;
      }
      regs := regs + [RegisterOf(rvs[j])];
    }
    assert rvs[..|rvs|] == rvs;
  }

  /** The context of one thread. */
  method BuildContext(t: ThreadInfo) returns (c: ThreadContext)
    ensures c == ContextOf(t)
  {
    var regs := EncodeRegisters(t.registers);
    var state := if t.state <= 7 then t.state else 0;
    var flags := if t.isCurrent then 1 else 0;
    if t.suspended {
      flags := flags + 4;
    }
    if t.partial_ {
      flags := flags + 8;
    }
    c := ThreadContext(t.tid, 0, flags, state, 0, t.name, regs);
  }

  /** `_build_thread_contexts`: the first context with registers becomes Current when no such context is. */
  method BuildThreadContexts(threads: seq<ThreadInfo>) returns (contexts: seq<ThreadContext>)
    ensures contexts == Contexts(threads)
  {
    contexts := [];
    var first: Option<nat> := None;
    var anyCurrent := false;
    assert !AnyCurrent([]);
    hide FirstWritten, AnyCurrent, HasRegisters, WrittenCurrent, ContextOf, RawContexts;
    assert RawContexts(threads[..0]) == [];
    for i := 0 to |threads|
      invariant contexts == RawContexts(threads[..i])
      invariant first == FirstWritten(contexts)
      invariant anyCurrent == AnyCurrent(contexts)
    {
      var t := threads[i];
      var c := BuildContext(t);
      RawContextsAppend(threads[..i], t);
      FirstWrittenAppend(contexts, c);
      AnyCurrentAppend(contexts, c);
      if first.None? && HasRegisters(c) {
        first := Some(i);
      }
      anyCurrent := anyCurrent || WrittenCurrent(c);
      contexts := contexts + [c];
      assert threads[..i + 1] == threads[..i] + [t];
    }
    assert threads[..|threads|] == threads;
    if first.Some? && !anyCurrent {
      var k := first.value;
      contexts := contexts[k := contexts[k].(flags := contexts[k].flags + 1)];
    }
  }

  function RawContexts(threads: seq<ThreadInfo>): (cs: seq<ThreadContext>)
    ensures |cs| == |threads| && forall i :: 0 <= i < |cs| ==> cs[i] == ContextOf(threads[i])
  {
    seq(|threads|, k requires 0 <= k < |threads| => ContextOf(threads[k]))
  }

  lemma RawContextsAppend(ts: seq<ThreadInfo>, t: ThreadInfo)
    ensures RawContexts(ts + [t]) == RawContexts(ts) + [ContextOf(t)]
  {
  }

  predicate AnyCurrent(cs: seq<ThreadContext>) {
    exists k :: 0 <= k < |cs| && WrittenCurrent(cs[k])
  }

  lemma AnyCurrentAppend(cs: seq<ThreadContext>, c: ThreadContext)
    ensures AnyCurrent(cs + [c]) <==> AnyCurrent(cs) || WrittenCurrent(c)
  {
    assert (cs + [c])[|cs|] == c;
    assert forall k :: 0 <= k < |cs| ==> (cs + [c])[k] == cs[k];
  }

  function FirstWritten(cs: seq<ThreadContext>): (k: Option<nat>)
    ensures k.None? <==> forall i :: 0 <= i < |cs| ==> !HasRegisters(cs[i])
    ensures k.Some? ==>
              k.value < |cs| && HasRegisters(cs[k.value]) && forall i :: 0 <= i < k.value ==> !HasRegisters(cs[i])
  {
    if cs == [] then None
    else if HasRegisters(cs[0]) then Some(0)
    else
      var k := FirstWritten(cs[1..]);
      assert k.None? ==> forall i :: 1 <= i < |cs| ==> cs[i] == cs[1..][i - 1];
      if k.None? then None else Some(k.value + 1)
  }

  lemma {:induction false} FirstWrittenAppend(cs: seq<ThreadContext>, c: ThreadContext)
    ensures FirstWritten(cs + [c])
            == if FirstWritten(cs).Some? then FirstWritten(cs) else if HasRegisters(c) then Some(|cs|) else None
  {
    if cs == [] {
    } else {
      assert (cs + [c])[1..] == cs[1..] + [c];
      FirstWrittenAppend(cs[1..], c);
    }
  }

  function Contexts(threads: seq<ThreadInfo>): (cs: seq<ThreadContext>)
    ensures |cs| == |threads|
  {
    var cs := RawContexts(threads);
    var first := FirstWritten(cs);
    if first.Some? && !AnyCurrent(cs) then
      var k := first.value;
      cs[k := cs[k].(flags := cs[k].flags + 1)]
    else cs
  }

  // ------------------------------------------------------------------ block

  /** What `struct.pack` demands of every field. */
  predicate RegisterFits(r: ThreadRegister) {
    |r.name| + 1 < 0x100 && |r.value| < 0x100 && r.flags < 0x1_0000
  }

  predicate ThreadFits(t: ThreadContext) {
    && t.threadId < 0x1_0000_0000_0000_0000 && t.startTimeNs < 0x1_0000_0000_0000_0000
    && t.flags < 0x1_0000 && t.state < 0x100 && |t.registers| < 0x1_0000_0000 && |t.name| + 1 < 0x1_0000
    && forall i :: 0 <= i < |t.registers| ==> RegisterFits(t.registers[i])
  }

  function ArchByte(arch: nat): (a: U8) {
    if 0 < arch <= 0xFF then arch else 0
  }

  function NameRaw(name: Bytes): (r: Bytes) {
    if name != [] then name + [0] else []
  }

  function ThreadHeader(t: ThreadContext): (h: Bytes)
    requires ThreadFits(t)
    ensures |h| == 32
  {
    LE(t.threadId, 8) + LE(t.startTimeNs, 8) + LE(t.flags, 2) + [t.state, ArchByte(t.arch)] + LE(|t.registers|, 4)
    + LE(|NameRaw(t.name)|, 2) + Zeros(6)
  }

  function RegisterEntry(r: ThreadRegister): (e: Bytes)
    requires RegisterFits(r)
  {
    [|r.name| + 1, |r.value|] + LE(r.flags, 2) + LE(0, 4) + EncodeString(r.name) + PadBytes(r.value)
  }

  function RegisterEntries(rs: seq<ThreadRegister>): (e: Bytes)
    requires forall i :: 0 <= i < |rs| ==> RegisterFits(rs[i])
  {
    if rs == [] then [] else RegisterEntry(rs[0]) + RegisterEntries(rs[1..])
  }

  function ThreadPayload(t: ThreadContext): (p: Bytes)
    requires ThreadFits(t)
  {
    ThreadHeader(t) + PadBytes(NameRaw(t.name)) + RegisterEntries(t.registers)
  }

  // ----------------------------------------------------------------- loader

  datatype EmuReg = EmuReg(name: Bytes, value: nat, width: nat, isPc: bool, isSp: bool)

  datatype EmuThread = EmuThread(tid: nat, isCurrent: bool, arch: nat, registers: seq<EmuReg>)

  const ARM64 := 2
  const UNKNOWN_ARCH := 0xFFFF

  /** ArchType codes 0 to 11 exist. */
  function ArchOf(code: nat, fileArch: nat): (a: nat) {
    if code == 0 then fileArch else if code <= 11 then code else UNKNOWN_ARCH
  }

  const FP_NAME: Bytes := [0x66, 0x70]
  const LR_NAME: Bytes := [0x6C, 0x72]
  const X29: Bytes := [0x78, 0x32, 0x39]
  const X30: Bytes := [0x78, 0x33, 0x30]

  /** The ARM64 aliases the loader normalises. */
  function Normalised(name: Bytes, arch: nat): (n: Bytes)
    ensures n == name <==> !(arch == ARM64 && (name == FP_NAME || name == LR_NAME))
  {
    if arch == ARM64 && name == FP_NAME then X29
    else if arch == ARM64 && name == LR_NAME then X30
    else name
  }

  /** The register entry at `off`, and where the next one starts; None where unpacking raises. */
  function ParsedRegister(p: Bytes, off: nat, arch: nat): (r: Option<(EmuReg, nat)>) {
    if off + 8 > |p| then None
    else
      var nameLen, width, flags := p[off], p[off + 1], Get16(p[off + 2..off + 4]);
      var name := if nameLen == 0 then [] else Slice(p, off + 8, off + 8 + nameLen - 1);
      var voff := off + 8 + Pad8(nameLen);
      var value := FromLE(Slice(p, voff, voff + width));
      Some((EmuReg(Normalised(name, arch), value, width, flags % 2 == 1, flags / 2 % 2 == 1), voff + Pad8(width)))
  }

  function ParsedRegisters(p: Bytes, off: nat, count: nat, arch: nat): (r: Option<seq<EmuReg>>)
    decreases count
  {
    if count == 0 then Some([])
    else
      match ParsedRegister(p, off, arch)
      case None => None
      case Some((reg, next)) =>
        var rest := ParsedRegisters(p, next, count - 1, arch);
        if rest.None? then None else Some([reg] + rest.value)
  }

  function ParsedThread(p: Bytes, fileArch: nat): (r: Option<EmuThread>) {
    if |p| < 32 then None
    else
      var arch := ArchOf(p[19], fileArch);
      var regs := ParsedRegisters(p, 32 + Pad8(Get16(p[24..26])), Get32(p[20..24]), arch);
      if regs.None? then None
      else Some(EmuThread(Get64(p[0..8]), Get16(p[16..18]) % 2 == 1, arch, regs.value))
  }

  method ParseThread(p: Bytes, fileArch: nat) returns (r: Option<EmuThread>)
    ensures r == ParsedThread(p, fileArch)
  {
    if |p| < 32 {
      return None;
    }
    var arch := ArchOf(p[19], fileArch);
    var regs := ParseRegisters(p, 32 + Pad8(Get16(p[24..26])), Get32(p[20..24]), arch);
    r := if regs.None? then None else Some(EmuThread(Get64(p[0..8]), Get16(p[16..18]) % 2 == 1, arch, regs.value));
  }

  method ParseRegisters(p: Bytes, off0: nat, count: nat, arch: nat) returns (r: Option<seq<EmuReg>>)
    ensures r == ParsedRegisters(p, off0, count, arch)
  {
    hide ParsedRegister;
    var off, regs: seq<EmuReg> := off0, [];
    ghost var all := ParsedRegisters(p, off0, count, arch);
    assert all.Some? ==> [] + all.value == all.value;
    for i := 0 to count
      invariant var rest := ParsedRegisters(p, off, count - i, arch);
                all == if rest.None? then None else Some(regs + rest.value)
    {
      var e := ParsedRegister(p, off, arch);
      if e.None? {
        return None;
      }
      ghost var rest := ParsedRegisters(p, e.value.1, count - i - 1, arch);
      assert rest.Some? ==> regs + ([e.value.0] + rest.value) == regs + [e.value.0] + rest.value;
      regs, off := regs + [e.value.0], e.value.1;
    }
    assert regs + [] == regs;
    r := Some(regs);
  }

  /** On arbitrary bytes: a header of 32 bytes, its fields, and as many registers as it announces. */
  lemma ParsedThreadMeans(p: Bytes, fileArch: nat)
    ensures ParsedThread(p, fileArch).Some? ==>
              var t := ParsedThread(p, fileArch).value;
              && |p| >= 32 && t.tid == FromLE(p[0..8]) && |t.registers| == FromLE(p[20..24])
              && (t.isCurrent <==> FromLE(p[16..18]) % 2 == 1)
              && t.arch == if p[19] == 0 then fileArch else if p[19] < 12 then p[19] else 0xFFFF
    ensures |p| >= 32 && FromLE(p[20..24]) == 0 ==> ParsedThread(p, fileArch).Some?
  {
    hide FromLE, Pad8, ParsedRegister;
    if |p| >= 32 {
      RegistersCounted(p, 32 + Pad8(Get16(p[24..26])), Get32(p[20..24]), ArchOf(p[19], fileArch));
    }
  }

  lemma {:induction false} RegistersCounted(p: Bytes, off: nat, count: nat, arch: nat)
    ensures ParsedRegisters(p, off, count, arch).Some? ==> |ParsedRegisters(p, off, count, arch).value| == count
    decreases count
  {
    hide ParsedRegister;
    if count > 0 && ParsedRegister(p, off, arch).Some? {
      RegistersCounted(p, ParsedRegister(p, off, arch).value.1, count - 1, arch);
    }
  }

  // ------------------------------------------------------------- round trip

  /**
   * On arbitrary bytes: an entry of a fixed part of eight bytes, the name without its NUL and the value cut short by
   * the end of the payload, both padded to eight.
   */
  lemma ParsedRegisterMeans(p: Bytes, off: nat, arch: nat)
    ensures ParsedRegister(p, off, arch).Some? <==> off + 8 <= |p|
    ensures off + 8 <= |p| ==>
              var (e, next) := ParsedRegister(p, off, arch).value;
              var nameLen, at := p[off], off + 8 + Pad8(p[off]);
              && (arch != 2 ==> e.name == Slice(p, off + 8, off + 7 + nameLen))
              && e.width == p[off + 1] && e.value == FromLE(Slice(p, at, at + e.width))
              && (e.isPc <==> p[off + 2] % 2 == 1) && (e.isSp <==> p[off + 2] / 2 % 2 == 1)
              && next == at + Pad8(e.width)
  {
    hide Pad8;
    if off + 8 <= |p| {
      var f := p[off + 2..off + 4];
      var low: nat := f[0];
      assert FromLE(f) == low + 256 * FromLE(f[1..]);
    }
  }

  /** What the loader must recover of a written register. */
  function Recovered(r: ThreadRegister, arch: nat): (e: EmuReg) {
    EmuReg(Normalised(r.name, arch), FromLE(r.value), |r.value|, r.flags % 2 == 1, r.flags / 2 % 2 == 1)
  }

  function RecoveredAll(rs: seq<ThreadRegister>, arch: nat): (es: seq<EmuReg>)
    ensures |es| == |rs| && forall i :: 0 <= i < |rs| ==> es[i] == Recovered(rs[i], arch)
  {
    if rs == [] then [] else [Recovered(rs[0], arch)] + RecoveredAll(rs[1..], arch)
  }

  lemma CutEntry(pre: Bytes, a: Bytes, f: Bytes, z: Bytes, n: Bytes, v: Bytes, post: Bytes)
    requires |a| == 2 && |f| == 2 && |z| == 4
    ensures var p := pre + (a + f + z + n + v) + post;
            var off := |pre|;
            && off + 8 + |n| + |v| <= |p| && p[off] == a[0] && p[off + 1] == a[1] && p[off + 2..off + 4] == f
            && p[off + 8..off + 8 + |n|] == n && p[off + 8 + |n|..off + 8 + |n| + |v|] == v
  {
  }

  lemma EncodedName(s: Bytes)
    ensures EncodeString(s)[..|s|] == s
  {
    assert EncodeString(s)[..|s|] == EncodeString(s)[..|s| + 1][..|s|];
  }

  /** An entry whose parts lie at their places in `p` is parsed back. */
  lemma EntryFields(p: Bytes, off: nat, r: ThreadRegister, n: nat, v: nat, arch: nat)
    requires RegisterFits(r) && n == Pad8(|r.name| + 1) && v == Pad8(|r.value|) && off + 8 + n + v <= |p|
    requires p[off] == |r.name| + 1 && p[off + 1] == |r.value| && p[off + 2..off + 4] == LE(r.flags, 2)
    requires Slice(p, off + 8, off + 8 + |r.name|) == r.name
    requires Slice(p, off + 8 + n, off + 8 + n + |r.value|) == r.value
    ensures ParsedRegister(p, off, arch) == Some((Recovered(r, arch), off + 8 + n + v))
  {
    hide Slice, FromLE, LE, Normalised, Pad8;
    LE16(r.flags);
  }

  lemma EntryRoundTrip(r: ThreadRegister, pre: Bytes, post: Bytes, arch: nat)
    requires RegisterFits(r)
    ensures ParsedRegister(pre + RegisterEntry(r) + post, |pre|, arch)
            == Some((Recovered(r, arch), |pre| + |RegisterEntry(r)|))
  {
    hide EncodeString, PadBytes, Pad8, Slice, FromLE, LE, ParsedRegister, Recovered;
    var n, v := EncodeString(r.name), PadBytes(r.value);
    var p := pre + RegisterEntry(r) + post;
    var off := |pre|;
    CutEntry(pre, [|r.name| + 1, |r.value|], LE(r.flags, 2), LE(0, 4), n, v, post);
    EncodedName(r.name);
    SubSlice(p, off + 8, |n|, |r.name|);
    SubSlice(p, off + 8 + |n|, |v|, |r.value|);
    EntryFields(p, off, r, |n|, |v|, arch);
  }

  lemma {:induction false} EntriesRoundTrip(rs: seq<ThreadRegister>, pre: Bytes, post: Bytes, arch: nat)
    requires forall i :: 0 <= i < |rs| ==> RegisterFits(rs[i])
    ensures ParsedRegisters(pre + RegisterEntries(rs) + post, |pre|, |rs|, arch)
            == Some(RecoveredAll(rs, arch))
    decreases |rs|
  {
    hide RegisterEntry, ParsedRegister, Recovered;
    if rs != [] {
      var e, tail := RegisterEntry(rs[0]), RegisterEntries(rs[1..]);
      assert pre + RegisterEntries(rs) + post == pre + e + (tail + post);
      EntryRoundTrip(rs[0], pre, tail + post, arch);
      assert pre + e + (tail + post) == (pre + e) + tail + post;
      EntriesRoundTrip(rs[1..], pre + e, post, arch);
    }
  }

  lemma CutThreadHeader(a: Bytes, b: Bytes, c: Bytes, d: Bytes, e: Bytes, f: Bytes, g: Bytes, rest: Bytes)
    requires |a| == 8 && |b| == 8 && |c| == 2 && |d| == 2 && |e| == 4 && |f| == 2 && |g| == 6
    ensures var p := a + b + c + d + e + f + g + rest;
            && p[0..8] == a && p[8..16] == b && p[16..18] == c && p[18] == d[0] && p[19] == d[1]
            && p[20..24] == e && p[24..26] == f
  {
  }

  lemma ThreadHeaderFields(t: ThreadContext, rest: Bytes)
    requires ThreadFits(t)
    ensures var p := ThreadHeader(t) + rest;
            && Get64(p[0..8]) == t.threadId && Get64(p[8..16]) == t.startTimeNs && Get16(p[16..18]) == t.flags
            && p[18] == t.state && p[19] == ArchByte(t.arch)
            && Get32(p[20..24]) == |t.registers| && Get16(p[24..26]) == |NameRaw(t.name)|
  {
    CutThreadHeader(LE(t.threadId, 8), LE(t.startTimeNs, 8), LE(t.flags, 2), [t.state, ArchByte(t.arch)],
                    LE(|t.registers|, 4), LE(|NameRaw(t.name)|, 2), Zeros(6), rest);
    LE64(t.threadId);
    LE64(t.startTimeNs);
    LE16(t.flags);
    LE32(|t.registers|);
    LE16(|NameRaw(t.name)|);
  }

  /** A written thread, padded as a block payload, is recovered whole. */
  lemma ThreadRoundTrip(t: ThreadContext, fileArch: nat)
    requires ThreadFits(t)
    ensures var arch := ArchOf(ArchByte(t.arch), fileArch);
            ParsedThread(PadBytes(ThreadPayload(t)), fileArch)
            == Some(EmuThread(t.threadId, IsCurrent(t), arch,
                              RecoveredAll(t.registers, arch)))
    ensures t.arch == 0 ==> ArchOf(ArchByte(t.arch), fileArch) == fileArch
    ensures 1 <= t.arch <= 11 ==> ArchOf(ArchByte(t.arch), fileArch) == t.arch
    ensures 12 <= t.arch < 0x100 ==> ArchOf(ArchByte(t.arch), fileArch) == 0xFFFF
    ensures 0x100 <= t.arch ==> ArchOf(ArchByte(t.arch), fileArch) == fileArch
  {
    hide RegisterEntries, ThreadHeader, PadBytes, Pad8, NameRaw, ParsedRegisters;
    var h, name, es := ThreadHeader(t), PadBytes(NameRaw(t.name)), RegisterEntries(t.registers);
    var p := PadBytes(ThreadPayload(t));
    var pad := p[|h + name + es|..];
    Reassociate(h, name, es, pad, p);
    ThreadHeaderFields(t, name + es + pad);
    EntriesRoundTrip(t.registers, h + name, pad, ArchOf(ArchByte(t.arch), fileArch));
  }

  lemma Reassociate(h: Bytes, name: Bytes, es: Bytes, pad: Bytes, p: Bytes)
    requires |h + name + es| <= |p| && p[..|h + name + es|] == h + name + es && pad == p[|h + name + es|..]
    ensures p == h + (name + es + pad) && p == (h + name) + es + pad
  {
    assert p == p[..|h + name + es|] + pad;
  }

  /**
   * What the bridge's register must be in the emulator: its width, 8 where the bridge has none, its value cut to it,
   * its role, and its name; on ARM64, whose code is 2, `fp` is `x29` and `lr` is `x30`.
   */
  ghost predicate ComesAs(rv: RegisterValue, e: EmuReg, arch: nat) {
    && rv.value.Some? && e.width == (if rv.size == 0 then 8 else rv.size)
    && e.value == rv.value.value % Pow256(e.width)
    && (e.isPc <==> rv.role.PC?) && (e.isSp <==> rv.role.SP?)
    && e.name == if arch == 2 && rv.name == [0x66, 0x70] then [0x78, 0x32, 0x39]
                 else if arch == 2 && rv.name == [0x6C, 0x72] then [0x78, 0x33, 0x30]
                 else rv.name
  }

  /**
   * From bridge to emulator a register keeps its width, its value modulo 2^(8*width), its role and, but for the
   * aliases, its name.
   */
  lemma RegisterEndToEnd(rv: RegisterValue, arch: nat)
    requires Usable(rv)
    ensures ComesAs(rv, Recovered(RegisterOf(rv), arch), arch)
  {
    LEFits(rv.value.value % Pow256(Width(rv)), Width(rv));
  }

  /** The registers that can be encoded, in order. */
  function UsableOnes(rvs: seq<RegisterValue>): (r: seq<RegisterValue>)
    ensures forall i :: 0 <= i < |r| ==> Usable(r[i])
  {
    if rvs == [] then [] else UsableOnes(rvs[..|rvs| - 1]) + if Usable(rvs[|rvs| - 1]) then [rvs[|rvs| - 1]] else []
  }

  lemma {:induction false} RegistersAre(rvs: seq<RegisterValue>)
    ensures |RegistersOf(rvs)| == |UsableOnes(rvs)|
    ensures forall i :: 0 <= i < |RegistersOf(rvs)| ==> RegistersOf(rvs)[i] == RegisterOf(UsableOnes(rvs)[i])
    decreases |rvs|
  {
    hide RegisterOf, Usable;
    if rvs != [] {
      RegistersAre(rvs[..|rvs| - 1]);
    }
  }

  /** Every built context, written and parsed, is the bridge's thread with exactly its usable registers, in order. */
  lemma ThreadEndToEnd(threads: seq<ThreadInfo>, k: nat, fileArch: nat)
    requires k < |threads| && ThreadFits(Contexts(threads)[k])
    ensures var e := ParsedThread(PadBytes(ThreadPayload(Contexts(threads)[k])), fileArch);
            var rvs := UsableOnes(threads[k].registers);
            && e.Some? && e.value.tid == threads[k].tid && e.value.arch == fileArch
            && |e.value.registers| == |rvs|
            && forall i :: 0 <= i < |rvs| ==> ComesAs(rvs[i], e.value.registers[i], fileArch)
  {
    hide ThreadFits, ThreadPayload, PadBytes, ParsedThread, FirstWritten, AnyCurrent, RegisterOf, Recovered, ComesAs;
    var c, rvs := Contexts(threads)[k], UsableOnes(threads[k].registers);
    assert c.threadId == threads[k].tid && c.arch == 0 && c.registers == RegistersOf(threads[k].registers);
    hide Contexts, RegistersOf;
    ThreadRoundTrip(c, fileArch);
    RegistersAre(threads[k].registers);
    forall i | 0 <= i < |rvs| ensures ComesAs(rvs[i], RecoveredAll(c.registers, fileArch)[i], fileArch) {
      RegisterEndToEnd(rvs[i], fileArch);
    }
  }

  /** The flag bits of a context: Current, Suspended, Partial. */
  lemma ContextBits(t: ThreadInfo)
    ensures var f := ContextFlags(t);
            && f < 16 && f / 2 % 2 == 0 && (f % 2 == 1 <==> t.isCurrent)
            && (f / 4 % 2 == 1 <==> t.suspended) && (f / 8 % 2 == 1 <==> t.partial_)
    ensures ContextOf(t).flags == ContextFlags(t) && ContextOf(t).state == (if t.state < 8 then t.state else 0)
  {
  }

  /** One flag bit for each role of a register, none for the general ones. */
  lemma RoleBits(r: Role)
    ensures var f := RoleFlag(r);
            && f < 64 && (f % 2 == 1 <==> r.PC?) && (f / 2 % 2 == 1 <==> r.SP?) && (f / 4 % 2 == 1 <==> r.FP?)
            && (f / 8 % 2 == 1 <==> r.FLAGS?) && (f / 16 % 2 == 1 <==> r.TLS?) && (f / 32 % 2 == 1 <==> r.LR?)
  {
  }

  // ------------------------------------------------------ the Current thread

  /** `current_thread` of the loaded threads: the first Current one, else the first. */
  function CurrentThread(ts: seq<EmuThread>): (t: Option<EmuThread>) {
    if ts == [] then None
    else var k := FirstCurrent(ts); Some(ts[if k.Some? then k.value else 0])
  }

  function FirstCurrent(ts: seq<EmuThread>): (k: Option<nat>)
    ensures k.Some? ==> k.value < |ts| && ts[k.value].isCurrent && forall i :: 0 <= i < k.value ==> !ts[i].isCurrent
    ensures k.None? ==> forall i :: 0 <= i < |ts| ==> !ts[i].isCurrent
  {
    if ts == [] then None
    else if ts[0].isCurrent then Some(0)
    else
      var k := FirstCurrent(ts[1..]);
      assert k.None? ==> forall i :: 1 <= i < |ts| ==> ts[i] == ts[1..][i - 1];
      if k.None? then None else Some(k.value + 1)
  }

  ghost function WrittenCurrentSet(cs: seq<ThreadContext>): (s: set<nat>) {
    set i: nat | i < |cs| && WrittenCurrent(cs[i])
  }

  /** The bridge's Current threads that carry registers. */
  ghost function MarkedSet(threads: seq<ThreadInfo>): (s: set<nat>) {
    set i: nat | i < |threads| && threads[i].isCurrent && Carries(threads[i])
  }

  /** Exactly one written block is Current iff some thread has registers and at most one of those is marked. */
  lemma ExactlyOneCurrent(threads: seq<ThreadInfo>)
    requires exists i :: 0 <= i < |threads| && Carries(threads[i])
    ensures |WrittenCurrentSet(Contexts(threads))| == 1 <==> |MarkedSet(threads)| <= 1
  {
    hide Carries;
    var raw := RawContexts(threads);
    var cs := Contexts(threads);
    RawCurrent(threads);
    hide ContextFlags, RawContexts, FirstWritten;
    var w :| 0 <= w < |threads| && Carries(threads[w]);
    assert HasRegisters(raw[w]);
    if AnyCurrent(raw) {
      assert cs == raw;
      MarkedAreWritten(threads, raw);
    } else {
      var k := FirstWritten(raw).value;
      assert WrittenCurrentSet(cs) == {k};
      assert MarkedSet(threads) == {};
    }
  }

  /** A context is written and Current as its thread is marked and carries registers. */
  lemma MarkedAreWritten(threads: seq<ThreadInfo>, raw: seq<ThreadContext>)
    requires |raw| == |threads| && AnyCurrent(raw)
    requires forall i :: 0 <= i < |raw| ==>
               (WrittenCurrent(raw[i]) <==> threads[i].isCurrent && Carries(threads[i]))
    ensures WrittenCurrentSet(raw) == MarkedSet(threads) && |MarkedSet(threads)| >= 1
  {
    hide Carries, WrittenCurrent;
    var k :| 0 <= k < |raw| && WrittenCurrent(raw[k]);
    assert k in MarkedSet(threads);
  }

  /**
   * When no thread that carries registers is marked, the flag lands on the first thread that carries some: on
   * thread 0, as the documentation has it, exactly when thread 0 does.
   */
  lemma FallbackThread(threads: seq<ThreadInfo>, k: nat)
    requires k < |threads| && MarkedSet(threads) == {}
    ensures WrittenCurrent(Contexts(threads)[k])
            <==> Carries(threads[k]) && forall i :: 0 <= i < k ==> !Carries(threads[i])
    ensures WrittenCurrent(Contexts(threads)[0]) <==> Carries(threads[0])
  {
    hide Carries;
    var raw := RawContexts(threads);
    RawCurrent(threads);
    hide ContextFlags, RawContexts, FirstWritten;
    assert forall i :: 0 <= i < |raw| ==> !WrittenCurrent(raw[i]);
    NewFlag(threads);
  }

  lemma NewFlag(threads: seq<ThreadInfo>)
    requires !AnyCurrent(RawContexts(threads))
    ensures var raw, cs := RawContexts(threads), Contexts(threads);
            forall i :: 0 <= i < |raw| ==> (WrittenCurrent(cs[i]) <==> FirstWritten(raw) == Some(i))
  {
    hide ContextOf, FirstWritten, RawContexts;
  }

  /** Two unmarked threads, the first without a register: the flag is not on the first. */
  lemma FlagNotOnFirst(rv: RegisterValue)
    requires Usable(rv)
    ensures var threads := [ThreadInfo(1, [], [], false, 0, false, false),
                            ThreadInfo(2, [rv], [], false, 0, false, false)];
            !IsCurrent(Contexts(threads)[0]) && IsCurrent(Contexts(threads)[1])
  {
    var threads := [ThreadInfo(1, [], [], false, 0, false, false), ThreadInfo(2, [rv], [], false, 0, false, false)];
    assert MarkedSet(threads) == {};
    assert Usable(threads[1].registers[0]) && Carries(threads[1]);
    FallbackThread(threads, 1);
    FlagStays(threads);
  }

  /** A thread without registers keeps the flag the bridge gave it. */
  lemma FlagStays(threads: seq<ThreadInfo>)
    ensures forall i :: 0 <= i < |threads| && !Carries(threads[i]) ==>
              (IsCurrent(Contexts(threads)[i]) <==> threads[i].isCurrent)
  {
    RawCurrent(threads);
    hide FirstWritten, AnyCurrent, Carries, RegistersOf;
    forall i | 0 <= i < |threads| && !Carries(threads[i])
      ensures IsCurrent(Contexts(threads)[i]) <==> threads[i].isCurrent
    {
      CurrentFlag(threads[i]);
      assert !HasRegisters(RawContexts(threads)[i]);
    }
  }

  /** The thread the loader makes of a written context. */
  function EmuOf(t: ThreadContext, fileArch: nat): (e: EmuThread) {
    var arch := ArchOf(ArchByte(t.arch), fileArch);
    EmuThread(t.threadId, IsCurrent(t), arch, RecoveredAll(t.registers, arch))
  }

  /** The threads of the slice: contexts without registers are not written. */
  function Loaded(cs: seq<ThreadContext>, fileArch: nat): (ts: seq<EmuThread>) {
    if cs == [] then []
    else (if HasRegisters(cs[0]) then [EmuOf(cs[0], fileArch)] else []) + Loaded(cs[1..], fileArch)
  }

  lemma {:induction false} FirstCurrentLoaded(cs: seq<ThreadContext>, fileArch: nat, k: nat)
    requires k < |cs| && WrittenCurrent(cs[k]) && forall i :: 0 <= i < k ==> !WrittenCurrent(cs[i])
    ensures FirstCurrent(Loaded(cs, fileArch)).Some?
            && CurrentThread(Loaded(cs, fileArch)) == Some(EmuOf(cs[k], fileArch))
  {
    var ts := Loaded(cs, fileArch);
    if k > 0 {
      FirstCurrentLoaded(cs[1..], fileArch, k - 1);
      if HasRegisters(cs[0]) {
        assert ts[1..] == Loaded(cs[1..], fileArch);
      } else {
        assert ts == Loaded(cs[1..], fileArch);
      }
    }
  }

  /**
   * Thread `k` carries registers and is the first marked one that does, or the first at all when none of those is
   * marked.
   */
  ghost predicate IsDefault(threads: seq<ThreadInfo>, k: nat) {
    && k < |threads| && Carries(threads[k])
    && (MarkedSet(threads) != {} ==> k in MarkedSet(threads))
    && forall i :: 0 <= i < k ==> i !in MarkedSet(threads) && (MarkedSet(threads) == {} ==> !Carries(threads[i]))
  }

  /** The default thread of the slice: the first marked thread with registers, else the first with registers. */
  lemma DefaultThread(threads: seq<ThreadInfo>, fileArch: nat, k: nat)
    requires IsDefault(threads, k)
    ensures CurrentThread(Loaded(Contexts(threads), fileArch))
            == Some(EmuThread(threads[k].tid, true, fileArch,
                              RecoveredAll(RegistersOf(threads[k].registers), fileArch)))
  {
    hide EmuOf, IsDefault;
    TheCurrentContext(threads, k);
    FirstCurrentLoaded(Contexts(threads), fileArch, k);
    ChosenThread(threads, fileArch, k);
  }

  /** The context chosen is the first one that is Current among those written. */
  lemma TheCurrentContext(threads: seq<ThreadInfo>, k: nat)
    requires IsDefault(threads, k)
    ensures k < |threads|
    ensures var cs := Contexts(threads);
            WrittenCurrent(cs[k]) && forall i :: 0 <= i < k ==> !WrittenCurrent(cs[i])
  {
    hide Carries, MarkedSet, Contexts, WrittenCurrent;
    if MarkedSet(threads) == {} {
      forall i | 0 <= i <= k ensures WrittenCurrent(Contexts(threads)[i]) <==> i == k {
        FallbackThread(threads, i);
      }
    } else {
      MarkedContexts(threads);
    }
  }

  /** Marked threads with registers keep the flag, and no other written thread has it. */
  lemma MarkedContexts(threads: seq<ThreadInfo>)
    requires MarkedSet(threads) != {}
    ensures forall i :: 0 <= i < |threads| ==> (WrittenCurrent(Contexts(threads)[i]) <==> i in MarkedSet(threads))
  {
    RawCurrent(threads);
    hide ContextOf, RawContexts, FirstWritten, WrittenCurrent;
    var k :| k in MarkedSet(threads);
    assert WrittenCurrent(RawContexts(threads)[k]);
  }

  /** Whenever some thread carries registers there is such a thread. */
  lemma DefaultExists(threads: seq<ThreadInfo>, w: nat)
    requires w < |threads| && Carries(threads[w])
    ensures exists k :: IsDefault(threads, k)
  {
    hide Carries;
    var k := w;
    if MarkedSet(threads) != {} {
      k :| k in MarkedSet(threads);
    }
    Earliest(threads, k);
  }

  lemma {:induction false} Earliest(threads: seq<ThreadInfo>, w: nat)
    requires w < |threads| && Carries(threads[w]) && (MarkedSet(threads) != {} ==> w in MarkedSet(threads))
    ensures exists k :: IsDefault(threads, k)
    decreases w
  {
    hide Carries;
    if !IsDefault(threads, w) {
      var i :| 0 <= i < w && (i in MarkedSet(threads) || (MarkedSet(threads) == {} && Carries(threads[i])));
      Earliest(threads, i);
    }
  }

  lemma RawCurrent(threads: seq<ThreadInfo>)
    ensures var raw := RawContexts(threads);
            && (forall i :: 0 <= i < |raw| ==> (WrittenCurrent(raw[i]) <==> i in MarkedSet(threads)))
            && (forall i :: 0 <= i < |raw| ==> (HasRegisters(raw[i]) <==> Carries(threads[i])))
  {
    hide ContextFlags;
    forall i | 0 <= i < |threads|
      ensures HasRegisters(RawContexts(threads)[i]) <==> Carries(threads[i])
      ensures WrittenCurrent(RawContexts(threads)[i]) <==> i in MarkedSet(threads)
    {
      CurrentFlag(threads[i]);
      CarriesIff(threads[i].registers);
    }
  }

  lemma CurrentFlag(t: ThreadInfo)
    ensures ContextFlags(t) % 2 == 1 <==> t.isCurrent
  {
  }

  lemma ChosenThread(threads: seq<ThreadInfo>, fileArch: nat, k: nat)
    requires k < |threads| && IsCurrent(Contexts(threads)[k])
    ensures EmuOf(Contexts(threads)[k], fileArch)
            == EmuThread(threads[k].tid, true, fileArch, RecoveredAll(RegistersOf(threads[k].registers), fileArch))
  {
    hide AnyCurrent, FirstWritten, RecoveredAll, RegistersOf;
  }
}

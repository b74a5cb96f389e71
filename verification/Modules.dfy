/** ModuleEntry blocks: the writer's payload, the emulator loader's parser and the enricher's parser. */
module Modules {
  import opened ByteStrings

  /** Paths and versions are given by their UTF-8 bytes. */
  datatype ModuleEntry = ModuleEntry(
    baseAddr: nat, moduleSize: nat, path: Bytes, version: Bytes, diskHash: Bytes, nativeBlob: Bytes)

  /** What `struct.pack` demands of the fields. */
  predicate ModuleFits(m: ModuleEntry) {
    && m.baseAddr < 0x1_0000_0000_0000_0000 && m.moduleSize < 0x1_0000_0000_0000_0000
    && |m.path| + 1 < 0x1_0000 && |m.version| + 1 < 0x1_0000 && |m.nativeBlob| < 0x1_0000_0000
  }

  function VersionLen(m: ModuleEntry): (n: nat) {
    if m.version == [] then 0 else |m.version| + 1
  }

  function VersionEncoded(m: ModuleEntry): (b: Bytes)
    ensures |b| == Pad8(VersionLen(m))
  {
    if m.version == [] then [] else EncodeString(m.version)
  }

  function ModuleHeader(m: ModuleEntry): (h: Bytes)
    requires ModuleFits(m)
    ensures |h| == 24
  {
    LE(m.baseAddr, 8) + LE(m.moduleSize, 8) + LE(|m.path| + 1, 2) + LE(VersionLen(m), 2) + LE(0, 4)
  }

  function ModulePayload(m: ModuleEntry): (p: Bytes)
    requires ModuleFits(m)
  {
    ModuleHeader(m) + EncodeString(m.path) + VersionEncoded(m) + m.diskHash
    + (LE(|m.nativeBlob|, 4) + LE(0, 4)) + m.nativeBlob
  }

  // ---------------------------------------------------------------- parsers

  datatype EmuModule = EmuModule(base: nat, size: nat, path: Bytes)

  /** `raw.split(b"\x00", 1)[0]`. */
  function BeforeNul(raw: Bytes): (s: Bytes) {
    if raw == [] || raw[0] == 0 then [] else [raw[0]] + BeforeNul(raw[1..])
  }

  function PathField(p: Bytes): (raw: Bytes)
    requires |p| >= 24
  {
    Slice(p, 24, 24 + Get16(p[16..18]))
  }

  /** The loader's `_parse_module`. */
  function ParsedModule(p: Bytes): (m: Option<EmuModule>) {
    if |p| < 24 then None
    else Some(EmuModule(Get64(p[0..8]), Get64(p[8..16]), BeforeNul(PathField(p))))
  }

  /** The enricher's `_parse_module_entry_minimal`; None where unpacking raises. */
  function ParsedEntry(p: Bytes): (m: Option<ModuleEntry>) {
    if |p| < 24 then None
    else
      var voff := 24 + Pad8(Get16(p[16..18]));
      var verLen := Get16(p[18..20]);
      var hoff := voff + Pad8(verLen);
      var lens := Slice(p, hoff + 32, hoff + 40);
      if |lens| < 8 then None
      else
        Some(ModuleEntry(Get64(p[0..8]), Get64(p[8..16]), StripNuls(PathField(p)),
                         StripNuls(Slice(p, voff, voff + verLen)), Slice(p, hoff, hoff + 32),
                         Slice(p, hoff + 40, hoff + 40 + Get32(lens[0..4]))))
  }

  /**
   * On arbitrary bytes: the loader's parser takes every payload with a whole header, the enricher's needs the disk
   * hash and the length of the blob behind the two padded strings.
   */
  lemma ParsersAccept(p: Bytes)
    ensures ParsedModule(p).Some? <==> |p| >= 24
    ensures ParsedEntry(p).Some? <==>
            |p| >= 24 && |p| >= 64 + Pad8(FromLE(p[16..18])) + Pad8(FromLE(p[18..20]))
    ensures |p| >= 24 ==>
              var m := ParsedModule(p).value;
              && m.base == FromLE(p[0..8]) && m.size == FromLE(p[8..16])
              && m.path == BeforeNul(Slice(p, 24, 24 + FromLE(p[16..18])))
  {
    hide FromLE, BeforeNul, StripNuls, Pad8;
  }

  // -------------------------------------------------------------- agreement

  /** No NUL is followed by anything but NULs. */
  ghost predicate NulsOnlyAtEnd(raw: Bytes) {
    forall i, j :: 0 <= i < j < |raw| && raw[i] == 0 ==> raw[j] == 0
  }

  lemma {:induction false} BeforeNulFacts(raw: Bytes)
    ensures var s := BeforeNul(raw);
            |s| <= |raw| && s == raw[..|s|] && (|s| < |raw| ==> raw[|s|] == 0)
            && forall i :: 0 <= i < |s| ==> raw[i] != 0
  {
    if raw != [] && raw[0] != 0 {
      BeforeNulFacts(raw[1..]);
    }
  }

  lemma {:induction false} StripNulsFacts(raw: Bytes)
    ensures var s := StripNuls(raw);
            && |s| <= |raw| && s == raw[..|s|] && (s != [] ==> raw[|s| - 1] != 0)
            && forall i :: |s| <= i < |raw| ==> raw[i] == 0
    decreases |raw|
  {
    if raw != [] && raw[|raw| - 1] == 0 {
      StripNulsFacts(raw[..|raw| - 1]);
    }
  }

  lemma InteriorNul(raw: Bytes)
    requires |BeforeNul(raw)| < |StripNuls(raw)|
    ensures !NulsOnlyAtEnd(raw)
  {
    BeforeNulFacts(raw);
    StripNulsFacts(raw);
    hide BeforeNul, StripNuls;
    var i, j := |BeforeNul(raw)|, |StripNuls(raw)| - 1;
    assert raw[i] == 0 && raw[j] != 0;
  }

  lemma EndsAtNul(raw: Bytes, n: nat)
    requires n < |raw| && raw[n] == 0
    ensures |BeforeNul(raw)| <= n
  {
    BeforeNulFacts(raw);
  }

  lemma SplitIsStripIff(raw: Bytes)
    ensures BeforeNul(raw) == StripNuls(raw) <==> NulsOnlyAtEnd(raw)
  {
    BeforeNulFacts(raw);
    StripNulsFacts(raw);
    hide BeforeNul, StripNuls;
    var a, b := BeforeNul(raw), StripNuls(raw);
    if |b| < |raw| {
      EndsAtNul(raw, |b|);
    }
    if |a| < |b| {
      InteriorNul(raw);
    } else {
      assert a == b;
    }
  }

  /** On any payload both accept, the two parsers agree on base and size, and on the path iff no NUL is inside it. */
  lemma ParsersAgree(p: Bytes)
    requires ParsedEntry(p).Some?
    ensures ParsedModule(p).Some?
    ensures var e, m := ParsedEntry(p).value, ParsedModule(p).value;
            && e.baseAddr == m.base && e.moduleSize == m.size
            && (e.path == m.path <==> NulsOnlyAtEnd(PathField(p)))
  {
    SplitIsStripIff(PathField(p));
  }

  // ------------------------------------------------------------- round trip

  lemma CutModuleHeader(a: Bytes, b: Bytes, c: Bytes, d: Bytes, e: Bytes, rest: Bytes)
    requires |a| == 8 && |b| == 8 && |c| == 2 && |d| == 2 && |e| == 4
    ensures var p := a + b + c + d + e + rest;
            && p[0..8] == a && p[8..16] == b && p[16..18] == c && p[18..20] == d
  {
  }

  lemma ModuleHeaderFields(m: ModuleEntry, rest: Bytes)
    requires ModuleFits(m)
    ensures var p := ModuleHeader(m) + rest;
            && Get64(p[0..8]) == m.baseAddr && Get64(p[8..16]) == m.moduleSize
            && Get16(p[16..18]) == |m.path| + 1 && Get16(p[18..20]) == VersionLen(m)
  {
    CutModuleHeader(LE(m.baseAddr, 8), LE(m.moduleSize, 8), LE(|m.path| + 1, 2), LE(VersionLen(m), 2), LE(0, 4), rest);
    LE64(m.baseAddr);
    LE64(m.moduleSize);
    LE16(|m.path| + 1);
    LE16(VersionLen(m));
  }

  /** A NUL-free string comes back from its terminated form under both readings. */
  lemma {:induction false} TerminatedString(s: Bytes)
    requires 0 !in s
    ensures BeforeNul(s + [0]) == s && StripNuls(s + [0]) == s
  {
    assert (s + [0])[..|s|] == s;
    if s != [] {
      assert (s + [0])[1..] == s[1..] + [0];
      TerminatedString(s[1..]);
    }
  }

  lemma EncodedRaw(s: Bytes)
    ensures EncodeString(s)[..|s| + 1] == s + [0]
  {
  }

  /** Where the parts of a payload `h + path + ver + hash + lens + blob + pad` lie. */
  lemma ModuleParts(h: Bytes, path: Bytes, ver: Bytes, hash: Bytes, lens: Bytes, blob: Bytes, pad: Bytes)
    requires |h| == 24 && |hash| == 32 && |lens| == 8
    ensures var p := h + path + ver + hash + lens + blob + pad;
            var v := 24 + |path|;
            var x := v + |ver|;
            && p == h + (path + ver + hash + lens + blob + pad)
            && |p| == x + 40 + |blob| + |pad|
            && p[24..v] == path && p[v..x] == ver && p[x..x + 32] == hash && p[x + 32..x + 40] == lens
            && p[x + 40..x + 40 + |blob|] == blob
  {
  }

  /** What both parsers make of a written module, NULs in its strings or not. */
  lemma WrittenParsed(m: ModuleEntry)
    requires ModuleFits(m) && |m.diskHash| == 32
    ensures var p := PadBytes(ModulePayload(m));
            && |p| >= 24 && PathField(p) == m.path + [0]
            && ParsedModule(p) == Some(EmuModule(m.baseAddr, m.moduleSize, BeforeNul(m.path + [0])))
            && ParsedEntry(p)
               == Some(m.(path := StripNuls(m.path + [0]), version := StripNuls(VersionEncoded(m)[..VersionLen(m)])))
  {
    hide EncodeString, PadBytes, LE, ModuleHeader, Pad8, VersionEncoded, BeforeNul, StripNuls, VersionLen, FromLE;
    var q := ModulePayload(m);
    var p := PadBytes(q);
    var h, path, ver := ModuleHeader(m), EncodeString(m.path), VersionEncoded(m);
    var lens, pad := LE(|m.nativeBlob|, 4) + LE(0, 4), p[|q|..];
    assert p == q + pad by {
      assert p == p[..|q|] + p[|q|..];
    }
    ModuleParts(h, path, ver, m.diskHash, lens, m.nativeBlob, pad);
    ModuleHeaderFields(m, path + ver + m.diskHash + lens + m.nativeBlob + pad);
    SubSlice(p, 24, |path|, |m.path| + 1);
    EncodedRaw(m.path);
    VersionInside(m);
    SubSlice(p, 24 + |path|, |ver|, VersionLen(m));
    assert lens[0..4] == LE(|m.nativeBlob|, 4);
    LE32(|m.nativeBlob|);
  }

  lemma VersionInside(m: ModuleEntry)
    ensures VersionLen(m) <= |VersionEncoded(m)|
  {
  }

  /** A written module is recovered by both parsers. */
  lemma ModuleRoundTrip(m: ModuleEntry)
    requires ModuleFits(m) && |m.diskHash| == 32 && 0 !in m.path && 0 !in m.version
    ensures ParsedEntry(PadBytes(ModulePayload(m))) == Some(m)
    ensures ParsedModule(PadBytes(ModulePayload(m))) == Some(EmuModule(m.baseAddr, m.moduleSize, m.path))
  {
    hide ParsedEntry, ParsedModule, ModulePayload, VersionEncoded, VersionLen;
    WrittenParsed(m);
    TerminatedString(m.path);
    VersionBack(m);
  }

  lemma VersionBack(m: ModuleEntry)
    requires 0 !in m.version
    ensures VersionLen(m) <= |VersionEncoded(m)| && StripNuls(VersionEncoded(m)[..VersionLen(m)]) == m.version
  {
    if m.version != [] {
      EncodedRaw(m.version);
      TerminatedString(m.version);
    }
  }

  /** The loader needs no more of a written module than its header and path. */
  lemma LoaderParses(m: ModuleEntry)
    requires ModuleFits(m)
    ensures ParsedModule(PadBytes(ModulePayload(m)))
            == Some(EmuModule(m.baseAddr, m.moduleSize, BeforeNul(m.path + [0])))
  {
    hide EncodeString, PadBytes, LE, ModuleHeader, Pad8, VersionEncoded, BeforeNul, VersionLen, FromLE;
    var q := ModulePayload(m);
    var p := PadBytes(q);
    var h, path := ModuleHeader(m), EncodeString(m.path);
    var tail := VersionEncoded(m) + m.diskHash + (LE(|m.nativeBlob|, 4) + LE(0, 4)) + m.nativeBlob;
    assert q == h + path + tail;
    assert p == h + (path + (tail + p[|q|..])) by {
      assert p == p[..|q|] + p[|q|..];
    }
    ModuleHeaderFields(m, path + (tail + p[|q|..]));
    Cut(h, path, tail + p[|q|..], p);
    SubSlice(p, 24, |path|, |m.path| + 1);
    EncodedRaw(m.path);
  }

  /** A written module whose path holds a NUL before its end: the enricher keeps what the loader cuts off. */
  lemma InteriorNulDisagrees(m: ModuleEntry)
    requires ModuleFits(m) && |m.diskHash| == 32 && m.path == [0x61, 0, 0x62]
    ensures var p := PadBytes(ModulePayload(m));
            && ParsedEntry(p).Some? && ParsedModule(p).Some?
            && ParsedEntry(p).value.path != ParsedModule(p).value.path
  {
    hide ParsedEntry, ParsedModule, ModulePayload, PadBytes, PathField;
    WrittenParsed(m);
    var p := PadBytes(ModulePayload(m));
    ParsersAgree(p);
    var raw := PathField(p);
    assert raw[1] == 0 && raw[2] == 0x62;
  }
}

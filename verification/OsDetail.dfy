/** The OSDetail microformat: escaping, packing with its truncation policy, and parsing. */
module OsDetail {
  import opened ByteStrings
  import opened Sorting
  import opened Utf8

  const SCHEMA_PREFIX := "msl.memslicer/1 "
  const DELIMITER := " | "
  const HARD_CAP_BYTES := 60 * 1024
  const SOFT_BUDGET_BYTES := 4 * 1024
  const HUMAN := "_human"

  // ---------------------------------------------------------------- escaping

  predicate Reserved(c: char) {
    c == '\0' || c == ';' || c == '=' || c == '\n' || c == '|' || c == '%'
  }

  function EscapeChar(c: char): (s: string)
    ensures |s| >= 1
  {
    if c == '\0' then "%00"
    else if c == ';' then "%3B"
    else if c == '=' then "%3D"
    else if c == '\n' then "%0A"
    else if c == '|' then "%7C"
    else if c == '%' then "%25"
    else [c]
  }

  function Escaped(s: string): (e: string)
    ensures |e| >= |s|
  {
    if s == "" then "" else EscapeChar(s[0]) + Escaped(s[1..])
  }

  lemma {:induction false} EscapedAppend(a: string, b: string)
    ensures Escaped(a + b) == Escaped(a) + Escaped(b)
  {
    hide EscapeChar;
    if a == "" {
      assert a + b == b;
    } else {
      assert (a + b)[1..] == a[1..] + b;
      EscapedAppend(a[1..], b);
    }
  }

  method EscapeValue(value: string) returns (out: string)
    ensures out == Escaped(value)
  {
    out := "";
    for i := 0 to |value|
      invariant out == Escaped(value[..i])
    {
      EscapedAppend(value[..i], [value[i]]);
      assert value[..i + 1] == value[..i] + [value[i]];
      assert [value[i]][1..] == "";
      out := out + EscapeChar(value[i]);
    }
    assert value[..|value|] == value;
  }

  /** The interpreter's table of decimal digits beyond ASCII: a digit's value, anything else for other characters. */
  type Decimals = char -> int

  /** Value of a hexadecimal digit, -1 for any other character. */
  function HexDigit(dec: Decimals, c: char): (d: int)
    ensures -1 <= d < 16
  {
    if '0' <= c <= '9' then c as int - '0' as int
    else if 'a' <= c <= 'f' then c as int - 'a' as int + 10
    else if 'A' <= c <= 'F' then c as int - 'A' as int + 10
    else if c as int > 0x7F && 0 <= dec(c) <= 9 then dec(c)
    else -1
  }

  /** The blanks `int()` strips: fewer than `str.strip()` within ASCII, the same beyond. */
  predicate IntBlank(c: char) {
    c == ' ' || '\t' <= c <= '\r' || (c as int > 0x7F && IsSpace(c))
  }

  /** `int(hi + lo, 16)`: a sign or a blank may stand in for a digit. None where it raises. */
  function HexPair(dec: Decimals, hi: char, lo: char): (v: Option<int>)
    ensures v.Some? ==> hi != '%' && lo != '%'
  {
    var h, l := HexDigit(dec, hi), HexDigit(dec, lo);
    if h >= 0 && l >= 0 then Some(16 * h + l)
    else if (hi == '+' || IntBlank(hi)) && l >= 0 then Some(l)
    else if hi == '-' && l >= 0 then Some(-l)
    else if h >= 0 && IntBlank(lo) then Some(h)
    else None
  }

  /** The reserved character with this code; only defined for codes `chr` accepts. */
  function ReservedOf(code: int): (c: Option<char>)
    ensures c.Some? ==> code >= 0
  {
    if code == 0 then Some('\0')
    else if code == 0x3B then Some(';')
    else if code == 0x3D then Some('=')
    else if code == 0x0A then Some('\n')
    else if code == 0x7C then Some('|')
    else if code == 0x25 then Some('%')
    else None
  }

  /** `_unescape_value` from index `i`; None where `chr` raises on a negative code. */
  function UnescapeFrom(dec: Decimals, v: string, i: nat): (r: Option<string>)
    requires i <= |v|
    decreases |v| - i
  {
    if i == |v| then Some("")
    else
      var pair := if v[i] == '%' && i + 2 < |v| then HexPair(dec, v[i + 1], v[i + 2]) else None;
      if pair.Some? && pair.value < 0 then None
      else if pair.Some? && ReservedOf(pair.value).Some? then
        var rest := UnescapeFrom(dec, v, i + 3);
        if rest.None? then None else Some([ReservedOf(pair.value).value] + rest.value)
      else
        var rest := UnescapeFrom(dec, v, i + 1);
        if rest.None? then None else Some([v[i]] + rest.value)
  }

  method UnescapeValue(dec: Decimals, value: string) returns (r: Option<string>)
    ensures r == UnescapeFrom(dec, value, 0)
  {
    hide HexPair, ReservedOf;
    var out, i := "", 0;
    ghost var all := UnescapeFrom(dec, value, 0);
    assert all.Some? ==> "" + all.value == all.value;
    while i < |value|
      invariant i <= |value|
      invariant var rest := UnescapeFrom(dec, value, i); all == if rest.None? then None else Some(out + rest.value)
    {
      ghost var before := out;
      var pair := if value[i] == '%' && i + 2 < |value| then HexPair(dec, value[i + 1], value[i + 2]) else None;
      if pair.Some? && pair.value < 0 {
        return None;
      }
      var decoded := if pair.Some? then ReservedOf(pair.value) else None;
      ghost var rest := UnescapeFrom(dec, value, if decoded.Some? then i + 3 else i + 1);
      if decoded.Some? {
        assert rest.Some? ==> before + ([decoded.value] + rest.value) == before + [decoded.value] + rest.value;
        out, i := out + [decoded.value], i + 3;
      } else {
        assert rest.Some? ==> before + ([value[i]] + rest.value) == before + [value[i]] + rest.value;
        out, i := out + [value[i]], i + 1;
      }
    }
    assert out + "" == out;
    r := Some(out);
  }

  /** Unescaping depends only on the rest of the string. */
  lemma {:induction false} UnescapeShift(dec: Decimals, a: string, b: string, i: nat)
    requires i <= |b|
    ensures UnescapeFrom(dec, a + b, |a| + i) == UnescapeFrom(dec, b, i)
    decreases |b| - i
  {
    hide HexPair, ReservedOf;
    if i < |b| {
      var s := a + b;
      assert s[|a| + i] == b[i];
      if i + 2 < |b| {
        assert s[|a| + i + 1] == b[i + 1] && s[|a| + i + 2] == b[i + 2];
        UnescapeShift(dec, a, b, i + 3);
      }
      UnescapeShift(dec, a, b, i + 1);
    }
  }

  /** unescape(escape(s)) == s, for every string. */
  lemma {:induction false} EscapeRoundTrip(dec: Decimals, s: string)
    ensures UnescapeFrom(dec, Escaped(s), 0) == Some(s)
  {
    if s != "" {
      var e, rest := EscapeChar(s[0]), Escaped(s[1..]);
      EscapeRoundTrip(dec, s[1..]);
      UnescapeShift(dec, e, rest, 0);
      assert s == [s[0]] + s[1..];
      FirstEscaped(dec, s[0], rest);
    }
  }

  /** The first step of unescaping consumes exactly one escaped character. */
  lemma FirstEscaped(dec: Decimals, c: char, rest: string)
    ensures var v := EscapeChar(c) + rest;
            var tail := UnescapeFrom(dec, v, |EscapeChar(c)|);
            UnescapeFrom(dec, v, 0) == if tail.None? then None else Some([c] + tail.value)
  {
    var v := EscapeChar(c) + rest;
    assert v[0] == EscapeChar(c)[0];
    if Reserved(c) {
      assert v[1] == EscapeChar(c)[1] && v[2] == EscapeChar(c)[2];
    }
  }

  /** Positions at which the decoder runs into `chr` of a negative number. */
  predicate NegativeEscapeAt(dec: Decimals, v: string, i: nat) {
    i + 2 < |v| && v[i] == '%' && v[i + 1] == '-' && HexDigit(dec, v[i + 2]) > 0
  }

  /**
   * Unescaping raises exactly on strings with `%-` followed by a digit that is not zero, hexadecimal or decimal of any
   * script.
   */
  lemma {:induction false} UnescapeRaisesIff(dec: Decimals, v: string, i: nat)
    requires i <= |v|
    ensures UnescapeFrom(dec, v, i).None? <==> exists j: nat :: i <= j && NegativeEscapeAt(dec, v, j)
    decreases |v| - i
  {
    if i < |v| {
      UnescapeRaisesIff(dec, v, i + 1);
      if i + 3 <= |v| {
        UnescapeRaisesIff(dec, v, i + 3);
        assert HexPair(dec, v[i + 1], v[i + 2]).Some? ==>
                 !NegativeEscapeAt(dec, v, i + 1) && !NegativeEscapeAt(dec, v, i + 2);
      }
      if i + 2 < |v| && v[i] == '%' {
        var pair := HexPair(dec, v[i + 1], v[i + 2]);
        assert NegativeEscapeAt(dec, v, i) <==> pair.Some? && pair.value < 0;
      }
    }
  }

  /** Escaped text contains no separator of the format. */
  lemma {:induction false} EscapedIsClean(s: string)
    ensures forall c :: c in Escaped(s) ==> c != ';' && c != '=' && c != '|'
  {
    if s != "" {
      EscapedIsClean(s[1..]);
      forall c | c in Escaped(s) ensures c != ';' && c != '=' && c != '|' {
        assert c in EscapeChar(s[0]) || c in Escaped(s[1..]);
      }
    }
  }

  predicate KeyChar(c: char) {
    'a' <= c <= 'z' || '0' <= c <= '9' || c == '_'
  }

  predicate ValidKey(key: string) {
    key != "" && forall i :: 0 <= i < |key| ==> KeyChar(key[i])
  }

  // ----------------------------------------------------------------- packing

  /** A field's value; `Text` is any other object, and an item any object, by the text `str()` makes of it. */
  datatype FieldValue = Absent | Flag(b: bool) | Items(items: seq<string>) | Number(n: int) | Text(s: string)

  function Digits(n: nat): (s: string)
    ensures s != ""
  {
    var d := ['0' + (n % 10) as char];
    if n < 10 then d else Digits(n / 10) + d
  }

  function JoinWith(items: seq<string>, sep: string): (s: string) {
    if items == [] then "" else if |items| == 1 then items[0] else items[0] + sep + JoinWith(items[1..], sep)
  }

  function NonEmptyItems(items: seq<string>): (r: seq<string>) {
    if items == [] then [] else (if items[0] != "" then [items[0]] else []) + NonEmptyItems(items[1..])
  }

  /** The rendered value of a field; "" means not collected. */
  function Rendered(v: FieldValue): (s: string) {
    match v
    case Absent => ""
    case Flag(b) => if b then "1" else ""
    case Items(items) => JoinWith(NonEmptyItems(items), ",")
    case Number(n) => if n == 0 then "" else if n < 0 then "-" + Digits(-n) else Digits(n)
    case Text(s) => s
  }

  /** A key with its escaped value. */
  type Pair = (string, string)

  /** `_maybe_add`. */
  function PairOf(key: string, v: FieldValue): (p: seq<Pair>) {
    if ValidKey(key) && Rendered(v) != "" then [(key, Escaped(Rendered(v)))] else []
  }

  function PairText(p: Pair): (s: string) {
    p.0 + "=" + p.1
  }

  function Body(pairs: seq<Pair>): (s: string) {
    if pairs == [] then "" else if |pairs| == 1 then PairText(pairs[0]) else PairText(pairs[0]) + ";" + Body(pairs[1..])
  }

  /** Characters `str.rstrip()` removes. */
  predicate IsSpace(c: char) {
    var v := c as int;
    9 <= v <= 13 || 0x1C <= v <= 0x20 || v == 0x85 || v == 0xA0 || v == 0x1680 || 0x2000 <= v <= 0x200A
    || v == 0x2028 || v == 0x2029 || v == 0x202F || v == 0x205F || v == 0x3000
  }

  function RStrip(s: string): (r: string)
    ensures |r| <= |s| && r == s[..|r|]
  {
    if s != "" && IsSpace(s[|s| - 1]) then RStrip(s[..|s| - 1]) else s
  }

  function Render(prefix: string, pairs: seq<Pair>): (s: string) {
    var body := Body(pairs);
    if prefix != "" && body != "" then SCHEMA_PREFIX + prefix + DELIMITER + body
    else if prefix != "" then SCHEMA_PREFIX + prefix
    else if body != "" then RStrip(SCHEMA_PREFIX + "| " + body)
    else RStrip(SCHEMA_PREFIX)
  }

  function ByteLen(s: string): (n: nat) {
    |Encode(s)|
  }

  const FIELD_ORDER: seq<string> := [
    "distro", "kernel", "arch", "machine_id", "hw_vendor", "hw_model", "hw_serial", "bios", "cpu", "cpu_count", "ram",
    "boot_id", "virt", "secure_boot", "disk_enc", "selinux", "apparmor", "tz", "nic_macs",
    "mode", "collector_caps", "redacted_keys", "truncated"]

  predicate IsProvenance(key: string) {
    key == "mode" || key == "collector_caps" || key == "redacted_keys" || key == "truncated"
  }

  // -------------------------------------------------------------- truncation

  function Droppable(pairs: seq<Pair>): (n: nat)
    ensures n <= |pairs|
  {
    if pairs == [] then 0 else (if IsProvenance(pairs[0].0) then 0 else 1) + Droppable(pairs[1..])
  }

  /** All provenance pairs and the first `k` others, in their order. */
  function KeepFirst(pairs: seq<Pair>, k: nat): (r: seq<Pair>) {
    if pairs == [] then []
    else if IsProvenance(pairs[0].0) then [pairs[0]] + KeepFirst(pairs[1..], k)
    else if k > 0 then [pairs[0]] + KeepFirst(pairs[1..], k - 1)
    else KeepFirst(pairs[1..], 0)
  }

  predicate FitsBudget(prefix: string, pairs: seq<Pair>, k: nat, soft: int) {
    ByteLen(Render(prefix, KeepFirst(pairs, k))) <= soft
  }

  lemma {:induction false} KeepAll(pairs: seq<Pair>, k: nat)
    requires k >= Droppable(pairs)
    ensures KeepFirst(pairs, k) == pairs
  {
    if pairs != [] {
      if IsProvenance(pairs[0].0) {
        KeepAll(pairs[1..], k);
      } else {
        KeepAll(pairs[1..], k - 1);
      }
    }
  }

  /** Index of the last droppable pair. */
  function LastDroppable(pairs: seq<Pair>): (i: nat)
    requires Droppable(pairs) > 0
    ensures i < |pairs|
    decreases |pairs|
  {
    if Droppable(pairs[1..]) > 0 then 1 + LastDroppable(pairs[1..]) else 0
  }

  function Without(pairs: seq<Pair>, i: nat): (r: seq<Pair>)
    requires i < |pairs|
  {
    pairs[..i] + pairs[i + 1..]
  }

  /** Dropping the last droppable pair of the first `k + 1` leaves the first `k`. */
  lemma {:induction false} DropLast(pairs: seq<Pair>, k: nat)
    requires k < Droppable(pairs)
    ensures Droppable(KeepFirst(pairs, k + 1)) == k + 1
    ensures Without(KeepFirst(pairs, k + 1), LastDroppable(KeepFirst(pairs, k + 1))) == KeepFirst(pairs, k)
    decreases |pairs|
  {
    hide IsProvenance;
    var p, rest := pairs[0], pairs[1..];
    var kept := KeepFirst(pairs, k + 1);
    if IsProvenance(p.0) {
      DropLast(rest, k);
      assert kept[1..] == KeepFirst(rest, k + 1);
      WithoutCons(p, kept[1..]);
    } else {
      assert kept[1..] == KeepFirst(rest, k);
      if k > 0 {
        DropLast(rest, k - 1);
        WithoutCons(p, kept[1..]);
      } else {
        KeepNone(rest);
        assert Without(kept, 0) == kept[1..];
      }
    }
  }

  lemma WithoutCons(p: Pair, rest: seq<Pair>)
    requires Droppable(rest) > 0
    ensures var s := [p] + rest;
            Droppable(s) > 0 && LastDroppable(s) == 1 + LastDroppable(rest)
            && Without(s, LastDroppable(s)) == [p] + Without(rest, LastDroppable(rest))
  {
    assert ([p] + rest)[1..] == rest;
  }

  lemma {:induction false} KeepNone(pairs: seq<Pair>)
    ensures Droppable(KeepFirst(pairs, 0)) == 0
  {
    if pairs != [] {
      KeepNone(pairs[1..]);
      if IsProvenance(pairs[0].0) {
        assert KeepFirst(pairs, 0)[1..] == KeepFirst(pairs[1..], 0);
      }
    }
  }

  /** The pairs whose key passes. */
  function PickBy(pairs: seq<Pair>, p: string -> bool): (r: seq<Pair>) {
    if pairs == [] then [] else (if p(pairs[0].0) then [pairs[0]] else []) + PickBy(pairs[1..], p)
  }

  function NotTruncated(pairs: seq<Pair>): (r: seq<Pair>) {
    PickBy(pairs, (key: string) => key != "truncated")
  }

  function Provenance(pairs: seq<Pair>): (r: seq<Pair>) {
    PickBy(pairs, (key: string) => IsProvenance(key))
  }

  function Others(pairs: seq<Pair>): (r: seq<Pair>) {
    PickBy(pairs, (key: string) => !IsProvenance(key))
  }

  lemma {:induction false} PickAppend(a: seq<Pair>, b: seq<Pair>, p: string -> bool)
    ensures PickBy(a + b, p) == PickBy(a, p) + PickBy(b, p)
  {
    if a == [] {
      assert a + b == b;
    } else {
      assert (a + b)[1..] == a[1..] + b;
      PickAppend(a[1..], b, p);
    }
  }

  lemma {:induction false} PickTwice(s: seq<Pair>, p: string -> bool, q: string -> bool, r: string -> bool)
    requires forall k :: r(k) <==> p(k) && q(k)
    ensures PickBy(PickBy(s, p), q) == PickBy(s, r)
  {
    if s != [] {
      var rest := PickBy(s[1..], p);
      PickTwice(s[1..], p, q, r);
      if p(s[0].0) {
        assert PickBy(s, p) == [s[0]] + rest;
      } else {
        assert PickBy(s, p) == rest;
      }
    }
  }

  /** The marker replaces any `truncated` pair and goes last. */
  function Marked(pairs: seq<Pair>): (r: seq<Pair>) {
    NotTruncated(pairs) + [("truncated", Escaped("1"))]
  }

  method FindLastDroppable(pairs: seq<Pair>) returns (drop: Option<nat>)
    ensures drop == if Droppable(pairs) > 0 then Some(LastDroppable(pairs)) else None
  {
    drop := None;
    var i: nat := |pairs|;
    assert pairs[|pairs|..] == [];
    while i > 0
      invariant i <= |pairs| && Droppable(pairs[i..]) == 0
    {
      i := i - 1;
      assert pairs[i..][1..] == pairs[i + 1..];
      if !IsProvenance(pairs[i].0) {
        LastAt(pairs, i);
        return Some(i);
      }
    }
    assert pairs[0..] == pairs;
  }

  lemma {:induction false} LastAt(pairs: seq<Pair>, i: nat)
    requires i < |pairs| && !IsProvenance(pairs[i].0) && Droppable(pairs[i + 1..]) == 0
    ensures Droppable(pairs) > 0 && LastDroppable(pairs) == i
    decreases i
  {
    hide IsProvenance;
    if i > 0 {
      assert pairs[1..][i..] == pairs[i + 1..];
      LastAt(pairs[1..], i - 1);
    }
  }

  /** The most of the first `n` droppable pairs that fit; 0 when none do. */
  function LargestFit(prefix: string, pairs: seq<Pair>, soft: int, n: nat): (k: nat)
    ensures k <= n && (k == 0 || FitsBudget(prefix, pairs, k, soft))
    ensures forall j :: k < j <= n ==> !FitsBudget(prefix, pairs, j, soft)
  {
    if n == 0 || FitsBudget(prefix, pairs, n, soft) then n else LargestFit(prefix, pairs, soft, n - 1)
  }

  /** The pairs left by the soft budget; a dropped pair leaves a mark. */
  function Survivors(prefix: string, pairs: seq<Pair>, soft: int): (r: seq<Pair>) {
    var k := LargestFit(prefix, pairs, soft, Droppable(pairs));
    if k == Droppable(pairs) then pairs else Marked(KeepFirst(pairs, k))
  }

  lemma {:induction false} LargestFitUnique(prefix: string, pairs: seq<Pair>, soft: int, n: nat, k: nat)
    requires k <= n && (k == 0 || FitsBudget(prefix, pairs, k, soft))
    requires forall j :: k < j <= n ==> !FitsBudget(prefix, pairs, j, soft)
    ensures LargestFit(prefix, pairs, soft, n) == k
  {
    hide FitsBudget;
    if k < n {
      LargestFitUnique(prefix, pairs, soft, n - 1, k);
    }
  }

  /** The popping loop leaves the survivors. */
  method TruncateToBudget(prefix: string, pairs: seq<Pair>, soft: int) returns (out: seq<Pair>)
    ensures out == Survivors(prefix, pairs, soft)
  {
    hide IsProvenance, Render, Droppable, KeepFirst, LastDroppable, Without, Marked, LargestFit;
    var ordered := pairs;
    ghost var k: nat := Droppable(pairs);
    KeepAll(pairs, k);
    var applied := false;
    while ByteLen(Render(prefix, ordered)) > soft
      invariant k <= Droppable(pairs) && ordered == KeepFirst(pairs, k)
      invariant applied <==> k < Droppable(pairs)
      invariant forall j :: k < j <= Droppable(pairs) ==> !FitsBudget(prefix, pairs, j, soft)
      decreases k, !applied
    {
      var drop := FindLastDroppable(ordered);
      if drop.None? {
        KeepCount(pairs, k);
        break;
      }
      KeepCount(pairs, k);
      DropLast(pairs, k - 1);
      ordered := RemoveAt(ordered, drop.value);
      applied := true;
      k := k - 1;
    }
    LargestFitUnique(prefix, pairs, soft, Droppable(pairs), k);
    if applied {
      ordered := MarkTruncated(ordered);
    }
    out := ordered;
  }

  /** What is kept: every provenance pair and the first `k` of the others, each in their order. */
  lemma {:induction false} KeepFirstMeans(pairs: seq<Pair>, k: nat)
    ensures |Others(pairs)| == Droppable(pairs)
    ensures Provenance(KeepFirst(pairs, k)) == Provenance(pairs)
    ensures Others(KeepFirst(pairs, k)) == Others(pairs)[..if k < Droppable(pairs) then k else Droppable(pairs)]
    decreases |pairs|
  {
    hide IsProvenance;
    if pairs != [] {
      var p, rest := pairs[0], pairs[1..];
      var kept := KeepFirst(pairs, k);
      if IsProvenance(p.0) || k > 0 {
        KeepFirstMeans(rest, if IsProvenance(p.0) then k else k - 1);
        assert kept == [p] + kept[1..];
      } else {
        KeepFirstMeans(rest, 0);
      }
    }
  }

  lemma SplitAppend(a: seq<Pair>, b: seq<Pair>)
    ensures Others(a + b) == Others(a) + Others(b) && Provenance(a + b) == Provenance(a) + Provenance(b)
    ensures NotTruncated(a + b) == NotTruncated(a) + NotTruncated(b)
  {
    hide PickBy;
    PickAppend(a, b, (key: string) => !IsProvenance(key));
    PickAppend(a, b, (key: string) => IsProvenance(key));
    PickAppend(a, b, (key: string) => key != "truncated");
  }

  lemma NotTruncatedSplit(pairs: seq<Pair>)
    ensures Others(NotTruncated(pairs)) == Others(pairs)
    ensures Provenance(NotTruncated(pairs)) == NotTruncated(Provenance(pairs))
    ensures NotTruncated(NotTruncated(pairs)) == NotTruncated(pairs)
  {
    hide PickBy;
    var mark := (key: string) => key != "truncated";
    var prov := (key: string) => IsProvenance(key);
    var other := (key: string) => !IsProvenance(key);
    var both := (key: string) => mark(key) && prov(key);
    PickTwice(pairs, mark, other, other);
    PickTwice(pairs, mark, prov, both);
    PickTwice(pairs, prov, mark, both);
    PickTwice(pairs, mark, mark, mark);
  }

  /**
   * The truncation policy: the surviving others are the longest prefix of the priority order that fits, every
   * provenance pair but an earlier mark survives, and the mark goes last exactly when a pair was dropped.
   */
  lemma TruncationPolicy(prefix: string, pairs: seq<Pair>, soft: int)
    ensures var k, out := LargestFit(prefix, pairs, soft, Droppable(pairs)), Survivors(prefix, pairs, soft);
            && k <= |Others(pairs)| && Others(out) == Others(pairs)[..k]
            && NotTruncated(Provenance(out)) == NotTruncated(Provenance(pairs))
            && (k == |Others(pairs)| ==> out == pairs)
            && (k < |Others(pairs)| ==> out != [] && out[|out| - 1] == ("truncated", "1"))
  {
    hide LargestFit, Others, Provenance, NotTruncated, KeepFirst, Droppable, IsProvenance;
    var k := LargestFit(prefix, pairs, soft, Droppable(pairs));
    KeepFirstMeans(pairs, k);
    if k < Droppable(pairs) {
      var kept, mark := KeepFirst(pairs, k), [("truncated", Escaped("1"))];
      NotTruncatedSplit(kept);
      SplitAppend(NotTruncated(kept), mark);
      MarkSplit();
      SplitAppend(NotTruncated(Provenance(kept)), mark);
      NotTruncatedSplit(Provenance(kept));
      assert NotTruncated(Provenance(kept)) + [] == NotTruncated(Provenance(kept));
    }
  }

  lemma MarkSplit()
    ensures var mark := [("truncated", Escaped("1"))];
            Escaped("1") == "1" && Others(mark) == [] && Provenance(mark) == mark && NotTruncated(mark) == []
  {
    var mark := [("truncated", Escaped("1"))];
    assert mark[1..] == [];
  }

  method RemoveAt(pairs: seq<Pair>, i: nat) returns (r: seq<Pair>)
    requires i < |pairs|
    ensures r == Without(pairs, i)
  {
    r := pairs[..i] + pairs[i + 1..];
  }

  method MarkTruncated(pairs: seq<Pair>) returns (r: seq<Pair>)
    ensures r == Marked(pairs)
  {
    r := NotTruncated(pairs) + [("truncated", Escaped("1"))];
  }

  lemma {:induction false} KeepCount(pairs: seq<Pair>, k: nat)
    requires k <= Droppable(pairs)
    ensures Droppable(KeepFirst(pairs, k)) == k
  {
    if k == 0 {
      KeepNone(pairs);
    } else {
      DropLast(pairs, k - 1);
    }
  }

  const HARD_MARKER := ";truncated=hard"

  /** Python's `raw[:n]`: a negative bound counts from the end. */
  function TakePy(raw: Bytes, n: int): (r: Bytes)
    ensures |r| <= |raw| && r == raw[..|r|]
  {
    if n >= 0 then (if n <= |raw| then raw[..n] else raw)
    else if -n <= |raw| then raw[..|raw| + n]
    else raw[..0]
  }

  /** What a text over the hard cap becomes: cut at a character boundary, then the marker. */
  function Cut(text: string, cap: int): (r: string) {
    text[..Fitting(text, |TakePy(Encode(text), cap - 16)|)] + HARD_MARKER
  }

  method CutHard(text: string, cap: int) returns (out: string)
    requires ByteLen(text) > cap
    ensures out == Cut(text, cap)
  {
    var raw := TakePy(Encode(text), cap - 16);
    var kept := BackOff(raw, text);
    out := kept + HARD_MARKER;
  }

  lemma {:induction false} EncodeAppend(a: string, b: string)
    ensures Encode(a + b) == Encode(a) + Encode(b)
  {
    EncodePrefix(a + b, |a|);
    assert (a + b)[..|a|] == a && (a + b)[|a|..] == b;
  }

  lemma {:induction false} AsciiLen(s: string)
    requires forall i :: 0 <= i < |s| ==> s[i] as int < 0x80
    ensures ByteLen(s) == |s|
  {
    if s != "" {
      AsciiLen(s[1..]);
    }
  }

  lemma {:induction false} FittingAtLeast(text: string, m: nat)
    ensures Fitting(text, m) == |text| || ByteLen(text[..Fitting(text, m)]) >= m - 3
  {
    hide EncodeChar;
    var k := Fitting(text, m);
    if k < |text| {
      assert text[..k + 1] == text[..k] + [text[k]];
      EncodeAppend(text[..k], [text[k]]);
      assert [text[k]][1..] == "";
    }
  }

  /** A cut text stays within its cap exactly when the cap leaves room for the marker. */
  lemma HardCapIff(text: string, cap: int)
    requires cap >= 0 && ByteLen(text) > cap
    ensures ByteLen(Cut(text, cap)) <= cap <==> cap >= 16
  {
    hide Encode;
    var m := |TakePy(Encode(text), cap - 16)|;
    EncodeAppend(text[..Fitting(text, m)], HARD_MARKER);
    AsciiLen(HARD_MARKER);
    assert text[..|text|] == text;
    if cap == 15 {
      FittingAtLeast(text, m);
    }
  }

  // --------------------------------------------------- what the mark costs

  lemma {:induction false} BodyAppend(ps: seq<Pair>, p: Pair)
    ensures Body(ps + [p]) == if ps == [] then PairText(p) else Body(ps) + ";" + PairText(p)
    decreases |ps|
  {
    hide PairText;
    if ps == [] {
      assert ps + [p] == [p];
    } else {
      assert (ps + [p])[1..] == ps[1..] + [p] && (ps + [p])[0] == ps[0];
      BodyAppend(ps[1..], p);
      if |ps| > 1 {
        assert PairText(ps[0]) + ";" + (Body(ps[1..]) + ";" + PairText(p))
            == PairText(ps[0]) + ";" + Body(ps[1..]) + ";" + PairText(p);
      }
    }
  }

  lemma BodyCons(p: Pair, ps: seq<Pair>)
    ensures ByteLen(Body([p] + ps)) == ByteLen(PairText(p)) + if ps == [] then 0 else 1 + ByteLen(Body(ps))
    ensures Body([p] + ps) != ""
  {
    hide Encode;
    assert ([p] + ps)[1..] == ps;
    if ps != [] {
      EncodeAppend(PairText(p) + ";", Body(ps));
      EncodeAppend(PairText(p), ";");
      AsciiLen(";");
    }
  }

  /** Leaving pairs out never makes the block longer. */
  lemma {:induction false} PickShorter(ps: seq<Pair>, p: string -> bool)
    ensures ByteLen(Body(PickBy(ps, p))) <= ByteLen(Body(ps))
    decreases |ps|
  {
    hide Body, ByteLen, PairText;
    if ps != [] {
      var picked := PickBy(ps[1..], p);
      PickShorter(ps[1..], p);
      BodyCons(ps[0], ps[1..]);
      assert [ps[0]] + ps[1..] == ps;
      BodyCons(ps[0], picked);
      assert [] + picked == picked;
      EmptyBody();
    }
  }

  lemma EmptyBody()
    ensures Body([]) == "" && ByteLen("") == 0
  {
  }

  lemma RenderedLength(prefix: string, ps: seq<Pair>)
    requires prefix != "" && ps != []
    ensures ByteLen(Render(prefix, ps)) == ByteLen(SCHEMA_PREFIX + prefix + DELIMITER) + ByteLen(Body(ps))
  {
    hide Encode, Body;
    BodyCons(ps[0], ps[1..]);
    assert [ps[0]] + ps[1..] == ps;
    EncodeAppend(SCHEMA_PREFIX + prefix + DELIMITER, Body(ps));
  }

  /** What stands before the block. */
  function HeadText(prefix: string): (s: string) {
    if prefix == "" then SCHEMA_PREFIX + "| " else SCHEMA_PREFIX + prefix + DELIMITER
  }

  lemma MarkedBody(ps: seq<Pair>)
    ensures var rest := NotTruncated(ps);
            Body(Marked(ps)) == if rest == [] then "truncated=1" else Body(rest) + ";" + "truncated=1"
    ensures ByteLen(Body(Marked(ps))) == if NotTruncated(ps) == [] then 11 else ByteLen(Body(NotTruncated(ps))) + 12
  {
    hide Encode, Body, PickBy;
    var rest, mark := NotTruncated(ps), ("truncated", Escaped("1"));
    MarkSplit();
    BodyAppend(rest, mark);
    assert PairText(mark) == "truncated=1";
    EncodeAppend(Body(rest) + ";", "truncated=1");
    EncodeAppend(Body(rest), ";");
    AsciiLen("truncated=1");
    AsciiLen(";");
  }

  /** A marked text ends in the mark, so nothing is stripped from it. */
  lemma MarkedRender(prefix: string, ps: seq<Pair>)
    ensures Render(prefix, Marked(ps)) == HeadText(prefix) + Body(Marked(ps))
  {
    hide Body, Marked, NotTruncated;
    MarkedBody(ps);
    var text := HeadText(prefix) + Body(Marked(ps));
    assert text[|text| - 1] == '1';
  }

  /** The size of a marked text, under every prefix. */
  lemma MarkedSize(prefix: string, ps: seq<Pair>)
    ensures ByteLen(Render(prefix, Marked(ps)))
            == ByteLen(HeadText(prefix)) + if NotTruncated(ps) == [] then 11 else ByteLen(Body(NotTruncated(ps))) + 12
  {
    hide Encode, Body, Marked, Render, NotTruncated, HeadText;
    MarkedBody(ps);
    MarkedRender(prefix, ps);
    EncodeAppend(HeadText(prefix), Body(Marked(ps)));
  }

  lemma PickEmpty(p: string -> bool)
    ensures PickBy([], p) == []
  {
  }

  /** Without an earlier mark a text is no longer than with it. */
  lemma UnmarkedShorter(prefix: string, ps: seq<Pair>)
    requires prefix != "" && NotTruncated(ps) != []
    ensures ByteLen(Render(prefix, NotTruncated(ps))) <= ByteLen(Render(prefix, ps))
  {
    hide Encode, Body, PickBy, Render;
    PickEmpty((key: string) => key != "truncated");
    PickShorter(ps, (key: string) => key != "truncated");
    RenderedLength(prefix, NotTruncated(ps));
    RenderedLength(prefix, ps);
  }

  /**
   * The mark goes on after the fit. The size of a truncated text, for every prefix and budget: it is over the soft
   * budget exactly when the pairs left without an earlier mark leave less than 12 bytes for the mark, or none is
   * left and the mark alone does not fit. While some droppable pair is kept it is over by 12 bytes at most.
   */
  lemma TruncatedSize(prefix: string, pairs: seq<Pair>, soft: int)
    requires LargestFit(prefix, pairs, soft, Droppable(pairs)) < Droppable(pairs)
    ensures var k := LargestFit(prefix, pairs, soft, Droppable(pairs));
            var kept := NotTruncated(KeepFirst(pairs, k));
            var size := ByteLen(Render(prefix, Survivors(prefix, pairs, soft)));
            && size == ByteLen(HeadText(prefix)) + (if kept == [] then 11 else ByteLen(Body(kept)) + 12)
            && (prefix != "" && kept != [] ==> (size <= soft <==> ByteLen(Render(prefix, kept)) <= soft - 12))
            && (prefix != "" && k > 0 ==> size <= soft + 12)
  {
    hide Render, LargestFit, KeepFirst, Droppable, PickBy, ByteLen, IsProvenance, HeadText, Marked;
    var k := LargestFit(prefix, pairs, soft, Droppable(pairs));
    var all := KeepFirst(pairs, k);
    var kept := NotTruncated(all);
    MarkedSize(prefix, all);
    if prefix != "" && kept != [] {
      RenderedLength(prefix, kept);
      HeadIs(prefix);
      UnmarkedShorter(prefix, all);
    }
    KeepFirstMeans(pairs, k);
    NotTruncatedSplit(all);
    PickEmpty((key: string) => !IsProvenance(key));
    assert k > 0 ==> Others(kept) != [];
  }

  lemma HeadIs(prefix: string)
    requires prefix != ""
    ensures HeadText(prefix) == SCHEMA_PREFIX + prefix + DELIMITER
  {
  }

  /** Two droppable pairs: what keeping none, one or both of them leaves. */
  lemma TwoPairs(p: Pair, q: Pair)
    requires !IsProvenance(p.0) && !IsProvenance(q.0)
    ensures Droppable([p, q]) == 2 && KeepFirst([p, q], 1) == [p] && KeepFirst([p, q], 2) == [p, q]
    ensures NotTruncated([p]) == [p]
  {
    assert [p, q][1..] == [q] && [q][1..] == [] && [p][1..] == [];
    assert KeepFirst([], 0) == [] && Droppable([q]) == 1;
    assert KeepFirst([q], 0) == [] && KeepFirst([q], 1) == [q] + [];
    assert KeepFirst([p, q], 1) == [p] + [] && KeepFirst([p, q], 2) == [p] + [q];
    assert p.0 != "truncated";
    PickOne(p, (key: string) => key != "truncated");
  }

  lemma PickOne(p: Pair, pick: string -> bool)
    requires pick(p.0)
    ensures PickBy([p], pick) == [p]
  {
    assert [p][1..] == [] && PickBy([], pick) == [];
  }

  /** Two droppable pairs and just enough room for the first: the text left is 12 bytes over the budget. */
  lemma OverBudget(prefix: string, p: Pair, q: Pair)
    requires prefix != "" && !IsProvenance(p.0) && !IsProvenance(q.0)
    ensures var soft := ByteLen(Render(prefix, [p]));
            ByteLen(Render(prefix, Survivors(prefix, [p, q], soft))) == soft + 12
  {
    hide Render, Body, ByteLen, LargestFit, HeadText, Marked, KeepFirst, Droppable, NotTruncated;
    var soft := ByteLen(Render(prefix, [p]));
    TwoPairs(p, q);
    RenderedLength(prefix, [p]);
    RenderedLength(prefix, [p, q]);
    BodyCons(p, [q]);
    BodyCons(p, []);
    assert [p] + [q] == [p, q] && [p] + [] == [p];
    LargestFitUnique(prefix, [p, q], soft, 2, 1);
    TruncatedSize(prefix, [p, q], soft);
    HeadIs(prefix);
  }

  // ------------------------------------------------------------------ fields

  /** Code-point order on strings. */
  predicate StringLe(a: string, b: string) {
    a == "" || (b != "" && (a[0] < b[0] || (a[0] == b[0] && StringLe(a[1..], b[1..]))))
  }

  function StringOrder(): (string, string) -> bool {
    (a: string, b: string) => StringLe(a, b)
  }

  lemma {:induction false} StringLeTotal(a: string, b: string)
    ensures StringLe(a, b) || StringLe(b, a)
  {
    if a != "" && b != "" && a[0] == b[0] {
      StringLeTotal(a[1..], b[1..]);
    }
  }

  lemma {:induction false} StringLeTransitive(a: string, b: string, c: string)
    requires StringLe(a, b) && StringLe(b, c)
    ensures StringLe(a, c)
  {
    if a != "" && b != "" && c != "" && a[0] == b[0] && b[0] == c[0] {
      StringLeTransitive(a[1..], b[1..], c[1..]);
    }
  }

  lemma StringOrderTotal()
    ensures TotalOrder(StringOrder())
  {
    forall a, b ensures StringOrder()(a, b) || StringOrder()(b, a) {
      StringLeTotal(a, b);
    }
    forall a, b, c | StringOrder()(a, b) && StringOrder()(b, c) ensures StringOrder()(a, c) {
      StringLeTransitive(a, b, c);
    }
  }

  /** The field mapping; the first binding of a key counts. */
  type Fields = seq<(string, FieldValue)>

  function Keys(f: Fields): (r: seq<string>)
    ensures |r| == |f| && forall i :: 0 <= i < |f| ==> r[i] == f[i].0
  {
    seq(|f|, i requires 0 <= i < |f| => f[i].0)
  }

  function Lookup(f: Fields, key: string): (v: FieldValue) {
    if f == [] then Absent else if f[0].0 == key then f[0].1 else Lookup(f[1..], key)
  }

  function Occurring(order: seq<string>, keys: seq<string>): (r: seq<string>) {
    if order == [] then [] else (if order[0] in keys then [order[0]] else []) + Occurring(order[1..], keys)
  }

  function Unknown(keys: seq<string>): (r: seq<string>) {
    if keys == [] then [] else (if keys[0] !in FIELD_ORDER then [keys[0]] else []) + Unknown(keys[1..])
  }

  /** The emission order: the known keys that occur, then every other key, sorted. */
  function EmitOrder(f: Fields): (r: seq<string>) {
    Occurring(FIELD_ORDER, Keys(f)) + Unknown(Sorted(Keys(f), StringOrder()))
  }

  function PairsFor(f: Fields, order: seq<string>): (r: seq<Pair>) {
    if order == [] then [] else PairOf(order[0], Lookup(f, order[0])) + PairsFor(f, order[1..])
  }

  /** The pairs before any truncation. */
  function PairsOf(f: Fields): (r: seq<Pair>) {
    PairsFor(f, EmitOrder(f))
  }

  lemma {:induction false} PairsForAppend(f: Fields, a: seq<string>, b: seq<string>)
    ensures PairsFor(f, a + b) == PairsFor(f, a) + PairsFor(f, b)
  {
    hide PairOf, Lookup;
    if a == [] {
      assert a + b == b;
    } else {
      assert (a + b)[1..] == a[1..] + b;
      PairsForAppend(f, a[1..], b);
    }
  }

  /** `_maybe_add` over a list of keys, skipping those the caller does not select. */
  method AddPairs(f: Fields, keys: seq<string>, ordered0: seq<Pair>) returns (ordered: seq<Pair>)
    ensures ordered == ordered0 + PairsFor(f, keys)
  {
    hide ValidKey, Rendered, Escaped;
    ordered := ordered0;
    for i := 0 to |keys|
      invariant ordered == ordered0 + PairsFor(f, keys[..i])
    {
      PairsForAppend(f, keys[..i], [keys[i]]);
      assert keys[..i + 1] == keys[..i] + [keys[i]];
      assert [keys[i]][1..] == [];
      var text := Rendered(Lookup(f, keys[i]));
      if ValidKey(keys[i]) && text != "" {
        var escaped := EscapeValue(text);
        ordered := ordered + [(keys[i], escaped)];
      }
    }
    assert keys[..|keys|] == keys;
  }

  /** The packed text: the survivors of the soft budget, cut if still over the hard cap. */
  function Packed(f: Fields, prefix: string, hardCap: int, softBudget: int): (text: string) {
    var full := Render(prefix, Survivors(prefix, PairsOf(f), softBudget));
    if ByteLen(full) <= hardCap then full else Cut(full, hardCap)
  }

  /** `pack_os_detail`. */
  method PackOsDetail(f: Fields, prefix: string, hardCap: int, softBudget: int) returns (out: string)
    ensures out == Packed(f, prefix, hardCap, softBudget)
  {
    hide PairsFor, EmitOrder, Render, Survivors, ByteLen, Escaped, Cut;
    var known := Occurring(FIELD_ORDER, Keys(f));
    var unknown := Unknown(Sorted(Keys(f), StringOrder()));
    var ordered := AddPairs(f, known, []);
    ordered := AddPairs(f, unknown, ordered);
    EmitPairs(f);
    ordered := TruncateToBudget(prefix, ordered, softBudget);
    out := Render(prefix, ordered);
    if ByteLen(out) > hardCap {
      out := CutHard(out, hardCap);
    }
  }

  /** From a cap of 16 on the packed text never exceeds it in UTF-8 bytes. */
  lemma PackedWithinCap(f: Fields, prefix: string, hardCap: int, softBudget: int)
    requires hardCap >= 16
    ensures ByteLen(Packed(f, prefix, hardCap, softBudget)) <= hardCap
  {
    hide Render, Survivors, ByteLen, Cut, PairsOf;
    var full := Render(prefix, Survivors(prefix, PairsOf(f), softBudget));
    if ByteLen(full) > hardCap {
      HardCapIff(full, hardCap);
    }
  }

  /** A text within both budgets is packed whole. */
  lemma PackedWhole(f: Fields, prefix: string, hardCap: int, softBudget: int)
    requires ByteLen(Render(prefix, PairsOf(f))) <= softBudget <= hardCap
    ensures Packed(f, prefix, hardCap, softBudget) == Render(prefix, PairsOf(f))
  {
    hide Render, Droppable, KeepFirst, Marked, ByteLen, PairsOf, LargestFit;
    var pairs := PairsOf(f);
    KeepAll(pairs, Droppable(pairs));
    LargestFitUnique(prefix, pairs, softBudget, Droppable(pairs), Droppable(pairs));
  }

  lemma EmitPairs(f: Fields)
    ensures PairsOf(f) == [] + PairsFor(f, Occurring(FIELD_ORDER, Keys(f)))
                          + PairsFor(f, Unknown(Sorted(Keys(f), StringOrder())))
  {
    hide PairsFor, Occurring, Unknown, Sorted;
    PairsForAppend(f, Occurring(FIELD_ORDER, Keys(f)), Unknown(Sorted(Keys(f), StringOrder())));
  }

  /** The OSDetail bytes of a system context: NUL-terminated. */
  function WireText(text: string): (raw: Bytes) {
    if text != "" then Encode(text) + [0] else [0]
  }

  /** Packed under the default budgets, the field's length always fits its 16 bits. */
  lemma WireLengthFits(f: Fields, prefix: string)
    ensures var text := Packed(f, prefix, HARD_CAP_BYTES, SOFT_BUDGET_BYTES);
            WireText(text) == Encode(text) + [0] && |WireText(text)| <= 60 * 1024 + 1 <= 0xFFFF
  {
    hide Packed;
    PackedWithinCap(f, prefix, HARD_CAP_BYTES, SOFT_BUDGET_BYTES);
  }

  // ----------------------------------------------------------------- parsing

  /** `t` occurs in `s` at position `j`. */
  predicate At(s: string, t: string, j: nat) {
    j + |t| <= |s| && s[j..j + |t|] == t
  }

  /** `s.find(t, i)`: the first place at or after `i`. */
  function FindFrom(s: string, t: string, i: nat): (k: Option<nat>)
    requires t != ""
    ensures k.Some? ==> i <= k.value && At(s, t, k.value) && forall j: nat :: i <= j < k.value ==> !At(s, t, j)
    ensures k.None? ==> forall j: nat :: i <= j ==> !At(s, t, j)
    decreases |s| - i
  {
    if i + |t| > |s| then None
    else if At(s, t, i) then Some(i)
    else FindFrom(s, t, i + 1)
  }

  function SplitOn(s: string, c: char): (parts: seq<string>)
    ensures |parts| >= 1
    decreases |s|
  {
    if c in s then
      var i := IndexOf(s, c);
      [s[..i]] + SplitOn(s[i + 1..], c)
    else [s]
  }

  function IndexOf(s: string, c: char): (i: nat)
    requires c in s
    ensures i < |s| && s[i] == c && c !in s[..i]
  {
    if s[0] == c then 0 else 1 + IndexOf(s[1..], c)
  }

  function LStrip(s: string): (r: string)
    ensures |r| <= |s|
  {
    if s != "" && IsSpace(s[0]) then LStrip(s[1..]) else s
  }

  /** One `k=v` part added to the result; None where decoding the value raises. */
  function AddPart(dec: Decimals, out: map<string, string>, part: string): (r: Option<map<string, string>>) {
    if '=' !in part then Some(out)
    else
      var i := IndexOf(part, '=');
      var k := RStrip(LStrip(part[..i]));
      if !ValidKey(k) then Some(out)
      else
        var v := UnescapeFrom(dec, part[i + 1..], 0);
        if v.None? then None else Some(out[k := v.value])
  }

  function AddParts(dec: Decimals, out: map<string, string>, parts: seq<string>): (r: Option<map<string, string>>)
    decreases |parts|
  {
    if parts == [] then Some(out)
    else
      match AddPart(dec, out, parts[0])
      case None => None
      case Some(next) => AddParts(dec, next, parts[1..])
  }

  /** `parse_os_detail`; None where it raises. */
  function Parsed(dec: Decimals, value: string): (r: Option<map<string, string>>) {
    if !(SCHEMA_PREFIX <= value) then Some(if value != "" then map[HUMAN := value] else map[])
    else
      var rest := value[|SCHEMA_PREFIX|..];
      var d := FindFrom(rest, DELIMITER, 0);
      var human := if d.Some? then rest[..d.value] else rest;
      var block := if d.Some? then rest[d.value + |DELIMITER|..] else "";
      var out: map<string, string> := if human != "" then map[HUMAN := human] else map[];
      if block == "" then Some(out) else AddParts(dec, out, SplitOn(block, ';'))
  }

  method ParseOsDetail(dec: Decimals, value: string) returns (r: Option<map<string, string>>)
    ensures r == Parsed(dec, value)
  {
    hide AddPart;
    if !(SCHEMA_PREFIX <= value) {
      return Some(if value != "" then map[HUMAN := value] else map[]);
    }
    var rest := value[|SCHEMA_PREFIX|..];
    var d := FindFrom(rest, DELIMITER, 0);
    var human := if d.Some? then rest[..d.value] else rest;
    var block := if d.Some? then rest[d.value + |DELIMITER|..] else "";
    var out: map<string, string> := if human != "" then map[HUMAN := human] else map[];
    if block != "" {
      var parts := SplitOn(block, ';');
      ghost var start := out;
      for i := 0 to |parts|
        invariant AddParts(dec, out, parts[i..]) == AddParts(dec, start, parts)
      {
        assert parts[i..][1..] == parts[i + 1..];
        var next := AddPart(dec, out, parts[i]);
        if next.None? {
          return None;
        }
        out := next.value;
      }
    }
    r := Some(out);
  }
}

/** What the packer makes of field values, and the order in which it emits them. */
module OsDetailFields {
  import opened ByteStrings
  import opened Sorting
  import opened Utf8
  import opened OsDetail
  import opened OsDetailRoundTrip

  // ----------------------------------------------------------------- numbers

  /** The number a string of decimal digits denotes. */
  function DecimalValue(s: string): (v: int) {
    if s == "" then 0 else 10 * DecimalValue(s[..|s| - 1]) + (s[|s| - 1] as int - '0' as int)
  }

  /** Decimal digits, the leading one first and no zero unless it is alone, that denote the number. */
  lemma {:induction false} DigitsReadBack(n: nat)
    ensures DecimalValue(Digits(n)) == n
    ensures forall c :: c in Digits(n) ==> '0' <= c <= '9'
    ensures Digits(n)[0] == '0' ==> n == 0
  {
    var d := '0' + (n % 10) as char;
    if n < 10 {
      assert Digits(n) == [d] && [d][..0] == "" && DecimalValue("") == 0;
    } else {
      var front := Digits(n / 10);
      DigitsReadBack(n / 10);
      assert Digits(n) == front + [d] && (front + [d])[..|front|] == front && (front + [d])[0] == front[0];
    }
  }

  /** A number other than zero is rendered as its sign and its decimal digits; zero counts as not collected. */
  lemma NumberRendered(n: int)
    ensures var s := Rendered(Number(n));
            && (s == "" <==> n == 0)
            && (n > 0 ==> s[0] != '-' && s[0] != '0' && DecimalValue(s) == n)
            && (n < 0 ==> s[0] == '-' && s[1..] != "" && s[1] != '0' && DecimalValue(s[1..]) == -n)
  {
    if n > 0 {
      DigitsReadBack(n);
      assert Digits(n)[0] in Digits(n);
    } else if n < 0 {
      DigitsReadBack(-n);
      assert ("-" + Digits(-n))[1..] == Digits(-n);
    }
  }

  /** Flags are shown when they are up, texts as they are. */
  lemma PlainRendered(b: bool, s: string)
    ensures Rendered(Flag(b)) == (if b then "1" else "") && Rendered(Text(s)) == s && Rendered(Absent) == ""
  {
  }

  // ------------------------------------------------------------------- items

  /** Items without a comma come back, but for the empty ones, when the text is split at its commas. */
  lemma ItemsRendered(items: seq<string>)
    requires forall i :: 0 <= i < |items| ==> ',' !in items[i]
    ensures var s, kept := Rendered(Items(items)), NonEmptyItems(items);
            && (s == "" <==> kept == []) && (kept != [] ==> SplitOn(s, ',') == kept)
  {
    KeptItems(items);
    if NonEmptyItems(items) != [] {
      JoinSplits(NonEmptyItems(items));
    }
  }

  lemma {:induction false} KeptItems(items: seq<string>)
    requires forall i :: 0 <= i < |items| ==> ',' !in items[i]
    ensures forall i :: 0 <= i < |NonEmptyItems(items)| ==>
              ',' !in NonEmptyItems(items)[i] && NonEmptyItems(items)[i] != ""
    ensures forall x :: x in NonEmptyItems(items) <==> x in items && x != ""
    decreases |items|
  {
    if items != [] {
      KeptItems(items[1..]);
    }
  }

  lemma SplitFirst(first: string, rest: string)
    requires ',' !in first
    ensures SplitOn(first + "," + rest, ',') == [first] + SplitOn(rest, ',')
  {
    var s := first + [','] + rest;
    assert first + "," + rest == s;
    IndexOfPrefix(first, rest, ',');
    assert s[..|first|] == first && s[|first| + 1..] == rest;
  }

  lemma {:induction false} JoinSplits(items: seq<string>)
    requires items != [] && forall i :: 0 <= i < |items| ==> ',' !in items[i] && items[i] != ""
    ensures JoinWith(items, ",") != "" && SplitOn(JoinWith(items, ","), ',') == items
    decreases |items|
  {
    if |items| > 1 {
      hide SplitOn, IndexOf;
      JoinSplits(items[1..]);
      SplitFirst(items[0], JoinWith(items[1..], ","));
      assert items == [items[0]] + items[1..];
    } else {
      assert items == [items[0]];
    }
  }

  // ---------------------------------------------------------- emission order

  /** The strings first differ at `k`, where `a` has the lower code point. */
  predicate LowerAt(a: string, b: string, k: nat) {
    k < |a| && k < |b| && a[..k] == b[..k] && a[k] < b[k]
  }

  /** Code-point order: a prefix comes first, else the first place of difference decides. */
  ghost predicate Precedes(a: string, b: string) {
    a <= b || exists k: nat :: LowerAt(a, b, k)
  }

  lemma {:induction false} StringLeMeans(a: string, b: string)
    ensures StringLe(a, b) <==> Precedes(a, b)
    decreases |a|
  {
    if a != "" && b != "" {
      SameHead(a, b);
      hide Precedes;
      if a[0] == b[0] {
        StringLeMeans(a[1..], b[1..]);
      }
    }
  }

  lemma LowerShift(a: string, b: string, k: nat)
    requires a != "" && b != "" && a[0] == b[0] && k > 0
    ensures LowerAt(a, b, k) <==> LowerAt(a[1..], b[1..], k - 1)
  {
    if k < |a| && k < |b| {
      var x, y := a[1..][..k - 1], b[1..][..k - 1];
      assert a[..k] == [a[0]] + x && b[..k] == [b[0]] + y;
      assert x == a[..k][1..] && y == b[..k][1..];
    }
  }

  lemma LowerHead(a: string, b: string, k: nat)
    requires a != "" && b != "" && a[0] != b[0]
    ensures LowerAt(a, b, k) <==> k == 0 && a[0] < b[0]
  {
    if 0 < k < |a| && k < |b| {
      assert a[..k][0] != b[..k][0];
    }
    assert a[..0] == b[..0];
  }

  lemma SameHead(a: string, b: string)
    requires a != "" && b != ""
    ensures a[0] == b[0] ==> (Precedes(a, b) <==> Precedes(a[1..], b[1..]))
    ensures a[0] != b[0] ==> (Precedes(a, b) <==> a[0] < b[0])
  {
    var x, y := a[1..], b[1..];
    if a[0] == b[0] {
      assert a == [a[0]] + x && b == [b[0]] + y;
      assert a <= b <==> x <= y;
      assert !LowerAt(a, b, 0);
      forall k: nat | k > 0 ensures LowerAt(a, b, k) <==> LowerAt(x, y, k - 1) {
        LowerShift(a, b, k);
      }
      hide LowerAt;
      if exists k: nat :: LowerAt(x, y, k) {
        var k: nat :| LowerAt(x, y, k);
        assert LowerAt(a, b, k + 1);
      }
    } else {
      LowerHead(a, b, 0);
      forall k: nat ensures LowerAt(a, b, k) ==> k == 0 {
        LowerHead(a, b, k);
      }
      hide LowerAt;
    }
  }

  /** `a` has a place in the list before a place of `b`. */
  predicate ListedBefore(order: seq<string>, a: string, b: string) {
    exists p, q :: 0 <= p < q < |order| && order[p] == a && order[q] == b
  }

  lemma {:induction false} OccurringInOrder(order: seq<string>, keys: seq<string>, i: nat, j: nat)
    requires i < j < |Occurring(order, keys)|
    ensures ListedBefore(order, Occurring(order, keys)[i], Occurring(order, keys)[j])
    decreases |order|
  {
    var r, rest := Occurring(order, keys), Occurring(order[1..], keys);
    if order[0] !in keys || i > 0 {
      var d := if order[0] in keys then 1 else 0;
      OccurringInOrder(order[1..], keys, i - d, j - d);
      var p, q :| 0 <= p < q < |order[1..]| && order[1..][p] == rest[i - d] && order[1..][q] == rest[j - d];
      assert order[p + 1] == r[i] && order[q + 1] == r[j];
    } else {
      InOccurring(order[1..], keys, rest[j - 1]);
      assert rest[j - 1] in rest;
      var q :| 0 <= q < |order[1..]| && order[1..][q] == rest[j - 1];
      assert order[q + 1] == r[j] && order[0] == r[0];
    }
  }

  lemma {:induction false} UnknownOrdered(keys: seq<string>)
    requires Ordered(keys, StringOrder())
    ensures Ordered(Unknown(keys), StringOrder())
    decreases |keys|
  {
    if keys != [] {
      var rest := keys[1..];
      assert forall i :: 0 <= i < |rest| ==> rest[i] == keys[i + 1];
      UnknownOrdered(rest);
      forall x | x in Unknown(rest) ensures StringOrder()(keys[0], x) {
        InUnknown(rest, x);
        var i :| 0 <= i < |rest| && rest[i] == x;
        assert keys[i + 1] == x;
      }
    }
  }

  /** The keys in the order of emission. */
  ghost predicate Emits(f: Fields, known: seq<string>, unknown: seq<string>) {
    && EmitOrder(f) == known + unknown
    && (forall k :: k in known <==> k in FIELD_ORDER && k in Keys(f))
    && (forall k :: k in unknown <==> k !in FIELD_ORDER && k in Keys(f))
    && (forall i, j :: 0 <= i < j < |known| ==> ListedBefore(FIELD_ORDER, known[i], known[j]))
    && forall i, j :: 0 <= i < j < |unknown| ==> Precedes(unknown[i], unknown[j])
  }

  /** First the known keys that occur, in the order of the list of fields, then every other key in code-point order. */
  lemma EmissionOrder(f: Fields) returns (known: seq<string>, unknown: seq<string>)
    ensures Emits(f, known, unknown)
    ensures FIELD_ORDER
            == ["distro", "kernel", "arch", "machine_id", "hw_vendor", "hw_model", "hw_serial", "bios", "cpu",
                "cpu_count", "ram", "boot_id", "virt", "secure_boot", "disk_enc", "selinux", "apparmor", "tz",
                "nic_macs", "mode", "collector_caps", "redacted_keys", "truncated"]
  {
    hide Occurring, Unknown, Sorted, Keys, StringLe, ListedBefore, Precedes;
    var sorted := Sorted(Keys(f), StringOrder());
    known, unknown := Occurring(FIELD_ORDER, Keys(f)), Unknown(sorted);
    StringOrderTotal();
    SortedFacts(Keys(f), StringOrder());
    forall k ensures k in known <==> k in FIELD_ORDER && k in Keys(f) {
      InOccurring(FIELD_ORDER, Keys(f), k);
    }
    forall k ensures k in unknown <==> k !in FIELD_ORDER && k in Keys(f) {
      InUnknown(sorted, k);
    }
    forall i, j | 0 <= i < j < |known| ensures ListedBefore(FIELD_ORDER, known[i], known[j]) {
      OccurringInOrder(FIELD_ORDER, Keys(f), i, j);
    }
    UnknownOrdered(sorted);
    forall i, j | 0 <= i < j < |unknown| ensures Precedes(unknown[i], unknown[j]) {
      StringLeMeans(unknown[i], unknown[j]);
      assert StringOrder()(unknown[i], unknown[j]);
    }
  }

  // ---------------------------------------------------------- the packed text

  /** The text: schema, prefix, and behind ` | ` the pairs, if there are any. */
  lemma RenderMeans(prefix: string, pairs: seq<Pair>)
    ensures prefix != "" ==>
              Render(prefix, pairs) == "msl.memslicer/1 " + prefix + if pairs == [] then "" else " | " + Body(pairs)
    ensures prefix == "" ==>
              Render(prefix, pairs) == RStrip("msl.memslicer/1 " + if pairs == [] then "" else "| " + Body(pairs))
  {
    hide RStrip;
    assert SCHEMA_PREFIX + "" == SCHEMA_PREFIX && SCHEMA_PREFIX + prefix + "" == SCHEMA_PREFIX + prefix;
    if pairs != [] {
      assert |PairText(pairs[0])| >= 1;
      assert "msl.memslicer/1 " + "| " + Body(pairs) == "msl.memslicer/1 " + ("| " + Body(pairs));
      assert "msl.memslicer/1 " + prefix + " | " + Body(pairs) == "msl.memslicer/1 " + prefix + (" | " + Body(pairs));
    }
  }

  /** Over the hard cap: as many whole characters as fit in 16 bytes less than the cap, and the marker. */
  lemma PackedCut(f: Fields, prefix: string, hardCap: int, soft: int) returns (k: nat)
    requires 16 <= hardCap < ByteLen(Render(prefix, Survivors(prefix, PairsOf(f), soft)))
    ensures var full := Render(prefix, Survivors(prefix, PairsOf(f), soft));
            && k < |full| && Packed(f, prefix, hardCap, soft) == full[..k] + ";truncated=hard"
            && ByteLen(full[..k]) <= hardCap - 16 < ByteLen(full[..k + 1])
  {
    hide Render, Survivors, PairsOf;
    var full := Render(prefix, Survivors(prefix, PairsOf(f), soft));
    k := Fitting(full, hardCap - 16);
    assert full[..|full|] == full;
  }

  // --------------------------------------------------------- the truncation

  lemma {:induction false} InPick(pairs: seq<Pair>, p: string -> bool, x: Pair)
    ensures x in PickBy(pairs, p) <==> x in pairs && p(x.0)
  {
    if pairs != [] {
      InPick(pairs[1..], p, x);
    }
  }

  /** Whatever the soft budget, the pairs that say where the fields come from survive, and no pair is made up. */
  lemma ProvenanceKept(prefix: string, pairs: seq<Pair>, soft: int, x: Pair)
    ensures var out := Survivors(prefix, pairs, soft);
            && (x.0 in {"mode", "collector_caps", "redacted_keys"} ==> (x in out <==> x in pairs))
            && (x.0 !in {"mode", "collector_caps", "redacted_keys", "truncated"} ==>
                  (x in out ==> x in pairs)
                  && (x in pairs <==> x in Others(pairs)))
  {
    hide Survivors, PickBy, LargestFit, Droppable;
    var out := Survivors(prefix, pairs, soft);
    TruncationPolicy(prefix, pairs, soft);
    InPick(out, (key: string) => !IsProvenance(key), x);
    InPick(pairs, (key: string) => !IsProvenance(key), x);
    InPick(out, (key: string) => IsProvenance(key), x);
    InPick(pairs, (key: string) => IsProvenance(key), x);
    InPick(Provenance(out), (key: string) => key != "truncated", x);
    InPick(Provenance(pairs), (key: string) => key != "truncated", x);
    NamesApart();
  }

  lemma NamesApart()
    ensures "truncated" !in {"mode", "collector_caps", "redacted_keys"}
  {
    assert "truncated"[0] == 't' && "mode"[0] == 'm' && "collector_caps"[0] == 'c' && "redacted_keys"[0] == 'r';
  }

  // ------------------------------------------------------ hexadecimal pairs

  /** Without the blanks at both ends. */
  function Trimmed(s: string): (r: string) {
    if s != "" && IntBlank(s[0]) then Trimmed(s[1..])
    else if s != "" && IntBlank(s[|s| - 1]) then Trimmed(s[..|s| - 1])
    else s
  }

  /** The number hexadecimal digits denote, in ASCII or as decimal digits of any script; None for anything else. */
  function HexNumber(dec: Decimals, s: string): (v: Option<int>)
    decreases |s|
  {
    if s == "" then Some(0)
    else
      var d, front := HexDigit(dec, s[|s| - 1]), HexNumber(dec, s[..|s| - 1]);
      if d < 0 || front.None? then None else Some(16 * front.value + d)
  }

  /** Python's `int(s, 16)` of a text without underscores and base prefix; None where it raises. */
  function PythonInt(dec: Decimals, s: string): (v: Option<int>) {
    var t := Trimmed(s);
    var u := if t != "" && (t[0] == '+' || t[0] == '-') then t[1..] else t;
    var n := HexNumber(dec, u);
    if u == "" || n.None? then None else Some(if t[0] == '-' then -n.value else n.value)
  }

  lemma HexNumberShort(dec: Decimals, a: char, b: char)
    ensures HexNumber(dec, [a]) == (if HexDigit(dec, a) < 0 then None else Some(HexDigit(dec, a)))
    ensures HexNumber(dec, [a, b])
            == (if HexDigit(dec, a) < 0 || HexDigit(dec, b) < 0 then None
                else Some(16 * HexDigit(dec, a) + HexDigit(dec, b)))
  {
    hide HexDigit;
    assert [a][..0] == "" && [a, b][..1] == [a];
  }

  /** No character is both a blank and a decimal digit. */
  ghost predicate Sensible(dec: Decimals) {
    forall c :: IntBlank(c) ==> !(0 <= dec(c) <= 9)
  }

  /** Digits, signs and blanks are different characters. */
  lemma BlanksApart(dec: Decimals, c: char)
    requires Sensible(dec)
    ensures IntBlank(c) ==> c != '+' && c != '-' && HexDigit(dec, c) < 0
    ensures c == '+' || c == '-' ==> HexDigit(dec, c) < 0
  {
  }

  lemma TrimmedOne(a: char)
    ensures Trimmed([a]) == if IntBlank(a) then "" else [a]
  {
    hide IntBlank;
    assert [a][1..] == "" && Trimmed("") == "";
  }

  lemma TrimmedShort(a: char, b: char)
    ensures Trimmed([a, b])
            == (if IntBlank(a) && IntBlank(b) then "" else if IntBlank(a) then [b] else if IntBlank(b) then [a]
                else [a, b])
  {
    hide IntBlank;
    assert [a, b][1..] == [b] && [a, b][..1] == [a] && [b][1..] == "";
    TrimmedOne(a);
    TrimmedOne(b);
  }

  /** The decoder's pair of characters is read as Python's `int` reads it. */
  lemma HexPairIsInt(dec: Decimals, hi: char, lo: char)
    requires Sensible(dec)
    ensures HexPair(dec, hi, lo) == PythonInt(dec, [hi, lo])
  {
    hide Trimmed, HexNumber, HexDigit, IntBlank;
    TrimmedShort(hi, lo);
    HexNumberShort(dec, hi, lo);
    HexNumberShort(dec, lo, lo);
    BlanksApart(dec, hi);
    BlanksApart(dec, lo);
    assert [hi, lo][1..] == [lo] && [lo][1..] == "" && [hi][1..] == "";
  }

  // ------------------------------------------------------------- unescaping

  /** The six characters that are escaped have these codes. */
  lemma ReservedCodes(code: int, c: char)
    ensures ReservedOf(code).Some? <==> code in {0x00, 0x0A, 0x25, 0x3B, 0x3D, 0x7C}
    ensures ReservedOf(code) == Some(c) ==> c as int == code
  {
  }

  /** A percent sign and a pair that `int` reads as the code of a reserved character, or as a negative number. */
  predicate EscapeAt(dec: Decimals, v: string, j: nat) {
    && j + 2 < |v| && v[j] == '%' && HexPair(dec, v[j + 1], v[j + 2]).Some?
    && var code := HexPair(dec, v[j + 1], v[j + 2]).value;
       code < 0 || code in {0x00, 0x0A, 0x25, 0x3B, 0x3D, 0x7C}
  }

  /** Everything else stays as it is: broken escapes and those of other characters too. */
  lemma {:induction false} UnescapePlain(dec: Decimals, v: string, i: nat)
    requires i <= |v| && forall j: nat :: i <= j ==> !EscapeAt(dec, v, j)
    ensures UnescapeFrom(dec, v, i) == Some(v[i..])
    decreases |v| - i
  {
    hide HexPair, ReservedOf;
    if i < |v| {
      assert !EscapeAt(dec, v, i);
      if i + 2 < |v| && HexPair(dec, v[i + 1], v[i + 2]).Some? {
        ReservedCodes(HexPair(dec, v[i + 1], v[i + 2]).value, v[i]);
      }
      UnescapePlain(dec, v, i + 1);
      assert v[i..] == [v[i]] + v[i + 1..];
    }
  }

  /** Where an escape stands its character takes the place of the three. */
  lemma UnescapeStep(dec: Decimals, v: string, i: nat)
    requires EscapeAt(dec, v, i) && HexPair(dec, v[i + 1], v[i + 2]).value >= 0
    ensures var rest, code := UnescapeFrom(dec, v, i + 3), HexPair(dec, v[i + 1], v[i + 2]).value;
            UnescapeFrom(dec, v, i) == if rest.None? then None else Some([code as char] + rest.value)
  {
    hide HexPair;
    ReservedCodes(HexPair(dec, v[i + 1], v[i + 2]).value, ReservedOf(HexPair(dec, v[i + 1], v[i + 2]).value).value);
  }

  /** What `str.strip` strips, and what `int` does. */
  lemma SpacesAre(c: char)
    ensures IsSpace(c) <==>
            c as int in {0x09, 0x0A, 0x0B, 0x0C, 0x0D, 0x1C, 0x1D, 0x1E, 0x1F, 0x20, 0x85, 0xA0, 0x1680, 0x2000, 0x2001,
                         0x2002, 0x2003, 0x2004, 0x2005, 0x2006, 0x2007, 0x2008, 0x2009, 0x200A, 0x2028, 0x2029,
                         0x202F, 0x205F, 0x3000}
    ensures IntBlank(c) <==> IsSpace(c) && !(0x1C <= c as int <= 0x1F)
  {
  }
}

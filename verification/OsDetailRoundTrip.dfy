/** What comes back when a packed OSDetail string is parsed. */
module OsDetailRoundTrip {
  import opened ByteStrings
  import opened Sorting
  import opened Utf8
  import opened OsDetail

  /** A key with its rendered value, before escaping. */
  type Entry = (string, string)

  function EscapedPairs(es: seq<Entry>): (ps: seq<Pair>) {
    if es == [] then [] else [(es[0].0, Escaped(es[0].1))] + EscapedPairs(es[1..])
  }

  /** Entries the packer emits: valid keys, non-empty values. */
  predicate GoodEntries(es: seq<Entry>) {
    forall i :: 0 <= i < |es| ==> ValidKey(es[i].0) && es[i].1 != ""
  }

  function ToMap(es: seq<Entry>): (m: map<string, string>) {
    if es == [] then map[] else map[es[0].0 := es[0].1] + ToMap(es[1..])
  }

  // ------------------------------------------------------------- one part

  lemma KeyHasNoSpace(k: string)
    requires ValidKey(k)
    ensures RStrip(LStrip(k)) == k && forall c :: c in k ==> c != '=' && c != ';' && c != '|'
  {
    assert KeyChar(k[0]) && KeyChar(k[|k| - 1]);
  }

  lemma {:induction false} IndexOfPrefix(a: string, b: string, c: char)
    requires c !in a
    ensures c in a + [c] + b && IndexOf(a + [c] + b, c) == |a|
    decreases |a|
  {
    var s := a + [c] + b;
    assert s[|a|] == c;
    if a != "" {
      assert s[1..] == a[1..] + [c] + b;
      assert s[0] == a[0];
      IndexOfPrefix(a[1..], b, c);
    }
  }

  /** A packed pair, parsed, sets its key to its value. */
  lemma PartRoundTrip(dec: Decimals, out: map<string, string>, e: Entry)
    requires ValidKey(e.0)
    ensures AddPart(dec, out, PairText((e.0, Escaped(e.1)))) == Some(out[e.0 := e.1])
    ensures ';' !in PairText((e.0, Escaped(e.1))) && '|' !in PairText((e.0, Escaped(e.1)))
  {
    hide ValidKey, Escaped, UnescapeFrom, RStrip, LStrip;
    KeyHasNoSpace(e.0);
    EscapedIsClean(e.1);
    EscapeRoundTrip(dec, e.1);
    var part := e.0 + ['='] + Escaped(e.1);
    assert part == PairText((e.0, Escaped(e.1)));
    IndexOfPrefix(e.0, Escaped(e.1), '=');
    assert part[..|e.0|] == e.0 && part[|e.0| + 1..] == Escaped(e.1);
  }

  // ------------------------------------------------------------- the body

  function Texts(ps: seq<Pair>): (r: seq<string>) {
    if ps == [] then [] else [PairText(ps[0])] + Texts(ps[1..])
  }

  /** The block splits back into its pairs. */
  lemma {:induction false} SplitBody(dec: Decimals, es: seq<Entry>)
    requires GoodEntries(es) && es != []
    ensures SplitOn(Body(EscapedPairs(es)), ';') == Texts(EscapedPairs(es))
    ensures Body(EscapedPairs(es)) != "" && '|' !in Body(EscapedPairs(es))
    decreases |es|
  {
    hide ValidKey, Escaped;
    var first := PairText((es[0].0, Escaped(es[0].1)));
    PartRoundTrip(dec, map[], es[0]);
    assert first[|es[0].0|] == '=';
    var ps, more := EscapedPairs(es), EscapedPairs(es[1..]);
    assert ps[1..] == more;
    if |es| > 1 {
      SplitBody(dec, es[1..]);
      var rest := Body(more);
      assert Body(ps) == first + [';'] + rest;
      IndexOfPrefix(first, rest, ';');
      assert Body(ps)[..|first|] == first && Body(ps)[|first| + 1..] == rest;
    } else {
      assert es[1..] == [];
    }
  }

  lemma {:induction false} AddBody(dec: Decimals, out: map<string, string>, es: seq<Entry>)
    requires GoodEntries(es)
    ensures AddParts(dec, out, Texts(EscapedPairs(es))) == Some(out + ToMap(es))
    decreases |es|
  {
    hide PairText, ValidKey, Escaped, AddPart;
    if es == [] {
      assert out + map[] == out;
    } else {
      var e, rest := es[0], es[1..];
      var next := out[e.0 := e.1];
      PartRoundTrip(dec, out, e);
      assert EscapedPairs(es)[1..] == EscapedPairs(rest);
      assert Texts(EscapedPairs(es))[1..] == Texts(EscapedPairs(rest));
      AddBody(dec, next, rest);
      assert next + ToMap(rest) == out + (map[e.0 := e.1] + ToMap(rest));
    }
  }

  // ----------------------------------------------------------- the prefix

  /** Where the parser cuts a prefix that the packer's delimiter follows. */
  function CutAt(prefix: string): (k: nat)
    ensures k <= |prefix| && At(prefix + DELIMITER, DELIMITER, k)
    ensures forall j: nat :: j < k ==> !At(prefix + DELIMITER, DELIMITER, j)
  {
    var s := prefix + DELIMITER;
    assert At(s, DELIMITER, |prefix|);
    FindFrom(s, DELIMITER, 0).value
  }

  /** The first delimiter after a non-empty prefix is the packer's own. */
  predicate CleanPrefix(prefix: string) {
    prefix != "" && CutAt(prefix) == |prefix|
  }

  lemma AtInLonger(s: string, t: string, u: string, j: nat)
    requires j + |t| <= |s|
    ensures At(s + u, t, j) <==> At(s, t, j)
  {
    assert (s + u)[j..j + |t|] == s[j..j + |t|];
  }

  /** The parser finds the cut in the packed text. */
  lemma CutFound(prefix: string, body: string)
    ensures FindFrom(prefix + DELIMITER + body, DELIMITER, 0) == Some(CutAt(prefix))
  {
    var s, k := prefix + DELIMITER, CutAt(prefix);
    AtInLonger(s, DELIMITER, body, k);
    forall j: nat | j < k ensures !At(s + body, DELIMITER, j) {
      AtInLonger(s, DELIMITER, body, j);
    }
  }

  /** What is expected back: every entry, and a prefix under `_human`. */
  function Expected(prefix: string, es: seq<Entry>): (m: map<string, string>) {
    if prefix == "" then ToMap(es) else map[HUMAN := prefix] + ToMap(es)
  }

  lemma SchemaSplit(rest: string)
    ensures SCHEMA_PREFIX <= SCHEMA_PREFIX + rest && (SCHEMA_PREFIX + rest)[|SCHEMA_PREFIX|..] == rest
  {
  }

  /** Parsing a packed text: the cut prefix, then the block after the cut. */
  lemma ParsedCut(dec: Decimals, prefix: string, body: string)
    requires prefix != "" && body != ""
    ensures var rest, k := prefix + DELIMITER + body, CutAt(prefix);
            Parsed(dec, SCHEMA_PREFIX + prefix + DELIMITER + body)
            == AddParts(dec, if k > 0 then map[HUMAN := prefix[..k]] else map[], SplitOn(rest[k + |DELIMITER|..], ';'))
  {
    hide AddParts, SplitOn, FindFrom;
    var rest, k := prefix + DELIMITER + body, CutAt(prefix);
    CutFound(prefix, body);
    SchemaSplit(rest);
    assert SCHEMA_PREFIX + prefix + DELIMITER + body == SCHEMA_PREFIX + rest;
    assert rest[..k] == prefix[..k];
  }

  /** Behind a clean prefix every list of entries comes back, together with the prefix. */
  lemma CleanRoundTrip(dec: Decimals, prefix: string, es: seq<Entry>)
    requires CleanPrefix(prefix) && GoodEntries(es)
    ensures Parsed(dec, Render(prefix, EscapedPairs(es))) == Some(Expected(prefix, es))
  {
    hide AddParts, SplitOn, GoodEntries;
    if es == [] {
      SchemaSplit(prefix);
      forall j: nat ensures !At(prefix, DELIMITER, j) {
        if At(prefix, DELIMITER, j) {
          AtInLonger(prefix, DELIMITER, DELIMITER, j);
        }
      }
      assert map[HUMAN := prefix] + map[] == map[HUMAN := prefix];
    } else {
      var body := Body(EscapedPairs(es));
      SplitBody(dec, es);
      AddBody(dec, map[HUMAN := prefix], es);
      ParsedCut(dec, prefix, body);
      var rest := prefix + DELIMITER + body;
      assert prefix[..|prefix|] == prefix && rest[|prefix| + |DELIMITER|..] == body;
    }
  }

  // ---------------------------------------------- the condition is exact

  lemma {:induction false} StripKeeps(s: string, c: char)
    requires c in s && !IsSpace(c)
    ensures c in RStrip(s) && c in LStrip(s)
    decreases |s|
  {
    hide IsSpace;
    if IsSpace(s[|s| - 1]) {
      StripKeeps(s[..|s| - 1], c);
    }
    if IsSpace(s[0]) {
      StripKeeps(s[1..], c);
    }
  }

  /** A part can only set a key no longer than the text before its first `=`. */
  lemma PartKey(dec: Decimals, out: map<string, string>, part: string, key: string)
    requires key !in out
    requires '=' in part && (IndexOf(part, '=') < |key| || '|' in part[..IndexOf(part, '=')])
    ensures AddPart(dec, out, part).Some? ==> key !in AddPart(dec, out, part).value
  {
    hide RStrip, LStrip;
    var before := part[..IndexOf(part, '=')];
    if '|' in before {
      StripKeeps(before, '|');
      StripKeeps(LStrip(before), '|');
      NoBarInKey(RStrip(LStrip(before)));
    }
  }

  lemma NoBarInKey(k: string)
    requires '|' in k
    ensures !ValidKey(k)
  {
    var i :| 0 <= i < |k| && k[i] == '|';
    assert !KeyChar(k[i]);
  }

  lemma {:induction false} IndexInPrefix(a: string, b: string, c: char)
    requires c in a
    ensures c in a + b && IndexOf(a + b, c) == IndexOf(a, c)
    decreases |a|
  {
    assert (a + b)[0] == a[0];
    if a[0] != c {
      assert (a + b)[1..] == a[1..] + b;
      IndexInPrefix(a[1..], b, c);
    }
  }

  /** A long key behind a stray bar is never set. */
  lemma {:induction false} LongKeyLost(dec: Decimals, out: map<string, string>, b: string, key: string)
    requires key !in out && |key| > |b| && forall c :: c in key ==> c != '=' && c != ';'
    ensures var r := AddParts(dec, out, SplitOn(b + "| " + key + "=1", ';')); r.Some? ==> key !in r.value
    decreases |b|
  {
    hide AddPart, RStrip, LStrip;
    var tail := "| " + key + "=1";
    var s := b + tail;
    assert s == b + "| " + key + "=1";
    if ';' in b {
      var i := IndexOf(b, ';');
      IndexInPrefix(b, tail, ';');
      assert s[..i] == b[..i] && s[i + 1..] == b[i + 1..] + "| " + key + "=1";
      ShortPart(dec, out, b[..i], key);
      var next := AddPart(dec, out, b[..i]);
      if next.Some? {
        LongKeyLost(dec, next.value, b[i + 1..], key);
      }
    } else {
      LastPart(dec, out, b, key);
    }
  }

  lemma ShortPart(dec: Decimals, out: map<string, string>, part: string, key: string)
    requires key !in out && |part| < |key|
    ensures AddPart(dec, out, part).Some? ==> key !in AddPart(dec, out, part).value
  {
    if '=' in part {
      PartKey(dec, out, part, key);
    }
  }

  lemma LastPart(dec: Decimals, out: map<string, string>, b: string, key: string)
    requires key !in out && |key| > |b| && '=' !in key
    ensures var r := AddPart(dec, out, b + "| " + key + "=1"); r.Some? ==> key !in r.value
  {
    hide AddPart;
    var part := b + "| " + key + "=1";
    if '=' in b {
      IndexInPrefix(b, "| " + key + "=1", '=');
      assert part == b + ("| " + key + "=1");
    } else {
      var before := b + "| " + key;
      IndexOfPrefix(before, "1", '=');
      assert part == before + ['='] + "1" && part[..|before|] == before;
      assert before[|b|] == '|';
    }
    PartKey(dec, out, part, key);
  }

  function LongKey(n: nat): (k: string)
    ensures |k| == n && forall c :: c in k ==> c == 'a'
  {
    seq(n, _ => 'a')
  }

  lemma {:induction false} RStripAfter(a: string, b: string)
    requires b != "" && exists i :: 0 <= i < |b| && !IsSpace(b[i])
    ensures RStrip(a + b) == a + RStrip(b)
    decreases |b|
  {
    hide IsSpace;
    var s, n := a + b, |b| - 1;
    assert s[|s| - 1] == b[n];
    if IsSpace(b[n]) {
      assert s[..|s| - 1] == a + b[..n];
      var i :| 0 <= i < |b| && !IsSpace(b[i]);
      assert b[..n][i] == b[i];
      RStripAfter(a, b[..n]);
    }
  }

  /** Behind an empty prefix every entry is lost: the whole block comes back as `_human`. */
  lemma EmptyPrefixLosesAll(dec: Decimals, es: seq<Entry>)
    requires GoodEntries(es) && es != []
    ensures Parsed(dec, Render("", EscapedPairs(es))) == Some(map[HUMAN := RStrip("| " + Body(EscapedPairs(es)))])
  {
    hide EscapedPairs, Body, FindFrom, AddParts, SplitOn, IsSpace;
    var body := Body(EscapedPairs(es));
    SplitBody(dec, es);
    var tail := "| " + body;
    assert tail[0] == '|' && !IsSpace('|') by { BarIsNoSpace(); }
    RStripAfter(SCHEMA_PREFIX, tail);
    var rest := RStrip(tail);
    StripKeeps(tail, '|');
    assert SCHEMA_PREFIX + "| " + body == SCHEMA_PREFIX + tail;
    SchemaSplit(rest);
    forall j: nat ensures !At(rest, DELIMITER, j) {
      NoBarNoDelimiter(rest, body, j);
    }
  }

  lemma NoBarNoDelimiter(text: string, body: string, j: nat)
    requires text <= "| " + body && '|' !in body
    ensures !At(text, DELIMITER, j)
  {
    if j + 3 <= |text| {
      var tail := "| " + body;
      assert text[j..j + 3][1] == tail[j + 1];
      assert j > 0 ==> tail[j + 1] == body[j - 1];
      assert DELIMITER[1] == '|' && tail[1] == ' ';
    }
  }

  lemma BarIsNoSpace()
    ensures !IsSpace('|')
  {
  }

  /** Behind any other prefix some entry is lost. */
  lemma DirtyPrefixLoses(dec: Decimals, prefix: string)
    requires !CleanPrefix(prefix)
    ensures exists es :: GoodEntries(es) && Parsed(dec, Render(prefix, EscapedPairs(es))) != Some(Expected(prefix, es))
  {
    if prefix == "" {
      var es: seq<Entry> := [];
      assert GoodEntries(es);
      assert Render("", EscapedPairs(es)) == RStrip(SCHEMA_PREFIX);
      SchemaStripped(dec);
    } else {
      DirtyCutLoses(dec, prefix);
    }
  }

  lemma SchemaStripped(dec: Decimals)
    ensures Parsed(dec, RStrip(SCHEMA_PREFIX)) != Some(map[])
  {
    assert SCHEMA_PREFIX[..15] == "msl.memslicer/1";
    assert RStrip(SCHEMA_PREFIX[..15]) == SCHEMA_PREFIX[..15];
    var m := map[HUMAN := RStrip(SCHEMA_PREFIX)];
    assert Parsed(dec, RStrip(SCHEMA_PREFIX)) == Some(m) && HUMAN in m;
  }

  lemma DirtyCutLoses(dec: Decimals, prefix: string)
    requires prefix != "" && !CleanPrefix(prefix)
    ensures var es: seq<Entry> := [(LongKey(|prefix| + 1), "1")];
            GoodEntries(es) && Parsed(dec, Render(prefix, EscapedPairs(es))) != Some(Expected(prefix, es))
  {
    hide AddParts, SplitOn, Parsed, CutAt;
    var key, k := LongKey(|prefix| + 1), CutAt(prefix);
    var es: seq<Entry> := [(key, "1")];
    assert es[1..] == [];
    OneEscaped();
    assert EscapedPairs(es) == [(key, "1")];
    var body := key + "=" + "1";
    ParsedCut(dec, prefix, body);
    CutTail(prefix);
    var b := (prefix + " ")[k + 3..];
    var rest := prefix + DELIMITER + body;
    assert rest[k + |DELIMITER|..] == b + "| " + key + "=1";
    assert key[0] == 'a' && HUMAN[0] == '_';
    LongKeyLost(dec, if k > 0 then map[HUMAN := prefix[..k]] else map[], b, key);
    assert key in Expected(prefix, es);
  }

  lemma OneEscaped()
    ensures Escaped("1") == "1"
  {
  }

  lemma CutTail(prefix: string)
    requires CutAt(prefix) != |prefix|
    ensures CutAt(prefix) + 2 <= |prefix|
  {
    var s, k := prefix + DELIMITER, CutAt(prefix);
    assert s[k..k + 3][1] == s[k + 1];
    assert s[|prefix|] == ' ';
  }

  /** Packing then parsing is lossless for all entries exactly when the prefix is clean. */
  lemma LosslessIffCleanPrefix(dec: Decimals, prefix: string)
    ensures (forall es :: GoodEntries(es) ==>
               Parsed(dec, Render(prefix, EscapedPairs(es))) == Some(Expected(prefix, es)))
            <==> CleanPrefix(prefix)
  {
    hide CleanPrefix, Expected, Parsed, Render, GoodEntries;
    if CleanPrefix(prefix) {
      forall es | GoodEntries(es) ensures Parsed(dec, Render(prefix, EscapedPairs(es))) == Some(Expected(prefix, es)) {
        CleanRoundTrip(dec, prefix, es);
      }
    } else {
      DirtyPrefixLoses(dec, prefix);
    }
  }

  /** A non-empty prefix without a bar is clean. */
  lemma NoBarIsClean(prefix: string)
    requires prefix != "" && '|' !in prefix
    ensures CleanPrefix(prefix)
  {
    var s, k := prefix + DELIMITER, CutAt(prefix);
    assert s[k..k + 3][1] == s[k + 1];
  }

  // ------------------------------------------------- from fields and back

  /** The entry `_maybe_add` makes of a field. */
  function EntryOf(key: string, v: FieldValue): (e: seq<Entry>) {
    if ValidKey(key) && Rendered(v) != "" then [(key, Rendered(v))] else []
  }

  function EntriesFor(f: Fields, order: seq<string>): (es: seq<Entry>) {
    if order == [] then [] else EntryOf(order[0], Lookup(f, order[0])) + EntriesFor(f, order[1..])
  }

  /** The key is not empty, of small letters, digits and underscores alone, and has a value to show. */
  predicate Collected(f: Fields, key: string) {
    && key in Keys(f) && Rendered(Lookup(f, key)) != ""
    && key != "" && forall c :: c in key ==> 'a' <= c <= 'z' || '0' <= c <= '9' || c == '_'
  }

  lemma CollectedIff(f: Fields, key: string)
    ensures Collected(f, key) <==> key in Keys(f) && EntryOf(key, Lookup(f, key)) != []
  {
    hide Rendered, Lookup, Keys;
    if forall c :: c in key ==> 'a' <= c <= 'z' || '0' <= c <= '9' || c == '_' {
      forall i | 0 <= i < |key| ensures KeyChar(key[i]) {
        assert key[i] in key;
      }
    }
  }

  lemma {:induction false} EntriesMade(f: Fields, order: seq<string>)
    ensures EscapedPairs(EntriesFor(f, order)) == PairsFor(f, order)
    ensures GoodEntries(EntriesFor(f, order))
    ensures forall k :: k in ToMap(EntriesFor(f, order)) <==> k in order && EntryOf(k, Lookup(f, k)) != []
    ensures forall k :: k in ToMap(EntriesFor(f, order)) ==> ToMap(EntriesFor(f, order))[k] == Rendered(Lookup(f, k))
  {
    hide ValidKey, Rendered, Lookup, Escaped;
    if order != [] {
      EntriesMade(f, order[1..]);
      var e, rest := EntryOf(order[0], Lookup(f, order[0])), EntriesFor(f, order[1..]);
      if e != [] {
        assert (e + rest)[1..] == rest;
      } else {
        assert e + rest == rest;
      }
    }
  }

  /** The packed entries are exactly the collected fields, with their rendered values. */
  lemma EntriesOfFields(f: Fields) returns (es: seq<Entry>)
    ensures EscapedPairs(es) == PairsOf(f) && GoodEntries(es)
    ensures forall k :: k in ToMap(es) <==> Collected(f, k)
    ensures forall k :: k in ToMap(es) ==> ToMap(es)[k] == Rendered(Lookup(f, k))
  {
    hide ToMap, ValidKey, Rendered, PairsFor, EntriesFor, GoodEntries, EscapedPairs, Lookup, Collected, EntryOf;
    es := EntriesFor(f, EmitOrder(f));
    EntriesMade(f, EmitOrder(f));
    forall k ensures k in EmitOrder(f) <==> k in Keys(f) {
      InEmitOrder(f, k);
    }
    forall k ensures Collected(f, k) <==> k in Keys(f) && EntryOf(k, Lookup(f, k)) != [] {
      CollectedIff(f, k);
    }
  }

  lemma InEmitOrder(f: Fields, k: string)
    ensures k in EmitOrder(f) <==> k in Keys(f)
  {
    hide Occurring, Unknown, Sorted, Keys;
    StringOrderTotal();
    SortedFacts(Keys(f), StringOrder());
    InOccurring(FIELD_ORDER, Keys(f), k);
    InUnknown(Sorted(Keys(f), StringOrder()), k);
  }

  lemma {:induction false} InOccurring(order: seq<string>, keys: seq<string>, k: string)
    ensures k in Occurring(order, keys) <==> k in order && k in keys
  {
    if order != [] {
      InOccurring(order[1..], keys, k);
    }
  }

  lemma {:induction false} InUnknown(keys: seq<string>, k: string)
    ensures k in Unknown(keys) <==> k in keys && k !in FIELD_ORDER
  {
    if keys != [] {
      InUnknown(keys[1..], k);
    }
  }

  /**
   * Packing under a clean prefix and parsing returns the valid-key, non-empty fields with their rendered
   * values, plus the prefix under `_human` unless a field of that name takes its place.
   */
  lemma FieldsRoundTrip(dec: Decimals, f: Fields, prefix: string)
    requires CleanPrefix(prefix)
    ensures var r := Parsed(dec, Render(prefix, PairsOf(f)));
            && r.Some?
            && (forall k :: k in r.value <==> k == HUMAN || Collected(f, k))
            && (forall k :: Collected(f, k) ==> r.value[k] == Rendered(Lookup(f, k)))
            && (r.value[HUMAN] == prefix <==> Collected(f, HUMAN) ==> Rendered(Lookup(f, HUMAN)) == prefix)
  {
    hide ToMap, Render, Parsed, Collected, Rendered, Lookup;
    var es := EntriesOfFields(f);
    CleanRoundTrip(dec, prefix, es);
  }

  // --------------------------------------------------- packed and truncated

  /** The entries of the pairs that survive truncation to `k` droppable ones, without an earlier mark. */
  function KeepEntries(es: seq<Entry>, k: nat): (r: seq<Entry>) {
    if es == [] then []
    else if IsProvenance(es[0].0) then (if es[0].0 != "truncated" then [es[0]] else []) + KeepEntries(es[1..], k)
    else if k > 0 then [es[0]] + KeepEntries(es[1..], k - 1)
    else KeepEntries(es[1..], 0)
  }

  lemma {:induction false} EntriesKept(es: seq<Entry>, k: nat)
    ensures EscapedPairs(KeepEntries(es, k)) == NotTruncated(KeepFirst(EscapedPairs(es), k))
    ensures GoodEntries(es) ==> GoodEntries(KeepEntries(es, k))
    decreases |es|
  {
    hide Escaped, ValidKey;
    if es != [] {
      var e, rest := es[0], es[1..];
      var p := (e.0, Escaped(e.1));
      var left := if IsProvenance(e.0) || k == 0 then k else k - 1;
      EntriesKept(rest, left);
      assert EscapedPairs(es)[1..] == EscapedPairs(rest);
      assert GoodEntries(es) ==> GoodEntries(rest);
      var kept, more := KeepFirst(EscapedPairs(rest), left), KeepEntries(rest, left);
      NotTruncatedCons(p, kept);
      assert ([e] + more)[1..] == more && [] + more == more && [] + NotTruncated(kept) == NotTruncated(kept);
      if IsProvenance(e.0) || k > 0 {
        assert KeepFirst(EscapedPairs(es), k) == [p] + kept;
      } else {
        assert KeepFirst(EscapedPairs(es), k) == kept;
      }
    }
  }

  lemma NotTruncatedCons(p: Pair, ps: seq<Pair>)
    ensures NotTruncated([p] + ps) == (if p.0 != "truncated" then [p] else []) + NotTruncated(ps)
  {
    assert ([p] + ps)[1..] == ps;
  }

  /** The entries a text under the soft budget carries: all of them, or what survives and the mark. */
  function EntriesLeft(prefix: string, es: seq<Entry>, soft: int): (r: seq<Entry>) {
    var ps := EscapedPairs(es);
    var k := LargestFit(prefix, ps, soft, Droppable(ps));
    if k == Droppable(ps) then es else KeepEntries(es, k) + [("truncated", "1")]
  }

  lemma {:induction false} EscapedAll(a: seq<Entry>, e: Entry)
    ensures EscapedPairs(a + [e]) == EscapedPairs(a) + [(e.0, Escaped(e.1))]
    decreases |a|
  {
    hide Escaped;
    if a == [] {
      assert [e][1..] == [] && a + [e] == [e];
    } else {
      assert (a + [e])[1..] == a[1..] + [e];
      EscapedAll(a[1..], e);
    }
  }

  lemma LeftSurvive(prefix: string, es: seq<Entry>, soft: int)
    requires GoodEntries(es)
    ensures EscapedPairs(EntriesLeft(prefix, es, soft)) == Survivors(prefix, EscapedPairs(es), soft)
    ensures GoodEntries(EntriesLeft(prefix, es, soft))
  {
    hide Escaped, LargestFit, Droppable, KeepFirst, KeepEntries, NotTruncated, EscapedPairs, ValidKey;
    var ps := EscapedPairs(es);
    var k := LargestFit(prefix, ps, soft, Droppable(ps));
    EntriesKept(es, k);
    EscapedAll(KeepEntries(es, k), ("truncated", "1"));
    TruncatedIsKey();
  }

  lemma TruncatedIsKey()
    ensures ValidKey("truncated")
  {
    var key := "truncated";
    assert KeyChar(key[0]) && KeyChar(key[1]) && KeyChar(key[2]) && KeyChar(key[3]) && KeyChar(key[4]);
    assert KeyChar(key[5]) && KeyChar(key[6]) && KeyChar(key[7]) && KeyChar(key[8]);
  }

  /** A truncated text parses to exactly the surviving entries, the mark and the prefix. */
  lemma TruncatedRoundTrip(dec: Decimals, prefix: string, es: seq<Entry>, soft: int)
    requires CleanPrefix(prefix) && GoodEntries(es)
    ensures Parsed(dec, Render(prefix, Survivors(prefix, EscapedPairs(es), soft)))
            == Some(Expected(prefix, EntriesLeft(prefix, es, soft)))
  {
    hide Parsed, Render, Expected, CleanPrefix, GoodEntries, Survivors, EntriesLeft;
    LeftSurvive(prefix, es, soft);
    CleanRoundTrip(dec, prefix, EntriesLeft(prefix, es, soft));
  }

  /**
   * The packer and the parser composed, for every field mapping and soft budget, the hard cap not being hit: the
   * parser returns the collected fields, or the surviving ones and the mark, and the prefix.
   */
  lemma PackedRoundTrip(dec: Decimals, f: Fields, prefix: string, hardCap: int, soft: int) returns (es: seq<Entry>)
    requires CleanPrefix(prefix) && ByteLen(Render(prefix, Survivors(prefix, PairsOf(f), soft))) <= hardCap
    ensures EscapedPairs(es) == PairsOf(f) && GoodEntries(es)
    ensures forall k :: k in ToMap(es) <==> Collected(f, k)
    ensures forall k :: k in ToMap(es) ==> ToMap(es)[k] == Rendered(Lookup(f, k))
    ensures Parsed(dec, Packed(f, prefix, hardCap, soft)) == Some(Expected(prefix, EntriesLeft(prefix, es, soft)))
    ensures LargestFit(prefix, PairsOf(f), soft, Droppable(PairsOf(f))) == Droppable(PairsOf(f))
            ==> Parsed(dec, Packed(f, prefix, hardCap, soft)) == Some(Expected(prefix, es))
  {
    hide Parsed, Render, Expected, CleanPrefix, GoodEntries, Survivors, ToMap, Collected, PairsOf, LargestFit;
    hide Droppable, ByteLen;
    es := EntriesOfFields(f);
    TruncatedRoundTrip(dec, prefix, es, soft);
  }

  // ------------------------------------------------------ when it raises

  /** A part whose value the decoder cannot take. */
  ghost predicate RaisingPart(dec: Decimals, part: string) {
    && '=' in part
    && ValidKey(RStrip(LStrip(part[..IndexOf(part, '=')])))
    && HasNegativeEscape(dec, part[IndexOf(part, '=') + 1..])
  }

  ghost predicate HasNegativeEscape(dec: Decimals, v: string) {
    exists j: nat :: NegativeEscapeAt(dec, v, j)
  }

  lemma AddPartRaises(dec: Decimals, out: map<string, string>, part: string)
    ensures AddPart(dec, out, part).None? <==> RaisingPart(dec, part)
  {
    hide RStrip, LStrip, ValidKey, NegativeEscapeAt;
    if '=' in part {
      var v := part[IndexOf(part, '=') + 1..];
      UnescapeRaisesIff(dec, v, 0);
    }
  }

  /** The block raises exactly when one of its parts has a valid key and a negative escape. */
  lemma {:induction false} AddPartsRaises(dec: Decimals, out: map<string, string>, parts: seq<string>)
    ensures AddParts(dec, out, parts).None? <==> exists i :: 0 <= i < |parts| && RaisingPart(dec, parts[i])
    decreases |parts|
  {
    hide RaisingPart, AddPart;
    if parts != [] {
      AddPartRaises(dec, out, parts[0]);
      if AddPart(dec, out, parts[0]).Some? {
        AddPartsRaises(dec, AddPart(dec, out, parts[0]).value, parts[1..]);
        forall i | 0 < i < |parts| && RaisingPart(dec, parts[i])
          ensures exists j :: 0 <= j < |parts[1..]| && RaisingPart(dec, parts[1..][j])
        {
          assert parts[1..][i - 1] == parts[i];
        }
      }
    }
  }

  /** The k=v block of a text, "" when there is none. */
  function BlockOf(value: string): (b: string) {
    if !(SCHEMA_PREFIX <= value) then ""
    else
      var rest := value[|SCHEMA_PREFIX|..];
      var d := FindFrom(rest, DELIMITER, 0);
      if d.Some? then rest[d.value + |DELIMITER|..] else ""
  }

  /** The parser raises exactly on texts with such a part; the documentation says it never does. */
  lemma ParserRaisesIff(dec: Decimals, value: string)
    ensures Parsed(dec, value).None? <==>
            BlockOf(value) != ""
            && exists i :: 0 <= i < |SplitOn(BlockOf(value), ';')| && RaisingPart(dec, SplitOn(BlockOf(value), ';')[i])
  {
    hide RaisingPart, AddParts, SplitOn, FindFrom;
    if SCHEMA_PREFIX <= value {
      var rest := value[|SCHEMA_PREFIX|..];
      var d := FindFrom(rest, DELIMITER, 0);
      var human := if d.Some? then rest[..d.value] else rest;
      AddPartsRaises(dec, if human != "" then map[HUMAN := human] else map[], SplitOn(BlockOf(value), ';'));
    }
  }

  /**
   * Such texts, one for every non-zero digit: `%-a` and a percent sign, a minus sign and a fullwidth seven among them.
   */
  lemma ParserCanRaise(dec: Decimals, d: char)
    requires HexDigit(dec, d) > 0
    ensures Parsed(dec, SCHEMA_PREFIX + "x" + DELIMITER + "k=%-" + [d]).None?
  {
    hide AddParts, Parsed, CleanPrefix, HexDigit;
    var body := "k=%-" + [d];
    ParsedCut(dec, "x", body);
    assert SCHEMA_PREFIX + "x" + DELIMITER + "k=%-" + [d] == SCHEMA_PREFIX + "x" + DELIMITER + body;
    var rest := "x" + DELIMITER + body;
    assert CutAt("x") == 1 by { NoBarIsClean("x"); CleanIs("x"); }
    assert rest[1 + |DELIMITER|..] == body;
    ParseOfRaising(dec, d);
    AddPartsRaises(dec, map[HUMAN := "x"[..1]], [body]);
  }

  lemma CleanIs(prefix: string)
    requires CleanPrefix(prefix)
    ensures CutAt(prefix) == |prefix|
  {
  }

  lemma ParseOfRaising(dec: Decimals, d: char)
    requires HexDigit(dec, d) > 0
    ensures var body := "k=%-" + [d]; SplitOn(body, ';') == [body] && RaisingPart(dec, [body][0])
  {
    var v, tail := "k=%-" + [d], "%-" + [d];
    IndexOfPrefix("k", tail, '=');
    assert v == "k" + ['='] + tail && v[..1] == "k" && v[2..] == tail;
    KeyHasNoSpace("k");
    assert NegativeEscapeAt(dec, tail, 0);
  }

  /** The parser raises on decimal digits of any script, whatever else the interpreter's table holds. */
  lemma FullwidthSevenRaises(dec: Decimals)
    requires dec('\U{FF17}') == 7
    ensures Parsed(dec, SCHEMA_PREFIX + "x" + DELIMITER + "k=%-" + "\U{FF17}").None?
  {
    ParserCanRaise(dec, '\U{FF17}');
  }
}

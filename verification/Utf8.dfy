/** UTF-8 (RFC 3629, section 3): encoding, strict decoding, and cutting at a byte bound. */
module Utf8 {
  import opened ByteStrings

  function CharLen(c: char): (n: nat)
    ensures 1 <= n <= 4
  {
    if c as int < 0x80 then 1 else if c as int < 0x800 then 2 else if c as int < 0x1_0000 then 3 else 4
  }

  function EncodeChar(c: char): (b: Bytes)
    ensures |b| == CharLen(c)
  {
    var v := c as int;
    if v < 0x80 then [v]
    else if v < 0x800 then [0xC0 + v / 0x40, 0x80 + v % 0x40]
    else if v < 0x1_0000 then [0xE0 + v / 0x1000, 0x80 + v / 0x40 % 0x40, 0x80 + v % 0x40]
    else [0xF0 + v / 0x4_0000, 0x80 + v / 0x1000 % 0x40, 0x80 + v / 0x40 % 0x40, 0x80 + v % 0x40]
  }

  function Encode(s: string): (b: Bytes)
    ensures |b| >= |s|
  {
    if s == "" then [] else EncodeChar(s[0]) + Encode(s[1..])
  }

  /** Sequence length announced by a lead byte; 0 when the byte cannot lead. */
  function LeadLen(b: Byte): (n: nat) {
    if b < 0x80 then 1
    else if 0xC2 <= b < 0xE0 then 2
    else if 0xE0 <= b < 0xF0 then 3
    else if 0xF0 <= b < 0xF5 then 4
    else 0
  }

  predicate IsTail(b: Byte) {
    0x80 <= b < 0xC0
  }

  function Value(raw: Bytes, n: nat): (v: int)
    requires 1 <= n <= 4 && n <= |raw|
  {
    var b0: int := raw[0];
    if n == 1 then b0
    else
      var b1: int := raw[1];
      if n == 2 then (b0 - 0xC0) * 0x40 + (b1 - 0x80)
      else
        var b2: int := raw[2];
        if n == 3 then (b0 - 0xE0) * 0x1000 + (b1 - 0x80) * 0x40 + (b2 - 0x80)
        else
          var b3: int := raw[3];
          (b0 - 0xF0) * 0x4_0000 + (b1 - 0x80) * 0x1000 + (b2 - 0x80) * 0x40 + (b3 - 0x80)
  }

  /** Overlong forms, surrogates and values above U+10FFFF are errors. */
  predicate Scalar(v: int, n: nat) {
    && (n == 2 ==> v >= 0x80) && (n == 3 ==> v >= 0x800) && (n == 4 ==> v >= 0x1_0000)
    && (0 <= v < 0xD800 || 0xE000 <= v < 0x11_0000)
  }

  /** The first character; None for malformed or incomplete bytes. */
  function DecodeOne(raw: Bytes): (r: Option<(char, nat)>)
    ensures r.Some? ==> 1 <= r.value.1 <= |raw|
  {
    if raw == [] then None
    else
      var n := LeadLen(raw[0]);
      if n == 0 || n > |raw| then None
      else if exists i :: 1 <= i < n && !IsTail(raw[i]) then None
      else
        var v := Value(raw, n);
        if Scalar(v, n) then Some((v as char, n)) else None
  }

  /** `bytes.decode("utf-8")`; None where it raises. */
  function Decode(raw: Bytes): (r: Option<string>) {
    if raw == [] then Some("")
    else
      match DecodeOne(raw)
      case None => None
      case Some((c, n)) =>
        var rest := Decode(raw[n..]);
        if rest.None? then None else Some([c] + rest.value)
  }

  lemma LeadOf(c: char)
    ensures LeadLen(EncodeChar(c)[0]) == CharLen(c)
    ensures forall i :: 1 <= i < CharLen(c) ==> IsTail(EncodeChar(c)[i])
  {
  }

  lemma ValueOf(c: char, rest: Bytes)
    ensures Value(EncodeChar(c) + rest, CharLen(c)) == c as int && Scalar(c as int, CharLen(c))
  {
    var v := c as int;
    var raw := EncodeChar(c) + rest;
    FourParts(v);
  }

  /** A number below 2^21 from its six-bit groups. */
  lemma FourParts(v: nat)
    ensures v / 0x40 * 0x40 + v % 0x40 == v
    ensures v / 0x1000 * 0x1000 + v / 0x40 % 0x40 * 0x40 + v % 0x40 == v
    ensures v / 0x4_0000 * 0x4_0000 + v / 0x1000 % 0x40 * 0x1000 + v / 0x40 % 0x40 * 0x40 + v % 0x40 == v
  {
    var q1, r0 := v / 0x40, v % 0x40;
    var q2, r1 := q1 / 0x40, q1 % 0x40;
    var q3, r2 := q2 / 0x40, q2 % 0x40;
    ModUnique(v, 0x1000, q2, 0x40 * r1 + r0);
    ModUnique(v, 0x4_0000, q3, 0x1000 * r2 + 0x40 * r1 + r0);
  }

  lemma DecodeFirst(c: char, rest: Bytes)
    ensures DecodeOne(EncodeChar(c) + rest) == Some((c, CharLen(c)))
  {
    LeadOf(c);
    ValueOf(c, rest);
    hide EncodeChar, Value, Scalar, LeadLen, CharLen;
    var raw := EncodeChar(c) + rest;
    assert raw[..CharLen(c)] == EncodeChar(c);
    assert forall i :: 0 <= i < CharLen(c) ==> raw[i] == EncodeChar(c)[i];
  }

  /** What is decoded first is encoded by the bytes it was decoded from. */
  lemma FirstSound(raw: Bytes, c: char, n: nat)
    requires DecodeOne(raw) == Some((c, n))
    ensures n == CharLen(c) && raw[..n] == EncodeChar(c)
  {
    var b0: int := raw[0];
    assert forall i :: 1 <= i < n ==> IsTail(raw[i]);
    if n > 1 {
      var b1: int := raw[1];
      if n == 2 {
        ModUnique(c as int, 0x40, b0 - 0xC0, b1 - 0x80);
      } else {
        var b2: int := raw[2];
        if n == 3 {
          ThreeParts(c as int, b0 - 0xE0, b1 - 0x80, b2 - 0x80);
        } else {
          var b3: int := raw[3];
          ThreeParts(c as int, (b0 - 0xF0) * 0x40 + (b1 - 0x80), b2 - 0x80, b3 - 0x80);
          ModUnique(c as int / 0x1000, 0x40, b0 - 0xF0, b1 - 0x80);
        }
      }
    }
  }

  lemma ThreeParts(v: nat, a: nat, b: nat, c: nat)
    requires v == a * 0x1000 + b * 0x40 + c && b < 0x40 && c < 0x40
    ensures v / 0x1000 == a && v / 0x40 % 0x40 == b && v % 0x40 == c && v / 0x4_0000 == a / 0x40
  {
    ModUnique(v, 0x40, a * 0x40 + b, c);
    ModUnique(v / 0x40, 0x40, a, b);
    ModUnique(v, 0x1000, a, b * 0x40 + c);
    var q, r := a / 0x40, a % 0x40;
    ModUnique(v, 0x4_0000, q, r * 0x1000 + b * 0x40 + c);
  }

  lemma DecodeCut(c: char, m: nat)
    requires 0 < m < CharLen(c)
    ensures DecodeOne(EncodeChar(c)[..m]).None?
  {
    LeadOf(c);
  }

  lemma {:induction false} DecodeEncode(s: string)
    ensures Decode(Encode(s)) == Some(s)
  {
    hide DecodeOne, EncodeChar;
    if s != "" {
      DecodeFirst(s[0], Encode(s[1..]));
      assert Encode(s)[CharLen(s[0])..] == Encode(s[1..]);
      DecodeEncode(s[1..]);
      assert s == [s[0]] + s[1..];
    }
  }

  /** Bytes decode to a text exactly when they are its encoding: malformed bytes decode to nothing. */
  lemma {:induction false} DecodeIff(raw: Bytes, s: string)
    ensures Decode(raw) == Some(s) <==> raw == Encode(s)
    decreases |raw|
  {
    hide DecodeOne, EncodeChar;
    DecodeEncode(s);
    if raw != [] && Decode(raw) == Some(s) {
      var (c, n) := DecodeOne(raw).value;
      FirstSound(raw, c, n);
      DecodeIff(raw[n..], s[1..]);
      assert s == [c] + s[1..];
      assert raw == raw[..n] + raw[n..];
    }
  }

  /** The longest character prefix whose encoding has at most `m` bytes. */
  function Fitting(s: string, m: nat): (k: nat)
    ensures k <= |s| && |Encode(s[..k])| <= m
    ensures k < |s| ==> |Encode(s[..k + 1])| > m
    decreases |s|
  {
    if s == "" || CharLen(s[0]) > m then
      if s == "" then 0 else EncodeShort(s); 0
    else
      var k := Fitting(s[1..], m - CharLen(s[0]));
      EncodeTake(s, k + 1);
      if k + 1 < |s| then EncodeTake(s, k + 2); k + 1 else k + 1
  }

  lemma EncodeShort(s: string)
    requires s != ""
    ensures s[..0] == "" && |Encode(s[..1])| == CharLen(s[0])
  {
    assert s[..1][1..] == "";
  }

  lemma EncodeTake(s: string, k: nat)
    requires 1 <= k <= |s|
    ensures Encode(s[..k]) == EncodeChar(s[0]) + Encode(s[1..][..k - 1])
  {
    assert s[..k][1..] == s[1..][..k - 1];
  }

  lemma {:induction false} EncodePrefix(s: string, k: nat)
    requires k <= |s|
    ensures Encode(s) == Encode(s[..k]) + Encode(s[k..])
  {
    hide EncodeChar;
    if k == 0 {
      assert s[..0] == "" && s[0..] == s;
    } else {
      EncodeTake(s, k);
      EncodePrefix(s[1..], k - 1);
      assert s[1..][k - 1..] == s[k..];
    }
  }

  lemma DecodeStep(raw: Bytes, c: char, n: nat)
    requires DecodeOne(raw) == Some((c, n))
    ensures Decode(raw) == if Decode(raw[n..]).None? then None else Some([c] + Decode(raw[n..]).value)
  {
    hide DecodeOne;
  }

  lemma DecodeStuck(raw: Bytes)
    requires raw != [] && DecodeOne(raw).None?
    ensures Decode(raw).None?
  {
    hide DecodeOne;
  }

  lemma DecodeNothing()
    ensures Decode([]) == Some("")
  {
  }

  /** A byte prefix decodes exactly when it ends between two characters, and then to those before it. */
  lemma {:induction false} DecodePrefix(s: string, m: nat)
    requires m <= |Encode(s)|
    ensures var k := Fitting(s, m);
            Decode(Encode(s)[..m]) == if |Encode(s[..k])| == m then Some(s[..k]) else None
    decreases |s|
  {
    hide DecodeOne, EncodeChar, Decode;
    var k := Fitting(s, m);
    if m == 0 {
      assert Encode(s)[..0] == [];
      DecodeNothing();
      FittingZero(s);
    } else {
      var n := CharLen(s[0]);
      var b, rest := EncodeChar(s[0]), Encode(s[1..]);
      if m < n {
        assert Encode(s)[..m] == b[..m];
        DecodeCut(s[0], m);
        DecodeStuck(b[..m]);
      } else {
        assert Encode(s)[..m] == b + rest[..m - n];
        DecodeFirst(s[0], rest[..m - n]);
        DecodeStep(b + rest[..m - n], s[0], n);
        assert (b + rest[..m - n])[n..] == rest[..m - n];
        DecodePrefix(s[1..], m - n);
        EncodeTake(s, k);
        assert s[..k] == [s[0]] + s[1..][..k - 1];
      }
    }
  }

  /** Drop bytes from the end until the rest decodes; "" when nothing does. */
  method BackOff(raw0: Bytes, ghost s: string) returns (text: string)
    requires |raw0| <= |Encode(s)| && raw0 == Encode(s)[..|raw0|]
    ensures text == s[..Fitting(s, |raw0|)]
  {
    hide Decode, Encode;
    var raw := raw0;
    while |raw| > 0
      invariant |raw| <= |raw0| && raw == Encode(s)[..|raw|]
      invariant Fitting(s, |raw|) == Fitting(s, |raw0|)
      decreases |raw|
    {
      var t := Decode(raw);
      DecodePrefix(s, |raw|);
      if t.Some? {
        return t.value;
      }
      FittingBelow(s, |raw|);
      raw := raw[..|raw| - 1];
    }
    FittingZero(s);
    text := "";
  }

  lemma FittingZero(s: string)
    ensures Fitting(s, 0) == 0 && s[..0] == ""
  {
    var k := Fitting(s, 0);
    assert |Encode(s[..k])| >= k;
  }

  /** When the bound falls inside a character, one byte less cuts at the same place. */
  lemma {:induction false} FittingBelow(s: string, m: nat)
    requires m > 0 && |Encode(s[..Fitting(s, m)])| != m
    ensures Fitting(s, m - 1) == Fitting(s, m)
  {
    FittingUnique(s, m - 1, Fitting(s, m));
  }

  lemma {:induction false} FittingUnique(s: string, m: nat, k: nat)
    requires k <= |s| && |Encode(s[..k])| <= m && (k < |s| ==> |Encode(s[..k + 1])| > m)
    ensures Fitting(s, m) == k
  {
    var j := Fitting(s, m);
    if j < k {
      EncodeGrows(s, j + 1, k);
    } else if k < j {
      EncodeGrows(s, k + 1, j);
    }
  }

  lemma EncodeGrows(s: string, a: nat, b: nat)
    requires a <= b <= |s|
    ensures |Encode(s[..a])| <= |Encode(s[..b])|
  {
    EncodePrefix(s[..b], a);
    assert s[..b][..a] == s[..a];
  }
}

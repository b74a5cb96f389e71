/** The 2-bit page state map: packed by the writer, read back by the loader. */
module PageMap {
  import opened ByteStrings
  import opened Bits

  datatype PageState = CAPTURED | FAILED | UNMAPPED

  function Code(s: PageState): (c: nat)
    ensures c < 3
  {
    match s
    case CAPTURED => 0
    case FAILED => 1
    case UNMAPPED => 2
  }

  /** Weight of slot `j` of a byte: slot 0 sits in bits 7-6, slot 3 in bits 1-0. */
  function Weight(j: nat): (w: nat)
    requires j < 4
    ensures w == Pow2(6 - 2 * j)
  {
    WeightValues();
    [64, 16, 4, 1][j]
  }

  lemma WeightValues()
    ensures Pow2(0) == 1 && Pow2(2) == 4 && Pow2(4) == 16 && Pow2(6) == 64 && Pow2(8) == 256
  {
    assert Pow2(3) == 8;
    assert Pow2(5) == 32;
    assert Pow2(7) == 128;
  }

  /** The contribution of slot `j` of byte `k` when only the pages below `n` are set. */
  function SlotValue(states: seq<PageState>, k: nat, j: nat, n: nat): (v: nat)
    requires j < 4 && n <= |states|
    ensures v <= 3 * Weight(j)
  {
    if 4 * k + j < n then Code(states[4 * k + j]) * Weight(j) else 0
  }

  function MapByte(states: seq<PageState>, k: nat, n: nat): (b: Byte)
    requires n <= |states|
  {
    SlotValue(states, k, 0, n) + SlotValue(states, k, 1, n) + SlotValue(states, k, 2, n) + SlotValue(states, k, 3, n)
  }

  function EncodedMap(states: seq<PageState>): (r: Bytes)
    ensures |r| == (|states| + 3) / 4
  {
    seq((|states| + 3) / 4, k requires 0 <= k => MapByte(states, k, |states|))
  }

  /** `_page_state`: shift the byte holding page `i` down and keep two bits. */
  function PageStateAt(psm: Bytes, i: nat): (c: nat)
    requires i / 4 < |psm|
  {
    psm[i / 4] / Weight(i % 4) % 4
  }

  /** `_encode_page_state_map`: or every state's two bits into a zeroed byte array. */
  method EncodePageStateMap(states: seq<PageState>) returns (r: Bytes)
    ensures r == EncodedMap(states)
  {
    if states == [] {
      return [];
    }
    var numBytes := (|states| + 3) / 4;
    var result := new Byte[numBytes](_ => 0);
    for i := 0 to |states|
      invariant fresh(result) && result.Length == numBytes
      invariant forall k :: 0 <= k < numBytes ==> result[k] == MapByte(states, k, i)
    {
      OrIsNextByte(states, i);
      result[i / 4] := BitOr(result[i / 4], Code(states[i]) * Weight(i % 4));
    }
    r := result[..];
  }

  /** Or-ing page `i` into its byte sets exactly its slot: the slots from `i` on are still clear. */
  lemma OrIsNextByte(states: seq<PageState>, i: nat)
    requires i < |states|
    ensures BitOr(MapByte(states, i / 4, i), Code(states[i]) * Weight(i % 4)) == MapByte(states, i / 4, i + 1)
  {
    var k, j := i / 4, i % 4;
    var w := Weight(j);
    assert 4 * k + j == i;
    WeightValues();
    var high := MapByte(states, k, i);
    var q := high / (4 * w);
    assert high == 4 * w * q;
    assert Pow2(8 - 2 * j) == 4 * w;
    BitOrAdd(q, Code(states[i]) * w, 8 - 2 * j);
  }

  /** The reader undoes the packing for every page. */
  lemma MapRoundTrip(states: seq<PageState>, i: nat)
    requires i < |states|
    ensures PageStateAt(EncodedMap(states), i) == Code(states[i])
  {
    var k, j := i / 4, i % 4;
    assert 4 * k + j == i;
    SlotOfByte(SlotCode(states, 4 * k), SlotCode(states, 4 * k + 1), SlotCode(states, 4 * k + 2),
               SlotCode(states, 4 * k + 3));
    assert EncodedMap(states)[k] == MapByte(states, k, |states|);
  }

  /** Page 0 of a byte is in bits 7 and 6; 0 is captured, 1 failed, 2 unmapped; the bits behind the last page are 0. */
  lemma MapLayout(states: seq<PageState>, i: nat)
    requires i / 4 < |EncodedMap(states)|
    ensures var b: nat := EncodedMap(states)[i / 4];
            var code := if i >= |states| || states[i] == CAPTURED then 0 else if states[i] == FAILED then 1 else 2;
            && (i % 4 == 0 ==> b / 64 % 4 == code) && (i % 4 == 1 ==> b / 16 % 4 == code)
            && (i % 4 == 2 ==> b / 4 % 4 == code) && (i % 4 == 3 ==> b % 4 == code)
  {
    var k, j := i / 4, i % 4;
    assert 4 * k + j == i;
    SlotOfByte(SlotCode(states, 4 * k), SlotCode(states, 4 * k + 1), SlotCode(states, 4 * k + 2),
               SlotCode(states, 4 * k + 3));
    assert EncodedMap(states)[k] == MapByte(states, k, |states|);
  }

  function SlotCode(states: seq<PageState>, i: nat): (c: nat)
    ensures c < 4
  {
    if i < |states| then Code(states[i]) else 0
  }

  lemma SlotOfByte(c0: nat, c1: nat, c2: nat, c3: nat)
    requires c0 < 4 && c1 < 4 && c2 < 4 && c3 < 4
    ensures var b := 64 * c0 + 16 * c1 + 4 * c2 + c3;
            b / 64 % 4 == c0 && b / 16 % 4 == c1 && b / 4 % 4 == c2 && b / 1 % 4 == c3
  {
  }
}

/** How key lists travel from the server to the client: a sorted list is Rice-coded, any
    other is sent as it is. The coding is not faithful for every sorted list. */
module KeyTransport {
  import opened Options
  import opened Permutations
  import opened Powers
  import opened RiceCode
  import opened Rice
  import opened RiceSize

  datatype KeyList = Plain(keys: seq<Word>) | Coded(rice: Encoded)

  /** The server's choice. */
  function Packed(keys: seq<Word>): KeyList {
    if |keys| > 0 && Sorted(keys) then Coded(EncodeList(keys).value) else Plain(keys)
  }

  /** What the client makes of it; None is a decoding error. */
  function Unpacked(l: KeyList): Option<seq<Word>> {
    match l
    case Plain(keys) => Some(keys)
    case Coded(rice) => Decode(rice)
  }

  /** The condition under which a list arrives: it is not sorted, or it has at most one key,
      or its keys are neither too dense nor too far apart for the chosen parameter. */
  ghost predicate Delivers(keys: seq<Word>) {
    || !Sorted(keys)
    || |keys| <= 1
    || (&& |keys| <= MAX_LIST
        && (Range(keys) == 0 || 2 * Range(keys) > |keys|)
        && EvenEnough(keys))
  }

  /** No two neighbours are 33 * 2^k apart, where k is the chosen parameter. */
  ghost predicate EvenEnough(keys: seq<Word>)
    requires |keys| >= 1
  {
    var k := Parameter(Range(keys), |keys|);
    k >= 0 ==> forall i | 0 <= i < |keys| - 1 :: keys[i + 1] - keys[i] < 33 * Pow2(k)
  }

  /** A list arrives exactly under that condition. */
  lemma DeliversExactly(keys: seq<Word>)
    ensures Unpacked(Packed(keys)) == Some(keys) <==> Delivers(keys)
  {
    if Sorted(keys) && |keys| == 1 {
      RoundTrip(keys, Parameter(Range(keys), 1));
    } else if Sorted(keys) && |keys| > 1 {
      ParameterSign(Range(keys), |keys|);
      ListRoundTrip(keys);
    }
  }

  /** Whatever arrives is no longer than the list that was sent. */
  lemma UnpackedLength(keys: seq<Word>)
    ensures Unpacked(Packed(keys)).Some? ==> |Unpacked(Packed(keys)).value| <= |keys|
  {
    if |keys| > 0 && Sorted(keys) {
      DecodeLength(EncodeList(keys).value);
      EntriesBelow(|keys|);
    }
  }

  lemma EntriesBelow(len: nat)
    requires len >= 1
    ensures Entries(len) <= len - 1
  {
  }

  /** A sorted list whose range is at most half its length is refused by the decoder. */
  lemma DenseRefused(keys: seq<Word>)
    requires 2 <= |keys| <= MAX_LIST && Sorted(keys) && 0 < 2 * Range(keys) <= |keys|
    ensures Unpacked(Packed(keys)) == None
  {
    ParameterSign(Range(keys), |keys|);
  }

  /** For example two consecutive keys. */
  lemma NeighboursRefused()
    ensures Unpacked(Packed([7, 8])) == None && !Delivers([7, 8])
  {
    DenseRefused([7, 8]);
    DeliversExactly([7, 8]);
  }

  // ----- A list that arrives changed -----

  lemma {:induction false} EncodeAppend(a: seq<Word>, b: seq<Word>, k: nat)
    ensures EncodeBits(a + b, k) == EncodeBits(a, k) + EncodeBits(b, k)
  {
    if |a| == 0 {
      assert a + b == b;
    } else {
      assert (a + b)[1..] == a[1..] + b;
      EncodeAppend(a[1..], b, k);
    }
  }

  /** With parameter 0 the quotient of a number is cut off at 32, and what is left of it
      are zeros. */
  lemma CutOff(d: Word, m: nat, k: nat, tail: seq<bool>)
    requires k == 0 && m == 32 < d && d + 1 < WORD
    ensures ReadOne(EncodeBits([d], k) + tail, k) == Some((m, Repeat(false, d - m) + tail))
  {
    CodeShape(d, 0, k);
    assert EncodeBits([d], k) == CodeOf(d, 0, k) + [];
    assert EncodeBits([d], k) + tail
        == (Repeat(true, m) + [false] + []) + (Repeat(false, d - m) + tail);
    ReadOneOf(m, [], Repeat(false, d - m) + tail);
  }

  /** So 33 is read as 32. */
  lemma ThirtyThree(d: Word, k: nat, tail: seq<bool>)
    requires k == 0 && d == 33
    ensures ReadOne(EncodeBits([d], k) + tail, k) == Some((32, [false] + tail))
  {
    CutOff(d, 32, k, tail);
    assert Repeat(false, d - 32) == [false];
  }

  lemma TimesOne(n: nat, k: nat)
    requires k == 0
    ensures n * (k + 1) == n
  {
  }

  /** With parameter 0 the quotients are the numbers themselves. */
  lemma PlainLength(values: seq<Word>, k: nat)
    requires |values| >= 1 && Sorted(values) && k == 0 && Range(values) + 1 < WORD
    ensures |EncodeBits(Deltas(values), k)| == Range(values) + |values| - 1
  {
    RangeOf(values);
    assert Quotients(Deltas(values), k) == Deltas(values);
    BitsWritten(Deltas(values), k);
    TimesOne(|Deltas(values)|, k);
  }

  lemma SixZeros(bits: seq<bool>)
    requires |bits| == 98
    ensures AllBits(Pack(bits)) == bits + Repeat(false, 6)
  {
    PackedBits(bits);
  }

  /** The bits of a list with parameter 0 that ends in a step of 33. */
  lemma LastStepBits(values: seq<Word>, d: seq<Word>, k: nat)
    requires |values| == 34 && Sorted(values) && Range(values) == 65 && k == 0 && Deltas(values) == d + [33]
    ensures AllBits(Pack(EncodeBits(Deltas(values), k))) == EncodeBits(d, k) + (EncodeBits([33], k) + Repeat(false, 6))
  {
    PlainLength(values, k);
    SixZeros(EncodeBits(Deltas(values), k));
    EncodeAppend(d, [33], k);
    Regroup(EncodeBits(d, k), EncodeBits([33], k), Repeat(false, 6));
  }

  lemma Regroup(a: seq<bool>, b: seq<bool>, c: seq<bool>)
    ensures (a + b) + c == a + (b + c)
  {
  }

  /** Such a list of 34 keys with a range of 65 is decoded with its last key one too small. */
  lemma LastStepLost(values: seq<Word>, wrong: seq<Word>, d: seq<Word>, k: nat)
    requires |values| == |wrong| == 34 && Sorted(values) && Range(values) == 65 && k == 0 && wrong[0] == values[0]
    requires Deltas(values) == d + [33] && Deltas(wrong) == d + [32] && Encodable(d, k)
    ensures Decode(Encode(values, k)) == Some(wrong)
  {
    var tail := EncodeBits([33], k) + Repeat(false, 6);
    DataOf(values, k);
    LastStepBits(values, d, k);
    ReadAllBack(d, k, tail);
    ThirtyThree(33, k, Repeat(false, 6));
    ReadAllSnoc(EncodeBits(d, k) + tail, k, 32);
    SumsOfDeltas(wrong);
  }

  /** The keys 0, 1, ..., 32 and a last one. */
  function Stairs(last: Word): (keys: seq<Word>)
    ensures |keys| == 34
  {
    seq(34, i requires 0 <= i < 34 => if i == 33 then last else i)
  }

  lemma StairsLast(last: Word)
    requires last >= 34
    ensures Stairs(last)[33] == last && last !in Stairs(last - 1)
  {
  }

  lemma StairsSorted(last: Word)
    requires last >= 33
    ensures Sorted(Stairs(last)) && Range(Stairs(last)) == last
  {
  }

  lemma StairsDeltas(last: Word)
    requires last >= 33
    ensures Sorted(Stairs(last)) && Range(Stairs(last)) == last
    ensures Deltas(Stairs(last)) == seq(32, _ => 1) + [last - 32]
  {
    StairsSorted(last);
    forall i | 0 <= i < 33
      ensures Deltas(Stairs(last))[i] == if i == 32 then last - 32 else 1
    {
      StairsStep(last, i);
    }
  }

  lemma StairsStep(last: Word, i: nat)
    requires last >= 33 && i < 33
    ensures Deltas(Stairs(last))[i] == if i == 32 then last - 32 else 1
  {
    assert Stairs(last)[i + 1] - Stairs(last)[i] == if i == 32 then last - 32 else 1;
  }

  lemma StairsParameter(last: Word)
    requires 34 <= last < 68
    ensures Parameter(Range(Stairs(last)), 34) == 0
  {
    StairsDeltas(last);
    FirstParameter(last, 34);
  }

  lemma OnesEncodable(k: nat)
    requires k == 0
    ensures Encodable(seq(32, _ => 1), k)
  {
    assert Pow2(0) == 1;
  }

  /** The keys 0 to 32 and 65 arrive as 0 to 32 and 64, without any error. */
  lemma SilentLoss(last: Word)
    requires last == 65
    ensures Unpacked(Packed(Stairs(last))) == Some(Stairs(last - 1)) && !Delivers(Stairs(last))
  {
    StairsDeltas(last);
    StairsDeltas(last - 1);
    StairsParameter(last);
    OnesEncodable(0);
    LastStepLost(Stairs(last), Stairs(last - 1), seq(32, _ => 1), 0);
    assert Stairs(last)[33] != Stairs(last - 1)[33];
    DeliversExactly(Stairs(last));
  }
}

/** Rice-encoded key lists: the bit writer and reader over bytes, and the delta coding of
    a list of 32-bit values. */
module Rice {
  import opened Options
  import opened Permutations
  import opened Powers
  import opened Bits
  import opened RiceCode

  // ----- Bits in bytes -----

  /** All bits of a byte string, in stream order. */
  function AllBits(buf: seq<bv8>): (r: seq<bool>)
    ensures |r| == 8 * |buf|
  {
    seq(8 * |buf|, j requires 0 <= j < 8 * |buf| => BitAt(buf, j))
  }

  /** The bytes that hold a bit string, the last one filled up with zeros. */
  function Pack(bits: seq<bool>): (r: seq<bv8>)
    ensures |r| == (|bits| + 7) / 8
  {
    if |bits| == 0 then []
    else
      var n := |bits| - 1;
      var p := Pack(bits[..n]);
      var p1 := if n % 8 == 0 then p + [0] else p;
      if bits[n] then p1[|p1| - 1 := p1[|p1| - 1] | Mask(n % 8)] else p1
  }

  function PadLength(n: nat): nat {
    8 * ((n + 7) / 8) - n
  }

  lemma {:induction false} PackAt(bits: seq<bool>, j: nat)
    requires j < 8 * |Pack(bits)|
    ensures BitAt(Pack(bits), j) == (j < |bits| && bits[j])
  {
    if |bits| > 0 {
      var n := |bits| - 1;
      var p := Pack(bits[..n]);
      if j < 8 * |p| {
        PackAt(bits[..n], j);
      }
      PackLast(bits, p, j);
    }
  }

  /** Packing one bit more sets that bit and no other. */
  lemma PackLast(bits: seq<bool>, p: seq<bv8>, j: nat)
    requires |bits| > 0 && p == Pack(bits[..|bits| - 1]) && j < 8 * |Pack(bits)|
    ensures var n := |bits| - 1;
            BitAt(Pack(bits), j) == ((j == n && bits[n]) || (j < 8 * |p| && BitAt(p, j)))
  {
    var n := |bits| - 1;
    PackIs(bits, p);
    GrownBytes(p, n, j);
    SetBit(if n % 8 == 0 then p + [0] else p, n, j);
  }

  lemma PackIs(bits: seq<bool>, p: seq<bv8>)
    requires |bits| > 0 && p == Pack(bits[..|bits| - 1])
    ensures var n := |bits| - 1;
            var p1 := if n % 8 == 0 then p + [0] else p;
            && n / 8 < |p1|
            && Pack(bits) == if bits[n] then p1[n / 8 := p1[n / 8] | Mask(n % 8)] else p1
  {
    LastByte(|bits| - 1);
  }

  lemma LastByte(n: nat)
    ensures n % 8 == 0 ==> (n + 7) / 8 == n / 8
    ensures n % 8 != 0 ==> (n + 7) / 8 - 1 == n / 8
  {
  }

  /** The bytes with room for bit `n`. */
  lemma GrownBytes(p: seq<bv8>, n: nat, j: nat)
    requires |p| == (n + 7) / 8
    ensures var p1 := if n % 8 == 0 then p + [0] else p;
            && |p1| - 1 == n / 8
            && (j < 8 * |p1| ==> BitAt(p1, j) == (j < 8 * |p| && BitAt(p, j)))
  {
    LastByte(n);
    if n % 8 == 0 && 8 * |p| <= j < 8 * |p + [0]| {
      ZeroByte(p + [0], j);
    }
  }

  lemma PadFills(n: nat)
    ensures n + PadLength(n) == 8 * ((n + 7) / 8) && PadLength(n) < 8
  {
  }

  lemma Padded(all: seq<bool>, bits: seq<bool>, n: nat)
    requires |all| == |bits| + n && forall j | 0 <= j < |all| :: all[j] == (j < |bits| && bits[j])
    ensures all == bits + Repeat(false, n)
  {
  }

  /** A packed bit string followed by fewer than eight zeros. */
  lemma PackedBits(bits: seq<bool>)
    ensures AllBits(Pack(bits)) == bits + Repeat(false, PadLength(|bits|)) && PadLength(|bits|) < 8
  {
    var bytes := Pack(bits);
    PadFills(|bits|);
    forall j | 0 <= j < 8 * |bytes|
      ensures AllBits(bytes)[j] == (j < |bits| && bits[j])
    {
      PackAt(bits, j);
    }
    Padded(AllBits(bytes), bits, PadLength(|bits|));
  }

  // ----- Encoded lists -----

  type Int32 = k: int | -0x8000_0000 <= k < 0x8000_0000

  datatype Encoded = Encoded(firstValue: Word, riceParameter: Int32, numEntries: Int32, data: seq<bv8>)

  /** The longest list whose number of differences is still a positive 32-bit integer. */
  const MAX_LIST := 0x8000_0000

  /** int32(len) - 1, which wraps around for longer lists. */
  function Entries(len: nat): (n: Int32)
    requires len >= 1
    ensures len <= MAX_LIST ==> n == len - 1
  {
    if len <= MAX_LIST then len - 1
    else
      var low := (len - 1) % WORD;
      if low >= MAX_LIST then low - WORD else low
  }

  /** Sum and difference of 32-bit words. */
  function Plus(a: Word, b: Word): Word {
    (a + b) % WORD
  }

  function Minus(a: Word, b: Word): Word {
    (a - b) % WORD
  }

  function Deltas(values: seq<Word>): (r: seq<Word>)
    requires |values| >= 1
    ensures |r| == |values| - 1
  {
    seq(|values| - 1, i requires 0 <= i < |values| - 1 => Minus(values[i + 1], values[i]))
  }

  /** The parameter as the encoder shifts by it: an unsigned word. */
  function Shift(k: Int32): nat {
    if k >= 0 then k else k + WORD
  }

  /** EncodeRiceIntegersWithParam. */
  function Encode(values: seq<Word>, k: Int32): Encoded
    requires |values| >= 1
  {
    var n := Entries(|values|);
    if n == 0 then Encoded(values[0], 0, 0, [])
    else Encoded(values[0], k, n, Pack(EncodeBits(Deltas(values), Shift(k))))
  }

  /** What an encoding carries beside its bits. */
  lemma EncodeHeader(values: seq<Word>, k: Int32)
    requires 1 <= |values| <= MAX_LIST
    ensures var e := Encode(values, k);
            && e.firstValue == values[0] && e.numEntries == |values| - 1
            && if |values| == 1 then e.riceParameter == 0 && e.data == [] else e.riceParameter == k
  {
  }

  /** The running sums of a list of differences. */
  function Sums(first: Word, deltas: seq<Word>): (r: seq<Word>)
    ensures |r| == |deltas| + 1
  {
    if |deltas| == 0 then [first]
    else
      var rest := Sums(first, deltas[..|deltas| - 1]);
      rest + [Plus(rest[|rest| - 1], deltas[|deltas| - 1])]
  }

  /** How often the decoder's loop runs. */
  function Rounds(e: Encoded): nat {
    if e.numEntries < 0 then 0 else e.numEntries
  }

  /** DecodeRiceIntegers; None is an error. */
  function Decode(e: Encoded): Option<seq<Word>> {
    if e.riceParameter < 0 || e.riceParameter > 32 then None
    else
      match ReadAll(AllBits(e.data), e.riceParameter, Rounds(e))
      case None => None
      case Some((deltas, left)) => if |left| >= 8 then None else Some(Sums(e.firstValue, deltas))
  }

  lemma AddDelta(a: Word, b: Word)
    ensures Plus(a, Minus(b, a)) == b
  {
  }

  lemma {:induction false} SumsOfDeltas(values: seq<Word>)
    requires |values| >= 1
    ensures Sums(values[0], Deltas(values)) == values
  {
    if |values| > 1 {
      var n := |values| - 1;
      SumsOfDeltas(values[..n]);
      assert Deltas(values)[..n - 1] == Deltas(values[..n]);
      AddDelta(values[n - 1], values[n]);
      assert values == values[..n] + [values[n]];
    }
  }

  lemma {:induction false} SumsInjective(first: Word, a: seq<Word>, b: seq<Word>)
    requires |a| == |b| && Sums(first, a) == Sums(first, b)
    ensures a == b
  {
    if |a| > 0 {
      var n := |a| - 1;
      assert Sums(first, a[..n]) == Sums(first, a)[..|a|] && Sums(first, b[..n]) == Sums(first, b)[..|a|];
      SumsInjective(first, a[..n], b[..n]);
      SameDelta(Sums(first, a[..n])[n], a[n], b[n]);
      assert a == a[..n] + [a[n]] && b == b[..n] + [b[n]];
    }
  }

  lemma SameDelta(x: Word, a: Word, b: Word)
    requires Plus(x, a) == Plus(x, b)
    ensures a == b
  {
  }

  lemma {:induction false} ReadAllLength(bits: seq<bool>, k: nat, count: nat)
    ensures var r := ReadAll(bits, k, count); r.Some? ==> |r.value.0| == count
    decreases count
  {
    if count > 0 && ReadOne(bits, k).Some? {
      ReadAllLength(ReadOne(bits, k).value.1, k, count - 1);
    }
  }

  /** A decoded list has one value more than there are entries. */
  lemma DecodeLength(e: Encoded)
    ensures Decode(e).Some? ==> |Decode(e).value| == Rounds(e) + 1
  {
    if 0 <= e.riceParameter <= 32 {
      ReadAllLength(AllBits(e.data), e.riceParameter, Rounds(e));
    }
  }

  /** The round trip: a list is decoded to itself exactly when it has one element, or it is
      not longer than 2^31, the parameter is between 0 and 32 and every difference, taken
      modulo 2^32, has a quotient of at most 32. The list need not be sorted. */
  lemma RoundTrip(values: seq<Word>, k: Int32)
    requires |values| >= 1
    ensures Decode(Encode(values, k)) == Some(values)
       <==> |values| == 1 || (|values| <= MAX_LIST && 0 <= k <= 32 && Encodable(Deltas(values), k))
  {
    SumsOfDeltas(values);
    DecodeLength(Encode(values, k));
    if 1 < |values| <= MAX_LIST && 0 <= k <= 32 {
      RoundTripList(values, k);
    }
  }

  lemma RoundTripList(values: seq<Word>, k: nat)
    requires 1 < |values| <= MAX_LIST && k <= 32
    ensures Decode(Encode(values, k)) == Some(values) <==> Encodable(Deltas(values), k)
  {
    var deltas := Deltas(values);
    var bits := EncodeBits(deltas, k);
    var r := ReadAll(bits + Repeat(false, PadLength(|bits|)), k, |deltas|);
    SumsOfDeltas(values);
    PackedBits(bits);
    ReadAllExactly(deltas, k, PadLength(|bits|));
    ReadAllLength(bits + Repeat(false, PadLength(|bits|)), k, |deltas|);
    if Encodable(deltas, k) {
      ReadAllBack(deltas, k, Repeat(false, PadLength(|bits|)));
    } else if Decode(Encode(values, k)) == Some(values) {
      SumsInjective(values[0], r.value.0, deltas);
      assert false;
    }
  }

  /** What decoding leaves unread is less than a byte of zeros. */
  lemma LeftUnread(values: seq<Word>, k: nat)
    requires 1 < |values| <= MAX_LIST && k <= 32 && Encodable(Deltas(values), k)
    ensures exists pad | 0 <= pad < 8 ::
      ReadAll(AllBits(Encode(values, k).data), k, |values| - 1) == Some((Deltas(values), Repeat(false, pad)))
  {
    var bits := EncodeBits(Deltas(values), k);
    DataOf(values, k);
    PackedBits(bits);
    ReadAllBack(Deltas(values), k, Repeat(false, PadLength(|bits|)));
  }

  lemma DataOf(values: seq<Word>, k: nat)
    requires 1 < |values| <= MAX_LIST && k <= 32
    ensures Encode(values, k) == Encoded(values[0], k, |values| - 1, Pack(EncodeBits(Deltas(values), k)))
  {
  }

  // ----- Writer -----

  /** The writer's mask after `n` bits: 0 when the next bit starts a byte. */
  function MaskAfter(n: nat): bv8 {
    if n % 8 == 0 then 0 else Mask(n % 8)
  }

  lemma MaskStep(n: nat)
    ensures (if MaskAfter(n) == 0 then 1 else MaskAfter(n)) == Mask(n % 8)
    ensures MaskAfter(n) == 0 <==> n % 8 == 0
    ensures Mask(n % 8) << 1 == MaskAfter(n + 1)
  {
    NextMask(n % 8);
    MaskNonzero();
    assert (n + 1) % 8 == if n % 8 == 7 then 0 else n % 8 + 1;
  }

  /** One more bit: the buffer and the mask of WriteBit before and after. */
  lemma PackSnoc(bits: seq<bool>, b: bool)
    ensures var m := MaskAfter(|bits|);
            var p1 := if m == 0 then Pack(bits) + [0] else Pack(bits);
            var m1 := if m == 0 then 1 else m;
            && |p1| > 0
            && Pack(bits + [b]) == (if b then p1[|p1| - 1 := p1[|p1| - 1] | m1] else p1)
            && m1 << 1 == MaskAfter(|bits + [b]|)
  {
    MaskStep(|bits|);
    PackNext(bits, b);
  }

  lemma PackNext(bits: seq<bool>, b: bool)
    ensures var n := |bits|;
            var p1 := if n % 8 == 0 then Pack(bits) + [0] else Pack(bits);
            |p1| > 0 && Pack(bits + [b]) == if b then p1[|p1| - 1 := p1[|p1| - 1] | Mask(n % 8)] else p1
  {
    assert (bits + [b])[..|bits|] == bits;
  }

  class BitWriter {
    var buf: seq<bv8>
    var pos: int
    var mask: bv8
    ghost var written: seq<bool>

    ghost predicate Valid()
      reads this
    {
      buf == Pack(written) && pos == |buf| - 1 && mask == MaskAfter(|written|)
    }

    constructor ()
      ensures Valid() && written == []
    {
      buf, pos, mask, written := [], -1, 0, [];
    }

    /** Writes one bit and moves the mask on. */
    method WriteBit(b: bool)
      requires Valid()
      modifies this
      ensures Valid() && written == old(written) + [b]
    {
      PackSnoc(written, b);
      ghost var all := written + [b];
      if mask == 0 {
        buf, pos, mask := buf + [0], pos + 1, 1;
      }
      if b {
        buf := buf[pos := buf[pos] | mask];
      }
      mask := mask << 1;
      written := all;
    }

    /** Writes the low `n` bits of a word, least significant first. */
    method Write(v: Word, n: nat)
      requires Valid()
      modifies this
      ensures Valid() && written == old(written) + BitsOf(v, n)
    {
      var w := v;
      ghost var done: seq<bool> := [];
      for i := 0 to n
        invariant Valid() && 0 <= w < WORD && written == old(written) + done
        invariant BitsOf(v, n) == done + BitsOf(w, n - i)
      {
        assert done + BitsOf(w, n - i) == (done + [w % 2 == 1]) + BitsOf(w / 2, n - i - 1);
        WriteBit(w % 2 == 1);
        done := done + [w % 2 == 1];
        w := w / 2;
      }
    }

    method WriteParts(unary: Word, count: nat, r: Word, k: nat)
      requires Valid()
      modifies this
      ensures Valid() && written == old(written) + (BitsOf(unary, count) + BitsOf(r, k))
    {
      Write(unary, count);
      Write(r, k);
    }

    method WriteValue(v: Word, k: nat)
      requires Valid()
      modifies this
      ensures Valid() && written == old(written) + Code(v, k)
    {
      RemIsWord(v, k);
      WriteParts(UnaryWord(Quot(v, k)), OneMore(Quot(v, k)), Rem(v, k), k);
    }
  }

  lemma NextMask(j: nat)
    requires j < 8
    ensures Mask(j) << 1 == if j == 7 then 0 else Mask(j + 1)
  {
  }

  lemma RemIsWord(v: Word, k: nat)
    ensures Rem(v, k) < WORD
  {
  }

  lemma EncodeStep(done: seq<bool>, deltas: seq<Word>, i: nat, k: nat)
    requires i < |deltas|
    ensures done + EncodeBits(deltas[i..], k) == (done + Code(deltas[i], k)) + EncodeBits(deltas[i + 1..], k)
  {
    assert deltas[i..][1..] == deltas[i + 1..];
  }

  method EncodeWithParam(values: seq<Word>, k: Int32) returns (e: Encoded)
    requires |values| >= 1
    ensures e == Encode(values, k)
  {
    var n := Entries(|values|);
    if n == 0 {
      return Encoded(values[0], 0, 0, []);
    }
    var shift := Shift(k);
    var bw := new BitWriter();
    ghost var deltas := Deltas(values);
    assert bw.written + EncodeBits(deltas[0..], shift) == EncodeBits(deltas, shift);
    for i := 0 to |values| - 1
      invariant bw.Valid() && fresh(bw)
      invariant bw.written + EncodeBits(deltas[i..], shift) == EncodeBits(deltas, shift)
    {
      EncodeStep(bw.written, deltas, i, shift);
      bw.WriteValue(Minus(values[i + 1], values[i]), shift);
    }
    assert bw.written + [] == bw.written;
    e := Encoded(values[0], k, n, bw.buf);
  }

  // ----- Reader -----

  class BitReader {
    var buf: seq<bv8>
    var mask: bv8
    ghost var off: nat

    ghost predicate Valid()
      reads this
    {
      off < 8 && (|buf| == 0 ==> off == 0) && mask == Mask(off)
    }

    /** The bits that have not been read yet. */
    ghost function Rest(): seq<bool>
      requires Valid()
      reads this
    {
      AllBits(buf)[off..]
    }

    constructor (data: seq<bv8>)
      ensures Valid() && Rest() == AllBits(data)
    {
      buf, mask, off := data, 1, 0;
    }

    method ReadBit() returns (b: bool, ok: bool)
      requires Valid()
      modifies this
      ensures Valid() && ok == (|old(Rest())| > 0)
      ensures ok ==> old(Rest()) == [b] + Rest()
      ensures !ok ==> Rest() == []
    {
      if |buf| == 0 {
        return false, false;
      }
      b, ok := buf[0] & mask != 0, true;
      RestStep(buf, off);
      NextMask(off);
      MaskNonzero();
      mask := mask << 1;
      off := off + 1;
      if mask == 0 {
        buf, mask, off := buf[1..], 1, 0;
      }
    }

    /** Reads `n` bits as a number, least significant first; fails at the end of the data. */
    method ReadBits(n: nat) returns (v: nat, ok: bool)
      requires Valid()
      modifies this
      ensures Valid() && ok == (n <= |old(Rest())|)
      ensures ok ==> v == ValueOf(old(Rest())[..n]) && Rest() == old(Rest())[n..]
      ensures !ok ==> Rest() == []
    {
      ghost var all := Rest();
      v := 0;
      for i := 0 to n
        invariant Valid() && i <= |all| && Rest() == all[i..] && v == ValueOf(all[..i])
      {
        var b, more := ReadBit();
        if !more {
          return v, false;
        }
        NextOf(all, i, b, Rest());
        ValueNext(all, i);
        if b {
          v := v + Pow2(i);
        }
      }
      ok := true;
    }

    method ReadValue(k: nat) returns (v: Word, ok: bool)
      requires Valid()
      modifies this
      ensures Valid()
      ensures match ReadOne(old(Rest()), k)
              case None => !ok
              case Some((w, rest)) => ok && v == w && Rest() == rest
    {
      ghost var all := Rest();
      var q := 0;
      v := 0;
      while true
        invariant Valid() && q <= |all| && Rest() == all[q..] && LeadingOnes(all) == q + LeadingOnes(all[q..])
        decreases |all| - q
      {
        var bit, more := ReadBit();
        if !more {
          return 0, false;
        }
        assert all[q..] == [bit] + all[q + 1..];
        if !bit {
          break;
        }
        q := q + 1;
      }
      assert Rest() == all[q + 1..] && LeadingOnes(all) == q;
      var r;
      r, ok := ReadBits(k);
      if !ok {
        return;
      }
      v := Combine(q, r, k);
    }

    /** The number of bits left: eight a byte, less the mask's distance from bit 0. */
    method BitsRemaining() returns (n: int)
      requires Valid()
      ensures n == |Rest()|
    {
      n := 8 * |buf|;
      var m := mask | 1;
      ghost var left := off;
      OrOne(off);
      while m != 1
        invariant 0 <= left <= off && n == 8 * |buf| - (off - left)
        invariant m == if left == off then Mask(off) | 1 else Mask(left)
        decreases left
      {
        ShiftDown(left);
        OrOne(left);
        n := n - 1;
        m := m >> 1;
        left := left - 1;
      }
      MaskIsOne(left);
    }
  }

  lemma OrOne(j: nat)
    requires j < 8
    ensures Mask(j) | 1 == 1 <==> j == 0
    ensures Mask(j) == 1 <==> j == 0
    ensures j > 0 ==> (Mask(j) | 1) >> 1 == Mask(j - 1)
  {
  }

  lemma MaskIsOne(j: nat)
    requires j < 8
    ensures (Mask(j) == 1 || Mask(j) | 1 == 1) ==> j == 0
  {
  }

  lemma ShiftDown(j: nat)
    requires j < 8
    ensures j > 0 ==> Mask(j) >> 1 == Mask(j - 1)
  {
  }

  lemma MaskNonzero()
    ensures forall j | 0 <= j < 8 :: Mask(j) != 0
  {
  }

  /** The bit at the mask, and what is left behind it. */
  lemma RestStep(buf: seq<bv8>, off: nat)
    requires |buf| > 0 && off < 8
    ensures AllBits(buf)[off..] == [Bit(buf[0], off)] + if off == 7 then AllBits(buf[1..])[0..] else AllBits(buf)[off + 1..]
  {
    AllBitsTail(buf);
    assert AllBits(buf)[off] == BitAt(buf, off);
  }

  lemma AllBitsTail(buf: seq<bv8>)
    requires |buf| > 0
    ensures AllBits(buf)[8..] == AllBits(buf[1..])
  {
    forall j | 0 <= j < 8 * (|buf| - 1)
      ensures AllBits(buf)[8..][j] == AllBits(buf[1..])[j]
    {
      assert (j + 8) / 8 == j / 8 + 1 && (j + 8) % 8 == j % 8;
    }
  }

  lemma {:induction false} ValueSnoc(bits: seq<bool>, b: bool)
    ensures ValueOf(bits + [b]) == ValueOf(bits) + if b then Pow2(|bits|) else 0
  {
    if |bits| > 0 {
      assert (bits + [b])[1..] == bits[1..] + [b];
      ValueSnoc(bits[1..], b);
    }
  }

  lemma NextOf(all: seq<bool>, i: nat, b: bool, rest: seq<bool>)
    requires i <= |all| && all[i..] == [b] + rest
    ensures i < |all| && all[i] == b && rest == all[i + 1..]
  {
    assert |all[i..]| == 1 + |rest| && all[i..][0] == b && all[i..][1..] == rest;
  }

  lemma ValueNext(bits: seq<bool>, i: nat)
    requires i < |bits|
    ensures ValueOf(bits[..i + 1]) == ValueOf(bits[..i]) + if bits[i] then Pow2(i) else 0
  {
    ValueSnoc(bits[..i], bits[i]);
    assert bits[..i + 1] == bits[..i] + [bits[i]];
  }

  /** Reading one number more; once reading fails it stays failed. */
  lemma {:induction false} ReadAllSnoc(all: seq<bool>, k: nat, n: nat)
    ensures ReadAll(all, k, n).None? ==> ReadAll(all, k, n + 1).None?
    ensures ReadAll(all, k, n).Some? ==>
              var (ds, rest) := ReadAll(all, k, n).value;
              ReadAll(all, k, n + 1) ==
              match ReadOne(rest, k)
              case None => None
              case Some((d, left)) => Some((ds + [d], left))
    decreases n
  {
    if n == 0 {
      if ReadOne(all, k).Some? {
        var (d, left) := ReadOne(all, k).value;
        assert ReadAll(left, k, 0) == Some(([], left));
        assert ReadAll(all, k, 1) == Some(([d] + [], left));
        assert [d] + [] == [] + [d];
      }
    } else if ReadOne(all, k).Some? {
      var (d, left) := ReadOne(all, k).value;
      ReadAllSnoc(left, k, n - 1);
      if ReadAll(all, k, n + 1).Some? {
        var ds := ReadAll(left, k, n - 1).value.0;
        var last := ReadOne(ReadAll(left, k, n - 1).value.1, k).value.0;
        assert [d] + (ds + [last]) == ([d] + ds) + [last];
      }
    }
  }

  lemma {:induction false} ReadAllFails(all: seq<bool>, k: nat, n: nat, count: nat)
    requires n <= count && ReadAll(all, k, n).None?
    ensures ReadAll(all, k, count).None?
    decreases count
  {
    if n < count {
      ReadAllFails(all, k, n, count - 1);
      ReadAllSnoc(all, k, count - 1);
    }
  }

  lemma SumsSnoc(first: Word, deltas: seq<Word>, d: Word)
    ensures Sums(first, deltas + [d]) == Sums(first, deltas) + [Plus(Sums(first, deltas)[|deltas|], d)]
  {
    assert (deltas + [d])[..|deltas|] == deltas;
  }

  /** The loop of DecodeRiceIntegers: reads `count` differences and adds them up. */
  method ReadList(br: BitReader, first: Word, k: nat, count: nat) returns (list: seq<Word>, ok: bool)
    requires br.Valid()
    modifies br
    ensures br.Valid()
    ensures match ReadAll(old(br.Rest()), k, count)
            case None => !ok
            case Some((deltas, left)) => ok && list == Sums(first, deltas) && br.Rest() == left
  {
    ghost var all := br.Rest();
    ghost var done: seq<Word> := [];
    list := [first];
    ghost var rest := all;
    for i := 0 to count
      invariant br.Valid() && br.Rest() == rest
      invariant |done| == i && list == Sums(first, done)
      invariant ReadAll(all, k, i) == Some((done, rest))
    {
      var delta, more := br.ReadValue(k);
      ReadAllSnoc(all, k, i);
      if !more {
        ReadAllFails(all, k, i + 1, count);
        return list, false;
      }
      SumsSnoc(first, done, delta);
      done, rest := done + [delta], br.Rest();
      list := list + [Plus(list[i], delta)];
    }
    ok := true;
  }

  method DecodeRice(e: Encoded) returns (values: Option<seq<Word>>)
    ensures values == Decode(e)
  {
    if e.riceParameter < 0 || e.riceParameter > 32 {
      return None;
    }
    var br := new BitReader(e.data);
    var list, ok := ReadList(br, e.firstValue, e.riceParameter, Rounds(e));
    if !ok {
      return None;
    }
    var left := br.BitsRemaining();
    values := if left >= 8 then None else Some(list);
  }
}

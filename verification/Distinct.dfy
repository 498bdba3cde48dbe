/** The duplicate check of the set generator: one pass over the elements with a
    linear-probing table in which 0 means empty. */
module Distinct {
  import opened Permutations
  import opened Powers
  import opened WordBits
  import opened GgmTree

  /** The largest set: for a larger one the number of slots is no longer an int. */
  const MAX_SET := 0x1000_0000

  /** The number of slots for `n` elements. */
  function TableSize(n: nat): (m: nat)
    requires n >= 1
    ensures 4 * n <= m
  {
    Pow2(CeilLog2(4 * n))
  }

  lemma MaxSetFits(n: nat)
    requires n <= MAX_SET
    ensures 4 * n <= Pow2(32)
  {
    assert Pow2(8) == 256;
    Pow2Split(8, 8);
    Pow2Split(16, 16);
  }

  /** fasthash: the mask is the remainder, as the number of slots is a power of two. */
  method FastHash(elem: nat, range: nat, ghost n: nat) returns (h: nat)
    requires n >= 1 && range == TableSize(n)
    ensures h == elem % range
  {
    AndOnes(elem, CeilLog2(4 * n));
    h := And(elem, range - 1);
  }

  /** The table of a set of `n` elements fits the words of the `tmp` buffer. */
  lemma TableFits(n: nat)
    requires n >= 1
    ensures TableSize(n) <= 4 * Pow2(Height(n))
  {
    var h := Height(n);
    Pow2Split(2, h);
    assert Pow2(2) == 4;
    if CeilLog2(4 * n) > 2 + h {
      Pow2Monotone(2 + h, CeilLog2(4 * n) - 1);
    }
    Pow2Monotone(CeilLog2(4 * n), 2 + h);
  }

  /** The slot `d` places after the hash of `x`, wrapping around. */
  function Slot(m: nat, x: nat, d: nat): (p: nat)
    requires m > 0
    ensures p < m
  {
    (x % m + d) % m
  }

  lemma SlotStep(m: nat, x: nat, d: nat)
    requires m > 0
    ensures Slot(m, x, d + 1) == if Slot(m, x, d) + 1 >= m then 0 else Slot(m, x, d) + 1
  {
    var a := x % m + d;
    DivMod(a, m);
    if a % m + 1 >= m {
      assert a + 1 == m * (a / m + 1) + 0;
      QuotientNat(a, m);
      DivModUnique(a + 1, m, a / m + 1, 0);
    } else {
      assert a + 1 == m * (a / m) + (a % m + 1);
      QuotientNat(a, m);
      DivModUnique(a + 1, m, a / m, a % m + 1);
    }
  }

  /** Every slot is reached within `m` steps. */
  lemma SlotReached(m: nat, x: nat, p: nat) returns (d: nat)
    requires m > 0 && p < m
    ensures d < m && Slot(m, x, d) == p
  {
    var h := x % m;
    if p >= h {
      d := p - h;
      DivModUnique(p, m, 0, p);
    } else {
      d := m + p - h;
      DivModUnique(m + p, m, 1, p);
    }
  }

  function Occupied(t: seq<nat>): nat {
    if |t| == 0 then 0 else Occupied(t[..|t| - 1]) + if t[|t| - 1] != 0 then 1 else 0
  }

  lemma {:induction false} OccupiedUpdate(t: seq<nat>, p: nat, x: nat)
    requires p < |t| && t[p] == 0
    ensures Occupied(t[p := x]) <= Occupied(t) + 1
  {
    var n := |t| - 1;
    if p == n {
      assert t[p := x][..n] == t[..n];
    } else {
      assert t[p := x][..n] == t[..n][p := x];
      OccupiedUpdate(t[..n], p, x);
    }
  }

  lemma {:induction false} OccupiedFull(t: seq<nat>)
    requires forall p | 0 <= p < |t| :: t[p] != 0
    ensures Occupied(t) == |t|
  {
    if |t| > 0 {
      OccupiedFull(t[..|t| - 1]);
    }
  }

  /** The slots before the `d`-th probe of `x` are taken. */
  ghost predicate TakenBefore(t: seq<nat>, x: nat, d: nat) {
    |t| > 0 && forall k | 0 <= k < d :: t[Slot(|t|, x, k)] != 0
  }

  /** A probe for `x` finds it. */
  ghost predicate Found(t: seq<nat>, x: nat) {
    |t| > 0 && exists d: nat :: t[Slot(|t|, x, d)] == x && TakenBefore(t, x, d)
  }

  /** The table holds exactly the nonzero elements seen so far, each where a probe finds it. */
  ghost predicate Holds(t: seq<nat>, seen: seq<nat>) {
    && |t| > 0 && Occupied(t) <= |seen|
    && (forall p | 0 <= p < |t| && t[p] != 0 :: t[p] in seen)
    && (forall x | x in seen && x != 0 :: Found(t, x))
  }

  /** No nonzero value occurs twice. */
  ghost predicate DuplicateFree(s: seq<nat>) {
    forall i, j | 0 <= i < j < |s| && s[i] == s[j] :: s[i] == 0
  }

  /** A probe that has not met an empty slot in `m` steps does not exist. */
  lemma ProbeEnds(t: seq<nat>, x: nat)
    requires |t| > 0 && Occupied(t) < |t|
    ensures !TakenBefore(t, x, |t|)
  {
    if TakenBefore(t, x, |t|) {
      forall p | 0 <= p < |t|
        ensures t[p] != 0
      {
        var d := SlotReached(|t|, x, p);
      }
      OccupiedFull(t);
    }
  }

  /** A probe that meets an empty slot first proves the element new. */
  lemma NewElement(t: seq<nat>, seen: seq<nat>, e: nat, d: nat)
    requires Holds(t, seen) && TakenBefore(t, e, d) && t[Slot(|t|, e, d)] == 0
    requires forall k | 0 <= k < d :: t[Slot(|t|, e, k)] != e
    ensures e in seen ==> e == 0
  {
    assert e in seen && e != 0 ==> Found(t, e);
  }

  /** Filling an empty slot keeps every probe. */
  lemma FoundKept(t: seq<nat>, x: nat, p: nat, e: nat)
    requires Found(t, x) && p < |t| && t[p] == 0 && x != 0
    ensures Found(t[p := e], x) || e == 0
  {
    if e != 0 {
      var t' := t[p := e];
      var d: nat :| t[Slot(|t|, x, d)] == x && TakenBefore(t, x, d);
      assert t'[Slot(|t'|, x, d)] == x && TakenBefore(t', x, d);
    }
  }

  lemma HoldsInsert(t: seq<nat>, seen: seq<nat>, e: nat, d: nat)
    requires Holds(t, seen) && TakenBefore(t, e, d) && t[Slot(|t|, e, d)] == 0
    ensures Holds(t[Slot(|t|, e, d) := e], seen + [e])
  {
    var p := Slot(|t|, e, d);
    var t' := t[p := e];
    OccupiedUpdate(t, p, e);
    forall x | x in seen + [e] && x != 0
      ensures Found(t', x)
    {
      if x == e {
        assert t'[Slot(|t'|, x, d)] == x && TakenBefore(t', x, d);
      } else if e == 0 {
        assert t' == t;
      } else {
        FoundKept(t, x, p, e);
      }
    }
  }

  /** One probe in the first `size` words of the buffer: true and the element put in, or
      false when it is already there. */
  method Insert(tmp: array<nat>, size: nat, e: nat, h: nat, ghost seen: seq<nat>) returns (isNew: bool)
    requires 0 < size <= tmp.Length && h == e % size
    requires Holds(tmp[..size], seen) && |seen| < size
    modifies tmp
    ensures isNew ==> (e in seen ==> e == 0) && Holds(tmp[..size], seen + [e])
    ensures !isNew ==> e in seen && e != 0
  {
    ghost var t := tmp[..size];
    var ptr := h;
    ghost var d := 0;
    assert Slot(size, e, 0) == ptr by { DivModUnique(e % size, size, 0, e % size); }
    while true
      invariant d <= size && ptr == Slot(size, e, d) && tmp[..size] == t
      invariant TakenBefore(t, e, d)
      invariant forall k | 0 <= k < d :: t[Slot(size, e, k)] != e
      decreases size - d
    {
      var val := tmp[ptr];
      if val == 0 {
        NewElement(t, seen, e, d);
        HoldsInsert(t, seen, e, d);
        tmp[ptr] := e;
        assert tmp[..size] == t[ptr := e];
        return true;
      }
      if val == e {
        return false;
      }
      ProbeEnds(t, e);
      SlotStep(size, e, d);
      ptr := ptr + 1;
      if ptr >= size {
        ptr := 0;
      }
      d := d + 1;
      assert TakenBefore(t, e, d);
    }
  }

  /** Clears the slots. */
  method ClearTable(tmp: array<nat>, size: nat)
    requires size <= tmp.Length
    modifies tmp
    ensures forall p | 0 <= p < size :: tmp[p] == 0
  {
    for i := 0 to size
      invariant forall p | 0 <= p < i :: tmp[p] == 0
    {
      tmp[i] := 0;
    }
  }

  /** The next element: put in, or found to be a duplicate. */
  method InsertNext(tmp: array<nat>, size: nat, elems: seq<nat>, i: nat) returns (isNew: bool)
    requires i < |elems| && size == TableSize(|elems|) <= tmp.Length
    requires Holds(tmp[..size], elems[..i]) && DuplicateFree(elems[..i])
    modifies tmp
    ensures isNew ==> Holds(tmp[..size], elems[..i + 1]) && DuplicateFree(elems[..i + 1])
    ensures !isNew ==> !DuplicateFree(elems)
  {
    assert elems[..i + 1] == elems[..i] + [elems[i]];
    var h := FastHash(elems[i], size, |elems|);
    isNew := Insert(tmp, size, elems[i], h, elems[..i]);
    if isNew {
      SeenOnce(elems, i);
    } else {
      SeenTwice(elems, i);
    }
  }

  /** distinct, in the words of the generator's `tmp` buffer, whatever these held: terminates
      on every input and finds a duplicate exactly when a nonzero value occurs twice. */
  method AllDistinct(elems: seq<nat>, tmp: array<nat>) returns (r: bool)
    requires |elems| <= MAX_SET && (|elems| > 0 ==> tmp.Length >= 4 * Pow2(Height(|elems|)))
    modifies tmp
    ensures r <==> DuplicateFree(elems)
  {
    if |elems| == 0 {
      return true;
    }
    TableFits(|elems|);
    MaxSetFits(|elems|);
    var size := RoundToPowerOf2(4 * |elems|);
    ClearTable(tmp, size);
    EmptyHolds(tmp[..size]);
    for i := 0 to |elems|
      invariant Holds(tmp[..size], elems[..i]) && DuplicateFree(elems[..i])
    {
      var isNew := InsertNext(tmp, size, elems, i);
      if !isNew {
        return false;
      }
    }
    assert elems[..|elems|] == elems;
    return true;
  }

  lemma SeenTwice(s: seq<nat>, i: nat)
    requires i < |s| && s[i] in s[..i] && s[i] != 0
    ensures !DuplicateFree(s)
  {
    var k :| 0 <= k < i && s[..i][k] == s[i];
    assert s[k] == s[i];
  }

  lemma SeenOnce(s: seq<nat>, i: nat)
    requires i < |s| && DuplicateFree(s[..i]) && (s[i] in s[..i] ==> s[i] == 0)
    ensures DuplicateFree(s[..i + 1])
  {
    forall a, b | 0 <= a < b < i + 1 && s[a] == s[b]
      ensures s[a] == 0
    {
      assert s[..i][a] == s[a];
      if b < i {
        assert s[..i][b] == s[b];
      }
    }
  }

  lemma {:induction false} EmptyOccupied(t: seq<nat>)
    requires forall p | 0 <= p < |t| :: t[p] == 0
    ensures Occupied(t) == 0
  {
    if |t| > 0 {
      EmptyOccupied(t[..|t| - 1]);
    }
  }

  lemma EmptyHolds(t: seq<nat>)
    requires |t| > 0 && forall p | 0 <= p < |t| :: t[p] == 0
    ensures Holds(t, [])
  {
    EmptyOccupied(t);
  }
}

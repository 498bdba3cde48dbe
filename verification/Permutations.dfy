/** Permutations of [0, n) with their inverses, the in-place shuffle that draws
    them and the pass that inverts them. */
module Permutations {

  const WORD := 0x1_0000_0000

  type Word = w: int | 0 <= w < WORD

  /** Maps a 32-bit word into [0, n) by a multiplication and a shift. */
  function FastMod(x: Word, n: Word): (r: Word)
    requires n > 0
    ensures r < n && r * WORD <= x * n < (r + 1) * WORD
  {
    FastModBound(x, n);
    x * n / WORD
  }

  lemma FastModBound(x: Word, n: Word)
    requires n > 0
    ensures 0 <= x * n / WORD < n
  {
    MulBound(x, n);
    var y := x * n;
    assert 0 <= y < WORD * n;
  }

  lemma MulBound(x: int, n: int)
    requires 0 <= x < WORD && n > 0
    ensures 0 <= x * n < WORD * n
  {
    assert WORD * n - x * n == (WORD - x) * n;
  }

  /** Every value below the bound comes out for some word. */
  lemma FastModReaches(j: nat, n: Word) returns (x: Word)
    requires j < n
    ensures FastMod(x, n) == j
  {
    var y := (j * WORD + n - 1) / n;
    CeilingBound(j, n, y);
    x := y;
    assert FastMod(x, n) * WORD <= x * n < (FastMod(x, n) + 1) * WORD;
  }

  lemma CeilingBound(j: nat, n: Word, y: int)
    requires j < n && y == (j * WORD + n - 1) / n
    ensures 0 <= y < WORD && j * WORD <= y * n < (j + 1) * WORD
  {
    var m := j * WORD + n - 1;
    assert m == n * y + m % n;
    assert y * n == n * y;
    ProductBounds(y, n);
  }

  lemma ProductBounds(y: int, n: nat)
    ensures y < 0 ==> y * n <= 0 - n
    ensures y >= WORD ==> y * n >= WORD * n
  {
  }

  /** `p` and `q` are permutations of [0, n) and each undoes the other. */
  ghost predicate MutuallyInverse(p: seq<nat>, q: seq<nat>, n: nat) {
    && |p| == |q| == n
    && (forall i {:trigger p[i]} | 0 <= i < n :: p[i] < n && q[p[i]] == i)
    && (forall r {:trigger q[r]} | 0 <= r < n :: q[r] < n && p[q[r]] == r)
  }

  function Swap(p: seq<nat>, a: nat, b: nat): seq<nat>
    requires a < |p| && b < |p|
  {
    p[a := p[b]][b := p[a]]
  }

  /** The update that keeps an inverse in step with a swap of slots a and b. */
  function SwapInverse(p: seq<nat>, q: seq<nat>, a: nat, b: nat): seq<nat>
    requires a < |p| && b < |p| && p[a] < |q| && p[b] < |q|
  {
    q[p[a] := b][p[b] := a]
  }

  lemma SwapKeepsInverse(p: seq<nat>, q: seq<nat>, n: nat, a: nat, b: nat)
    requires MutuallyInverse(p, q, n) && a < n && b < n
    ensures MutuallyInverse(Swap(p, a, b), SwapInverse(p, q, a, b), n)
  {
  }

  /** An inverse is unique. */
  lemma InverseUnique(p: seq<nat>, q: seq<nat>, q': seq<nat>, n: nat)
    requires MutuallyInverse(p, q, n) && |q'| == n
    requires forall i | 0 <= i < n :: q'[p[i]] == i
    ensures q' == q
  {
    forall r | 0 <= r < n
      ensures q'[r] == q[r]
    {
      assert p[q[r]] == r;
    }
  }

  function Identity(n: nat): (s: seq<nat>)
    ensures |s| == n && forall i | 0 <= i < n :: s[i] == i
  {
    seq(n, i => i)
  }

  /** The Fisher-Yates pass from slot `i` down to slot 1; the word drawn at slot
      `i` is `words[i]`. */
  function Shuffle(p: seq<nat>, i: nat, words: seq<Word>): (r: seq<nat>)
    requires i < |p| <= |words| && |p| < WORD
    ensures |r| == |p|
    decreases i
  {
    if i == 0 then p else Shuffle(Swap(p, i, FastMod(words[i], i + 1)), i - 1, words)
  }

  /** Whatever words are drawn, the shuffle of a permutation is a permutation:
      this is its inverse. */
  ghost function ShuffleInverse(p: seq<nat>, q: seq<nat>, i: nat, words: seq<Word>): (r: seq<nat>)
    requires i < |p| <= |words| && |p| < WORD && MutuallyInverse(p, q, |p|)
    ensures MutuallyInverse(Shuffle(p, i, words), r, |p|)
    decreases i
  {
    if i == 0 then q
    else
      var j := FastMod(words[i], i + 1);
      SwapKeepsInverse(p, q, |p|, i, j);
      ShuffleInverse(Swap(p, i, j), SwapInverse(p, q, i, j), i - 1, words)
  }

  /** The pass down from slot `i` uses the words of slots 1 to `i` only. */
  lemma {:induction false} ShuffleWords(p: seq<nat>, i: nat, words: seq<Word>, words': seq<Word>)
    requires i < |p| <= |words| && |p| <= |words'| && |p| < WORD
    requires forall k | 0 < k <= i :: words[k] == words'[k]
    ensures Shuffle(p, i, words) == Shuffle(p, i, words')
    decreases i
  {
    if i > 0 {
      ShuffleWords(Swap(p, i, FastMod(words[i], i + 1)), i - 1, words, words');
    }
  }

  /** What slot `i` is to hold is in one of the slots up to `i`. */
  lemma SlotBelow(p: seq<nat>, q: seq<nat>, t: seq<nat>, u: seq<nat>, i: nat)
    requires MutuallyInverse(p, q, |p|) && MutuallyInverse(t, u, |p|) && i < |p|
    requires forall k | i < k < |p| :: p[k] == t[k]
    ensures q[t[i]] <= i && p[q[t[i]]] == t[i]
  {
    var j := q[t[i]];
    assert u[t[i]] == i && u[t[j]] == j;
  }

  lemma LastSlot(p: seq<nat>, q: seq<nat>, t: seq<nat>, u: seq<nat>)
    requires MutuallyInverse(p, q, |p|) && MutuallyInverse(t, u, |p|) && |p| > 0
    requires forall k | 0 < k < |p| :: p[k] == t[k]
    ensures p == t
  {
    SlotBelow(p, q, t, u, 0);
  }

  /** From any permutation the pass reaches every other that agrees with it behind slot `i`. */
  lemma {:induction false} ShuffleReaches(p: seq<nat>, q: seq<nat>, t: seq<nat>, u: seq<nat>, i: nat) returns (words: seq<Word>)
    requires MutuallyInverse(p, q, |p|) && MutuallyInverse(t, u, |p|) && i < |p| < WORD
    requires forall k | i < k < |p| :: p[k] == t[k]
    ensures |words| == |p| && Shuffle(p, i, words) == t
    decreases i
  {
    if i == 0 {
      LastSlot(p, q, t, u);
      words := seq(|p|, _ => 0);
    } else {
      SlotBelow(p, q, t, u, i);
      var j := q[t[i]];
      var x := FastModReaches(j, i + 1);
      SwapKeepsInverse(p, q, |p|, i, j);
      var rest := ShuffleReaches(Swap(p, i, j), SwapInverse(p, q, i, j), t, u, i - 1);
      words := rest[i := x];
      ShuffleWords(Swap(p, i, j), i - 1, rest, words);
    }
  }

  /** The permutation drawn for one chunk. */
  function Draw(n: nat, words: seq<Word>): (p: seq<nat>)
    requires 0 < n <= |words| && n < WORD
    ensures |p| == n
  {
    Shuffle(Identity(n), n - 1, words)
  }

  /** Every permutation is drawn by some words. */
  lemma DrawReaches(t: seq<nat>, u: seq<nat>) returns (words: seq<Word>)
    requires 0 < |t| < WORD && MutuallyInverse(t, u, |t|)
    ensures |words| == |t| && Draw(|t|, words) == t
  {
    words := ShuffleReaches(Identity(|t|), Identity(|t|), t, u, |t| - 1);
  }

  ghost function DrawInverse(n: nat, words: seq<Word>): (q: seq<nat>)
    requires 0 < n <= |words| && n < WORD
    ensures MutuallyInverse(Draw(n, words), q, n)
  {
    ShuffleInverse(Identity(n), Identity(n), n - 1, words)
  }

  /** Everything outside the window of `range` slots at `off` is as before. */
  twostate predicate OutsideKept(arr: array<nat>, off: nat, range: nat)
    reads arr
  {
    forall k | 0 <= k < arr.Length && !(off <= k < off + range) :: arr[k] == old(arr[k])
  }

  method FillIdentity(arr: array<nat>, off: nat, range: nat)
    requires off + range <= arr.Length
    modifies arr
    ensures arr[off..off + range] == Identity(range) && OutsideKept(arr, off, range)
  {
    for i := 0 to range
      invariant forall k | off <= k < off + i :: arr[k] == k - off
      invariant OutsideKept(arr, off, range)
    {
      arr[off + i] := i;
    }
  }

  method SwapInWindow(arr: array<nat>, off: nat, range: nat, i: nat, j: nat)
    requires off + range <= arr.Length && i < range && j < range
    modifies arr
    ensures arr[off..off + range] == Swap(old(arr[off..off + range]), i, j) && OutsideKept(arr, off, range)
  {
    arr[off + i], arr[off + j] := arr[off + j], arr[off + i];
  }

  /** Fills the window with the identity and shuffles it in place. */
  method Permute(arr: array<nat>, off: nat, range: nat, words: seq<Word>)
    requires 0 < range <= |words| && range < WORD && off + range <= arr.Length
    modifies arr
    ensures arr[off..off + range] == Draw(range, words) && OutsideKept(arr, off, range)
  {
    FillIdentity(arr, off, range);
    var i := range - 1;
    while i > 0
      invariant 0 <= i < range
      invariant Shuffle(arr[off..off + range], i, words) == Draw(range, words)
      invariant OutsideKept(arr, off, range)
    {
      var j := FastMod(words[i], i + 1);
      SwapInWindow(arr, off, range, i, j);
      i := i - 1;
    }
  }

  /** Writes the inverse of `perm[off..off + range]` to the same window of `inv`. */
  method InvertPermutation(perm: array<nat>, off: nat, range: nat, inv: array<nat>, ghost q: seq<nat>)
    requires off + range <= perm.Length && off + range <= inv.Length && perm != inv
    requires MutuallyInverse(perm[off..off + range], q, range)
    modifies inv
    ensures inv[off..off + range] == q && OutsideKept(inv, off, range)
  {
    ghost var p := perm[off..off + range];
    for i := 0 to range
      invariant perm[off..off + range] == p
      invariant forall k | 0 <= k < i :: inv[off + p[k]] == k
      invariant OutsideKept(inv, off, range)
    {
      assert perm[off + i] == p[i];
      inv[off + perm[off + i]] := i;
      forall k | 0 <= k < i
        ensures inv[off + p[k]] == k
      {
        assert q[p[k]] == k && q[p[i]] == i;
      }
    }
    forall i | 0 <= i < range
      ensures inv[off..off + range][p[i]] == i
    {
    }
    InverseUnique(p, q, inv[off..off + range], range);
  }
}

/** The offline phase of SinglePass: the server draws one permutation per chunk and
    accumulates all parities in a single pass over the table. */
module SinglePassHint {
  import opened Rows
  import opened Permutations
  import opened SinglePass
  import opened DynamicDb

  /** The set size of a hint request: 0 stands for the integer square root. */
  function EffectiveSetSize(requested: nat, numRows: nat): (r: nat)
    ensures requested != 0 ==> r == requested
    ensures requested == 0 ==> r * r <= numRows < (r + 1) * (r + 1)
  {
    if requested != 0 then requested else ISqrt(numRows)
  }

  /** The set size splits the table into chunks of `n` rows, with random words for each. */
  ghost predicate Splits(table: seq<Row>, setSize: nat, n: nat, words: seq<seq<Word>>) {
    setSize > 0 && |table| == setSize * n && |words| == setSize && Drawable(n, words)
  }

  ghost predicate Drawable(n: nat, words: seq<seq<Word>>) {
    0 < n < WORD && forall c | 0 <= c < |words| :: n <= |words[c]|
  }

  ghost function DrawnColumn(table: seq<Row>, n: nat, words: seq<seq<Word>>, h: nat, k: nat): (col: seq<Row>)
    requires Drawable(n, words) && h < n && k <= |words|
    ensures |col| == k
  {
    seq(k, c requires 0 <= c < k => ChunkRow(table, n, c, Draw(n, words[c])[h]))
  }

  /** The parities, permutations and inverses of the first `k` chunks. */
  ghost function DrawnParities(table: seq<Row>, n: nat, words: seq<seq<Word>>, k: nat): (r: seq<Row>)
    requires Drawable(n, words) && k <= |words|
    ensures |r| == n
  {
    seq(n, h requires 0 <= h < n => XorAll(DrawnColumn(table, n, words, h, k)))
  }

  ghost function DrawnPerms(n: nat, words: seq<seq<Word>>, k: nat): (r: seq<seq<nat>>)
    requires Drawable(n, words) && k <= |words|
    ensures |r| == k
  {
    seq(k, c requires 0 <= c < k => Draw(n, words[c]))
  }

  ghost function DrawnInvs(n: nat, words: seq<seq<Word>>, k: nat): (r: seq<seq<nat>>)
    requires Drawable(n, words) && k <= |words|
    ensures |r| == k
  {
    seq(k, c requires 0 <= c < k => DrawInverse(n, words[c]))
  }

  /** The client state that a hint request leads to. */
  ghost function HintState(table: seq<Row>, version: nat, setSize: nat, n: nat, words: seq<seq<Word>>): State
    requires Splits(table, setSize, n, words)
  {
    State(|table|, setSize, n, DrawnParities(table, n, words, setSize),
          DrawnPerms(n, words, setSize), DrawnInvs(n, words, setSize), version)
  }

  /** Whatever words are drawn, the hint establishes the invariants of the client. */
  lemma HintValid(table: seq<Row>, version: nat, setSize: nat, n: nat, words: seq<seq<Word>>)
    requires Splits(table, setSize, n, words)
    ensures Valid(HintState(table, version, setSize, n, words), table)
  {
    var s := HintState(table, version, setSize, n, words);
    forall h | 0 <= h < n
      ensures s.hints[h] == XorAll(Column(s, table, h))
    {
      assert Column(s, table, h) == DrawnColumn(table, n, words, h, setSize);
    }
  }

  ghost predicate InversePairs(perms: seq<seq<nat>>, invs: seq<seq<nat>>, n: nat) {
    |perms| == |invs| && forall c | 0 <= c < |perms| :: MutuallyInverse(perms[c], invs[c], n)
  }

  /** Every choice of permutations is drawn by some words. */
  lemma {:induction false} PermsReach(perms: seq<seq<nat>>, invs: seq<seq<nat>>, n: nat) returns (words: seq<seq<Word>>)
    requires 0 < n < WORD && InversePairs(perms, invs, n)
    ensures |words| == |perms| && Drawable(n, words) && DrawnPerms(n, words, |words|) == perms
    decreases |perms|
  {
    if |perms| == 0 {
      words := [];
    } else {
      var m := |perms| - 1;
      var rest := PermsReach(perms[..m], invs[..m], n);
      var last := DrawReaches(perms[m], invs[m]);
      words := rest + [last];
      assert DrawnPerms(n, words, |words|)[..m] == DrawnPerms(n, rest, m);
      assert DrawnPerms(n, words, |words|) == DrawnPerms(n, rest, m) + [Draw(n, last)];
      assert perms == perms[..m] + [perms[m]];
    }
  }

  /** The accumulation kernel: row `i` of the chunk goes to the parity of its slot. */
  method XorSinglePass(db: seq<Row>, c: nat, inv: array<nat>, off: nat, n: nat, parities: array<Row>, ghost p: seq<nat>)
    requires off + n <= inv.Length && parities.Length == n
    requires MutuallyInverse(p, inv[off..off + n], n) && off == c * n && off + n <= |db|
    modifies parities
    ensures forall h | 0 <= h < n :: parities[h] == Xor(old(parities[h]), ChunkRow(db, n, c, p[h]))
  {
    ghost var q := inv[off..off + n];
    for i := 0 to n
      invariant inv[off..off + n] == q
      invariant forall h | 0 <= h < n ::
        parities[h] == if p[h] < i then Xor(old(parities[h]), ChunkRow(db, n, c, p[h])) else old(parities[h])
    {
      var slot := inv[off + i];
      assert slot == q[i] && p[q[i]] == i;
      assert ChunkRow(db, n, c, i) == db[off + i];
      forall h | 0 <= h < n && h != slot
        ensures p[h] != i
      {
        assert q[p[h]] == h;
      }
      parities[slot] := Xor(parities[slot], db[off + i]);
    }
  }

  /** Equal-sized windows laid end to end. */
  function Flat(parts: seq<seq<nat>>): (r: seq<nat>) {
    if |parts| == 0 then [] else Flat(parts[..|parts| - 1]) + parts[|parts| - 1]
  }

  /** One chunk of the pass: draw, invert, accumulate. */
  method AnswerChunk(db: seq<Row>, c: nat, off: nat, n: nat, parities: array<Row>, permutations: array<nat>,
                     inverses: array<nat>, words: seq<Word>)
    requires 0 < n <= |words| && n < WORD && off == c * n && off + n <= |db|
    requires parities.Length == n && permutations.Length == inverses.Length == |db| && permutations != inverses
    modifies parities, permutations, inverses
    ensures forall h | 0 <= h < n :: parities[h] == Xor(old(parities[h]), ChunkRow(db, n, c, Draw(n, words)[h]))
    ensures permutations[..off + n] == old(permutations[..off]) + Draw(n, words)
    ensures inverses[..off + n] == old(inverses[..off]) + DrawInverse(n, words)
  {
    Permute(permutations, off, n, words);
    InvertPermutation(permutations, off, n, inverses, DrawInverse(n, words));
    XorSinglePass(db, c, inverses, off, n, parities, Draw(n, words));
    assert permutations[..off + n] == permutations[..off] + permutations[off..off + n];
    assert inverses[..off + n] == inverses[..off] + inverses[off..off + n];
  }

  /** The start of chunk `c`, as the loop adds it up. */
  function Times(c: nat, n: nat): nat {
    if c == 0 then 0 else Times(c - 1, n) + n
  }

  lemma {:induction false} TimesIs(c: nat, n: nat)
    ensures Times(c, n) == c * n
  {
    if c > 0 {
      TimesIs(c - 1, n);
      assert c * n == (c - 1) * n + n;
    }
  }

  lemma {:induction false} TimesMonotone(a: nat, b: nat, n: nat)
    requires a <= b
    ensures Times(a, n) <= Times(b, n)
  {
    if a < b {
      TimesMonotone(a, b - 1, n);
    }
  }

  /** What the pass has computed after `c` chunks. */
  ghost predicate Answered(db: seq<Row>, n: nat, words: seq<seq<Word>>, c: nat,
                           parities: seq<Row>, permutations: seq<nat>, inverses: seq<nat>)
    requires Drawable(n, words) && c <= |words|
  {
    && parities == DrawnParities(db, n, words, c)
    && permutations == Flat(DrawnPerms(n, words, c)) && inverses == Flat(DrawnInvs(n, words, c))
  }

  /** One pass over the table, from cleared parities. */
  method AnswerSinglePass(db: seq<Row>, setSize: nat, n: nat, parities: array<Row>, permutations: array<nat>,
                          inverses: array<nat>, words: seq<seq<Word>>)
    requires Splits(db, setSize, n, words)
    requires parities.Length == n && permutations.Length == inverses.Length == |db| && permutations != inverses
    requires forall h | 0 <= h < n :: parities[h] == ZERO
    modifies parities, permutations, inverses
    ensures parities[..] == DrawnParities(db, n, words, setSize)
    ensures permutations[..] == Flat(DrawnPerms(n, words, setSize))
    ensures inverses[..] == Flat(DrawnInvs(n, words, setSize))
  {
    var off := 0;
    TimesIs(setSize, n);
    for c := 0 to setSize
      invariant off == Times(c, n) <= |db|
      invariant Answered(db, n, words, c, parities[..], permutations[..off], inverses[..off])
    {
      TimesMonotone(c + 1, setSize, n);
      AnswerNext(db, setSize, c, off, n, parities, permutations, inverses, words);
      off := off + n;
    }
  }

  /** One round of the pass. */
  method AnswerNext(db: seq<Row>, ghost setSize: nat, c: nat, off: nat, n: nat, parities: array<Row>,
                    permutations: array<nat>, inverses: array<nat>, words: seq<seq<Word>>)
    requires Splits(db, setSize, n, words) && c < setSize && off == Times(c, n) && off + n <= |db|
    requires parities.Length == n && permutations.Length == inverses.Length == |db| && permutations != inverses
    requires Answered(db, n, words, c, parities[..], permutations[..off], inverses[..off])
    modifies parities, permutations, inverses
    ensures Answered(db, n, words, c + 1, parities[..], permutations[..off + n], inverses[..off + n])
  {
    ghost var before := parities[..];
    TimesIs(c, n);
    AnswerChunk(db, c, off, n, parities, permutations, inverses, words[c]);
    DrawnSnoc(n, words, c);
    DrawnParitiesSnoc(db, n, words, c, before, parities[..]);
  }

  lemma DrawnSnoc(n: nat, words: seq<seq<Word>>, k: nat)
    requires Drawable(n, words) && k < |words|
    ensures Flat(DrawnPerms(n, words, k + 1)) == Flat(DrawnPerms(n, words, k)) + Draw(n, words[k])
    ensures Flat(DrawnInvs(n, words, k + 1)) == Flat(DrawnInvs(n, words, k)) + DrawInverse(n, words[k])
  {
    assert DrawnPerms(n, words, k + 1)[..k] == DrawnPerms(n, words, k);
    assert DrawnInvs(n, words, k + 1)[..k] == DrawnInvs(n, words, k);
  }

  lemma DrawnParitiesSnoc(table: seq<Row>, n: nat, words: seq<seq<Word>>, k: nat, before: seq<Row>, after: seq<Row>)
    requires Drawable(n, words) && k < |words| && |after| == n
    requires before == DrawnParities(table, n, words, k)
    requires forall h | 0 <= h < n :: after[h] == Xor(before[h], ChunkRow(table, n, k, Draw(n, words[k])[h]))
    ensures after == DrawnParities(table, n, words, k + 1)
  {
    forall h | 0 <= h < n
      ensures after[h] == XorAll(DrawnColumn(table, n, words, h, k + 1))
    {
      assert DrawnColumn(table, n, words, h, k + 1)[..k] == DrawnColumn(table, n, words, h, k);
    }
  }

  /** initState: cut the flat permutations back into one window per chunk. */
  method InitState(permutations: seq<nat>, n: nat, ghost parts: seq<seq<nat>>) returns (cut: seq<seq<nat>>)
    requires n > 0 && permutations == Flat(parts) && forall c | 0 <= c < |parts| :: |parts[c]| == n
    ensures cut == parts
  {
    cut := [];
    var ind := 0;
    ghost var i := 0;
    assert parts[..0] == [] && parts[..|parts|] == parts;
    while ind < |permutations|
      invariant 0 <= i <= |parts| && ind == |Flat(parts[..i])| <= |permutations|
      invariant cut == parts[..i]
      decreases |permutations| - ind
    {
      assert i < |parts|;
      FlatWindow(parts, i);
      cut := cut + [permutations[ind..ind + n]];
      ind := ind + n;
      i := i + 1;
    }
    if i < |parts| {
      FlatWindow(parts, i);
    }
  }

  lemma FlatSnoc(parts: seq<seq<nat>>, i: nat)
    requires i < |parts|
    ensures Flat(parts[..i + 1]) == Flat(parts[..i]) + parts[i]
  {
    assert parts[..i + 1][..i] == parts[..i];
  }

  /** Where part `i` lies. */
  lemma {:induction false} FlatWindow(parts: seq<seq<nat>>, i: nat)
    requires i < |parts|
    ensures var lo, hi := |Flat(parts[..i])|, |Flat(parts[..i + 1])|;
            lo + |parts[i]| == hi <= |Flat(parts)| && Flat(parts)[lo..hi] == parts[i]
  {
    var m := |parts| - 1;
    FlatSnoc(parts, i);
    if i < m {
      FlatWindow(parts[..m], i);
      assert parts[..m][..i] == parts[..i] && parts[..m][..i + 1] == parts[..i + 1];
      FrontSlice(Flat(parts[..m]), parts[m], |Flat(parts[..i])|, |Flat(parts[..i + 1])|);
    } else {
      assert parts[..i + 1] == parts;
      FrontSlice(Flat(parts[..m]), parts[m], 0, 0);
    }
  }

  lemma FrontSlice(a: seq<nat>, b: seq<nat>, lo: nat, hi: nat)
    requires lo <= hi <= |a|
    ensures (a + b)[lo..hi] == a[lo..hi] && (a + b)[|a|..|a| + |b|] == b
  {
  }
}

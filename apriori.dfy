/**
 * The level-wise (Apriori) frequent-itemset search of
 * `run_product_recommendation_analysis` and `_generate_candidates`.
 *
 * Transactions are token lists; every count treats a transaction as the set
 * of its tokens, so a transaction counts at most once for an itemset. A
 * counter (`defaultdict(int)`) only gets an entry when it is incremented,
 * so an itemset is kept at a level exactly when it occurs in at least one
 * transaction AND in at least `minCount` of them; the model calls this
 * `Frequent`.
 */
module Apriori {
  import opened Text
  import opened Tokens

  type Itemset = set<Token>
  type Transactions = seq<seq<Token>>

  // ---------------------------------------------------------------------
  // Specification

  /** The number of transactions whose token set contains `c`. */
  function Support(ts: Transactions, c: Itemset): (r: nat)
    ensures r <= |ts|
  {
    if ts == [] then 0
    else Support(ts[..|ts| - 1], c) + (if c <= Elems(ts[|ts| - 1]) then 1 else 0)
  }

  /** The support of a single token (`item_counts[item]`). */
  function TokenCount(ts: Transactions, t: Token): nat
  {
    Support(ts, {t})
  }

  /** The itemsets the miner keeps: present at least once and at least `minCount` times. */
  predicate Frequent(ts: Transactions, minCount: int, c: Itemset)
  {
    Support(ts, c) >= 1 && Support(ts, c) >= minCount
  }

  /** A level of the search holds exactly the frequent `k`-itemsets with their exact counts. */
  ghost predicate LevelExact(ts: Transactions, minCount: int, k: nat, level: map<Itemset, nat>)
  {
    && (forall c :: c in level <==> |c| == k && Frequent(ts, minCount, c))
    && (forall c :: c in level ==> level[c] == Support(ts, c))
  }

  /** `levels[j]` is the level of itemsets of size `j + 1`. */
  ghost predicate LevelsExact(ts: Transactions, minCount: int, levels: seq<map<Itemset, nat>>)
  {
    forall j :: 0 <= j < |levels| ==> LevelExact(ts, minCount, j + 1, levels[j])
  }

  function Max(a: int, b: int): int
  {
    if a < b then b else a
  }

  /**
   * What the search returns: exact levels, contiguous from size 1, none of
   * them empty, no more than `maxLen` of them (but always the first one when
   * it is not empty), and a search that stopped early only because the next
   * level would have been empty.
   */
  ghost predicate MiningResult(ts: Transactions, minCount: int, maxLen: int, levels: seq<map<Itemset, nat>>)
  {
    && LevelsExact(ts, minCount, levels)
    && (forall j :: 0 <= j < |levels| ==> levels[j] != map[])
    && |levels| <= Max(1, maxLen)
    && (levels == [] <==> forall c :: |c| == 1 ==> !Frequent(ts, minCount, c))
    && (0 < |levels| < maxLen ==> forall c :: |c| == |levels| + 1 ==> !Frequent(ts, minCount, c))
  }

  // ---------------------------------------------------------------------
  // Facts about support

  lemma SupportSnoc(ts: Transactions, i: nat)
    requires i < |ts|
    ensures forall c :: Support(ts[..i + 1], c) == Support(ts[..i], c) + (if c <= Elems(ts[i]) then 1 else 0)
  {
    assert ts[..i + 1][..i] == ts[..i];
  }

  lemma TokenCountSnoc(ts: Transactions, i: nat)
    requires i < |ts|
    ensures forall t :: TokenCount(ts[..i + 1], t) == TokenCount(ts[..i], t) + (if t in Elems(ts[i]) then 1 else 0)
  {
    SupportSnoc(ts, i);
    forall t ensures TokenCount(ts[..i + 1], t) == TokenCount(ts[..i], t) + (if t in Elems(ts[i]) then 1 else 0) {
      assert {t} <= Elems(ts[i]) <==> t in Elems(ts[i]);
    }
  }

  /** Support is anti-monotone: a larger itemset is contained in no more transactions. */
  lemma {:induction false} SupportAntiMonotone(ts: Transactions, a: Itemset, b: Itemset)
    requires a <= b
    ensures Support(ts, b) <= Support(ts, a)
  {
    if ts != [] {
      SupportAntiMonotone(ts[..|ts| - 1], a, b);
    }
  }

  /** Every subset of a frequent itemset is frequent (the Apriori property). */
  lemma FrequentDownward(ts: Transactions, minCount: int, a: Itemset, b: Itemset)
    requires a <= b && Frequent(ts, minCount, b)
    ensures Frequent(ts, minCount, a)
  {
    SupportAntiMonotone(ts, a, b);
  }

  lemma SubsetCard<T>(a: set<T>, b: set<T>)
    requires a <= b
    ensures |a| <= |b|
  {
    assert b == a + (b - a);
  }

  /** A set of size `n` has a subset of every size `k <= n`. */
  lemma {:induction false} SubsetOfSize(c: Itemset, k: nat) returns (d: Itemset)
    requires k <= |c|
    ensures d <= c && |d| == k
    decreases |c|
  {
    if k == |c| {
      d := c;
    } else {
      var x :| x in c;
      d := SubsetOfSize(c - {x}, k);
    }
  }

  // ---------------------------------------------------------------------
  // Singleton counting and the first level

  /** `item_counts`: each distinct token of each transaction is counted once. */
  method CountSingletons(ts: Transactions) returns (counts: map<Token, nat>)
    ensures forall t :: t in counts <==> TokenCount(ts, t) >= 1
    ensures forall t :: t in counts ==> counts[t] == TokenCount(ts, t)
  {
    counts := map[];
    var i := 0;
    while i < |ts|
      invariant 0 <= i <= |ts|
      invariant forall t :: t in counts <==> TokenCount(ts[..i], t) >= 1
      invariant forall t :: t in counts ==> counts[t] == TokenCount(ts[..i], t)
    {
      var tokens := Elems(ts[i]);
      var rest := tokens;
      while rest != {}
        invariant rest <= tokens
        invariant forall t :: t in counts <==> TokenCount(ts[..i], t) >= 1 || (t in tokens && t !in rest)
        invariant forall t :: t in counts ==>
          counts[t] == TokenCount(ts[..i], t) + (if t in tokens && t !in rest then 1 else 0)
      {
        var t :| t in rest;
        counts := counts[t := (if t in counts then counts[t] else 0) + 1];
        rest := rest - {t};
      }
      TokenCountSnoc(ts, i);
      i := i + 1;
    }
    assert ts[..|ts|] == ts;
  }

  /** The only element of a one-element set. */
  ghost function Only(c: Itemset): (t: Token)
    requires |c| == 1
    ensures c == {t}
  {
    var t :| t in c;
    assert c - {t} == {} by {
      assert |c - {t}| == 0;
    }
    t
  }

  /** `L1`: the singletons whose count meets the threshold. */
  method FrequentSingletons(counts: map<Token, nat>, minCount: int) returns (l1: map<Itemset, nat>)
    ensures forall c :: c in l1 <==> |c| == 1 && Only(c) in counts && counts[Only(c)] >= minCount
    ensures forall c :: c in l1 ==> |c| == 1 && l1[c] == counts[Only(c)]
  {
    l1 := map[];
    var rest := counts.Keys;
    while rest != {}
      invariant rest <= counts.Keys
      invariant forall c :: c in l1 <==>
        |c| == 1 && Only(c) in counts && Only(c) !in rest && counts[Only(c)] >= minCount
      invariant forall c :: c in l1 ==> |c| == 1 && l1[c] == counts[Only(c)]
    {
      var t :| t in rest;
      if counts[t] >= minCount {
        assert Only({t}) == t;
        l1 := l1[{t} := counts[t]];
      }
      rest := rest - {t};
    }
  }

  // ---------------------------------------------------------------------
  // Candidate generation with subset pruning

  /** Every one-smaller subset of `c` (every `c - {x}`) is a known itemset. */
  predicate AllDropsIn(c: Itemset, prev: set<Itemset>)
  {
    forall x :: x in c ==> c - {x} in prev
  }

  /** The size and pruning tests a union must pass. */
  ghost predicate Kept(prev: set<Itemset>, k: nat, c: Itemset)
  {
    |c| == k && AllDropsIn(c, prev)
  }

  /** The candidates `_generate_candidates` keeps. */
  ghost predicate IsCandidate(prev: set<Itemset>, k: nat, c: Itemset)
  {
    && |c| == k
    && (exists a, b :: a in prev && b in prev && a != b && a + b == c)
    && AllDropsIn(c, prev)
  }

  /**
   * The pruning test: each `(k-1)`-combination of `sorted(union)` must be a
   * key of `prev`. For a `k`-set these combinations are exactly the sets
   * `union - {x}`; they are visited in `combinations` order (leaving out the
   * last element first) and the search stops at the first miss.
   */
  method AllSubsetsKnown(u: Itemset, prev: map<Itemset, nat>) returns (valid: bool)
    ensures valid <==> AllDropsIn(u, prev.Keys)
  {
    var items := Sorted(u);
    valid := true;
    var m := |items|;
    while m > 0 && valid
      invariant 0 <= m <= |items|
      invariant valid <==> forall x :: x in items[m..] ==> u - {x} in prev
    {
      if u - {items[m - 1]} !in prev {
        valid := false;
      }
      m := m - 1;
    }
  }

  /** Some pair of positions `p < q`, visited before `(i, j)`, has `xs[p] + xs[q] == c`. */
  ghost predicate PairBefore(xs: seq<Itemset>, i: int, j: int, c: Itemset)
  {
    exists p, q :: 0 <= p < q < |xs| && (p < i || (p == i && q < j)) && xs[p] + xs[q] == c
  }

  /** Visiting pair `(i, j)` adds exactly its union. */
  lemma PairStep(xs: seq<Itemset>, i: int, j: int, j1: int)
    requires 0 <= i < j < |xs| && j1 == j + 1
    ensures forall c :: PairBefore(xs, i, j1, c) <==> PairBefore(xs, i, j, c) || c == xs[i] + xs[j]
  {
    assert PairBefore(xs, i, j1, xs[i] + xs[j]) by {
      assert 0 <= i < j < |xs| && xs[i] + xs[j] == xs[i] + xs[j];
    }
  }

  /** Finishing row `i` is the same as starting row `i + 1`. */
  lemma PairRow(xs: seq<Itemset>, i: int, i1: int, i2: int)
    requires 0 <= i < |xs| && i1 == i + 1 && i2 == i + 2
    ensures forall c :: PairBefore(xs, i1, i2, c) <==> PairBefore(xs, i, |xs|, c)
  {
    forall c | PairBefore(xs, i1, i2, c) ensures PairBefore(xs, i, |xs|, c) {
      var p, q :| 0 <= p < q < |xs| && (p < i1 || (p == i1 && q < i2)) && xs[p] + xs[q] == c;
      assert p < i || (p == i && q < |xs|);
    }
  }

  /** After all rows, the visited unions are the unions of two distinct keys. */
  lemma PairAll(xs: seq<Itemset>, keys: set<Itemset>, n: int, n1: int)
    requires Elems(xs) == keys && NoDuplicates(xs) && n == |xs| && n1 == n + 1
    ensures forall c :: PairBefore(xs, n, n1, c) <==>
      exists a, b :: a in keys && b in keys && a != b && a + b == c
  {
    forall c | PairBefore(xs, n, n1, c)
      ensures exists a, b :: a in keys && b in keys && a != b && a + b == c
    {
      var p, q :| 0 <= p < q < |xs| && xs[p] + xs[q] == c;
      assert xs[p] in Elems(xs) && xs[q] in Elems(xs);
    }
    forall c | (exists a, b :: a in keys && b in keys && a != b && a + b == c)
      ensures PairBefore(xs, n, n1, c)
    {
      var a, b :| a in keys && b in keys && a != b && a + b == c;
      assert a in Elems(xs) && b in Elems(xs);
      var p :| 0 <= p < |xs| && xs[p] == a;
      var q :| 0 <= q < |xs| && xs[q] == b;
      if p < q {
        assert xs[p] + xs[q] == c;
      } else {
        assert xs[q] + xs[p] == c;
      }
    }
  }

  /**
   * The candidates kept after visiting the pairs `(p, q)`, `p < q`, in loop
   * order up to, but not including, the pair `(i, j)`.
   */
  ghost function Visited(prev: set<Itemset>, k: nat, xs: seq<Itemset>, i: nat, j: nat): set<Itemset>
    requires i < j <= |xs|
    decreases i, j
  {
    if j > i + 1 then
      var union := xs[i] + xs[j - 1];
      if Kept(prev, k, union) then Visited(prev, k, xs, i, j - 1) + {union} else Visited(prev, k, xs, i, j - 1)
    else if i == 0 then {}
    else Visited(prev, k, xs, i - 1, |xs|)
  }

  /** The visited candidates are the kept unions of the pairs visited. */
  lemma {:induction false} VisitedPairs(prev: set<Itemset>, k: nat, xs: seq<Itemset>, i: nat, j: nat)
    requires i < j <= |xs|
    ensures forall c :: c in Visited(prev, k, xs, i, j) <==> Kept(prev, k, c) && PairBefore(xs, i, j, c)
    decreases i, j
  {
    if j > i + 1 {
      VisitedPairs(prev, k, xs, i, j - 1);
      PairStep(xs, i, j - 1, j);
    } else if i > 0 {
      VisitedPairs(prev, k, xs, i - 1, |xs|);
      PairRow(xs, i - 1, i, i + 1);
    }
  }

  /** After the last pair, the kept unions are exactly the candidates. */
  lemma CandidatesExact(prev: set<Itemset>, k: nat, xs: seq<Itemset>, cands: set<Itemset>)
    requires Elems(xs) == prev && NoDuplicates(xs)
    requires xs == [] ==> cands == {}
    requires xs != [] ==> cands == Visited(prev, k, xs, |xs| - 1, |xs|)
    ensures forall c :: c in cands <==> IsCandidate(prev, k, c)
  {
    if xs != [] {
      VisitedPairs(prev, k, xs, |xs| - 1, |xs|);
      PairRow(xs, |xs| - 1, |xs|, |xs| + 1);
    }
    PairAll(xs, prev, |xs|, |xs| + 1);
  }

  /** `_generate_candidates(prev_frequent, k)`. */
  method GenerateCandidates(prev: map<Itemset, nat>, k: nat) returns (cands: set<Itemset>)
    ensures forall c :: c in cands <==> IsCandidate(prev.Keys, k, c)
  {
    var itemsets := ListOf(prev.Keys);
    cands := {};
    for i := 0 to |itemsets|
      invariant i > 0 ==> cands == Visited(prev.Keys, k, itemsets, i - 1, |itemsets|)
      invariant i == 0 ==> cands == {}
    {
      for j := i + 1 to |itemsets|
        invariant cands == Visited(prev.Keys, k, itemsets, i, j)
      {
        var union := itemsets[i] + itemsets[j];
        if |union| == k {
          var valid := AllSubsetsKnown(union, prev);
          if valid {
            cands := cands + {union};
          }
        }
      }
    }
    CandidatesExact(prev.Keys, k, itemsets, cands);
  }

  /** Dropping one token from a frequent `k`-itemset gives a key of the exact `(k-1)` level. */
  lemma DropIsKnown(ts: Transactions, minCount: int, k: nat, prev: map<Itemset, nat>, c: Itemset, x: Token)
    requires k >= 2 && LevelExact(ts, minCount, k - 1, prev)
    requires |c| == k && Frequent(ts, minCount, c) && x in c
    ensures c - {x} in prev
  {
    FrequentDownward(ts, minCount, c - {x}, c);
    assert |c - {x}| == k - 1;
  }

  /** A set of at least two elements is the union of two different one-smaller subsets. */
  lemma TwoDrops(c: Itemset) returns (x: Token, y: Token)
    requires |c| >= 2
    ensures x in c && y in c && c - {x} != c - {y} && (c - {x}) + (c - {y}) == c
  {
    x :| x in c;
    assert |c - {x}| >= 1;
    y :| y in c - {x};
    assert y in c - {x} && y !in c - {y};
  }

  /**
   * Completeness of candidate generation: when `prev` is the exact level of
   * frequent `(k-1)`-itemsets, every frequent `k`-itemset is a candidate.
   */
  lemma CandidatesCoverFrequent(ts: Transactions, minCount: int, k: nat, prev: map<Itemset, nat>, c: Itemset)
    requires k >= 2 && LevelExact(ts, minCount, k - 1, prev)
    requires |c| == k && Frequent(ts, minCount, c)
    ensures IsCandidate(prev.Keys, k, c)
  {
    forall x | x in c ensures c - {x} in prev.Keys {
      DropIsKnown(ts, minCount, k, prev, c, x);
    }
    var x, y := TwoDrops(c);
    assert c - {x} in prev.Keys && c - {y} in prev.Keys;
  }

  // ---------------------------------------------------------------------
  // Counting candidates and filtering by support

  /** `candidate_counts`: the candidates that occur, with their exact support. */
  method CountCandidates(ts: Transactions, cands: set<Itemset>) returns (counts: map<Itemset, nat>)
    ensures forall c :: c in counts <==> c in cands && Support(ts, c) >= 1
    ensures forall c :: c in counts ==> counts[c] == Support(ts, c)
  {
    counts := map[];
    var i := 0;
    while i < |ts|
      invariant 0 <= i <= |ts|
      invariant forall c :: c in counts <==> c in cands && Support(ts[..i], c) >= 1
      invariant forall c :: c in counts ==> counts[c] == Support(ts[..i], c)
    {
      var transSet := Elems(ts[i]);
      var rest := cands;
      while rest != {}
        invariant rest <= cands
        invariant forall c :: c in counts <==>
          c in cands && (Support(ts[..i], c) >= 1 || (c !in rest && c <= transSet))
        invariant forall c :: c in counts ==>
          counts[c] == Support(ts[..i], c) + (if c !in rest && c <= transSet then 1 else 0)
      {
        var c :| c in rest;
        if c <= transSet {
          counts := counts[c := (if c in counts then counts[c] else 0) + 1];
        }
        rest := rest - {c};
      }
      SupportSnoc(ts, i);
      i := i + 1;
    }
    assert ts[..|ts|] == ts;
  }

  /** `Lk`: the counted itemsets that meet the threshold. */
  method KeepFrequent(counts: map<Itemset, nat>, minCount: int) returns (lk: map<Itemset, nat>)
    ensures forall c :: c in lk <==> c in counts && counts[c] >= minCount
    ensures forall c :: c in lk ==> lk[c] == counts[c]
  {
    lk := map[];
    var rest := counts.Keys;
    while rest != {}
      invariant rest <= counts.Keys
      invariant forall c :: c in lk <==> c in counts && c !in rest && counts[c] >= minCount
      invariant forall c :: c in lk ==> lk[c] == counts[c]
    {
      var c :| c in rest;
      if counts[c] >= minCount {
        lk := lk[c := counts[c]];
      }
      rest := rest - {c};
    }
  }

  // ---------------------------------------------------------------------
  // The level-wise search

  /** The singletons that meet the threshold form the exact first level. */
  lemma FirstLevelExact(ts: Transactions, minCount: int, counts: map<Token, nat>, l1: map<Itemset, nat>)
    requires forall t :: t in counts <==> TokenCount(ts, t) >= 1
    requires forall t :: t in counts ==> counts[t] == TokenCount(ts, t)
    requires forall c :: c in l1 <==> |c| == 1 && Only(c) in counts && counts[Only(c)] >= minCount
    requires forall c :: c in l1 ==> |c| == 1 && l1[c] == counts[Only(c)]
    ensures LevelExact(ts, minCount, 1, l1)
  {
    forall c | |c| == 1 ensures c in l1 <==> Frequent(ts, minCount, c) {
      assert c == {Only(c)};
    }
  }

  /** Counting the candidates and filtering them by support gives the exact next level. */
  lemma NextLevelExact(ts: Transactions, minCount: int, k: nat, prev: map<Itemset, nat>,
                       cands: set<Itemset>, counts: map<Itemset, nat>, lk: map<Itemset, nat>)
    requires k >= 2 && LevelExact(ts, minCount, k - 1, prev)
    requires forall c :: c in cands <==> IsCandidate(prev.Keys, k, c)
    requires forall c :: c in counts <==> c in cands && Support(ts, c) >= 1
    requires forall c :: c in counts ==> counts[c] == Support(ts, c)
    requires forall c :: c in lk <==> c in counts && counts[c] >= minCount
    requires forall c :: c in lk ==> lk[c] == counts[c]
    ensures LevelExact(ts, minCount, k, lk)
  {
    forall c | |c| == k && Frequent(ts, minCount, c) ensures c in lk {
      CandidatesCoverFrequent(ts, minCount, k, prev, c);
    }
  }

  /** An exact level that is empty means no itemset of that size is frequent. */
  lemma EmptyLevel(ts: Transactions, minCount: int, k: nat, level: map<Itemset, nat>)
    requires LevelExact(ts, minCount, k, level) && level == map[]
    ensures forall c :: |c| == k ==> !Frequent(ts, minCount, c)
  {
    forall c | |c| == k ensures !Frequent(ts, minCount, c) {
      assert c !in level;
    }
  }

  /** A non-empty exact level holds a frequent itemset of its size. */
  lemma NonEmptyLevel(ts: Transactions, minCount: int, k: nat, level: map<Itemset, nat>)
    requires LevelExact(ts, minCount, k, level) && level != map[]
    ensures exists c :: |c| == k && Frequent(ts, minCount, c)
  {
    var c :| c in level;
    assert |c| == k && Frequent(ts, minCount, c);
  }

  lemma AppendLevel(ts: Transactions, minCount: int, levels: seq<map<Itemset, nat>>, lk: map<Itemset, nat>)
    requires LevelsExact(ts, minCount, levels) && LevelExact(ts, minCount, |levels| + 1, lk)
    ensures LevelsExact(ts, minCount, levels + [lk])
  {
    forall j | 0 <= j < |levels| + 1 ensures LevelExact(ts, minCount, j + 1, (levels + [lk])[j]) {
      if j < |levels| {
        assert (levels + [lk])[j] == levels[j];
      }
    }
  }

  /**
   * Steps 1 and 2 of `run_product_recommendation_analysis`: singleton counts,
   * then levels `k = 2 .. maxLen` until a level comes out empty.
   */
  method Mine(ts: Transactions, minCount: int, maxLen: int)
    returns (levels: seq<map<Itemset, nat>>, itemCounts: map<Token, nat>)
    ensures forall t :: t in itemCounts <==> TokenCount(ts, t) >= 1
    ensures forall t :: t in itemCounts ==> itemCounts[t] == TokenCount(ts, t)
    ensures MiningResult(ts, minCount, maxLen, levels)
  {
    itemCounts := CountSingletons(ts);
    var l1 := FrequentSingletons(itemCounts, minCount);
    FirstLevelExact(ts, minCount, itemCounts, l1);
    if l1 == map[] {
      EmptyLevel(ts, minCount, 1, l1);
      return [], itemCounts;
    }
    NonEmptyLevel(ts, minCount, 1, l1);
    levels := [l1];
    var k := 2;
    while k <= maxLen
      invariant 2 <= k && |levels| == k - 1
      invariant |levels| <= Max(1, maxLen)
      invariant LevelsExact(ts, minCount, levels)
      invariant forall j :: 0 <= j < |levels| ==> levels[j] != map[]
    {
      var prev := levels[k - 2];
      var candidates := GenerateCandidates(prev, k);
      var candidateCounts := CountCandidates(ts, candidates);
      var lk := KeepFrequent(candidateCounts, minCount);
      NextLevelExact(ts, minCount, k, prev, candidates, candidateCounts, lk);
      if lk == map[] {
        EmptyLevel(ts, minCount, k, lk);
        break;
      }
      AppendLevel(ts, minCount, levels, lk);
      levels := levels + [lk];
      k := k + 1;
    }
  }

  // ---------------------------------------------------------------------
  // Properties of every mining result

  /** Frequent itemsets are downward closed across levels. */
  lemma LevelsDownwardClosed(ts: Transactions, minCount: int, levels: seq<map<Itemset, nat>>, j: nat, c: Itemset, x: Token)
    requires LevelsExact(ts, minCount, levels)
    requires 1 <= j < |levels| && c in levels[j] && x in c
    ensures c - {x} in levels[j - 1]
  {
    assert LevelExact(ts, minCount, j + 1, levels[j]);
    assert LevelExact(ts, minCount, j, levels[j - 1]);
    FrequentDownward(ts, minCount, c - {x}, c);
  }

  /**
   * Completeness: the search finds every frequent itemset of size at most
   * `maxLen` (the search stops early only when nothing larger is frequent),
   * and every frequent single token even when `maxLen` is below 1.
   */
  lemma MiningComplete(ts: Transactions, minCount: int, maxLen: int, levels: seq<map<Itemset, nat>>, c: Itemset)
    requires MiningResult(ts, minCount, maxLen, levels)
    requires 1 <= |c| <= Max(1, maxLen) && Frequent(ts, minCount, c)
    ensures |c| <= |levels| && c in levels[|c| - 1]
  {
    if levels == [] {
      var x :| x in c;
      FrequentDownward(ts, minCount, {x}, c);
      assert false;
    } else if |c| > |levels| {
      var d := SubsetOfSize(c, |levels| + 1);
      FrequentDownward(ts, minCount, d, c);
      assert false;
    }
    assert LevelExact(ts, minCount, |c|, levels[|c| - 1]);
  }

  /** A mining result holds only itemsets of size 1 .. maxLen (size 1 even when maxLen < 1). */
  lemma MiningSound(ts: Transactions, minCount: int, maxLen: int, levels: seq<map<Itemset, nat>>, j: nat, c: Itemset)
    requires MiningResult(ts, minCount, maxLen, levels)
    requires j < |levels| && c in levels[j]
    ensures |c| == j + 1 && Frequent(ts, minCount, c) && levels[j][c] == Support(ts, c)
    ensures |c| <= Max(1, maxLen)
  {
    assert LevelExact(ts, minCount, j + 1, levels[j]);
  }

  lemma LengthsAgree(ts: Transactions, m1: int, m2: int, maxLen: int, l1: seq<map<Itemset, nat>>, l2: seq<map<Itemset, nat>>)
    requires m1 <= m2
    requires MiningResult(ts, m1, maxLen, l1) && MiningResult(ts, m2, maxLen, l2)
    ensures |l2| <= |l1|
  {
    if l2 != [] {
      var j := |l2| - 1;
      assert LevelExact(ts, m2, j + 1, l2[j]);
      var c :| c in l2[j];
      assert Frequent(ts, m1, c);
      MiningComplete(ts, m1, maxLen, l1, c);
    }
  }

  /**
   * Raising the support threshold never adds a frequent itemset: the result
   * for the higher threshold has no more levels, and each of its levels is
   * contained in (so is no larger than) the corresponding lower-threshold level.
   */
  lemma MiningThresholdMonotone(ts: Transactions, m1: int, m2: int, maxLen: int, l1: seq<map<Itemset, nat>>, l2: seq<map<Itemset, nat>>)
    requires m1 <= m2
    requires MiningResult(ts, m1, maxLen, l1) && MiningResult(ts, m2, maxLen, l2)
    ensures |l2| <= |l1|
    ensures forall j :: 0 <= j < |l2| ==> l2[j].Keys <= l1[j].Keys && |l2[j]| <= |l1[j]|
  {
    LengthsAgree(ts, m1, m2, maxLen, l1, l2);
    forall j | 0 <= j < |l2| ensures l2[j].Keys <= l1[j].Keys && |l2[j]| <= |l1[j]| {
      assert LevelExact(ts, m1, j + 1, l1[j]) && LevelExact(ts, m2, j + 1, l2[j]);
      assert l2[j].Keys <= l1[j].Keys;
      SubsetCard(l2[j].Keys, l1[j].Keys);
    }
  }

  /**
   * The outcome does not depend on the order in which sets and dictionaries
   * are iterated: any two results for the same input are equal.
   */
  lemma MiningDeterminate(ts: Transactions, minCount: int, maxLen: int, l1: seq<map<Itemset, nat>>, l2: seq<map<Itemset, nat>>)
    requires MiningResult(ts, minCount, maxLen, l1) && MiningResult(ts, minCount, maxLen, l2)
    ensures l1 == l2
  {
    LengthsAgree(ts, minCount, minCount, maxLen, l1, l2);
    LengthsAgree(ts, minCount, minCount, maxLen, l2, l1);
    forall j | 0 <= j < |l1| ensures l1[j] == l2[j] {
      assert LevelExact(ts, minCount, j + 1, l1[j]) && LevelExact(ts, minCount, j + 1, l2[j]);
      assert l1[j].Keys == l2[j].Keys;
    }
  }
}

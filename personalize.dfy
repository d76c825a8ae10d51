/**
 * `get_personalized_recommendations`: the scorer's lists for each of the
 * shopper's categories are concatenated, merged so that each product keeps
 * its best-scoring entry, sorted by score and cut to the limit.
 *
 * The merge is a dictionary keyed by product id. An entry replaces the stored
 * one only when its score is strictly larger, so the first of several
 * equal-scoring entries stays; and a replaced key keeps its first position,
 * so `values()` lists the products in the order they were first seen.
 */
module Personalize {
  import opened Wrappers
  import opened Text
  import opened Ranking
  import opened Rules
  import opened ProductAttributes
  import opened Scoring

  function IdOf(r: Recommendation): nat
  {
    r.product.id
  }

  /** The product ids in order of first appearance (the dictionary's key order). */
  function FirstIds(all: seq<Recommendation>): (ids: seq<nat>)
    ensures NoDuplicates(ids)
  {
    if all == [] then []
    else
      var init := all[..|all| - 1];
      var r := all[|all| - 1];
      var before := FirstIds(init);
      if IdOf(r) in before then before
      else
        assert NoDuplicates([IdOf(r)]);
        JoinDistinct(before, [IdOf(r)]);
        before + [IdOf(r)]
  }

  /** Every product of the input has its id listed. */
  lemma {:induction false} FirstIdsCover(all: seq<Recommendation>, x: Recommendation)
    requires x in all
    ensures IdOf(x) in FirstIds(all)
    decreases |all|
  {
    var init := all[..|all| - 1];
    assert all == init + [all[|all| - 1]];
    if x != all[|all| - 1] {
      FirstIdsCover(init, x);
    }
  }

  /** Every listed id is the id of an input entry. */
  lemma {:induction false} FirstIdsSound(all: seq<Recommendation>, id: nat) returns (k: nat)
    requires id in FirstIds(all)
    ensures k < |all| && IdOf(all[k]) == id
    decreases |all|
  {
    var init := all[..|all| - 1];
    if id in FirstIds(init) {
      k := FirstIdsSound(init, id);
    } else {
      k := |all| - 1;
    }
  }

  /** The dictionary after the merge loop: each id maps to its first highest-scoring entry. */
  function Table(all: seq<Recommendation>): (t: map<nat, Recommendation>)
    ensures forall id :: id in t <==> id in FirstIds(all)
  {
    if all == [] then map[]
    else
      var init := all[..|all| - 1];
      var r := all[|all| - 1];
      var before := Table(init);
      if IdOf(r) !in before || r.score > before[IdOf(r)].score then before[IdOf(r) := r] else before
  }

  /** The merged entries, one per product, in first-appearance order. */
  function Deduplicated(all: seq<Recommendation>): (d: seq<Recommendation>)
    ensures |d| == |FirstIds(all)|
  {
    var ids := FirstIds(all);
    var t := Table(all);
    seq(|ids|, i requires 0 <= i < |ids| => t[ids[i]])
  }

  /** No two entries are for the same product. */
  predicate DistinctIds(s: seq<Recommendation>)
  {
    forall i, j :: 0 <= i < j < |s| ==> IdOf(s[i]) != IdOf(s[j])
  }

  /** `e` is an entry of `all` that no entry of the same product outscores. */
  predicate BestIn(all: seq<Recommendation>, e: Recommendation)
  {
    e in all && forall r :: r in all && IdOf(r) == IdOf(e) ==> r.score <= e.score
  }

  /** `all[k]` is the first entry of its product with its score: every earlier one scores less. */
  predicate FirstWithScore(all: seq<Recommendation>, k: int)
  {
    0 <= k < |all| && forall j :: 0 <= j < k && IdOf(all[j]) == IdOf(all[k]) ==> all[j].score < all[k].score
  }

  /** Each stored entry is an input entry for its key. */
  lemma {:induction false} TableEntry(all: seq<Recommendation>, id: nat)
    requires id in Table(all)
    ensures Table(all)[id] in all && IdOf(Table(all)[id]) == id
    decreases |all|
  {
    var init := all[..|all| - 1];
    var r := all[|all| - 1];
    var before := Table(init);
    assert all == init + [r];
    if !(IdOf(r) == id && (id !in before || r.score > before[id].score)) {
      TableEntry(init, id);
    }
  }

  /** No input entry of a product outscores the stored one. */
  lemma {:induction false} TableMax(all: seq<Recommendation>, id: nat)
    requires id in Table(all)
    ensures forall r :: r in all && IdOf(r) == id ==> r.score <= Table(all)[id].score
    decreases |all|
  {
    var init := all[..|all| - 1];
    var r := all[|all| - 1];
    var before := Table(init);
    assert all == init + [r];
    if id in before {
      TableMax(init, id);
    }
    forall x | x in all && IdOf(x) == id ensures x.score <= Table(all)[id].score {
      if x != r {
        assert x in init;
        FirstIdsCover(init, x);
      }
    }
  }

  /** The stored entry is the first of its product with its score. */
  lemma {:induction false} TableFirst(all: seq<Recommendation>, id: nat) returns (k: nat)
    requires id in Table(all)
    ensures k < |all| && all[k] == Table(all)[id] && FirstWithScore(all, k)
    decreases |all|
  {
    var n := |all|;
    var init := all[..n - 1];
    var r := all[n - 1];
    var before := Table(init);
    if IdOf(r) == id && (id !in before || r.score > before[id].score) {
      k := n - 1;
      EarlierScoreLess(all, id);
    } else {
      k := TableFirst(init, id);
      assert forall j :: 0 <= j <= k ==> all[j] == init[j];
    }
  }

  /** When the last entry replaces the stored one, every earlier entry of its product scores less. */
  lemma EarlierScoreLess(all: seq<Recommendation>, id: nat)
    requires all != []
    requires var init := all[..|all| - 1]; var r := all[|all| - 1]; var before := Table(init);
      IdOf(r) == id && (id !in before || r.score > before[id].score)
    ensures forall j :: 0 <= j < |all| - 1 && IdOf(all[j]) == id ==> all[j].score < all[|all| - 1].score
  {
    var init := all[..|all| - 1];
    if id in Table(init) {
      TableMax(init, id);
    }
    forall j | 0 <= j < |all| - 1 && IdOf(all[j]) == id ensures all[j].score < all[|all| - 1].score {
      assert all[j] == init[j] && init[j] in init;
      FirstIdsCover(init, init[j]);
    }
  }

  /** The merged entry for the `i`th id of first appearance. */
  lemma DeduplicatedAt(all: seq<Recommendation>, i: nat)
    requires i < |FirstIds(all)|
    ensures var e := Deduplicated(all)[i];
      IdOf(e) == FirstIds(all)[i] && BestIn(all, e) &&
      exists k :: FirstWithScore(all, k) && all[k] == e
  {
    var id := FirstIds(all)[i];
    TableEntry(all, id);
    TableMax(all, id);
    var k := TableFirst(all, id);
  }

  /**
   * The merge keeps exactly one entry per product of the input, in order of
   * first appearance; each is an input entry with the highest score for its
   * product, and the first such entry when several tie.
   */
  lemma DeduplicatedFacts(all: seq<Recommendation>)
    ensures var d := Deduplicated(all);
      && DistinctIds(d)
      && (forall i :: 0 <= i < |d| ==> IdOf(d[i]) == FirstIds(all)[i])
      && (forall e :: e in d ==> BestIn(all, e) && exists k :: FirstWithScore(all, k) && all[k] == e)
  {
    var d := Deduplicated(all);
    var ids := FirstIds(all);
    forall i | 0 <= i < |d|
      ensures IdOf(d[i]) == ids[i] && BestIn(all, d[i]) && exists k :: FirstWithScore(all, k) && all[k] == d[i]
    {
      DeduplicatedAt(all, i);
    }
  }

  /** Every product of the input has an entry in the merge, scoring at least as much. */
  lemma DeduplicatedComplete(all: seq<Recommendation>, r: Recommendation)
    requires r in all
    ensures exists e :: e in Deduplicated(all) && IdOf(e) == IdOf(r) && r.score <= e.score
  {
    var ids := FirstIds(all);
    FirstIdsCover(all, r);
    var i :| 0 <= i < |ids| && ids[i] == IdOf(r);
    DeduplicatedAt(all, i);
    assert Deduplicated(all)[i] in Deduplicated(all);
  }

  /** One more input entry: the dictionary and its key order advance as the loop does. */
  lemma MergeStep(all: seq<Recommendation>, i: nat)
    requires i < |all|
    ensures var r := all[i];
      var before := Table(all[..i]);
      Table(all[..i + 1]) ==
        (if IdOf(r) !in before || r.score > before[IdOf(r)].score then before[IdOf(r) := r] else before)
    ensures var r := all[i];
      FirstIds(all[..i + 1]) ==
        (if IdOf(r) in FirstIds(all[..i]) then FirstIds(all[..i]) else FirstIds(all[..i]) + [IdOf(r)])
  {
    assert all[..i + 1][..i] == all[..i];
  }

  /** The merge loop: a dictionary from product id to entry, and its key order. */
  method MergeByProduct(all: seq<Recommendation>) returns (unique: seq<Recommendation>)
    ensures unique == Deduplicated(all)
  {
    var table: map<nat, Recommendation> := map[];
    var order: seq<nat> := [];  // the dictionary's insertion order
    for i := 0 to |all|
      invariant table == Table(all[..i])
      invariant order == FirstIds(all[..i])
    {
      var rec := all[i];
      var id := rec.product.id;
      MergeStep(all, i);
      if id !in table || rec.score > table[id].score {
        if id !in table {
          order := order + [id];
        }
        table := table[id := rec];
      }
    }
    assert all[..|all|] == all;
    unique := seq(|order|, k requires 0 <= k < |order| => table[order[k]]);  // values()
  }

  // ---------------------------------------------------------------------
  // The personalized list

  /** The scorer's top five for each non-empty category name, concatenated in category order. */
  function Gathered(rules: seq<Rule>, products: seq<Product>, categories: seq<string>, shopper: Shopper): seq<Recommendation>
    requires Antecedented(rules)
  {
    if categories == [] then []
    else
      var c := categories[|categories| - 1];
      Gathered(rules, products, categories[..|categories| - 1], shopper)
        + (if c != "" then RecommendedProducts(rules, products, Some(c), Some(shopper), 5) else [])
  }

  /** The result of `get_personalized_recommendations`. */
  function Personalized(rules: seq<Rule>, products: seq<Product>, categories: seq<string>,
                        shopper: Shopper, limit: int): seq<Recommendation>
    requires Antecedented(rules)
  {
    TakePy(SortDesc(Deduplicated(Gathered(rules, products, categories, shopper)), ScoreKey), limit)
  }

  /** `e` is the scorer's entry for an in-stock product of one of the (non-empty) category names. */
  predicate ScorerEntry(rules: seq<Rule>, products: seq<Product>, categories: seq<string>, shopper: Shopper,
                        e: Recommendation)
    requires Antecedented(rules)
  {
    e.product in products && e.product.stock > 0 && e.product.categoryName in categories
    && e.product.categoryName != "" && e.score > 0.0
    && Recommend(rules, e.product, Some(shopper)) == Some(e)
  }

  /** Every gathered entry is the scorer's entry for an in-stock product of one of the categories. */
  lemma {:induction false} GatheredFacts(rules: seq<Rule>, products: seq<Product>, categories: seq<string>, shopper: Shopper)
    requires Antecedented(rules)
    ensures forall r :: r in Gathered(rules, products, categories, shopper) ==>
      ScorerEntry(rules, products, categories, shopper, r)
    decreases |categories|
  {
    if categories != [] {
      var init := categories[..|categories| - 1];
      var c := categories[|categories| - 1];
      GatheredFacts(rules, products, init, shopper);
      RecommendedProductsFacts(rules, products, Some(c), Some(shopper), 5);
      assert forall x :: x in init ==> x in categories;
    }
  }

  /**
   * The personalized list has at most `limit` entries for a non-negative
   * limit, is sorted by score, and lists each product at most once.
   */
  lemma PersonalizedShape(rules: seq<Rule>, products: seq<Product>, categories: seq<string>,
                          shopper: Shopper, limit: int)
    requires Antecedented(rules)
    ensures var out := Personalized(rules, products, categories, shopper, limit);
      && (limit >= 0 ==> |out| <= limit)
      && SortedDesc(out, ScoreKey)
      && DistinctIds(out)
  {
    var all := Gathered(rules, products, categories, shopper);
    var d := Deduplicated(all);
    var sorted := SortDesc(d, ScoreKey);
    var out := TakePy(sorted, limit);
    DeduplicatedFacts(all);
    SortDescFacts(d, ScoreKey);
    TakePySorted(sorted, limit, ScoreKey);
    DistinctIdsPermuted(d, sorted);
    forall i, j | 0 <= i < j < |out| ensures IdOf(out[i]) != IdOf(out[j]) {
      assert out[i] == sorted[i] && out[j] == sorted[j];
    }
  }

  /**
   * Each personalized entry is the scorer's entry for an in-stock product of
   * one of the shopper's categories, and no gathered entry of the same product
   * outscores it.
   */
  lemma PersonalizedEntries(rules: seq<Rule>, products: seq<Product>, categories: seq<string>,
                            shopper: Shopper, limit: int)
    requires Antecedented(rules)
    ensures var all := Gathered(rules, products, categories, shopper);
      forall e :: e in Personalized(rules, products, categories, shopper, limit) ==>
        BestIn(all, e) && ScorerEntry(rules, products, categories, shopper, e)
  {
    var all := Gathered(rules, products, categories, shopper);
    var d := Deduplicated(all);
    var sorted := SortDesc(d, ScoreKey);
    var out := TakePy(sorted, limit);
    DeduplicatedFacts(all);
    GatheredFacts(rules, products, categories, shopper);
    SortDescFacts(d, ScoreKey);
    forall e | e in out ensures BestIn(all, e) && ScorerEntry(rules, products, categories, shopper, e) {
      assert e in multiset(sorted);
      assert e in d;
    }
  }

  /** A permutation of a list whose entries have distinct ids has distinct ids too. */
  lemma DistinctIdsPermuted(d: seq<Recommendation>, s: seq<Recommendation>)
    requires multiset(d) == multiset(s) && DistinctIds(d)
    ensures DistinctIds(s)
  {
    assert NoDuplicates(d);
    NoDuplicatesPermuted(d, s);
    forall i, j | 0 <= i < j < |s| ensures IdOf(s[i]) != IdOf(s[j]) {
      assert s[i] in multiset(d) && s[j] in multiset(d);
      var a :| 0 <= a < |d| && d[a] == s[i];
      var b :| 0 <= b < |d| && d[b] == s[j];
      assert a != b;
      assert a < b || b < a;
    }
  }

  /** `get_personalized_recommendations`, for the shopper's category names in the given order. */
  method PersonalizedRecommendations(rules: seq<Rule>, products: seq<Product>, categories: seq<string>,
                                     shopper: Shopper, limit: int)
    returns (recommended: seq<Recommendation>)
    requires Antecedented(rules)
    ensures recommended == Personalized(rules, products, categories, shopper, limit)
  {
    var all: seq<Recommendation> := [];
    for i := 0 to |categories|
      invariant all == Gathered(rules, products, categories[..i], shopper)
    {
      var c := categories[i];
      assert categories[..i + 1][..i] == categories[..i];
      if c != "" {
        var recs := RankProducts(rules, products, Some(c), Some(shopper), 5);
        all := all + recs;
      }
    }
    assert categories[..|categories|] == categories;
    var unique := MergeByProduct(all);
    recommended := TakePy(SortDesc(unique, ScoreKey), limit);
  }
}

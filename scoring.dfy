/**
 * The product scorer of `get_recommended_products` and the personalization
 * boost `_calculate_user_personalization_boost`.
 *
 * A product's score is the sum of `confidence * lift` (confidence in percent)
 * over the rules whose consequent meets the product's attributes, plus fixed
 * boosts for sales, stock, price and, for a signed-in shopper, the shopper's
 * interest in the product. Products with a positive score are kept, sorted by
 * score (largest first, a stable sort) and cut to the limit.
 */
module Scoring {
  import opened Wrappers
  import opened Text
  import opened Tokens
  import opened Ranking
  import opened ProductAttributes
  import opened Rules
  import opened Reasons

  /** One entry of the recommendation list. */
  datatype Recommendation = Recommendation(
    product: Product,
    score: real,
    matchingRules: nat,
    reasons: seq<string>,
    totalSold: nat,
    inStock: int,
    attributes: set<Token>)

  /** What the boost reads about the signed-in shopper. */
  datatype Shopper = Shopper(wishlist: set<nat>, cart: set<nat>, purchasedCategories: seq<string>)

  // ---------------------------------------------------------------------
  // Boosts

  /** Wishlist +25, cart +20, same-category purchases +15 (three or more) or +10 (one or two). */
  function PersonalizationBoost(inWishlist: bool, inCart: bool, similarPurchases: nat): (boost: real)
    ensures 0.0 <= boost <= 60.0
    ensures boost == 0.0 <==> !inWishlist && !inCart && similarPurchases == 0
    ensures boost == 60.0 <==> inWishlist && inCart && similarPurchases >= 3
  {
    (if inWishlist then 25.0 else 0.0)
    + (if inCart then 20.0 else 0.0)
    + (if similarPurchases >= 3 then 15.0 else if similarPurchases >= 1 then 10.0 else 0.0)
  }

  /** The boost never decreases when the shopper shows more interest. */
  lemma PersonalizationBoostMonotone(w1: bool, c1: bool, s1: nat, w2: bool, c2: bool, s2: nat)
    requires (w1 ==> w2) && (c1 ==> c2) && s1 <= s2
    ensures PersonalizationBoost(w1, c1, s1) <= PersonalizationBoost(w2, c2, s2)
  {
  }

  /** The order lines of the shopper in the product's category. */
  function SimilarPurchases(shopper: Shopper, p: Product): nat
  {
    multiset(shopper.purchasedCategories)[p.categoryName]
  }

  function UserBoost(shopper: Shopper, p: Product): real
  {
    PersonalizationBoost(p.id in shopper.wishlist, p.id in shopper.cart, SimilarPurchases(shopper, p))
  }

  function SalesBoost(sold: nat): real
  {
    if sold >= 10 then 30.0 else if sold >= 5 then 20.0 else 0.0
  }

  function StockBoost(stock: int): real
  {
    if stock >= 20 then 15.0 else 0.0
  }

  function PriceBoost(price: real): real
  {
    if price >= 5000.0 then 10.0 else 0.0
  }

  /** The reasons the sales and stock boosts add, in the order they are added. */
  function BoostReasons(sold: nat, stock: int): seq<string>
  {
    (if sold >= 10 then ["Best-selling product"] else if sold >= 5 then ["Popular item"] else [])
    + (if stock >= 20 then ["High availability"] else [])
  }

  /** All heuristic boosts together lie between 0 and 115 (30 + 15 + 10 + 60). */
  lemma HeuristicBoostRange(p: Product, shopper: Option<Shopper>)
    ensures var h := SalesBoost(p.sold) + StockBoost(p.stock) + PriceBoost(p.price)
                     + (if shopper.Some? then UserBoost(shopper.value, p) else 0.0);
      0.0 <= h <= 115.0
  {
    if shopper.Some? {
      var s := shopper.value;
      var b := PersonalizationBoost(p.id in s.wishlist, p.id in s.cart, SimilarPurchases(s, p));
      assert 0.0 <= b <= 60.0;
    }
  }

  // ---------------------------------------------------------------------
  // The rule part of a score

  /** `set(rule['consequent']).intersection(product_attributes)` is not empty. */
  predicate Matches(rule: Rule, attributes: set<Token>)
  {
    Elems(rule.consequent) * attributes != {}
  }

  /** Every rule has an antecedent, as every mined or canned rule does. */
  predicate Antecedented(rules: seq<Rule>)
  {
    forall k :: 0 <= k < |rules| ==> rules[k].antecedent != []
  }

  /** What a matching rule adds to a score: its confidence (in percent) times its lift. */
  function RuleWeight(rule: Rule): real
  {
    rule.confidence * rule.lift
  }

  /** The sum of `confidence * lift` over the matching rules. */
  function RuleScore(rules: seq<Rule>, attributes: set<Token>): real
  {
    if rules == [] then 0.0
    else
      var rule := rules[|rules| - 1];
      RuleScore(rules[..|rules| - 1], attributes) + (if Matches(rule, attributes) then RuleWeight(rule) else 0.0)
  }

  /** The matching rules, in rule order. */
  function MatchingRules(rules: seq<Rule>, attributes: set<Token>): seq<Rule>
  {
    if rules == [] then []
    else
      var rule := rules[|rules| - 1];
      MatchingRules(rules[..|rules| - 1], attributes) + (if Matches(rule, attributes) then [rule] else [])
  }

  /** `if reason and reason not in recommendation_reasons: append` */
  function AddReason(reasons: seq<string>, reason: string): seq<string>
  {
    if reason != "" && reason !in reasons then reasons + [reason] else reasons
  }

  /** The distinct non-empty reasons of the matching rules, in first-seen order. */
  function RuleReasons(rules: seq<Rule>, attributes: set<Token>): seq<string>
    requires Antecedented(rules)
  {
    if rules == [] then []
    else
      var rule := rules[|rules| - 1];
      var before := RuleReasons(rules[..|rules| - 1], attributes);
      if Matches(rule, attributes) then AddReason(before, FormatReason(rule, attributes)) else before
  }

  /** The matching rules are exactly the rules that meet the attributes, in order. */
  lemma {:induction false} MatchingRulesFacts(rules: seq<Rule>, attributes: set<Token>)
    ensures forall rule :: rule in MatchingRules(rules, attributes) <==> rule in rules && Matches(rule, attributes)
    ensures |MatchingRules(rules, attributes)| <= |rules|
    decreases |rules|
  {
    if rules != [] {
      var init := rules[..|rules| - 1];
      assert rules == init + [rules[|rules| - 1]];
      MatchingRulesFacts(init, attributes);
    }
  }

  /** Rules with non-negative confidence and lift give a non-negative rule score. */
  lemma {:induction false} RuleScoreNonNegative(rules: seq<Rule>, attributes: set<Token>)
    requires forall k :: 0 <= k < |rules| ==> rules[k].confidence >= 0.0 && rules[k].lift >= 0.0
    ensures RuleScore(rules, attributes) >= 0.0
    decreases |rules|
  {
    if rules != [] {
      var rule := rules[|rules| - 1];
      RuleScoreNonNegative(rules[..|rules| - 1], attributes);
      NonNegativeProduct(rule.confidence, rule.lift);
    }
  }

  lemma NonNegativeProduct(x: real, y: real)
    requires x >= 0.0 && y >= 0.0
    ensures x * y >= 0.0
  {
  }

  /** A rule score is zero when no rule matches. */
  lemma {:induction false} RuleScoreNoMatch(rules: seq<Rule>, attributes: set<Token>)
    requires forall k :: 0 <= k < |rules| ==> !Matches(rules[k], attributes)
    ensures RuleScore(rules, attributes) == 0.0 && MatchingRules(rules, attributes) == []
    decreases |rules|
  {
    if rules != [] {
      RuleScoreNoMatch(rules[..|rules| - 1], attributes);
    }
  }

  /**
   * The rule reasons hold no repetition, each is a "Customers interested in"
   * sentence, and there are no more of them than matching rules.
   */
  lemma {:induction false} RuleReasonsFacts(rules: seq<Rule>, attributes: set<Token>)
    requires Antecedented(rules)
    ensures NoDuplicates(RuleReasons(rules, attributes))
    ensures forall k :: 0 <= k < |RuleReasons(rules, attributes)| ==>
      IsPrefix(ReasonOpening, RuleReasons(rules, attributes)[k])
    ensures |RuleReasons(rules, attributes)| <= |MatchingRules(rules, attributes)|
    decreases |rules|
  {
    if rules != [] {
      var rule := rules[|rules| - 1];
      var init := rules[..|rules| - 1];
      RuleReasonsFacts(init, attributes);
      var before := RuleReasons(init, attributes);
      if Matches(rule, attributes) {
        var reason := FormatReason(rule, attributes);
        FormatReasonShape(rule, attributes);
        if reason != "" && reason !in before {
          JoinDistinct(before, [reason]);
        }
      }
    }
  }

  /** Every reason of a matching rule is among the rule reasons. */
  lemma {:induction false} RuleReasonsComplete(rules: seq<Rule>, attributes: set<Token>)
    requires Antecedented(rules) && "" !in attributes
    ensures forall k :: 0 <= k < |rules| && Matches(rules[k], attributes) ==>
      FormatReason(rules[k], attributes) in RuleReasons(rules, attributes)
    decreases |rules|
  {
    if rules != [] {
      var init := rules[..|rules| - 1];
      RuleReasonsComplete(init, attributes);
      var rule := rules[|rules| - 1];
      if Matches(rule, attributes) {
        MatchingRuleHasReason(rule, attributes);
      }
      forall k | 0 <= k < |rules| - 1 && Matches(rules[k], attributes)
        ensures FormatReason(rules[k], attributes) in RuleReasons(rules, attributes)
      {
        assert rules[k] == init[k];
      }
    }
  }

  /** No attribute token is empty. */
  lemma AttributesNonEmpty(p: Product)
    ensures "" !in Attributes(p)
  {
    assert |ProductToken(p.id)| >= 8;
    assert |CategoryToken(p.categoryName)| >= 9;
    KeywordTagIsName(p.categoryName);
  }

  // ---------------------------------------------------------------------
  // One product

  /** The score of a product before the `score > 0` filter. */
  function ProductScore(rules: seq<Rule>, p: Product, shopper: Option<Shopper>): real
  {
    RuleScore(rules, Attributes(p))
    + SalesBoost(p.sold) + StockBoost(p.stock) + PriceBoost(p.price)
    + (if shopper.Some? then UserBoost(shopper.value, p) else 0.0)
  }

  /** The entry for one product, if its score is positive. */
  function Recommend(rules: seq<Rule>, p: Product, shopper: Option<Shopper>): Option<Recommendation>
    requires Antecedented(rules)
  {
    var attributes := Attributes(p);
    var score := ProductScore(rules, p, shopper);
    if score > 0.0 then
      Some(Recommendation(p, score, |MatchingRules(rules, attributes)|,
                          TakePy(RuleReasons(rules, attributes) + BoostReasons(p.sold, p.stock), 5),
                          p.sold, p.stock, attributes))
    else None
  }

  /**
   * An entry exists exactly for a positive score; it describes the product,
   * counts the matching rules, and has at most five distinct reasons.
   */
  lemma RecommendFacts(rules: seq<Rule>, p: Product, shopper: Option<Shopper>)
    requires Antecedented(rules)
    ensures Recommend(rules, p, shopper).Some? <==> ProductScore(rules, p, shopper) > 0.0
    ensures match Recommend(rules, p, shopper)
      case None => true
      case Some(r) =>
        && r.product == p && r.score == ProductScore(rules, p, shopper) && r.score > 0.0
        && r.totalSold == p.sold && r.inStock == p.stock && r.attributes == Attributes(p)
        && r.matchingRules == |MatchingRules(rules, Attributes(p))|
        && |r.reasons| <= 5 && NoDuplicates(r.reasons)
  {
    var attributes := Attributes(p);
    var rr := RuleReasons(rules, attributes);
    var br := BoostReasons(p.sold, p.stock);
    RuleReasonsFacts(rules, attributes);
    forall k | 0 <= k < |rr| ensures rr[k] !in br {
      assert IsPrefix(ReasonOpening, rr[k]);
      assert ReasonOpening[0] == 'C';
    }
    JoinDistinct(rr, br);
    PrefixNoDuplicates(rr + br, 5);
  }

  /** A prefix of a list without repetition has none either. */
  lemma PrefixNoDuplicates<T>(s: seq<T>, n: int)
    requires NoDuplicates(s)
    ensures NoDuplicates(TakePy(s, n))
  {
    var r := TakePy(s, n);
    forall i, j | 0 <= i < j < |r| ensures r[i] != r[j] {
      assert r[i] == s[i] && r[j] == s[j];
    }
  }

  /** Without a matching rule, a product opens its reasons with its boost reasons. */
  lemma BoostReasonsOnly(rules: seq<Rule>, p: Product, shopper: Option<Shopper>)
    requires Antecedented(rules)
    requires forall k :: 0 <= k < |rules| ==> !Matches(rules[k], Attributes(p))
    requires Recommend(rules, p, shopper).Some?
    ensures Recommend(rules, p, shopper).value.reasons == BoostReasons(p.sold, p.stock)
    ensures Recommend(rules, p, shopper).value.matchingRules == 0
  {
    RuleScoreNoMatch(rules, Attributes(p));
    NoMatchNoReasons(rules, Attributes(p));
  }

  lemma {:induction false} NoMatchNoReasons(rules: seq<Rule>, attributes: set<Token>)
    requires Antecedented(rules)
    requires forall k :: 0 <= k < |rules| ==> !Matches(rules[k], attributes)
    ensures RuleReasons(rules, attributes) == []
    decreases |rules|
  {
    if rules != [] {
      NoMatchNoReasons(rules[..|rules| - 1], attributes);
    }
  }

  /** One more rule: the three accumulators of the scorer advance together. */
  lemma ScoreStep(rules: seq<Rule>, i: nat, attributes: set<Token>)
    requires Antecedented(rules) && i < |rules|
    ensures var rule := rules[i];
      && RuleScore(rules[..i + 1], attributes) ==
           RuleScore(rules[..i], attributes) + (if Matches(rule, attributes) then RuleWeight(rule) else 0.0)
      && MatchingRules(rules[..i + 1], attributes) ==
           MatchingRules(rules[..i], attributes) + (if Matches(rule, attributes) then [rule] else [])
      && RuleReasons(rules[..i + 1], attributes) ==
           (if Matches(rule, attributes) then AddReason(RuleReasons(rules[..i], attributes), FormatReason(rule, attributes))
            else RuleReasons(rules[..i], attributes))
  {
    assert rules[..i + 1][..i] == rules[..i];
  }

  /** Append a matching rule's reason unless it is empty or already listed. */
  method AppendReason(reasons: seq<string>, rule: Rule, attributes: set<Token>) returns (next: seq<string>)
    requires rule.antecedent != []
    ensures next == AddReason(reasons, FormatReason(rule, attributes))
  {
    var reason := FormatReason(rule, attributes);
    next := reasons;
    if reason != "" && reason !in reasons {
      next := reasons + [reason];
    }
  }

  /** The loop over the rules for one product: the running score, matching rules and reasons. */
  method TallyRules(rules: seq<Rule>, attributes: set<Token>)
    returns (score: real, matching: seq<Rule>, reasons: seq<string>)
    requires Antecedented(rules)
    ensures score == RuleScore(rules, attributes)
    ensures matching == MatchingRules(rules, attributes)
    ensures reasons == RuleReasons(rules, attributes)
  {
    score := 0.0;
    matching := [];
    reasons := [];
    var i := 0;
    while i < |rules|
      invariant 0 <= i <= |rules|
      invariant score == RuleScore(rules[..i], attributes)
      invariant matching == MatchingRules(rules[..i], attributes)
      invariant reasons == RuleReasons(rules[..i], attributes)
    {
      var rule := rules[i];
      ScoreStep(rules, i, attributes);
      if Elems(rule.consequent) * attributes != {} {
        score := score + RuleWeight(rule);
        matching := matching + [rule];
        reasons := AppendReason(reasons, rule, attributes);
      }
      i := i + 1;
    }
    assert rules[..|rules|] == rules;
  }

  /** The loop body of the scorer for one product. */
  method ScoreProduct(rules: seq<Rule>, p: Product, shopper: Option<Shopper>) returns (rec: Option<Recommendation>)
    requires Antecedented(rules)
    ensures rec == Recommend(rules, p, shopper)
  {
    var attributes := BuildAttributes(p);
    var score, matching, reasons := TallyRules(rules, attributes);
    ghost var ruleScore, ruleReasons := score, reasons;
    var totalSold := p.sold;
    if totalSold >= 10 {
      score := score + 30.0;
      reasons := reasons + ["Best-selling product"];
    } else if totalSold >= 5 {
      score := score + 20.0;
      reasons := reasons + ["Popular item"];
    }
    if p.stock >= 20 {
      score := score + 15.0;
      reasons := reasons + ["High availability"];
    }
    assert reasons == ruleReasons + BoostReasons(p.sold, p.stock);
    if p.price >= 5000.0 {
      score := score + 10.0;
    }
    assert score == ruleScore + SalesBoost(p.sold) + StockBoost(p.stock) + PriceBoost(p.price);
    if shopper.Some? {
      var userBoost := UserBoost(shopper.value, p);
      score := score + userBoost;
    }
    assert score == ProductScore(rules, p, shopper);
    if score > 0.0 {
      rec := Some(Recommendation(p, score, |matching|, TakePy(reasons, 5), totalSold, p.stock, attributes));
    } else {
      rec := None;
    }
  }

  // ---------------------------------------------------------------------
  // The list

  /** `stock > 0`, and the requested category when there is one. */
  predicate Eligible(p: Product, category: Option<string>)
  {
    p.stock > 0 && (category.None? || p.categoryName == category.value)
  }

  /** The entries of the eligible products with a positive score, in catalogue order. */
  function Scored(rules: seq<Rule>, products: seq<Product>, category: Option<string>, shopper: Option<Shopper>): seq<Recommendation>
    requires Antecedented(rules)
  {
    if products == [] then []
    else
      var p := products[|products| - 1];
      var rec := if Eligible(p, category) then Recommend(rules, p, shopper) else None;
      Scored(rules, products[..|products| - 1], category, shopper) + (if rec.Some? then [rec.value] else [])
  }

  function ScoreKey(r: Recommendation): Key
  {
    Key(r.score, 0.0)
  }

  /** The result of `get_recommended_products`. */
  function RecommendedProducts(rules: seq<Rule>, products: seq<Product>, category: Option<string>,
                               shopper: Option<Shopper>, limit: int): seq<Recommendation>
    requires Antecedented(rules)
  {
    TakePy(SortDesc(Scored(rules, products, category, shopper), ScoreKey), limit)
  }

  /** The scored entries are those of the eligible products with a positive score. */
  lemma {:induction false} ScoredFacts(rules: seq<Rule>, products: seq<Product>, category: Option<string>, shopper: Option<Shopper>)
    requires Antecedented(rules)
    ensures forall r :: r in Scored(rules, products, category, shopper) ==>
      r.product in products && Eligible(r.product, category) && Recommend(rules, r.product, shopper) == Some(r)
    ensures forall p :: p in products && Eligible(p, category) && Recommend(rules, p, shopper).Some? ==>
      Recommend(rules, p, shopper).value in Scored(rules, products, category, shopper)
    decreases |products|
  {
    if products != [] {
      var init := products[..|products| - 1];
      assert products == init + [products[|products| - 1]];
      ScoredFacts(rules, init, category, shopper);
    }
  }

  /** The element at position `m` of a sorted list scores no more than any before it. */
  lemma SortedPrefixDominates(s: seq<Recommendation>, m: nat, i: nat)
    requires SortedDesc(s, ScoreKey) && i < m < |s|
    ensures s[i].score >= s[m].score
  {
    assert !KeyLess(ScoreKey(s[i]), ScoreKey(s[m]));
  }

  /**
   * The scorer's guarantees: at most `limit` entries for a non-negative limit,
   * each one the real entry of an eligible catalogue product with a positive
   * score and at most five distinct reasons; sorted by score, largest first;
   * and any eligible product with a positive score that is missing was cut by
   * the limit and scores no more than every entry kept.
   */
  lemma RecommendedProductsFacts(rules: seq<Rule>, products: seq<Product>, category: Option<string>,
                                 shopper: Option<Shopper>, limit: int)
    requires Antecedented(rules)
    ensures var out := RecommendedProducts(rules, products, category, shopper, limit);
      && (limit >= 0 ==> |out| <= limit)
      && SortedDesc(out, ScoreKey)
      && (forall r :: r in out ==>
            r.product in products && Eligible(r.product, category) && r.score > 0.0
            && |r.reasons| <= 5 && NoDuplicates(r.reasons)
            && Recommend(rules, r.product, shopper) == Some(r))
  {
    var all := Scored(rules, products, category, shopper);
    var sorted := SortDesc(all, ScoreKey);
    var out := TakePy(sorted, limit);
    SortDescFacts(all, ScoreKey);
    TakePySorted(sorted, limit, ScoreKey);
    ScoredFacts(rules, products, category, shopper);
    forall r | r in out
      ensures r.product in products && Eligible(r.product, category) && r.score > 0.0
            && |r.reasons| <= 5 && NoDuplicates(r.reasons)
            && Recommend(rules, r.product, shopper) == Some(r)
    {
      assert r in multiset(sorted);
      assert r in all;
      RecommendFacts(rules, r.product, shopper);
    }
  }

  /** A missing eligible product with a positive score lost only to the limit. */
  lemma RecommendedProductsTop(rules: seq<Rule>, products: seq<Product>, category: Option<string>,
                               shopper: Option<Shopper>, limit: int, p: Product)
    requires Antecedented(rules)
    requires p in products && Eligible(p, category) && Recommend(rules, p, shopper).Some?
    ensures var out := RecommendedProducts(rules, products, category, shopper, limit);
      Recommend(rules, p, shopper).value in out ||
      forall r :: r in out ==> r.score >= Recommend(rules, p, shopper).value.score
  {
    var all := Scored(rules, products, category, shopper);
    var sorted := SortDesc(all, ScoreKey);
    var out := TakePy(sorted, limit);
    var x := Recommend(rules, p, shopper).value;
    SortDescFacts(all, ScoreKey);
    ScoredFacts(rules, products, category, shopper);
    assert x in multiset(sorted);
    var m :| 0 <= m < |sorted| && sorted[m] == x;
    if m >= |out| {
      forall r | r in out ensures r.score >= x.score {
        var i :| 0 <= i < |out| && out[i] == r;
        assert out[i] == sorted[i];
        SortedPrefixDominates(sorted, m, i);
      }
    } else {
      assert out[m] == x;
    }
  }

  /** `get_recommended_products`: score every eligible product, sort, cut. */
  method RankProducts(rules: seq<Rule>, products: seq<Product>, category: Option<string>,
                      shopper: Option<Shopper>, limit: int)
    returns (recommended: seq<Recommendation>)
    requires Antecedented(rules)
    ensures recommended == RecommendedProducts(rules, products, category, shopper, limit)
  {
    var found: seq<Recommendation> := [];
    var i := 0;
    while i < |products|
      invariant 0 <= i <= |products|
      invariant found == Scored(rules, products[..i], category, shopper)
    {
      var p := products[i];
      assert products[..i + 1][..i] == products[..i];
      if p.stock > 0 && (category.None? || p.categoryName == category.value) {
        var rec := ScoreProduct(rules, p, shopper);
        if rec.Some? {
          found := found + [rec.value];
        }
      }
      i := i + 1;
    }
    assert products[..|products|] == products;
    recommended := TakePy(SortDesc(found, ScoreKey), limit);
  }
}

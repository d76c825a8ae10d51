/**
 * `run_product_recommendation_analysis` end to end: thresholds, the
 * level-wise search, the support lookup, rule generation and the final sort
 * by confidence, then support (largest first); and the two entry points that
 * run it before scoring: `get_recommended_products` and
 * `get_personalized_recommendations`.
 */
module Engine {
  import opened Wrappers
  import opened Text
  import opened Ranking
  import opened Thresholds
  import opened Apriori
  import opened Rules
  import opened ProductAttributes
  import opened Scoring
  import opened Personalize

  /** The constructor defaults of the algorithm and of the analysis. */
  const DefaultMinSupport: real := 2.0
  const DefaultMinConfidence: real := 50.0
  const DefaultMaxItemsetLength: int := 3

  /** The canned rules returned when there are no transactions. */
  const SampleRules: seq<Rule> := [
    Rule(["Category_Electronics", "Price_Medium"], ["Tech_Product", "Popular_Item"], 12.5, 75.3, 2.1),
    Rule(["Wishlist_Item", "Category_Books"], ["Budget_Product", "Category_Stationery"], 8.7, 68.9, 1.8),
    Rule(["Purchased_Product", "High_Value_Purchase"], ["Premium_Product", "Best_Seller"], 15.2, 82.1, 2.3)
  ]

  /** The rule order: by confidence, then by support. */
  function RuleKey(rule: Rule): Key
  {
    Key(rule.confidence, rule.support)
  }

  /** The support threshold in transactions for `n` transactions. */
  function SupportCountFor(minSupport: Option<real>, n: nat): int
  {
    MinSupportCount(ToFraction(minSupport), n)
  }

  /**
   * The constructor defaults read as percentages: rules need two percent
   * support, that is at least `ceil(0.02 * n)` of `n` transactions, and fifty
   * percent confidence.
   */
  lemma DefaultThresholds(n: nat)
    ensures ToFraction(Some(DefaultMinSupport)) == 0.02
    ensures ToFraction(Some(DefaultMinConfidence)) == 0.5
    ensures SupportCountFor(Some(DefaultMinSupport), n) == Ceil(0.02 * n as real)
  {
  }

  /**
   * What the analysis returns for non-empty transactions: every rule is the
   * rule of a proper non-empty split of a frequent itemset of two to `maxLen`
   * tokens; every such split that passes the filters is there; no rule is
   * listed twice; and the list is sorted by confidence, then support.
   */
  ghost predicate MinedRules(ts: Transactions, minSupport: Option<real>, minConfidence: Option<real>, maxLen: int,
                             rules: seq<Rule>)
    requires |ts| > 0
  {
    var minCount := SupportCountFor(minSupport, |ts|);
    var minConf := ToFraction(minConfidence);
    && (forall rule :: rule in rules ==>
          var i := Origin(rule);
          2 <= |i| <= maxLen && Frequent(ts, minCount, i) &&
          exists a :: a != {} && a < i && RuleFor(ts, minConf, i, a) == Some(rule))
    && (forall i, a ::
          (2 <= |i| <= maxLen && Frequent(ts, minCount, i) && a != {} && a < i && RuleFor(ts, minConf, i, a).Some?)
          ==> RuleFor(ts, minConf, i, a).value in rules)
    && NoDuplicates(rules)
    && SortedDesc(rules, RuleKey)
  }

  /** The result of the analysis: the canned rules without transactions, the mined rules otherwise. */
  ghost predicate AnalysisResult(ts: Transactions, minSupport: Option<real>, minConfidence: Option<real>, maxLen: int,
                                 rules: seq<Rule>)
  {
    if |ts| == 0 then rules == SampleRules else MinedRules(ts, minSupport, minConfidence, maxLen, rules)
  }

  /** An emitted rule always has an antecedent: a non-empty set listed in order. */
  lemma SplitRuleAntecedented(ts: Transactions, minConf: real, i: Itemset, a: Itemset, rule: Rule)
    requires |ts| > 0 && a != {} && RuleFor(ts, minConf, i, a) == Some(rule)
    ensures rule.antecedent != []
  {
    assert rule.antecedent == Sorted(a);
  }

  /** The mined rules, and the canned ones, can all be given to the scorer. */
  lemma AnalysisAntecedented(ts: Transactions, minSupport: Option<real>, minConfidence: Option<real>, maxLen: int,
                             rules: seq<Rule>)
    requires AnalysisResult(ts, minSupport, minConfidence, maxLen, rules)
    ensures Antecedented(rules)
  {
    if |ts| > 0 {
      var minConf := ToFraction(minConfidence);
      forall k | 0 <= k < |rules| ensures rules[k].antecedent != [] {
        var rule := rules[k];
        assert rule in rules;
        var a :| a != {} && a < Origin(rule) && RuleFor(ts, minConf, Origin(rule), a) == Some(rule);
        SplitRuleAntecedented(ts, minConf, Origin(rule), a, rule);
      }
    }
  }

  /** Every generated rule, once sorted, is the rule of a split of a frequent itemset of two to `maxLen` tokens. */
  lemma MinedRulesSound(ts: Transactions, minCount: int, minConf: real, maxLen: int,
                        levels: seq<map<Itemset, nat>>, sc: map<Itemset, nat>, unsorted: seq<Rule>)
    requires |ts| > 0 && MiningResult(ts, minCount, maxLen, levels)
    requires RulesOfLevels(ts, minConf, sc, levels, unsorted)
    ensures forall rule :: rule in SortDesc(unsorted, RuleKey) ==>
      var i := Origin(rule);
      2 <= |i| <= maxLen && Frequent(ts, minCount, i) &&
      exists a :: a != {} && a < i && RuleFor(ts, minConf, i, a) == Some(rule)
  {
    var rules := SortDesc(unsorted, RuleKey);
    SortDescFacts(unsorted, RuleKey);
    forall rule | rule in rules
      ensures var i := Origin(rule);
        2 <= |i| <= maxLen && Frequent(ts, minCount, i) &&
        exists a :: a != {} && a < i && RuleFor(ts, minConf, i, a) == Some(rule)
    {
      assert rule in multiset(rules);
      assert rule in unsorted;
      var i := Origin(rule);
      MiningSound(ts, minCount, maxLen, levels, |i| - 1, i);
      var a :| SplitRule(ts, minConf, sc, i, a, rule);
    }
  }

  /**
   * Every split of a frequent itemset of two to `maxLen` tokens that passes
   * the filters is generated: the itemset is in the levels, and its
   * antecedent, being frequent too, is in the lookup.
   */
  lemma MinedRulesComplete(ts: Transactions, minCount: int, minConf: real, maxLen: int,
                           levels: seq<map<Itemset, nat>>, sc: map<Itemset, nat>, unsorted: seq<Rule>,
                           i: Itemset, a: Itemset)
    requires |ts| > 0 && MiningResult(ts, minCount, maxLen, levels)
    requires forall c :: c in sc <==> 1 <= |c| <= |levels| && c in levels[|c| - 1]
    requires RulesOfLevels(ts, minConf, sc, levels, unsorted)
    requires 2 <= |i| <= maxLen && Frequent(ts, minCount, i) && a != {} && a < i
    requires RuleFor(ts, minConf, i, a).Some?
    ensures RuleFor(ts, minConf, i, a).value in unsorted
  {
    MiningComplete(ts, minCount, maxLen, levels, i);
    FrequentDownward(ts, minCount, a, i);
    ProperSubsetCard(a, i);
    MiningComplete(ts, minCount, maxLen, levels, a);
    assert InLevels(levels, i) && a in sc;
  }

  /** From the generator's guarantee on the mined levels to the analysis result. */
  lemma MinedRulesFromLevels(ts: Transactions, minSupport: Option<real>, minConfidence: Option<real>, maxLen: int,
                             levels: seq<map<Itemset, nat>>, sc: map<Itemset, nat>, unsorted: seq<Rule>)
    requires |ts| > 0
    requires MiningResult(ts, SupportCountFor(minSupport, |ts|), maxLen, levels)
    requires forall c :: c in sc <==> 1 <= |c| <= |levels| && c in levels[|c| - 1]
    requires RulesOfLevels(ts, ToFraction(minConfidence), sc, levels, unsorted)
    ensures MinedRules(ts, minSupport, minConfidence, maxLen, SortDesc(unsorted, RuleKey))
  {
    var minCount := SupportCountFor(minSupport, |ts|);
    var minConf := ToFraction(minConfidence);
    var rules := SortDesc(unsorted, RuleKey);
    SortDescFacts(unsorted, RuleKey);
    NoDuplicatesPermuted(unsorted, rules);
    MinedRulesSound(ts, minCount, minConf, maxLen, levels, sc, unsorted);
    forall i, a | 2 <= |i| <= maxLen && Frequent(ts, minCount, i) && a != {} && a < i
                  && RuleFor(ts, minConf, i, a).Some?
      ensures RuleFor(ts, minConf, i, a).value in rules
    {
      MinedRulesComplete(ts, minCount, minConf, maxLen, levels, sc, unsorted, i, a);
      assert RuleFor(ts, minConf, i, a).value in multiset(unsorted);
    }
  }

  /**
   * `run_product_recommendation_analysis`. The order of the unsorted rules
   * follows set iteration; the sort fixes the order up to ties.
   */
  method AnalyzeRules(ts: Transactions, minSupport: Option<real>, minConfidence: Option<real>, maxLen: int)
    returns (rules: seq<Rule>)
    ensures AnalysisResult(ts, minSupport, minConfidence, maxLen, rules)
  {
    if |ts| == 0 {
      return SampleRules;
    }
    var n := |ts|;
    var minSupportFrac := ToFraction(minSupport);
    var minConfidenceFrac := ToFraction(minConfidence);
    var minSupportCount := MinSupportCount(minSupportFrac, n);
    var levels, itemCounts := Mine(ts, minSupportCount, maxLen);
    if levels == [] {
      // no frequent single token: hence no frequent itemset at all
      NoFrequentItemsets(ts, minSupportCount, maxLen);
      return [];
    }
    var sc := SupportLookup(levels);
    MergedExact(ts, minSupportCount, levels);
    var unsorted := GenerateRules(ts, minConfidenceFrac, minSupportCount, levels, sc, itemCounts);
    MinedRulesFromLevels(ts, minSupport, minConfidence, maxLen, levels, sc, unsorted);
    rules := SortDesc(unsorted, RuleKey);
  }

  /** Without a frequent single token nothing is frequent. */
  lemma NoFrequentItemsets(ts: Transactions, minCount: int, maxLen: int)
    requires MiningResult(ts, minCount, maxLen, [])
    ensures forall i :: |i| >= 1 ==> !Frequent(ts, minCount, i)
  {
    forall i | |i| >= 1 ensures !Frequent(ts, minCount, i) {
      var x :| x in i;
      assert |{x}| == 1;
      SupportAntiMonotone(ts, {x}, i);
    }
  }

  /**
   * The canned rules are returned as listed, not in rule order (the third has
   * the highest confidence), and every one has an antecedent.
   */
  lemma SampleRulesFacts()
    ensures !SortedDesc(SampleRules, RuleKey)
    ensures Antecedented(SampleRules)
  {
    assert KeyLess(RuleKey(SampleRules[0]), RuleKey(SampleRules[2]));
  }

  /**
   * `get_recommended_products` with the default search depth: the analysis
   * result, scored over the catalogue.
   */
  method GetRecommendedProducts(ts: Transactions, minSupport: Option<real>, minConfidence: Option<real>,
                                products: seq<Product>, category: Option<string>, shopper: Option<Shopper>, limit: int)
    returns (recommended: seq<Recommendation>)
    ensures exists rules ::
      && AnalysisResult(ts, minSupport, minConfidence, DefaultMaxItemsetLength, rules)
      && Antecedented(rules)
      && recommended == RecommendedProducts(rules, products, category, shopper, limit)
  {
    var rules := AnalyzeRules(ts, minSupport, minConfidence, DefaultMaxItemsetLength);
    AnalysisAntecedented(ts, minSupport, minConfidence, DefaultMaxItemsetLength, rules);
    recommended := RankProducts(rules, products, category, shopper, limit);
  }

  /**
   * `get_personalized_recommendations` with the default search depth, for the
   * shopper's category names in the given order.
   */
  method GetPersonalizedRecommendations(ts: Transactions, minSupport: Option<real>, minConfidence: Option<real>,
                                        products: seq<Product>, categories: seq<string>, shopper: Shopper, limit: int)
    returns (recommended: seq<Recommendation>)
    ensures exists rules ::
      && AnalysisResult(ts, minSupport, minConfidence, DefaultMaxItemsetLength, rules)
      && Antecedented(rules)
      && recommended == Personalized(rules, products, categories, shopper, limit)
  {
    var rules := AnalyzeRules(ts, minSupport, minConfidence, DefaultMaxItemsetLength);
    AnalysisAntecedented(ts, minSupport, minConfidence, DefaultMaxItemsetLength, rules);
    recommended := PersonalizedRecommendations(rules, products, categories, shopper, limit);
  }
}

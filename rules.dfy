/**
 * Step 4 of `run_product_recommendation_analysis`: splitting every frequent
 * itemset of size at least 2 into antecedent and consequent and keeping the
 * splits whose consequent is actionable, whose confidence reaches the
 * minimum and whose lift is at least 1.
 *
 * Ratios are exact reals; the source rounds support, confidence and lift to
 * two decimals for display, which the model does not do.
 */
module Rules {
  import opened Wrappers
  import opened Text
  import opened Tokens
  import opened Apriori

  /** One association rule; support and confidence are percentages. */
  datatype Rule = Rule(antecedent: seq<Token>, consequent: seq<Token>, support: real, confidence: real, lift: real)

  /** The itemset a rule was split from. */
  function Origin(rule: Rule): Itemset
  {
    Elems(rule.antecedent) + Elems(rule.consequent)
  }

  // ---------------------------------------------------------------------
  // Specification

  /**
   * The largest single-token count among the tokens of `c` (0 for the empty
   * set): the consequent support of the source is this count over `n`.
   */
  function MaxTokenCount(ts: Transactions, c: set<Token>): nat
    decreases |c|
  {
    if c == {} then 0
    else
      var t := Least(c);
      var rest := MaxTokenCount(ts, c - {t});
      if TokenCount(ts, t) < rest then rest else TokenCount(ts, t)
  }

  /** `MaxTokenCount` is the maximum: an upper bound that some token reaches. */
  lemma {:induction false} MaxTokenCountIsMax(ts: Transactions, c: set<Token>)
    ensures forall t :: t in c ==> TokenCount(ts, t) <= MaxTokenCount(ts, c)
    ensures c == {} ==> MaxTokenCount(ts, c) == 0
    ensures c != {} ==> exists t :: t in c && TokenCount(ts, t) == MaxTokenCount(ts, c)
    decreases |c|
  {
    if c != {} {
      var t := Least(c);
      var rest := c - {t};
      MaxTokenCountIsMax(ts, rest);
      if rest == {} {
        assert c == {t};
      } else {
        var u :| u in rest && TokenCount(ts, u) == MaxTokenCount(ts, rest);
        assert TokenCount(ts, t) < MaxTokenCount(ts, rest) ==> TokenCount(ts, u) == MaxTokenCount(ts, c);
      }
    }
  }

  /**
   * The confidence `sup_xy_frac / (antecedent_count / n)`; over exact
   * reals that is the joint count over the antecedent count
   * (`SourceConfidence` below).
   */
  function ConfidenceOf(joint: nat, ante: nat): real
    requires ante > 0
  {
    joint as real / ante as real
  }

  /**
   * The lift `sup_xy_frac / ((antecedent_count / n) * consequent_support)`
   * with the consequent support `maxCons / n`, and 0 when that support is
   * 0; over exact reals that is `joint · n / (ante · maxCons)`
   * (`SourceLift` below).
   */
  function LiftOf(joint: nat, ante: nat, maxCons: nat, n: nat): real
    requires ante > 0 && n > 0
  {
    if maxCons > 0 then (joint * n) as real / (ante * maxCons) as real else 0.0
  }

  function Confidence(ts: Transactions, itemset: Itemset, ante: Itemset): real
    requires |ts| > 0 && Support(ts, ante) > 0
  {
    ConfidenceOf(Support(ts, itemset), Support(ts, ante))
  }

  function Lift(ts: Transactions, itemset: Itemset, ante: Itemset): real
    requires |ts| > 0 && Support(ts, ante) > 0
  {
    LiftOf(Support(ts, itemset), Support(ts, ante), MaxTokenCount(ts, itemset - ante), |ts|)
  }

  /**
   * The rule the source emits for the split of `itemset` with antecedent
   * `ante`, if any, in the order of its tests: actionable consequent, a
   * non-zero antecedent count, the confidence floor, then the lift floor.
   */
  function RuleFor(ts: Transactions, minConf: real, itemset: Itemset, ante: Itemset): Option<Rule>
    requires |ts| > 0
  {
    if !IsInterestingConsequent(itemset - ante) || Support(ts, ante) == 0 then None
    else if Confidence(ts, itemset, ante) < minConf then None
    else if Lift(ts, itemset, ante) < 1.0 then None
    else Some(Rule(Sorted(ante), Sorted(itemset - ante),
                   Support(ts, itemset) as real / |ts| as real * 100.0,
                   Confidence(ts, itemset, ante) * 100.0,
                   Lift(ts, itemset, ante)))
  }

  /** A rule the generator emits for `itemset`: a proper, non-empty antecedent found in the lookup. */
  ghost predicate SplitRule(ts: Transactions, minConf: real, sc: map<Itemset, nat>, itemset: Itemset, ante: Itemset, rule: Rule)
  {
    |ts| > 0 && ante != {} && ante < itemset && ante in sc && RuleFor(ts, minConf, itemset, ante) == Some(rule)
  }

  /** The textbook lift of the split, with the joint support of the consequent. */
  function JointLift(ts: Transactions, itemset: Itemset, ante: Itemset): real
    requires |ts| > 0 && Support(ts, ante) > 0 && Support(ts, itemset - ante) > 0
  {
    (Support(ts, itemset) * |ts|) as real / (Support(ts, ante) * Support(ts, itemset - ante)) as real
  }

  // ---------------------------------------------------------------------
  // Arithmetic of ratios

  /** `x` is the ratio `num / den` of two naturals with a positive denominator. */
  predicate IsRatio(x: real, num: int, den: int)
  {
    den > 0 && x == num as real / den as real
  }

  lemma SupportPercentRatio(joint: nat, n: nat)
    requires n > 0
    ensures IsRatio(joint as real / n as real * 100.0, joint * 100, n)
  {
    Percent(joint as real, n as real);
  }

  /** The source's confidence expression is the ratio of the counts. */
  lemma SourceConfidence(supXY: real, antFrac: real, joint: nat, ante: nat, n: nat)
    requires ante > 0 && n > 0
    requires supXY == joint as real / n as real && antFrac == ante as real / n as real
    ensures supXY / antFrac == ConfidenceOf(joint, ante)
  {
    FracOverFrac(joint as real, ante as real, n as real);
  }

  lemma ConfidencePercent(joint: nat, ante: nat)
    requires ante > 0
    ensures IsRatio(ConfidenceOf(joint, ante) * 100.0, joint * 100, ante)
  {
    Percent(joint as real, ante as real);
  }

  /** The source's lift expression, including its guard on the consequent support. */
  lemma SourceLift(supXY: real, antFrac: real, consSupport: real, joint: nat, ante: nat, maxCons: nat, n: nat)
    requires ante > 0 && n > 0
    requires supXY == joint as real / n as real && antFrac == ante as real / n as real
    requires consSupport == maxCons as real / n as real
    ensures (if consSupport > 0.0 then supXY / (antFrac * consSupport) else 0.0) == LiftOf(joint, ante, maxCons, n)
  {
    DivOrder(0.0, maxCons as real, n as real);
    if maxCons > 0 {
      LiftClosedForm(joint as real, ante as real, maxCons as real, n as real);
      assert (joint * n) as real == joint as real * n as real;
      assert (ante * maxCons) as real == ante as real * maxCons as real;
    }
  }

  lemma LiftRatio(joint: nat, ante: nat, maxCons: nat, n: nat)
    requires ante > 0 && n > 0
    ensures maxCons == 0 || joint == 0 ==> LiftOf(joint, ante, maxCons, n) == 0.0
    ensures maxCons > 0 ==> IsRatio(LiftOf(joint, ante, maxCons, n), joint * n, ante * maxCons)
  {
    if maxCons > 0 {
      MulPositive(ante, maxCons);
    }
  }

  /** A ratio whose numerator is at most `k` times its denominator is at most `k`. */
  lemma RatioAtMost(x: real, num: int, den: int, k: nat)
    requires IsRatio(x, num, den) && num <= k * den
    ensures x <= k as real
  {
    assert x * den as real == num as real;
    assert num as real <= k as real * den as real;
  }

  /** Of two ratios with the same numerator, the one with the larger denominator is smaller. */
  lemma RatioAntitone(x: real, y: real, num: int, d1: int, d2: int)
    requires num >= 0 && IsRatio(x, num, d1) && IsRatio(y, num, d2) && d2 <= d1
    ensures x <= y
  {
    DivideByLarger(num as real, d2 as real, d1 as real);
  }

  lemma MulPositive(a: nat, b: nat)
    requires a > 0 && b > 0
    ensures a * b > 0
  {
  }

  lemma MulNonNegative(a: nat, b: nat)
    ensures a * b >= 0
  {
  }

  lemma MulMonotone(a: nat, b: nat, c: nat)
    requires b <= c
    ensures a * b <= a * c
  {
  }

  lemma FracOverFrac(a: real, b: real, n: real)
    requires b > 0.0 && n > 0.0
    ensures (a / n) / (b / n) == a / b
  {
    var x := a / n;
    var y := b / n;
    assert x * n == a && y * n == b;
    assert y > 0.0;
    assert (x / y) * b == (x / y) * y * n == x * n;
  }

  lemma Percent(a: real, b: real)
    requires b > 0.0
    ensures (a / b) * 100.0 == a * 100.0 / b
  {
    var q := a / b;
    assert q * b == a;
    assert (q * 100.0) * b == a * 100.0;
  }

  lemma LiftClosedForm(sI: real, sA: real, m: real, n: real)
    requires sA > 0.0 && m > 0.0 && n > 0.0
    ensures (sI / n) / ((sA / n) * (m / n)) == sI * n / (sA * m)
  {
    var x, y, z := sI / n, sA / n, m / n;
    assert x * n == sI && y * n == sA && z * n == m;
    assert y * z > 0.0;
    var q := x / (y * z);
    assert q * (y * z) == x;
    assert q * (sA * m) == q * (y * z) * n * n == x * n * n == sI * n;
  }

  lemma DivOrder(a: real, b: real, n: real)
    requires n > 0.0
    ensures a < b <==> a / n < b / n
  {
    assert (a / n) * n == a && (b / n) * n == b;
    if a / n < b / n {
      assert (a / n) * n < (b / n) * n;
    }
  }

  lemma DivideByLarger(a: real, b: real, c: real)
    requires a >= 0.0 && 0.0 < b <= c
    ensures a / c <= a / b
  {
    var p, q := a / c, a / b;
    assert p * c == a && q * b == a;
    assert q >= 0.0;
    assert q * b <= q * c;
  }

  // ---------------------------------------------------------------------
  // Properties of a single split

  /** The tests an emitted rule has passed. */
  lemma RuleForGuards(ts: Transactions, minConf: real, itemset: Itemset, ante: Itemset)
    requires |ts| > 0 && RuleFor(ts, minConf, itemset, ante).Some?
    ensures IsInterestingConsequent(itemset - ante) && Support(ts, ante) > 0
    ensures Confidence(ts, itemset, ante) >= minConf && Lift(ts, itemset, ante) >= 1.0
  {
  }

  /** A split that passes every test is emitted, with these fields. */
  lemma RuleForEmits(ts: Transactions, minConf: real, itemset: Itemset, ante: Itemset)
    requires |ts| > 0 && IsInterestingConsequent(itemset - ante) && Support(ts, ante) > 0
    requires Confidence(ts, itemset, ante) >= minConf && Lift(ts, itemset, ante) >= 1.0
    ensures RuleFor(ts, minConf, itemset, ante).Some?
    ensures RuleFields(ts, itemset, ante, RuleFor(ts, minConf, itemset, ante).value)
  {
  }

  /** The fields of an emitted rule. */
  lemma RuleForValue(ts: Transactions, minConf: real, itemset: Itemset, ante: Itemset)
    requires |ts| > 0 && RuleFor(ts, minConf, itemset, ante).Some?
    ensures Support(ts, ante) > 0
    ensures RuleFields(ts, itemset, ante, RuleFor(ts, minConf, itemset, ante).value)
  {
  }

  /** A split that passes every test is emitted as the rule with the source's fields. */
  lemma RuleForIs(ts: Transactions, minConf: real, itemset: Itemset, ante: Itemset, rule: Rule)
    requires |ts| > 0 && IsInterestingConsequent(itemset - ante) && Support(ts, ante) > 0
    requires Confidence(ts, itemset, ante) >= minConf && Lift(ts, itemset, ante) >= 1.0
    requires RuleFields(ts, itemset, ante, rule)
    ensures RuleFor(ts, minConf, itemset, ante) == Some(rule)
  {
    RuleForEmits(ts, minConf, itemset, ante);
    var o := RuleFor(ts, minConf, itemset, ante);
    RuleFieldsDetermine(ts, itemset, ante, rule, o.value);
    assert o == Some(o.value);
  }

  lemma RuleFieldsDetermine(ts: Transactions, itemset: Itemset, ante: Itemset, r1: Rule, r2: Rule)
    requires |ts| > 0 && Support(ts, ante) > 0
    requires RuleFields(ts, itemset, ante, r1) && RuleFields(ts, itemset, ante, r2)
    ensures r1 == r2
  {
  }

  /** The fields the source computes for the split. */
  ghost predicate RuleFields(ts: Transactions, itemset: Itemset, ante: Itemset, rule: Rule)
    requires |ts| > 0 && Support(ts, ante) > 0
  {
    && rule.antecedent == Sorted(ante)
    && rule.consequent == Sorted(itemset - ante)
    && rule.support == Support(ts, itemset) as real / |ts| as real * 100.0
    && rule.confidence == Confidence(ts, itemset, ante) * 100.0
    && rule.lift == Lift(ts, itemset, ante)
  }

  /**
   * An emitted rule lists exactly the antecedent and the rest of the
   * itemset, each in sorted order; its consequent is actionable and its
   * antecedent occurs in some transaction.
   */
  lemma RuleShape(ts: Transactions, minConf: real, itemset: Itemset, ante: Itemset)
    requires |ts| > 0 && RuleFor(ts, minConf, itemset, ante).Some?
    ensures var rule := RuleFor(ts, minConf, itemset, ante).value;
      && Elems(rule.antecedent) == ante && Elems(rule.consequent) == itemset - ante
      && StrictlySorted(rule.antecedent) && StrictlySorted(rule.consequent)
      && IsInterestingConsequent(itemset - ante)
      && Support(ts, ante) >= 1
  {
    RuleForGuards(ts, minConf, itemset, ante);
    RuleForValue(ts, minConf, itemset, ante);
  }

  /**
   * Support is the joint count over `n` and confidence the joint count over
   * the antecedent count, both as percentages; the confidence clears the
   * floor.
   */
  lemma RuleRatios(ts: Transactions, minConf: real, itemset: Itemset, ante: Itemset)
    requires |ts| > 0 && RuleFor(ts, minConf, itemset, ante).Some?
    ensures var rule := RuleFor(ts, minConf, itemset, ante).value;
      && IsRatio(rule.support, Support(ts, itemset) * 100, |ts|)
      && IsRatio(rule.confidence, Support(ts, itemset) * 100, Support(ts, ante))
      && rule.confidence >= minConf * 100.0
  {
    RuleForGuards(ts, minConf, itemset, ante);
    RuleForValue(ts, minConf, itemset, ante);
    SupportPercentRatio(Support(ts, itemset), |ts|);
    ConfidencePercent(Support(ts, itemset), Support(ts, ante));
  }

  /**
   * The lift is `joint · n / (antecedent · max token count)`; every emitted
   * rule has a consequent token present in some transaction, and its lift
   * is at least 1.
   */
  lemma RuleLift(ts: Transactions, minConf: real, itemset: Itemset, ante: Itemset)
    requires |ts| > 0 && RuleFor(ts, minConf, itemset, ante).Some?
    ensures var rule := RuleFor(ts, minConf, itemset, ante).value;
      && MaxTokenCount(ts, itemset - ante) >= 1
      && IsRatio(rule.lift, Support(ts, itemset) * |ts|, Support(ts, ante) * MaxTokenCount(ts, itemset - ante))
      && rule.lift >= 1.0
  {
    RuleForGuards(ts, minConf, itemset, ante);
    RuleForValue(ts, minConf, itemset, ante);
    LiftRatio(Support(ts, itemset), Support(ts, ante), MaxTokenCount(ts, itemset - ante), |ts|);
  }

  /** `RuleShape`, `RuleRatios` and `RuleLift` together. */
  lemma RuleSound(ts: Transactions, minConf: real, itemset: Itemset, ante: Itemset)
    requires |ts| > 0 && RuleFor(ts, minConf, itemset, ante).Some?
    ensures var rule := RuleFor(ts, minConf, itemset, ante).value;
      && Elems(rule.antecedent) == ante && Elems(rule.consequent) == itemset - ante
      && IsInterestingConsequent(itemset - ante)
      && Support(ts, ante) >= 1 && MaxTokenCount(ts, itemset - ante) >= 1
      && rule.confidence >= minConf * 100.0
      && rule.lift >= 1.0
  {
    RuleShape(ts, minConf, itemset, ante);
    RuleRatios(ts, minConf, itemset, ante);
    RuleLift(ts, minConf, itemset, ante);
  }

  /** For an antecedent drawn from the itemset: a partition, and confidence at most 100%. */
  lemma RulePartitions(ts: Transactions, minConf: real, itemset: Itemset, ante: Itemset)
    requires |ts| > 0 && ante <= itemset && RuleFor(ts, minConf, itemset, ante).Some?
    ensures var rule := RuleFor(ts, minConf, itemset, ante).value;
      && Elems(rule.antecedent) !! Elems(rule.consequent)
      && Origin(rule) == itemset
      && rule.consequent != []
      && rule.confidence <= 100.0
  {
    RuleShape(ts, minConf, itemset, ante);
    RuleRatios(ts, minConf, itemset, ante);
    var rule := RuleFor(ts, minConf, itemset, ante).value;
    EmptyNotInteresting();
    assert Elems(rule.consequent) != {};
    SupportAntiMonotone(ts, ante, itemset);
    RatioAtMost(rule.confidence, Support(ts, itemset) * 100, Support(ts, ante), 100);
  }

  /** The rule identifies its split: equal rules come from equal antecedents and itemsets. */
  lemma RuleForIdentifies(ts: Transactions, minConf: real, i1: Itemset, a1: Itemset, i2: Itemset, a2: Itemset)
    requires |ts| > 0 && a1 <= i1 && a2 <= i2
    requires RuleFor(ts, minConf, i1, a1).Some? && RuleFor(ts, minConf, i1, a1) == RuleFor(ts, minConf, i2, a2)
    ensures i1 == i2 && a1 == a2
  {
    RuleShape(ts, minConf, i1, a1);
    RuleShape(ts, minConf, i2, a2);
    RulePartitions(ts, minConf, i1, a1);
    RulePartitions(ts, minConf, i2, a2);
  }

  /**
   * Raising the confidence floor only removes rules: a rule that survives
   * the higher floor is emitted unchanged under the lower one.
   */
  lemma RuleForThresholdMonotone(ts: Transactions, c1: real, c2: real, itemset: Itemset, ante: Itemset)
    requires |ts| > 0 && c1 <= c2 && RuleFor(ts, c2, itemset, ante).Some?
    ensures RuleFor(ts, c1, itemset, ante) == RuleFor(ts, c2, itemset, ante)
  {
    RuleForGuards(ts, c2, itemset, ante);
    RuleForValue(ts, c2, itemset, ante);
  }

  /** No single token of a set is rarer than the whole set. */
  lemma MaxTokenCountAtLeastJoint(ts: Transactions, c: set<Token>)
    requires c != {}
    ensures Support(ts, c) <= MaxTokenCount(ts, c)
  {
    MaxTokenCountIsMax(ts, c);
    var t :| t in c;
    SupportAntiMonotone(ts, {t}, c);
  }

  /**
   * The lift uses the support of the most common consequent token, which is
   * at least the joint support of the consequent; so the emitted lift never
   * exceeds the textbook lift computed with the joint consequent support.
   */
  lemma LiftAtMostJointLift(ts: Transactions, minConf: real, itemset: Itemset, ante: Itemset)
    requires |ts| > 0 && ante <= itemset && RuleFor(ts, minConf, itemset, ante).Some?
    ensures Support(ts, ante) > 0 && Support(ts, itemset - ante) > 0
    ensures RuleFor(ts, minConf, itemset, ante).value.lift <= JointLift(ts, itemset, ante)
  {
    RuleShape(ts, minConf, itemset, ante);
    RuleLift(ts, minConf, itemset, ante);
    var rule := RuleFor(ts, minConf, itemset, ante).value;
    var cons := itemset - ante;
    EmptyNotInteresting();
    MaxTokenCountAtLeastJoint(ts, cons);
    SupportAntiMonotone(ts, cons, itemset);
    var sI, sA, joint, m := Support(ts, itemset), Support(ts, ante), Support(ts, cons), MaxTokenCount(ts, cons);
    if sI == 0 {
      LiftRatio(sI, sA, m, |ts|);
      assert false;
    }
    assert joint >= sI;
    MulMonotone(sA, joint, m);
    MulPositive(sA, joint);
    MulNonNegative(sI, |ts|);
    RatioAntitone(rule.lift, JointLift(ts, itemset, ante), sI * |ts|, sA * m, sA * joint);
  }

  // ---------------------------------------------------------------------
  // The consequent-support loop

  /** Adding one token raises the maximum only when that token is more common. */
  lemma MaxTokenCountInsert(ts: Transactions, c: set<Token>, t: Token)
    requires t !in c
    ensures MaxTokenCount(ts, c + {t}) ==
      if TokenCount(ts, t) > MaxTokenCount(ts, c) then TokenCount(ts, t) else MaxTokenCount(ts, c)
  {
    MaxTokenCountIsMax(ts, c);
    MaxTokenCountIsMax(ts, c + {t});
    var m := MaxTokenCount(ts, c + {t});
    assert t in c + {t};
    if c == {} {
      assert c + {t} == {t};
      assert m == TokenCount(ts, t);
    } else {
      var u :| u in c && TokenCount(ts, u) == MaxTokenCount(ts, c);
      assert u in c + {t};
      var w :| w in c + {t} && TokenCount(ts, w) == m;
      assert w == t || w in c;
    }
  }

  lemma ConsequentSupportStep(ts: Transactions, done: set<Token>, t: Token, s: real, itemSupport: real)
    requires |ts| > 0 && t !in done
    requires s == MaxTokenCount(ts, done) as real / |ts| as real
    requires itemSupport == TokenCount(ts, t) as real / |ts| as real
    ensures (if itemSupport > s then itemSupport else s) == MaxTokenCount(ts, done + {t}) as real / |ts| as real
  {
    MaxTokenCountInsert(ts, done, t);
    DivOrder(MaxTokenCount(ts, done) as real, TokenCount(ts, t) as real, |ts| as real);
  }

  /**
   * `max(consequent_support, item_counts.get(item, 0) / n)` over the tokens
   * of the consequent, starting from 0.
   */
  method ConsequentSupport(ts: Transactions, itemCounts: map<Token, nat>, cons: set<Token>) returns (s: real)
    requires |ts| > 0
    requires forall t :: t in itemCounts <==> TokenCount(ts, t) >= 1
    requires forall t :: t in itemCounts ==> itemCounts[t] == TokenCount(ts, t)
    ensures s == MaxTokenCount(ts, cons) as real / |ts| as real
  {
    var n := |ts| as real;
    s := 0.0;
    var rest := cons;
    ghost var done: set<Token> := {};
    while rest != {}
      invariant rest + done == cons && rest !! done
      invariant s == MaxTokenCount(ts, done) as real / n
      decreases |rest|
    {
      var t :| t in rest;
      var count := if t in itemCounts then itemCounts[t] else 0;
      assert count == TokenCount(ts, t);
      var itemSupport := count as real / n;
      ConsequentSupportStep(ts, done, t, s, itemSupport);
      if itemSupport > s {
        s := itemSupport;
      }
      assert (rest - {t}) + (done + {t}) == cons;
      done := done + {t};
      rest := rest - {t};
    }
    assert done == cons;
  }

  /**
   * One split of the inner loop: the antecedent count comes from the
   * support lookup (`support_counts.get(antecedent, 0)`), the itemset count
   * from its level.
   */
  method EvaluateSplit(ts: Transactions, minConf: real, sc: map<Itemset, nat>, itemCounts: map<Token, nat>,
                       itemset: Itemset, itemsetCount: nat, ante: Itemset)
    returns (rule: Option<Rule>)
    requires |ts| > 0 && itemsetCount == Support(ts, itemset)
    requires forall c :: c in sc ==> sc[c] == Support(ts, c)
    requires forall t :: t in itemCounts <==> TokenCount(ts, t) >= 1
    requires forall t :: t in itemCounts ==> itemCounts[t] == TokenCount(ts, t)
    ensures rule == if ante in sc then RuleFor(ts, minConf, itemset, ante) else None
  {
    var n := |ts| as real;
    var supXY := itemsetCount as real / n;
    var cons := itemset - ante;
    if !IsInterestingConsequent(cons) {
      assert RuleFor(ts, minConf, itemset, ante) == None;
      return None;
    }
    var antCount := if ante in sc then sc[ante] else 0;
    if antCount == 0 {
      assert ante in sc ==> RuleFor(ts, minConf, itemset, ante) == None;
      return None;
    }
    assert ante in sc && antCount == Support(ts, ante);
    var antFrac := antCount as real / n;
    var confidence := supXY / antFrac;
    SourceConfidence(supXY, antFrac, itemsetCount, antCount, |ts|);
    assert confidence == Confidence(ts, itemset, ante);
    if confidence < minConf {
      assert RuleFor(ts, minConf, itemset, ante) == None;
      return None;
    }
    var consSupport := ConsequentSupport(ts, itemCounts, cons);
    var lift := if consSupport > 0.0 then supXY / (antFrac * consSupport) else 0.0;
    SourceLift(supXY, antFrac, consSupport, itemsetCount, antCount, MaxTokenCount(ts, cons), |ts|);
    assert lift == Lift(ts, itemset, ante);
    if lift < 1.0 {
      assert RuleFor(ts, minConf, itemset, ante) == None;
      return None;
    }
    rule := Some(Rule(Sorted(ante), Sorted(cons), supXY * 100.0, confidence * 100.0, lift));
    assert supXY * 100.0 == Support(ts, itemset) as real / |ts| as real * 100.0;
    RuleForIs(ts, minConf, itemset, ante, rule.value);
  }

  // ---------------------------------------------------------------------
  // The rules of one itemset

  /** `frozenset(antecedent_tuple)` for each tuple of a list of combinations. */
  function ElemsAll(cs: seq<seq<Token>>): (r: seq<Itemset>)
    ensures |r| == |cs| && forall i :: 0 <= i < |cs| ==> r[i] == Elems(cs[i])
  {
    seq(|cs|, i requires 0 <= i < |cs| => Elems(cs[i]))
  }

  /**
   * The antecedents tried for an itemset listed as `xs`: the combinations
   * of sizes `lo` up to `hi - 1`, smaller sizes first.
   */
  function Antecedents(xs: seq<Token>, lo: nat, hi: nat): seq<Itemset>
    decreases hi
  {
    if hi <= lo then [] else Antecedents(xs, lo, hi - 1) + ElemsAll(Combinations(xs, hi - 1))
  }

  /** The combinations of one size are the subsets of that size, each once. */
  lemma SizeClass(xs: seq<Token>, r: nat)
    requires NoDuplicates(xs)
    ensures NoDuplicates(ElemsAll(Combinations(xs, r)))
    ensures forall a :: a in Elems(ElemsAll(Combinations(xs, r))) <==> a <= Elems(xs) && |a| == r
  {
    var cs := Combinations(xs, r);
    var es := ElemsAll(cs);
    CombinationsSound(xs, r);
    CombinationsDistinct(xs, r);
    forall i | 0 <= i < |cs| ensures |es[i]| == r {
      NoDuplicatesCard(cs[i]);
    }
    forall a | a <= Elems(xs) && |a| == r ensures a in Elems(es) {
      var i := CombinationsComplete(xs, a);
      assert es[i] == a;
    }
  }

  /** The antecedents are the subsets with sizes in `lo .. hi - 1`, each once. */
  lemma {:induction false} AntecedentsFacts(xs: seq<Token>, lo: nat, hi: nat)
    requires NoDuplicates(xs)
    ensures NoDuplicates(Antecedents(xs, lo, hi))
    ensures forall a :: a in Elems(Antecedents(xs, lo, hi)) <==> a <= Elems(xs) && lo <= |a| < hi
    decreases hi
  {
    if hi > lo {
      AntecedentsFacts(xs, lo, hi - 1);
      SizeClass(xs, hi - 1);
      var low := Antecedents(xs, lo, hi - 1);
      var top := ElemsAll(Combinations(xs, hi - 1));
      JoinDistinct(low, top);
    }
  }

  /** A proper subset is smaller. */
  lemma ProperSubsetCard(a: Itemset, b: Itemset)
    requires a <= b
    ensures a < b <==> |a| < |b|
  {
    assert b == a + (b - a);
    assert a !! (b - a);
    assert |b| == |a| + |b - a|;
    if a != b {
      var x :| x in b && x !in a;
      assert x in b - a;
    }
  }

  /** Different antecedents of one itemset give different rules. */
  lemma RuleForDistinct(ts: Transactions, minConf: real, itemset: Itemset, a: Itemset, b: Itemset)
    requires |ts| > 0 && a != b && RuleFor(ts, minConf, itemset, a).Some?
    ensures RuleFor(ts, minConf, itemset, b) != RuleFor(ts, minConf, itemset, a)
  {
    RuleShape(ts, minConf, itemset, a);
    if RuleFor(ts, minConf, itemset, b).Some? {
      RuleShape(ts, minConf, itemset, b);
    }
  }

  /** The splits of `itemset` with antecedents `antes` that yield a rule, in that order. */
  function RulesOf(ts: Transactions, minConf: real, sc: map<Itemset, nat>, itemset: Itemset, antes: seq<Itemset>): seq<Rule>
    requires |ts| > 0
    decreases |antes|
  {
    if antes == [] then []
    else
      var a := antes[|antes| - 1];
      RulesOf(ts, minConf, sc, itemset, antes[..|antes| - 1])
        + (if a in sc && RuleFor(ts, minConf, itemset, a).Some? then [RuleFor(ts, minConf, itemset, a).value] else [])
  }

  lemma RulesOfSnoc(ts: Transactions, minConf: real, sc: map<Itemset, nat>, itemset: Itemset, antes: seq<Itemset>, a: Itemset)
    requires |ts| > 0
    ensures RulesOf(ts, minConf, sc, itemset, antes + [a]) ==
      RulesOf(ts, minConf, sc, itemset, antes)
        + (if a in sc && RuleFor(ts, minConf, itemset, a).Some? then [RuleFor(ts, minConf, itemset, a).value] else [])
  {
    assert (antes + [a])[..|antes|] == antes;
  }

  /** One pass of the inner loop extends the rules by the outcome of the next antecedent. */
  lemma RulesStep(ts: Transactions, minConf: real, sc: map<Itemset, nat>, itemset: Itemset,
                  pre: seq<Itemset>, es: seq<Itemset>, k: nat, rules: seq<Rule>, rule: Option<Rule>)
    requires |ts| > 0 && k < |es|
    requires rules == RulesOf(ts, minConf, sc, itemset, pre + es[..k])
    requires rule == if es[k] in sc then RuleFor(ts, minConf, itemset, es[k]) else None
    ensures (if rule.Some? then rules + [rule.value] else rules) == RulesOf(ts, minConf, sc, itemset, pre + es[..k + 1])
  {
    assert pre + es[..k + 1] == (pre + es[..k]) + [es[k]];
    RulesOfSnoc(ts, minConf, sc, itemset, pre + es[..k], es[k]);
  }

  /** Each rule of a list of antecedents drawn from the itemset comes from one of them. */
  lemma {:induction false} RulesOfSound(ts: Transactions, minConf: real, sc: map<Itemset, nat>, itemset: Itemset, antes: seq<Itemset>)
    requires |ts| > 0
    requires forall k :: 0 <= k < |antes| ==> antes[k] <= itemset
    ensures forall rule :: rule in RulesOf(ts, minConf, sc, itemset, antes) ==>
      Origin(rule) == itemset &&
      exists a :: a in Elems(antes) && a in sc && RuleFor(ts, minConf, itemset, a) == Some(rule)
    decreases |antes|
  {
    if antes != [] {
      var init := antes[..|antes| - 1];
      var a := antes[|antes| - 1];
      assert antes == init + [a];
      RulesOfSound(ts, minConf, sc, itemset, init);
      if a in sc && RuleFor(ts, minConf, itemset, a).Some? {
        RulePartitions(ts, minConf, itemset, a);
      }
    }
  }

  /** Each antecedent that yields a rule contributes it. */
  lemma {:induction false} RulesOfComplete(ts: Transactions, minConf: real, sc: map<Itemset, nat>, itemset: Itemset, antes: seq<Itemset>)
    requires |ts| > 0
    ensures forall a :: a in Elems(antes) && a in sc && RuleFor(ts, minConf, itemset, a).Some? ==>
      RuleFor(ts, minConf, itemset, a).value in RulesOf(ts, minConf, sc, itemset, antes)
    decreases |antes|
  {
    if antes != [] {
      var init := antes[..|antes| - 1];
      assert antes == init + [antes[|antes| - 1]];
      RulesOfComplete(ts, minConf, sc, itemset, init);
    }
  }

  /** Distinct antecedents give a list of rules without repetition. */
  lemma {:induction false} RulesOfDistinct(ts: Transactions, minConf: real, sc: map<Itemset, nat>, itemset: Itemset, antes: seq<Itemset>)
    requires |ts| > 0 && NoDuplicates(antes)
    requires forall k :: 0 <= k < |antes| ==> antes[k] <= itemset
    ensures NoDuplicates(RulesOf(ts, minConf, sc, itemset, antes))
    decreases |antes|
  {
    if antes != [] {
      var init := antes[..|antes| - 1];
      var a := antes[|antes| - 1];
      assert antes == init + [a];
      assert NoDuplicates(init);
      RulesOfDistinct(ts, minConf, sc, itemset, init);
      RulesOfSound(ts, minConf, sc, itemset, init);
      var r0 := RulesOf(ts, minConf, sc, itemset, init);
      var extra := if a in sc && RuleFor(ts, minConf, itemset, a).Some? then [RuleFor(ts, minConf, itemset, a).value] else [];
      assert a !in Elems(init);
      if extra != [] {
        var rule := extra[0];
        forall q | q in r0 ensures q != rule {
          var b :| b in Elems(init) && b in sc && RuleFor(ts, minConf, itemset, b) == Some(q);
          RuleForDistinct(ts, minConf, itemset, a, b);
        }
        assert Elems(extra) == {rule};
      }
      JoinDistinct(r0, extra);
    }
  }

  /**
   * What the rule generator emits for one frequent itemset: each rule is a
   * split of it with a known, nonempty, proper antecedent; every such split
   * that passes the filters is emitted; and no rule appears twice.
   */
  ghost predicate ItemsetRulesSpec(ts: Transactions, minConf: real, sc: map<Itemset, nat>, itemset: Itemset, rules: seq<Rule>)
    requires |ts| > 0
  {
    && (forall rule :: rule in rules ==>
          Origin(rule) == itemset && exists a :: SplitRule(ts, minConf, sc, itemset, a, rule))
    && (forall a :: a != {} && a < itemset && a in sc && RuleFor(ts, minConf, itemset, a).Some? ==>
          RuleFor(ts, minConf, itemset, a).value in rules)
    && NoDuplicates(rules)
  }

  /**
   * The inner two loops for one frequent itemset: every antecedent size
   * `r` from 1 to `|itemset| - 1`, every combination of that size.
   */
  method ItemsetRules(ts: Transactions, minConf: real, sc: map<Itemset, nat>, itemCounts: map<Token, nat>,
                      itemset: Itemset, itemsetCount: nat)
    returns (rules: seq<Rule>)
    requires |ts| > 0 && itemsetCount == Support(ts, itemset)
    requires forall c :: c in sc ==> sc[c] == Support(ts, c)
    requires forall t :: t in itemCounts <==> TokenCount(ts, t) >= 1
    requires forall t :: t in itemCounts ==> itemCounts[t] == TokenCount(ts, t)
    ensures ItemsetRulesSpec(ts, minConf, sc, itemset, rules)
  {
    var xs := ListOf(itemset);
    rules := [];
    var r := 1;
    while r < |xs|
      invariant 1 <= r && (r <= |xs| || r == 1)
      invariant rules == RulesOf(ts, minConf, sc, itemset, Antecedents(xs, 1, r))
    {
      rules := SizeRules(ts, minConf, sc, itemCounts, itemset, itemsetCount, Combinations(xs, r), Antecedents(xs, 1, r), rules);
      r := r + 1;
    }
    ItemsetRulesFacts(ts, minConf, sc, itemset, xs, r, rules);
  }

  /** The innermost loop: the antecedents of one size, in combination order, appended to `rules0`. */
  method SizeRules(ts: Transactions, minConf: real, sc: map<Itemset, nat>, itemCounts: map<Token, nat>,
                   itemset: Itemset, itemsetCount: nat, combos: seq<seq<Token>>,
                   ghost done: seq<Itemset>, rules0: seq<Rule>)
    returns (rules: seq<Rule>)
    requires |ts| > 0 && itemsetCount == Support(ts, itemset)
    requires forall c :: c in sc ==> sc[c] == Support(ts, c)
    requires forall t :: t in itemCounts <==> TokenCount(ts, t) >= 1
    requires forall t :: t in itemCounts ==> itemCounts[t] == TokenCount(ts, t)
    requires rules0 == RulesOf(ts, minConf, sc, itemset, done)
    ensures rules == RulesOf(ts, minConf, sc, itemset, done + ElemsAll(combos))
  {
    rules := rules0;
    var k := 0;
    assert done + ElemsAll(combos)[..0] == done;
    while k < |combos|
      invariant 0 <= k <= |combos|
      invariant rules == RulesOf(ts, minConf, sc, itemset, done + ElemsAll(combos)[..k])
    {
      var ante := Elems(combos[k]);
      var rule := EvaluateSplit(ts, minConf, sc, itemCounts, itemset, itemsetCount, ante);
      RulesStep(ts, minConf, sc, itemset, done, ElemsAll(combos), k, rules, rule);
      if rule.Some? {
        rules := rules + [rule.value];
      }
      k := k + 1;
    }
    assert ElemsAll(combos)[..|combos|] == ElemsAll(combos);
  }

  /** Sizes 1 up to `|itemset| - 1` are exactly the nonempty proper subsets. */
  lemma ItemsetAntecedents(itemset: Itemset, xs: seq<Token>, r: nat)
    requires Elems(xs) == itemset && NoDuplicates(xs)
    requires 1 <= r && (r == |xs| || (r == 1 && |xs| == 0))
    ensures NoDuplicates(Antecedents(xs, 1, r))
    ensures forall a :: a in Elems(Antecedents(xs, 1, r)) <==> a != {} && a < itemset
  {
    AntecedentsFacts(xs, 1, r);
    NoDuplicatesCard(xs);
    forall a ensures a in Elems(Antecedents(xs, 1, r)) <==> a != {} && a < itemset {
      if a <= itemset {
        ProperSubsetCard(a, itemset);
      }
    }
  }

  lemma ItemsetRulesFacts(ts: Transactions, minConf: real, sc: map<Itemset, nat>, itemset: Itemset,
                          xs: seq<Token>, r: nat, rules: seq<Rule>)
    requires |ts| > 0 && Elems(xs) == itemset && NoDuplicates(xs)
    requires 1 <= r && (r == |xs| || (r == 1 && |xs| == 0))
    requires rules == RulesOf(ts, minConf, sc, itemset, Antecedents(xs, 1, r))
    ensures ItemsetRulesSpec(ts, minConf, sc, itemset, rules)
  {
    var antes := Antecedents(xs, 1, r);
    ItemsetAntecedents(itemset, xs, r);
    forall k | 0 <= k < |antes| ensures antes[k] <= itemset {
      assert antes[k] in Elems(antes);
    }
    RulesOfSound(ts, minConf, sc, itemset, antes);
    RulesOfComplete(ts, minConf, sc, itemset, antes);
    RulesOfDistinct(ts, minConf, sc, itemset, antes);
    forall rule | rule in rules ensures exists a :: SplitRule(ts, minConf, sc, itemset, a, rule) {
      var a :| a in Elems(antes) && a in sc && RuleFor(ts, minConf, itemset, a) == Some(rule);
      assert SplitRule(ts, minConf, sc, itemset, a, rule);
    }
  }

  // ---------------------------------------------------------------------
  // The support lookup

  /** All levels merged into one dictionary, a later level overwriting an earlier one. */
  function Merged(levels: seq<map<Itemset, nat>>): map<Itemset, nat>
  {
    if levels == [] then map[] else Merged(levels[..|levels| - 1]) + levels[|levels| - 1]
  }

  /** `sc` agrees with `base` overwritten by the entries of `level` outside `rest`. */
  ghost predicate OverwrittenBy(sc: map<Itemset, nat>, base: map<Itemset, nat>, level: map<Itemset, nat>, rest: set<Itemset>)
  {
    && (forall c :: c in sc <==> c in base || (c in level && c !in rest))
    && (forall c :: c in sc ==> sc[c] == if c in level && c !in rest then level[c] else base[c])
  }

  lemma OverwrittenAll(sc: map<Itemset, nat>, base: map<Itemset, nat>, level: map<Itemset, nat>)
    requires OverwrittenBy(sc, base, level, {})
    ensures sc == base + level
  {
    assert sc.Keys == (base + level).Keys;
  }

  /** `support_counts`: every itemset of every level with its count. */
  method SupportLookup(levels: seq<map<Itemset, nat>>) returns (sc: map<Itemset, nat>)
    ensures sc == Merged(levels)
  {
    sc := map[];
    var j := 0;
    while j < |levels|
      invariant 0 <= j <= |levels|
      invariant sc == Merged(levels[..j])
    {
      var level := levels[j];
      var rest := level.Keys;
      ghost var base := sc;
      while rest != {}
        invariant rest <= level.Keys
        invariant OverwrittenBy(sc, base, level, rest)
        decreases |rest|
      {
        var c :| c in rest;
        sc := sc[c := level[c]];
        rest := rest - {c};
      }
      OverwrittenAll(sc, base, level);
      assert levels[..j + 1][..j] == levels[..j];
      j := j + 1;
    }
    assert levels[..|levels|] == levels;
  }

  /**
   * On exact levels the lookup holds exactly the frequent itemsets up to the
   * largest level, each with its support.
   */
  lemma {:induction false} MergedExact(ts: Transactions, minCount: int, levels: seq<map<Itemset, nat>>)
    requires LevelsExact(ts, minCount, levels)
    ensures forall c :: c in Merged(levels) <==> 1 <= |c| <= |levels| && c in levels[|c| - 1]
    ensures forall c :: c in Merged(levels) ==> Merged(levels)[c] == Support(ts, c)
    decreases |levels|
  {
    if levels != [] {
      var init := levels[..|levels| - 1];
      assert LevelsExact(ts, minCount, init) by {
        forall j | 0 <= j < |init| ensures LevelExact(ts, minCount, j + 1, init[j]) {
          assert init[j] == levels[j];
        }
      }
      MergedExact(ts, minCount, init);
      assert LevelExact(ts, minCount, |levels|, levels[|levels| - 1]);
      forall c ensures c in Merged(levels) <==> 1 <= |c| <= |levels| && c in levels[|c| - 1] {
        if 1 <= |c| < |levels| {
          assert levels[|c| - 1] == init[|c| - 1];
        }
      }
    }
  }

  // ---------------------------------------------------------------------
  // The rules of all levels

  /** The itemsets the rule generator visits: those of the levels of size two and more. */
  ghost predicate InLevels(levels: seq<map<Itemset, nat>>, itemset: Itemset)
  {
    2 <= |itemset| <= |levels| && itemset in levels[|itemset| - 1]
  }

  /**
   * `rules` holds the rules of the itemsets `done`: each comes from a split of
   * one of them, every split of them that passes the filters is there, and
   * none is listed twice.
   */
  ghost predicate RulesOfItemsets(ts: Transactions, minConf: real, sc: map<Itemset, nat>, done: set<Itemset>, rules: seq<Rule>)
    requires |ts| > 0
  {
    && (forall rule :: rule in rules ==>
          Origin(rule) in done && exists a :: SplitRule(ts, minConf, sc, Origin(rule), a, rule))
    && (forall i, a :: i in done && a != {} && a < i && a in sc && RuleFor(ts, minConf, i, a).Some? ==>
          RuleFor(ts, minConf, i, a).value in rules)
    && NoDuplicates(rules)
  }

  /** Appending the rules of one more itemset. */
  lemma RulesOfItemsetsStep(ts: Transactions, minConf: real, sc: map<Itemset, nat>, done: set<Itemset>,
                            rules: seq<Rule>, itemset: Itemset, batch: seq<Rule>)
    requires |ts| > 0 && itemset !in done
    requires RulesOfItemsets(ts, minConf, sc, done, rules)
    requires ItemsetRulesSpec(ts, minConf, sc, itemset, batch)
    ensures RulesOfItemsets(ts, minConf, sc, done + {itemset}, rules + batch)
  {
    forall q | q in rules ensures q !in Elems(batch) {
      assert Origin(q) != itemset;
    }
    JoinDistinct(rules, batch);
  }

  /** The itemsets of the levels below size `j + 1` from size two on. */
  ghost predicate Before(levels: seq<map<Itemset, nat>>, j: int, itemset: Itemset)
  {
    2 <= |itemset| <= j && InLevels(levels, itemset)
  }

  /** One more level visited. */
  lemma BeforeNext(ts: Transactions, minCount: int, levels: seq<map<Itemset, nat>>, j: nat, done: set<Itemset>)
    requires LevelsExact(ts, minCount, levels) && j < |levels|
    requires forall i :: i in done <==> Before(levels, j, i) || (j >= 1 && i in levels[j])
    ensures forall i :: i in done <==> Before(levels, j + 1, i)
  {
    assert LevelExact(ts, minCount, j + 1, levels[j]);
  }

  /** At the end every level has been visited. */
  lemma BeforeAll(levels: seq<map<Itemset, nat>>, done: set<Itemset>)
    requires forall i :: i in done <==> Before(levels, |levels|, i)
    ensures forall i :: i in done <==> InLevels(levels, i)
  {
  }

  /** The same facts as `RulesOfItemsets`, for every itemset of every level of size two and more. */
  ghost predicate RulesOfLevels(ts: Transactions, minConf: real, sc: map<Itemset, nat>, levels: seq<map<Itemset, nat>>, rules: seq<Rule>)
    requires |ts| > 0
  {
    && (forall rule :: rule in rules ==>
          InLevels(levels, Origin(rule)) && exists a :: SplitRule(ts, minConf, sc, Origin(rule), a, rule))
    && (forall i, a :: InLevels(levels, i) && a != {} && a < i && a in sc && RuleFor(ts, minConf, i, a).Some? ==>
          RuleFor(ts, minConf, i, a).value in rules)
    && NoDuplicates(rules)
  }

  lemma RulesOfLevelsFromItemsets(ts: Transactions, minConf: real, sc: map<Itemset, nat>, levels: seq<map<Itemset, nat>>,
                                  done: set<Itemset>, rules: seq<Rule>)
    requires |ts| > 0 && RulesOfItemsets(ts, minConf, sc, done, rules)
    requires forall i :: i in done <==> InLevels(levels, i)
    ensures RulesOfLevels(ts, minConf, sc, levels, rules)
  {
  }

  /**
   * Step 4 of the analysis: for every level of size two and more, for every
   * itemset in it, the rules of that itemset, appended in visiting order.
   */
  method GenerateRules(ts: Transactions, minConf: real, ghost minCount: int, levels: seq<map<Itemset, nat>>,
                       sc: map<Itemset, nat>, itemCounts: map<Token, nat>)
    returns (rules: seq<Rule>)
    requires |ts| > 0 && LevelsExact(ts, minCount, levels)
    requires forall c :: c in sc ==> sc[c] == Support(ts, c)
    requires forall t :: t in itemCounts <==> TokenCount(ts, t) >= 1
    requires forall t :: t in itemCounts ==> itemCounts[t] == TokenCount(ts, t)
    ensures RulesOfLevels(ts, minConf, sc, levels, rules)
  {
    rules := [];
    ghost var done: set<Itemset> := {};
    var j := 0;
    while j < |levels|
      invariant 0 <= j <= |levels|
      invariant forall i :: i in done <==> Before(levels, j, i)
      invariant RulesOfItemsets(ts, minConf, sc, done, rules)
    {
      var size := j + 1;
      if size >= 2 {
        var level := levels[j];
        assert LevelExact(ts, minCount, j + 1, level);
        var rest := level.Keys;
        while rest != {}
          invariant rest <= level.Keys
          invariant forall i :: i in done <==> Before(levels, j, i) || (i in level && i !in rest)
          invariant RulesOfItemsets(ts, minConf, sc, done, rules)
          decreases |rest|
        {
          var itemset :| itemset in rest;
          var batch := ItemsetRules(ts, minConf, sc, itemCounts, itemset, level[itemset]);
          RulesOfItemsetsStep(ts, minConf, sc, done, rules, itemset, batch);
          rules := rules + batch;
          done := done + {itemset};
          rest := rest - {itemset};
        }
      }
      BeforeNext(ts, minCount, levels, j, done);
      j := j + 1;
    }
    BeforeAll(levels, done);
    RulesOfLevelsFromItemsets(ts, minConf, sc, levels, done, rules);
  }
}

/**
 * The human-readable recommendation reasons: `_format_attribute` rewrites one
 * token for display, and `_format_product_recommendation_reason` builds the
 * sentence "Customers interested in … also purchase …" for a rule whose
 * consequent meets the product's attributes.
 */
module Reasons {
  import opened Wrappers
  import opened Text
  import opened Tokens
  import opened Rules
  import opened ProductAttributes

  // ---------------------------------------------------------------------
  // _format_attribute

  /** The display text of a token, by its prefix, first match wins. */
  function FormatAttribute(attribute: Token): string
  {
    if IsPrefix("Category_", attribute) then
      ReplaceAll(ReplaceAll(attribute, "Category_", ""), "_", " ") + " products"
    else if IsPrefix("Product_", attribute) then
      "this product"
    else if IsPrefix("Price_", attribute) then
      ToLower(ReplaceAll(ReplaceAll(attribute, "Price_", ""), "_", " ")) + " priced items"
    else
      ToLower(ReplaceAll(attribute, "_", " "))
  }

  /** Replacing a pattern that does not occur changes nothing. */
  lemma {:induction false} ReplaceAbsent(s: string, p: string, r: string)
    requires p != [] && !Contains(s, p)
    ensures ReplaceAll(s, p, r) == s
    decreases |s|
  {
    if |s| >= |p| {
      assert !IsPrefix(p, s);
      assert s != [];
      ReplaceAbsent(s[1..], p, r);
    }
  }

  /** An occurrence of a pattern has a first position. */
  lemma {:induction false} ContainsIndex(s: string, p: string) returns (i: nat)
    requires Contains(s, p)
    ensures i + |p| <= |s| && s[i..i + |p|] == p
    decreases |s|
  {
    if IsPrefix(p, s) {
      i := 0;
    } else {
      var k := ContainsIndex(s[1..], p);
      assert s[1..][k..k + |p|] == s[k + 1..k + 1 + |p|];
      i := k + 1;
    }
  }

  /** No display text has an underscore: every branch turns `_` into a space. */
  lemma FormatAttributeNoUnderscore(attribute: Token)
    ensures '_' !in FormatAttribute(attribute)
  {
    assert "_" == ['_'] && " " == [' '];
    if IsPrefix("Category_", attribute) {
      ReplaceCharRemoves(ReplaceAll(attribute, "Category_", ""), '_', ' ');
    } else if IsPrefix("Product_", attribute) {
    } else if IsPrefix("Price_", attribute) {
      var s := ReplaceAll(ReplaceAll(attribute, "Price_", ""), "_", " ");
      ReplaceCharRemoves(ReplaceAll(attribute, "Price_", ""), '_', ' ');
      ToLowerFacts(s);
      assert !IsAsciiLetter('_');
    } else {
      ReplaceCharRemoves(attribute, '_', ' ');
      ToLowerFacts(ReplaceAll(attribute, "_", " "));
      assert !IsAsciiLetter('_');
    }
  }

  /** Every product token reads "this product". */
  lemma FormatProductToken(id: nat)
    ensures FormatAttribute(ProductToken(id)) == "this product"
  {
    var t := ProductToken(id);
    assert t[0] == 'P';
    assert !IsPrefix("Category_", t);
    assert t[..8] == "Product_";
  }

  /** With `name` spaces turned into `_`: an underscore-free name regains its spaces. */
  lemma UnderscoresBack(name: string)
    requires '_' !in name
    ensures ReplaceAll(ReplaceAll(name, " ", "_"), "_", " ") == name
  {
    assert "_" == ['_'] && " " == [' '];
    var t := ReplaceAll(name, " ", "_");
    ReplaceCharAt(name, ' ', '_');
    ReplaceCharAt(t, '_', ' ');
    var u := ReplaceAll(t, "_", " ");
    assert |u| == |name|;
    forall i | 0 <= i < |name| ensures u[i] == name[i] {
      assert name[i] != '_';
    }
  }

  /** A `Category_` in a category token's tail can only come from `Category ` in the name. */
  lemma MarkerFromName(name: string)
    requires '_' !in name
    ensures Contains(ReplaceAll(name, " ", "_"), "Category_") ==> Contains(name, "Category ")
  {
    var t := ReplaceAll(name, " ", "_");
    if Contains(t, "Category_") {
      assert " " == [' '] && "_" == ['_'];
      ReplaceCharAt(name, ' ', '_');
      var i := ContainsIndex(t, "Category_");
      var seg := t[i..i + 9];
      var p := "Category ";
      forall k | 0 <= k < 9 ensures name[i + k] == p[k] {
        assert t[i + k] == seg[k] == "Category_"[k];
        assert name[i + k] != '_';
      }
      assert name[i..i + 9] == p;
      ContainsAt(name, p, i);
    }
  }

  /**
   * The category text inverts the category token: a name without `_` and
   * without the word `Category ` in it is displayed as itself, followed by
   * " products".
   */
  lemma FormatCategoryToken(name: string)
    requires '_' !in name && !Contains(name, "Category ")
    ensures FormatAttribute(CategoryToken(name)) == name + " products"
  {
    var t := ReplaceAll(name, " ", "_");
    var token := CategoryToken(name);
    assert token == "Category_" + t;
    assert token[..9] == "Category_" && token[9..] == t;
    MarkerFromName(name);
    ReplaceAbsent(t, "Category_", "");
    assert ReplaceAll(token, "Category_", "") == t;
    UnderscoresBack(name);
  }

  /** `shown` is `tail` with spaces for `_`, lower-cased, character by character. */
  predicate ShownAs(tail: string, shown: string)
  {
    |shown| == |tail| &&
    forall i :: 0 <= i < |tail| ==> shown[i] == LowerChar(if tail[i] == '_' then ' ' else tail[i])
  }

  /**
   * A `Price_` token whose tail has no `P` shows its tail, with spaces for
   * `_` and lower-cased, followed by " priced items".
   */
  lemma PriceText(tail: string, shown: string)
    requires 'P' !in tail
    requires ShownAs(tail, shown)
    ensures FormatAttribute("Price_" + tail) == shown + " priced items"
  {
    var t := "Price_" + tail;
    assert t[..6] == "Price_";
    assert t[0] == 'P' && t[1] == 'r' && t[2] == 'i';
    assert !IsPrefix("Category_", t);
    assert !IsPrefix("Product_", t) by {
      assert "Product_"[2] == 'o';
    }
    assert t[6..] == tail;
    assert ReplaceAll(t, "Price_", "") == ReplaceAll(tail, "Price_", "");
    if Contains(tail, "Price_") {
      ContainsChar(tail, "Price_", 'P');
    }
    ReplaceAbsent(tail, "Price_", "");
    assert "_" == ['_'] && " " == [' '];
    ReplaceCharAt(tail, '_', ' ');
    assert ToLower(ReplaceAll(tail, "_", " ")) == shown;
  }

  lemma HighShown(tail: string, shown: string)
    requires tail == "High" && shown == "high"
    ensures ShownAs(tail, shown)
  {
    forall i | 0 <= i < |tail|
      ensures shown[i] == LowerChar(if tail[i] == '_' then ' ' else tail[i])
    {
      if i == 0 {} else if i == 1 {} else if i == 2 {}
    }
  }

  lemma HighPriceText(t: Token)
    requires t == "Price_High"
    ensures FormatAttribute(t) == "high" + " priced items"
  {
    var tail, shown := "High", "high";
    HighShown(tail, shown);
    assert t == "Price_" + tail;
    PriceText(tail, shown);
  }

  lemma MediumHighShown(tail: string, shown: string)
    requires tail == "Medium_High" && shown == "medium high"
    ensures ShownAs(tail, shown)
  {
    forall i | 0 <= i < |tail|
      ensures shown[i] == LowerChar(if tail[i] == '_' then ' ' else tail[i])
    {
      if i == 0 {} else if i == 1 {} else if i == 2 {} else if i == 3 {} else if i == 4 {} else if i == 5 {} else if i == 6 {} else if i == 7 {} else if i == 8 {} else if i == 9 {}
    }
  }

  lemma MediumHighPriceText(t: Token)
    requires t == "Price_Medium_High"
    ensures FormatAttribute(t) == "medium high" + " priced items"
  {
    var tail, shown := "Medium_High", "medium high";
    MediumHighShown(tail, shown);
    assert t == "Price_" + tail;
    PriceText(tail, shown);
  }

  lemma MediumShown(tail: string, shown: string)
    requires tail == "Medium" && shown == "medium"
    ensures ShownAs(tail, shown)
  {
    forall i | 0 <= i < |tail|
      ensures shown[i] == LowerChar(if tail[i] == '_' then ' ' else tail[i])
    {
      if i == 0 {} else if i == 1 {} else if i == 2 {} else if i == 3 {} else if i == 4 {}
    }
  }

  lemma MediumPriceText(t: Token)
    requires t == "Price_Medium"
    ensures FormatAttribute(t) == "medium" + " priced items"
  {
    var tail, shown := "Medium", "medium";
    MediumShown(tail, shown);
    assert t == "Price_" + tail;
    PriceText(tail, shown);
  }

  lemma LowMediumShown(tail: string, shown: string)
    requires tail == "Low_Medium" && shown == "low medium"
    ensures ShownAs(tail, shown)
  {
    forall i | 0 <= i < |tail|
      ensures shown[i] == LowerChar(if tail[i] == '_' then ' ' else tail[i])
    {
      if i == 0 {} else if i == 1 {} else if i == 2 {} else if i == 3 {} else if i == 4 {} else if i == 5 {} else if i == 6 {} else if i == 7 {} else if i == 8 {}
    }
  }

  lemma LowMediumPriceText(t: Token)
    requires t == "Price_Low_Medium"
    ensures FormatAttribute(t) == "low medium" + " priced items"
  {
    var tail, shown := "Low_Medium", "low medium";
    LowMediumShown(tail, shown);
    assert t == "Price_" + tail;
    PriceText(tail, shown);
  }

  lemma LowShown(tail: string, shown: string)
    requires tail == "Low" && shown == "low"
    ensures ShownAs(tail, shown)
  {
    forall i | 0 <= i < |tail|
      ensures shown[i] == LowerChar(if tail[i] == '_' then ' ' else tail[i])
    {
      if i == 0 {} else if i == 1 {}
    }
  }

  lemma LowPriceText(t: Token)
    requires t == "Price_Low"
    ensures FormatAttribute(t) == "low" + " priced items"
  {
    var tail, shown := "Low", "low";
    LowShown(tail, shown);
    assert t == "Price_" + tail;
    PriceText(tail, shown);
  }

  /**
   * The display text of a product's price tier: "high", "medium high",
   * "medium", "low medium" or "low", followed by " priced items", for the
   * bands from 5000, 2000, 1000 and 500 down.
   */
  lemma PriceTierText(price: real)
    ensures FormatAttribute(PriceTier(price)) ==
      (if price >= 5000.0 then "high"
       else if price >= 2000.0 then "medium high"
       else if price >= 1000.0 then "medium"
       else if price >= 500.0 then "low medium"
       else "low") + " priced items"
  {
    if price >= 5000.0 {
      HighPriceText(PriceTier(price));
    } else if price >= 2000.0 {
      MediumHighPriceText(PriceTier(price));
    } else if price >= 1000.0 {
      MediumPriceText(PriceTier(price));
    } else if price >= 500.0 {
      LowMediumPriceText(PriceTier(price));
    } else {
      LowPriceText(PriceTier(price));
    }
  }

  // ---------------------------------------------------------------------
  // _format_product_recommendation_reason

  /** The first consequent (in rule order) that is one of the product's attributes. */
  function FirstMatch(consequents: seq<Token>, attributes: set<Token>): (m: Option<Token>)
    ensures m.Some? ==> m.value in consequents && m.value in attributes
    ensures m.None? <==> forall c :: c in consequents ==> c !in attributes
  {
    if consequents == [] then None
    else if consequents[0] in attributes then Some(consequents[0])
    else FirstMatch(consequents[1..], attributes)
  }

  /** The match is the first attribute in the list: nothing before it is one. */
  lemma {:induction false} FirstMatchIsFirst(consequents: seq<Token>, attributes: set<Token>) returns (k: nat)
    requires FirstMatch(consequents, attributes).Some?
    ensures k < |consequents| && consequents[k] == FirstMatch(consequents, attributes).value
    ensures forall j :: 0 <= j < k ==> consequents[j] !in attributes
    decreases |consequents|
  {
    if consequents[0] in attributes {
      k := 0;
    } else {
      var k' := FirstMatchIsFirst(consequents[1..], attributes);
      k := k' + 1;
      forall j | 0 <= j < k ensures consequents[j] !in attributes {
        if j > 0 { assert consequents[j] == consequents[1..][j - 1]; }
      }
    }
  }

  /** `_format_attribute` of each token. */
  function FormatAll(attributes: seq<Token>): (r: seq<string>)
    ensures |r| == |attributes|
    ensures forall i :: 0 <= i < |attributes| ==> r[i] == FormatAttribute(attributes[i])
  {
    seq(|attributes|, i requires 0 <= i < |attributes| => FormatAttribute(attributes[i]))
  }

  /** One antecedent alone, or "a, b and c". */
  function AntecedentText(antecedents: seq<Token>): string
    requires antecedents != []
  {
    if |antecedents| == 1 then FormatAttribute(antecedents[0])
    else
      Join(", ", FormatAll(antecedents[..|antecedents| - 1]))
        + " and " + FormatAttribute(antecedents[|antecedents| - 1])
  }

  const ReasonOpening: string := "Customers interested in "

  /**
   * The reason a rule gives for a product, or "" when none of its consequents
   * is an attribute of the product (or the first one that is, is empty).
   */
  function FormatReason(rule: Rule, attributes: set<Token>): string
    requires rule.antecedent != []
  {
    var m := FirstMatch(rule.consequent, attributes);
    if m.None? || m.value == "" then ""
    else ReasonOpening + AntecedentText(rule.antecedent) + " also purchase " + FormatAttribute(m.value)
  }

  /**
   * A reason is empty exactly when no consequent token names a non-empty
   * attribute first; otherwise it opens with "Customers interested in " and
   * closes with the display text of the first consequent that is an attribute.
   */
  lemma FormatReasonShape(rule: Rule, attributes: set<Token>)
    requires rule.antecedent != []
    ensures var m := FirstMatch(rule.consequent, attributes);
      FormatReason(rule, attributes) == "" <==> m.None? || m.value == ""
    ensures var reason := FormatReason(rule, attributes);
      reason != "" ==>
        IsPrefix(ReasonOpening, reason) &&
        exists c :: c in rule.consequent && c in attributes &&
          reason == ReasonOpening + AntecedentText(rule.antecedent) + " also purchase " + FormatAttribute(c)
  {
    var reason := FormatReason(rule, attributes);
    if reason != "" {
      assert reason[..|ReasonOpening|] == ReasonOpening;
    }
  }

  /** A rule that meets attributes which are all non-empty tokens always gives a reason. */
  lemma MatchingRuleHasReason(rule: Rule, attributes: set<Token>)
    requires rule.antecedent != [] && "" !in attributes
    requires Elems(rule.consequent) * attributes != {}
    ensures FormatReason(rule, attributes) != ""
  {
    var c :| c in Elems(rule.consequent) * attributes;
    assert c in rule.consequent;
    FormatReasonShape(rule, attributes);
  }
}

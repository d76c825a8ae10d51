/**
 * The token vocabulary: how product, category and tier facts are spelled,
 * the "actionable consequent" test of the rule generator
 * (`_is_interesting_product_consequent`), the order-value tier of purchase
 * transactions, and the category keyword tags (Tech/Fashion/Home).
 */
module Tokens {
  import opened Wrappers
  import opened Text

  type Token = string

  /** `f"Product_{product.id}"` */
  function ProductToken(id: nat): Token
  {
    "Product_" + NatToDecimal(id)
  }

  /** `f"Category_{name.replace(' ', '_')}"` */
  function CategoryToken(name: string): Token
  {
    "Category_" + ReplaceAll(name, " ", "_")
  }

  /** A category token carries no space and starts with `Category_`. */
  lemma CategoryTokenShape(name: string)
    ensures IsPrefix("Category_", CategoryToken(name))
    ensures ' ' !in CategoryToken(name)
  {
    ReplaceCharRemoves(name, ' ', '_');
    var t := CategoryToken(name);
    assert t[..9] == "Category_";
    forall i | 0 <= i < |t| ensures t[i] != ' ' {
      if i >= 9 { assert t[i] == ReplaceAll(name, " ", "_")[i - 9]; }
    }
  }

  // ---------------------------------------------------------------------
  // Actionable consequents

  /** The list searched by `_is_interesting_product_consequent`, in its order. */
  const InterestingPatterns: seq<string> :=
    ["Product_", "Category_", "Best_Seller", "Popular_Item",
     "Tech_Product", "Fashion_Product", "Home_Product",
     "Premium_Product", "Budget_Product"]

  /** The inner search: does any pattern occur in `t` as a substring? */
  function MatchesAnyPattern(t: Token, patterns: seq<string>): bool
  {
    if patterns == [] then false
    else Contains(t, patterns[0]) || MatchesAnyPattern(t, patterns[1..])
  }

  lemma {:induction false} MatchesAnyPatternIff(t: Token, patterns: seq<string>)
    ensures MatchesAnyPattern(t, patterns) <==>
      exists k :: 0 <= k < |patterns| && Contains(t, patterns[k])
  {
    if patterns != [] {
      MatchesAnyPatternIff(t, patterns[1..]);
      if MatchesAnyPattern(t, patterns[1..]) {
        var k :| 0 <= k < |patterns[1..]| && Contains(t, patterns[1..][k]);
        assert Contains(t, patterns[k + 1]);
      }
      if exists k :: 0 <= k < |patterns| && Contains(t, patterns[k]) {
        var k :| 0 <= k < |patterns| && Contains(t, patterns[k]);
        if k > 0 { assert Contains(t, patterns[1..][k - 1]); }
      }
    }
  }

  predicate IsInterestingToken(t: Token)
  {
    MatchesAnyPattern(t, InterestingPatterns)
  }

  /** `_is_interesting_product_consequent`: some consequent token matches some pattern. */
  predicate IsInterestingConsequent(c: set<Token>)
  {
    exists t :: t in c && IsInterestingToken(t)
  }

  /** Adding tokens to a consequent never makes it uninteresting. */
  lemma InterestingMonotone(c: set<Token>, d: set<Token>)
    requires c <= d && IsInterestingConsequent(c)
    ensures IsInterestingConsequent(d)
  {
    var t :| t in c && IsInterestingToken(t);
    assert t in d;
  }

  /** The empty consequent is never interesting. */
  lemma EmptyNotInteresting()
    ensures !IsInterestingConsequent({})
  {
  }

  /**
   * A consequent is interesting exactly when one of its tokens contains one of
   * the patterns as a substring.
   */
  lemma InterestingConsequentIff(c: set<Token>)
    ensures IsInterestingConsequent(c) <==>
      exists t, k :: t in c && 0 <= k < |InterestingPatterns| && Contains(t, InterestingPatterns[k])
  {
    forall t | t in c {
      MatchesAnyPatternIff(t, InterestingPatterns);
    }
  }

  /**
   * The test is substring containment, not a prefix test: the user-context
   * tokens of the category co-occurrence transactions (`User_Category_…`,
   * `Purchased_Category_…`, `Wishlist_Category_…`) all count as actionable,
   * and so does every product and category token.
   */
  lemma CategoryContextTokensInteresting(name: string, id: nat)
    ensures IsInterestingToken("User_Category_" + name)
    ensures IsInterestingToken("Purchased_Category_" + name)
    ensures IsInterestingToken("Wishlist_Category_" + name)
    ensures IsInterestingToken(CategoryToken(name))
    ensures IsInterestingToken(ProductToken(id))
  {
    var p := "Category_";
    var u := "User_Category_" + name;
    assert u[5..5 + |p|] == p;
    ContainsAt(u, p, 5);
    var q := "Purchased_Category_" + name;
    assert q[10..10 + |p|] == p;
    ContainsAt(q, p, 10);
    var w := "Wishlist_Category_" + name;
    assert w[9..9 + |p|] == p;
    ContainsAt(w, p, 9);
    var c := CategoryToken(name);
    assert c[0..|p|] == p;
    ContainsAt(c, p, 0);
    var r := ProductToken(id);
    assert r[0..8] == "Product_";
    ContainsAt(r, "Product_", 0);
  }

  /**
   * A token that misses, for each pattern, one of that pattern's characters
   * contains none of the patterns.
   */
  lemma NotInterestingByMissingChars(t: Token, witnesses: seq<char>)
    requires |witnesses| == |InterestingPatterns|
    requires forall k :: 0 <= k < |witnesses| ==>
      witnesses[k] in InterestingPatterns[k] && witnesses[k] !in t
    ensures !IsInterestingToken(t)
  {
    MatchesAnyPatternIff(t, InterestingPatterns);
    if IsInterestingToken(t) {
      var k :| 0 <= k < |InterestingPatterns| && Contains(t, InterestingPatterns[k]);
      ContainsChar(t, InterestingPatterns[k], witnesses[k]);
    }
  }

  /** The profile marker is not actionable. */
  lemma ProfileTokenNotInteresting(t: Token)
    requires t == "User_Has_Profile"
    ensures !IsInterestingToken(t)
  {
    NotInterestingByMissingChars(t, "dCBITFddB");
  }

  /** The wishlist marker is not actionable. */
  lemma WishlistTokenNotInteresting(t: Token)
    requires t == "Wishlist_Item"
    ensures !IsInterestingToken(t)
  {
    NotInterestingByMissingChars(t, "PCBPTFHPB");
  }

  /** No order-value tier is actionable. */
  lemma ValueTiersNotInteresting(totalAmount: real)
    ensures !IsInterestingToken(PurchaseValueTier(totalAmount))
  {
    var t := PurchaseValueTier(totalAmount);
    if totalAmount >= 10000.0 {
      HighValueNotInteresting(t);
    } else if totalAmount >= 5000.0 {
      MediumValueNotInteresting(t);
    } else {
      LowValueNotInteresting(t);
    }
  }

  lemma HighValueNotInteresting(t: Token)
    requires t == "High_Value_Purchase"
    ensures !IsInterestingToken(t)
  {
    NotInterestingByMissingChars(t, "dCBITFddB");
  }

  lemma MediumValueNotInteresting(t: Token)
    requires t == "Medium_Value_Purchase"
    ensures !IsInterestingToken(t)
  {
    NotInterestingByMissingChars(t, "oCBITFHoB");
  }

  lemma LowValueNotInteresting(t: Token)
    requires t == "Low_Value_Purchase"
    ensures !IsInterestingToken(t)
  {
    NotInterestingByMissingChars(t, "dCBITFHdB");
  }

  /** Price, stock and demand tiers such as these are not actionable either. */
  lemma TierTokensNotInteresting(t: Token)
    requires t == "Price_High" || t == "High_Stock" || t == "High_Demand"
    ensures !IsInterestingToken(t)
  {
    if t == "Price_High" {
      NotInterestingByMissingChars(t, "dCBITFdmB");
    } else {
      NotInterestingByMissingChars(t, "PCBPTFPPB");
    }
  }

  // ---------------------------------------------------------------------
  // Purchase value tier and category keyword tags

  /** The order-value token of a purchase transaction. */
  function PurchaseValueTier(totalAmount: real): Token
  {
    if totalAmount >= 10000.0 then "High_Value_Purchase"
    else if totalAmount >= 5000.0 then "Medium_Value_Purchase"
    else "Low_Value_Purchase"
  }

  /** The value tier is monotone: a larger order never gets a lower tier. */
  lemma PurchaseValueTierMonotone(a: real, b: real)
    requires a <= b
    ensures PurchaseValueTier(a) == "High_Value_Purchase" ==> PurchaseValueTier(b) == "High_Value_Purchase"
    ensures PurchaseValueTier(b) == "Low_Value_Purchase" ==> PurchaseValueTier(a) == "Low_Value_Purchase"
  {
  }

  const TechKeywords: seq<string> := ["electronic", "tech", "gadget"]
  const FashionKeywords: seq<string> := ["fashion", "clothing", "wear"]
  const HomeKeywords: seq<string> := ["home", "decor", "furniture"]

  /** `any(keyword in name for keyword in keywords)` */
  function AnyKeyword(name: string, keywords: seq<string>): bool
  {
    if keywords == [] then false
    else Contains(name, keywords[0]) || AnyKeyword(name, keywords[1..])
  }

  /** The keyword tag of a category, tested on its lower-cased name, first match wins. */
  function KeywordTag(categoryName: string): Option<Token>
  {
    var lower := ToLower(categoryName);
    if AnyKeyword(lower, TechKeywords) then Some("Tech_Product")
    else if AnyKeyword(lower, FashionKeywords) then Some("Fashion_Product")
    else if AnyKeyword(lower, HomeKeywords) then Some("Home_Product")
    else None
  }

  /** The keyword search is case-insensitive on ASCII letters. */
  lemma KeywordTagIgnoresCase(name: string)
    ensures KeywordTag(ToLower(name)) == KeywordTag(name)
  {
    assert ToLower(ToLower(name)) == ToLower(name);
  }

  /** The tag, when present, is itself an actionable token. */
  lemma KeywordTagInteresting(name: string)
    requires KeywordTag(name).Some?
    ensures IsInterestingToken(KeywordTag(name).value)
  {
    var t := KeywordTag(name).value;
    var k := if t == "Tech_Product" then 4 else if t == "Fashion_Product" then 5 else 6;
    assert t == InterestingPatterns[k];
    assert t[0..|t|] == InterestingPatterns[k];
    ContainsAt(t, InterestingPatterns[k], 0);
    MatchesAnyPatternIff(t, InterestingPatterns);
  }

  /** The keyword search finds a keyword exactly when one of them occurs in the name. */
  lemma {:induction false} AnyKeywordIff(name: string, keywords: seq<string>)
    ensures AnyKeyword(name, keywords) <==> exists k :: 0 <= k < |keywords| && Contains(name, keywords[k])
  {
    if keywords != [] {
      AnyKeywordIff(name, keywords[1..]);
      if AnyKeyword(name, keywords[1..]) {
        var k :| 0 <= k < |keywords[1..]| && Contains(name, keywords[1..][k]);
        assert Contains(name, keywords[k + 1]);
      }
      if exists k :: 0 <= k < |keywords| && Contains(name, keywords[k]) {
        var k :| 0 <= k < |keywords| && Contains(name, keywords[k]);
        if k > 0 { assert Contains(name, keywords[1..][k - 1]); }
      }
    }
  }

  /** Some keyword of a group occurs in the lower-cased name. */
  predicate HasKeyword(categoryName: string, keywords: seq<string>)
  {
    exists k :: 0 <= k < |keywords| && Contains(ToLower(categoryName), keywords[k])
  }

  /**
   * The tag is that of the first keyword group (Tech, then Fashion, then Home)
   * one of whose keywords occurs in the lower-cased name, and there is none
   * when no keyword occurs.
   */
  lemma KeywordTagFirstMatch(name: string)
    ensures KeywordTag(name) == Some("Tech_Product") <==> HasKeyword(name, TechKeywords)
    ensures KeywordTag(name) == Some("Fashion_Product") <==>
      !HasKeyword(name, TechKeywords) && HasKeyword(name, FashionKeywords)
    ensures KeywordTag(name) == Some("Home_Product") <==>
      !HasKeyword(name, TechKeywords) && !HasKeyword(name, FashionKeywords) && HasKeyword(name, HomeKeywords)
    ensures KeywordTag(name) == None <==>
      !HasKeyword(name, TechKeywords) && !HasKeyword(name, FashionKeywords) && !HasKeyword(name, HomeKeywords)
  {
    var lower := ToLower(name);
    AnyKeywordIff(lower, TechKeywords);
    AnyKeywordIff(lower, FashionKeywords);
    AnyKeywordIff(lower, HomeKeywords);
  }

  lemma {:induction false} NoKeywordByMissingChars(name: string, keywords: seq<string>, witnesses: seq<char>)
    requires |witnesses| == |keywords|
    requires forall k :: 0 <= k < |keywords| ==> witnesses[k] in keywords[k] && witnesses[k] !in name
    ensures !AnyKeyword(name, keywords)
  {
    if keywords != [] {
      if Contains(name, keywords[0]) {
        ContainsChar(name, keywords[0], witnesses[0]);
      }
      NoKeywordByMissingChars(name, keywords[1..], witnesses[1..]);
    }
  }
}

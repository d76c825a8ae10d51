/**
 * Product attribute tiering: the token set `_get_product_attributes` builds
 * for a product, the same facts as the list of one product-attribute
 * transaction (`prepare_product_attributes`), and the list of one purchase
 * transaction (`prepare_user_transactions`, purchase history part).
 *
 * The sales count, which the source obtains with a query, is part of the
 * product record here.
 */
module ProductAttributes {
  import opened Wrappers
  import opened Text
  import opened Tokens

  /** A catalogue product: id, category name, price, units in stock and order lines sold. */
  datatype Product = Product(id: nat, categoryName: string, price: real, stock: int, sold: nat)

  // ---------------------------------------------------------------------
  // Tier tokens

  const PriceTierNames: set<Token> :=
    {"Price_High", "Price_Medium_High", "Price_Medium", "Price_Low_Medium", "Price_Low"}
  const StockTierNames: set<Token> := {"High_Stock", "Medium_Stock", "Low_Stock"}
  const KeywordTagNames: set<Token> := {"Tech_Product", "Fashion_Product", "Home_Product"}

  /** The price tier token (boundaries 5000, 2000, 1000, 500). */
  function PriceTier(price: real): (t: Token)
    ensures t in PriceTierNames
  {
    if price >= 5000.0 then "Price_High"
    else if price >= 2000.0 then "Price_Medium_High"
    else if price >= 1000.0 then "Price_Medium"
    else if price >= 500.0 then "Price_Low_Medium"
    else "Price_Low"
  }

  /** The marker that goes with the top or bottom price tier. */
  function PriceMarker(price: real): set<Token>
  {
    if price >= 5000.0 then {"Premium_Product"}
    else if price < 500.0 then {"Budget_Product"}
    else {}
  }

  /** The stock tier token (boundaries 20 and 5). */
  function StockTier(stock: int): (t: Token)
    ensures t in StockTierNames
  {
    if stock >= 20 then "High_Stock"
    else if stock >= 5 then "Medium_Stock"
    else "Low_Stock"
  }

  /** The popularity tokens (boundaries 10 and 5 sales). */
  function DemandTokens(sold: nat): set<Token>
  {
    if sold >= 10 then {"Best_Seller", "High_Demand"}
    else if sold >= 5 then {"Popular_Item"}
    else {}
  }

  function TagTokens(categoryName: string): set<Token>
  {
    match KeywordTag(categoryName)
    case None => {}
    case Some(t) => {t}
  }

  /** The reference attribute set of a product. */
  function Attributes(p: Product): set<Token>
  {
    {ProductToken(p.id), CategoryToken(p.categoryName)}
    + {PriceTier(p.price)} + PriceMarker(p.price)
    + {StockTier(p.stock)}
    + DemandTokens(p.sold)
    + TagTokens(p.categoryName)
  }

  const PriceMarkerNames: set<Token> := {"Premium_Product", "Budget_Product"}
  const DemandNames: set<Token> := {"Best_Seller", "High_Demand", "Popular_Item"}

  /** The id and category tokens of a product. */
  function IdTokens(p: Product): set<Token>
  {
    {ProductToken(p.id), CategoryToken(p.categoryName)}
  }

  lemma KeywordTagIsName(name: string)
    ensures TagTokens(name) <= KeywordTagNames
  {
  }

  /** The five groups of literal tokens have no token in common. */
  lemma GroupsDisjoint()
    ensures PriceTierNames !! PriceMarkerNames && PriceTierNames !! StockTierNames
    ensures PriceTierNames !! DemandNames && PriceTierNames !! KeywordTagNames
    ensures PriceMarkerNames !! StockTierNames && PriceMarkerNames !! DemandNames
    ensures PriceMarkerNames !! KeywordTagNames
    ensures StockTierNames !! DemandNames && StockTierNames !! KeywordTagNames
    ensures DemandNames !! KeywordTagNames
  {
  }

  /**
   * A token that does not start with `C`, and is not spelled `P?o...`, is
   * neither a product token (`Product_…`) nor a category token (`Category_…`).
   */
  lemma NotIdentifier(t: Token, id: nat, name: string)
    requires |t| >= 3 && t[0] != 'C' && (t[0] != 'P' || t[2] != 'o')
    ensures t != ProductToken(id) && t != CategoryToken(name)
  {
    assert ProductToken(id)[0] == 'P' && ProductToken(id)[2] == 'o';
    assert CategoryToken(name)[0] == 'C';
  }

  /** No literal token is an id or category token. */
  lemma IdsNotInGroups(p: Product)
    ensures IdTokens(p) !! PriceTierNames && IdTokens(p) !! PriceMarkerNames
    ensures IdTokens(p) !! StockTierNames && IdTokens(p) !! DemandNames
    ensures IdTokens(p) !! KeywordTagNames
  {
    var all := PriceTierNames + PriceMarkerNames + StockTierNames + DemandNames + KeywordTagNames;
    forall t | t in all ensures t !in IdTokens(p) {
      assert |t| >= 3 && t[0] != 'C' && (t[0] != 'P' || t[2] != 'o');
      NotIdentifier(t, p.id, p.categoryName);
    }
  }

  lemma IdentifiersDiffer(id: nat, name: string)
    ensures ProductToken(id) != CategoryToken(name)
  {
    assert ProductToken(id)[0] == 'P' && CategoryToken(name)[0] == 'C';
  }

  /** Every part of the attribute set lies in its own group. */
  lemma PartsInGroups(p: Product)
    ensures {PriceTier(p.price)} <= PriceTierNames && PriceMarker(p.price) <= PriceMarkerNames
    ensures {StockTier(p.stock)} <= StockTierNames && DemandTokens(p.sold) <= DemandNames
    ensures TagTokens(p.categoryName) <= KeywordTagNames
  {
    KeywordTagIsName(p.categoryName);
  }

  // ---------------------------------------------------------------------
  // Tiering properties

  /** Exactly one price tier token. */
  lemma OnePriceTier(p: Product)
    ensures Attributes(p) * PriceTierNames == {PriceTier(p.price)}
    ensures |Attributes(p) * PriceTierNames| == 1
  {
    GroupsDisjoint();
    IdsNotInGroups(p);
    PartsInGroups(p);
  }

  /** Exactly one stock tier token. */
  lemma OneStockTier(p: Product)
    ensures Attributes(p) * StockTierNames == {StockTier(p.stock)}
    ensures |Attributes(p) * StockTierNames| == 1
  {
    GroupsDisjoint();
    IdsNotInGroups(p);
    PartsInGroups(p);
  }

  /** `Premium_Product` exactly at price 5000 and above, `Budget_Product` exactly below 500. */
  lemma PriceMarkers(p: Product)
    ensures "Premium_Product" in Attributes(p) <==> p.price >= 5000.0
    ensures "Budget_Product" in Attributes(p) <==> p.price < 500.0
  {
    GroupsDisjoint();
    IdsNotInGroups(p);
    PartsInGroups(p);
    assert Attributes(p) * PriceMarkerNames == PriceMarker(p.price);
    assert "Premium_Product" in PriceMarkerNames && "Budget_Product" in PriceMarkerNames;
  }

  /** `Best_Seller` and `High_Demand` at 10 sales and above, `Popular_Item` from 5 up to 9. */
  lemma DemandMarkers(p: Product)
    ensures "Best_Seller" in Attributes(p) <==> p.sold >= 10
    ensures "High_Demand" in Attributes(p) <==> p.sold >= 10
    ensures "Popular_Item" in Attributes(p) <==> 5 <= p.sold < 10
  {
    GroupsDisjoint();
    IdsNotInGroups(p);
    PartsInGroups(p);
    assert Attributes(p) * DemandNames == DemandTokens(p.sold);
    assert "Best_Seller" in DemandNames && "High_Demand" in DemandNames && "Popular_Item" in DemandNames;
  }

  /** At most one of the Tech, Fashion and Home tags, and exactly the keyword tag when there is one. */
  lemma AtMostOneTag(p: Product)
    ensures Attributes(p) * KeywordTagNames == TagTokens(p.categoryName)
    ensures |Attributes(p) * KeywordTagNames| <= 1
  {
    GroupsDisjoint();
    IdsNotInGroups(p);
    PartsInGroups(p);
  }

  /**
   * A product priced at least 5000 with at least 20 in stock and at least 10
   * sales carries exactly its id and category tokens, `Price_High`,
   * `Premium_Product`, `High_Stock`, `Best_Seller` and `High_Demand`, plus its
   * keyword tag if any.
   */
  lemma TopTierAttributes(p: Product)
    requires p.price >= 5000.0 && p.stock >= 20 && p.sold >= 10
    ensures Attributes(p) ==
      IdTokens(p) + {"Price_High", "Premium_Product", "High_Stock", "Best_Seller", "High_Demand"}
      + TagTokens(p.categoryName)
  {
  }

  /**
   * A product priced below 500 with fewer than 5 in stock and fewer than 5
   * sales carries exactly its id and category tokens, `Price_Low`,
   * `Budget_Product` and `Low_Stock`, plus its keyword tag if any.
   */
  lemma BottomTierAttributes(p: Product)
    requires p.price < 500.0 && p.stock < 5 && p.sold < 5
    ensures Attributes(p) ==
      IdTokens(p) + {"Price_Low", "Budget_Product", "Low_Stock"} + TagTokens(p.categoryName)
  {
  }

  // ---------------------------------------------------------------------
  // The two imperative builders

  /** `_get_product_attributes`: the set built with `.add`. */
  method BuildAttributes(p: Product) returns (attributes: set<Token>)
    ensures attributes == Attributes(p)
  {
    attributes := {};
    attributes := attributes + {ProductToken(p.id)};
    attributes := attributes + {CategoryToken(p.categoryName)};
    if p.price >= 5000.0 {
      attributes := attributes + {"Price_High"};
      attributes := attributes + {"Premium_Product"};
    } else if p.price >= 2000.0 {
      attributes := attributes + {"Price_Medium_High"};
    } else if p.price >= 1000.0 {
      attributes := attributes + {"Price_Medium"};
    } else if p.price >= 500.0 {
      attributes := attributes + {"Price_Low_Medium"};
    } else {
      attributes := attributes + {"Price_Low"};
      attributes := attributes + {"Budget_Product"};
    }
    assert attributes == IdTokens(p) + {PriceTier(p.price)} + PriceMarker(p.price);
    if p.stock >= 20 {
      attributes := attributes + {"High_Stock"};
    } else if p.stock >= 5 {
      attributes := attributes + {"Medium_Stock"};
    } else {
      attributes := attributes + {"Low_Stock"};
    }
    assert attributes == IdTokens(p) + {PriceTier(p.price)} + PriceMarker(p.price) + {StockTier(p.stock)};
    if p.sold >= 10 {
      attributes := attributes + {"Best_Seller"};
      attributes := attributes + {"High_Demand"};
    } else if p.sold >= 5 {
      attributes := attributes + {"Popular_Item"};
    }
    assert attributes == IdTokens(p) + {PriceTier(p.price)} + PriceMarker(p.price) + {StockTier(p.stock)}
      + DemandTokens(p.sold);
    var tag := KeywordTag(p.categoryName);
    assert TagTokens(p.categoryName) == if tag.Some? then {tag.value} else {};
    if tag.Some? {
      attributes := attributes + {tag.value};
    }
  }

  /**
   * One product-attribute transaction of `prepare_product_attributes`: the
   * same facts as a list, in the order they are appended.
   */
  method AttributeTransaction(p: Product) returns (transaction: seq<Token>)
    ensures Elems(transaction) == Attributes(p)
    ensures NoDuplicates(transaction)
  {
    var ids := [ProductToken(p.id), CategoryToken(p.categoryName)];
    var price: seq<Token>;
    if p.price >= 5000.0 {
      price := ["Price_High", "Premium_Product"];
    } else if p.price >= 2000.0 {
      price := ["Price_Medium_High"];
    } else if p.price >= 1000.0 {
      price := ["Price_Medium"];
    } else if p.price >= 500.0 {
      price := ["Price_Low_Medium"];
    } else {
      price := ["Price_Low", "Budget_Product"];
    }
    assert NoDuplicates(price) && Elems(price) == {PriceTier(p.price)} + PriceMarker(p.price);
    var stock: seq<Token>;
    if p.stock >= 20 {
      stock := ["High_Stock"];
    } else if p.stock >= 5 {
      stock := ["Medium_Stock"];
    } else {
      stock := ["Low_Stock"];
    }
    assert NoDuplicates(stock) && Elems(stock) == {StockTier(p.stock)};
    var demand: seq<Token> := [];
    if p.sold >= 10 {
      demand := ["Best_Seller", "High_Demand"];
    } else if p.sold >= 5 {
      demand := ["Popular_Item"];
    }
    assert NoDuplicates(demand) && Elems(demand) == DemandTokens(p.sold);
    var tag: seq<Token> := [];
    var kw := KeywordTag(p.categoryName);
    assert TagTokens(p.categoryName) == if kw.Some? then {kw.value} else {};
    if kw.Some? {
      tag := [kw.value];
    }
    assert NoDuplicates(tag) && Elems(tag) == TagTokens(p.categoryName);
    transaction := ids + price + stock + demand + tag;

    IdentifiersDiffer(p.id, p.categoryName);
    PiecesMakeAttributes(p, ids, price, stock, demand, tag);
  }

  /** Duplicate-free pieces, one per group, joined in order list the attribute set once each. */
  lemma PiecesMakeAttributes(p: Product, ids: seq<Token>, price: seq<Token>, stock: seq<Token>,
                             demand: seq<Token>, tag: seq<Token>)
    requires NoDuplicates(ids) && Elems(ids) == IdTokens(p)
    requires NoDuplicates(price) && Elems(price) == {PriceTier(p.price)} + PriceMarker(p.price)
    requires NoDuplicates(stock) && Elems(stock) == {StockTier(p.stock)}
    requires NoDuplicates(demand) && Elems(demand) == DemandTokens(p.sold)
    requires NoDuplicates(tag) && Elems(tag) == TagTokens(p.categoryName)
    ensures NoDuplicates(ids + price + stock + demand + tag)
    ensures Elems(ids + price + stock + demand + tag) == Attributes(p)
  {
    GroupsDisjoint();
    IdsNotInGroups(p);
    PartsInGroups(p);
    JoinDistinct(ids, price);
    JoinDistinct(ids + price, stock);
    JoinDistinct(ids + price + stock, demand);
    JoinDistinct(ids + price + stock + demand, tag);
  }

  // ---------------------------------------------------------------------
  // Purchase transactions

  /** One order line: the product it names, if it still exists (id and category name). */
  type OrderLine = Option<(nat, string)>

  /** The tokens appended for the order lines that name a product. */
  function LineTokens(lines: seq<OrderLine>): seq<Token>
  {
    if lines == [] then []
    else LineTokens(lines[..|lines| - 1]) + LineTokensOf(lines[|lines| - 1])
  }

  function LineTokensOf(line: OrderLine): seq<Token>
  {
    match line
    case None => []
    case Some(pc) => [ProductToken(pc.0), CategoryToken(pc.1), "Purchased_Product"]
  }

  predicate HasProduct(lines: seq<OrderLine>)
  {
    exists i :: 0 <= i < |lines| && lines[i].Some?
  }

  /** There are line tokens exactly when some order line names a product. */
  lemma {:induction false} LineTokensEmpty(lines: seq<OrderLine>)
    ensures LineTokens(lines) == [] <==> !HasProduct(lines)
  {
    if lines != [] {
      var init := lines[..|lines| - 1];
      LineTokensEmpty(init);
      if HasProduct(init) {
        var i :| 0 <= i < |init| && init[i].Some?;
        assert lines[i].Some?;
      }
      if HasProduct(lines) && lines[|lines| - 1].None? {
        var i :| 0 <= i < |lines| && lines[i].Some?;
        assert init[i].Some?;
      }
    }
  }

  /**
   * One purchase transaction: the line tokens, then the order-value tier. It
   * is kept only when it has at least two tokens.
   */
  method PurchaseTransaction(lines: seq<OrderLine>, totalAmount: real) returns (kept: Option<seq<Token>>)
    ensures kept.Some? <==> HasProduct(lines)
    ensures kept.Some? ==> kept.value == LineTokens(lines) + [PurchaseValueTier(totalAmount)]
  {
    var transaction: seq<Token> := [];
    var i := 0;
    while i < |lines|
      invariant 0 <= i <= |lines|
      invariant transaction == LineTokens(lines[..i])
    {
      assert lines[..i + 1][..i] == lines[..i];
      match lines[i] {
        case Some(pc) =>
          transaction := transaction + [ProductToken(pc.0), CategoryToken(pc.1), "Purchased_Product"];
        case None =>
      }
      i := i + 1;
    }
    assert lines[..|lines|] == lines;
    if totalAmount >= 10000.0 {
      transaction := transaction + ["High_Value_Purchase"];
    } else if totalAmount >= 5000.0 {
      transaction := transaction + ["Medium_Value_Purchase"];
    } else {
      transaction := transaction + ["Low_Value_Purchase"];
    }
    LineTokensEmpty(lines);
    if |transaction| >= 2 {
      kept := Some(transaction);
    } else {
      kept := None;
    }
  }
}

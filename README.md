# Association-rule product recommendations, modelled in Dafny

This project models the product recommendation engine of the shop
(`ProductRecommendationAlgorithm` in `ecom/shop/algorithms/product_recommendation.py`).
The engine treats each cart, wishlist, order and product profile as a
*transaction*, which is a list of string tokens such as `Product_17`,
`Category_Home_Decor`, `Price_High` or `Best_Seller`. It then works in five steps:

1. It mines frequent itemsets with Apriori. The `min_support` percentage is
   turned into a count of transactions with `_to_fraction` and a ceiling. Frequent
   singletons seed the level-wise search, and `_generate_candidates` joins
   pairs of frequent (k-1)-itemsets and prunes each join by its subsets.
2. It splits every frequent itemset of two or more tokens into an antecedent
   and a consequent. A split becomes a rule when:
   - the consequent contains an "interesting" token;
   - the confidence reaches `min_confidence`;
   - the lift is at least 1.

   The rules are sorted by confidence, then by support, largest first.
3. It scores every in-stock product of an optional category. The score is the
   sum of `confidence * lift` over the rules whose consequent meets the
   product's attribute tokens, plus:
   - fixed boosts for sales, stock and price;
   - for a signed-in shopper, a personalization boost of 0 to 60.

   Products with a positive score are kept. Each keeps at most five distinct
   reasons. The list is sorted by score and cut to the limit.
4. The personalized entry point scores each category the shopper showed interest
   in. It merges the lists so that each product keeps its highest-scoring
   record, with the first record winning a tie. Then it sorts by score and cuts to the limit.
5. It formats each reason as "Customers interested in … also purchase …".

The modules follow that structure:

| module | file | content |
|---|---|---|
| `Wrappers` | wrappers.dfy | `Option` |
| `Text` | text.dfy | string helpers: prefix, contains, replace-all, ASCII lower-casing, join; sorted lists of distinct strings; `itertools.combinations` |
| `Thresholds` | thresholds.dfy | `_to_fraction` and the support count |
| `Tokens` | tokens.dfy | token shapes, the purchase value tier, the interesting-consequent test, the category keyword tag |
| `ProductAttributes` | attributes.dfy | the attribute tiers of a product and the product and purchase transactions |
| `Apriori` | apriori.dfy | support counting, candidate generation and the level-wise search |
| `Rules` | rules.dfy | the rule of one split, consequent support, lift, and the rule generator |
| `Ranking` | ranking.dfy | Python's stable `sort(..., reverse=True)` and slicing `[:limit]` |
| `Reasons` | reasons.dfy | `_format_attribute` and `_format_product_recommendation_reason` |
| `Scoring` | scoring.dfy | the scoring loop and the boosts |
| `Personalize` | personalize.dfy | the merge and the final sort of the personalized recommendations |
| `Engine` | engine.dfy | the analysis end to end, and the two public entry points |

The code that changes state step by step is written as methods with loops.
Their ensures clauses tie each result to a specification function or predicate, and lemmas prove
that specification's properties. This covers:
- counting;
- candidate generation;
- the level loop;
- the support lookup;
- the rule loops;
- the scoring loop;
- the merge.

The pure helpers are functions.

Transactions, products, the shopper's wishlist, cart and order history, and the
ordered list of the shopper's categories are parameters. The database queries
that produce them in the original are not part of this model. Sets that Python
iterates in hash order are modelled in one of two ways:
- fixed by a choice (`:|`), which the contracts do not depend on;
- given as a caller-chosen sequence.

Confidence is stored in percent, as in the source. The exact ratios are proved
equal to the source's formulas.

## Model

Every source cell is in `ecom/shop/algorithms/product_recommendation.py`.

| member | source | states |
|---|---|---|
| Thresholds.ToFractionOfPercent | ecom/shop/algorithms/product_recommendation.py:28-32 | a threshold in (1, 100] is a percentage: the fraction is a hundredth of it and lies in (0.01, 1] |
| Thresholds.ToFractionOfFraction | ecom/shop/algorithms/product_recommendation.py:28-32 | a threshold in [0, 1] is kept as it is, so converting twice changes nothing |
| Thresholds.ToFractionNotMonotone | ecom/shop/algorithms/product_recommendation.py:28-32 | 1.0 converts to 1 (every transaction), and every threshold strictly between 1 and 100 converts to less although it is larger: the conversion is not monotone |
| Engine.DefaultThresholds | ecom/shop/algorithms/product_recommendation.py:16 | the constructor's defaults, 2.0 and 50.0, convert through `_to_fraction` (lines 28-32) to the fractions 0.02 and 0.5, and the support count for n transactions is then the ceiling of 0.02·n |
| Thresholds.Ceil | ecom/shop/algorithms/product_recommendation.py:279 | `math.ceil`: the least integer not below x |
| Thresholds.MeetsMinSupport | ecom/shop/algorithms/product_recommendation.py:279 | a count reaches `min_support_count` exactly when it reaches fraction × number of transactions |
| Thresholds.MinSupportCountMonotone | ecom/shop/algorithms/product_recommendation.py:279 | a larger support fraction never lowers the count threshold |
| Tokens.CategoryTokenShape | ecom/shop/algorithms/product_recommendation.py:601 | a category token starts with `Category_` and has no spaces |
| Tokens.MatchesAnyPatternIff | ecom/shop/algorithms/product_recommendation.py:409-413 | a token is interesting exactly when one of the patterns occurs in it as a substring |
| Tokens.InterestingMonotone | ecom/shop/algorithms/product_recommendation.py:398-413 | a consequent containing an interesting consequent is interesting |
| Tokens.EmptyNotInteresting | ecom/shop/algorithms/product_recommendation.py:398-413 | the empty consequent is not interesting (a corollary of the definition, used by the rule lemmas) |
| Tokens.InterestingConsequentIff | ecom/shop/algorithms/product_recommendation.py:398-413 | a consequent is interesting exactly when one of its tokens contains one of the nine patterns as a substring |
| Tokens.CategoryContextTokensInteresting | ecom/shop/algorithms/product_recommendation.py:403-407 | product tokens, category tokens and every `*_Category_*` token match the `Category_` or `Product_` pattern |
| Tokens.ValueTiersNotInteresting | ecom/shop/algorithms/product_recommendation.py:106-111 | no purchase value tier token is interesting |
| Tokens.TierTokensNotInteresting | ecom/shop/algorithms/product_recommendation.py:403-407 | `Price_High`, `High_Stock` and `High_Demand` are not interesting |
| Tokens.PurchaseValueTierMonotone | ecom/shop/algorithms/product_recommendation.py:106-111 | a larger order total never gets a lower value tier |
| Tokens.KeywordTagIgnoresCase | ecom/shop/algorithms/product_recommendation.py:635-641 | the keyword tag depends only on the lower-cased category name |
| Tokens.KeywordTagInteresting | ecom/shop/algorithms/product_recommendation.py:636-641 | every keyword tag is an interesting token |
| Tokens.AnyKeywordIff | ecom/shop/algorithms/product_recommendation.py:640 | the keyword search is true exactly when one of the keywords occurs in the name |
| Tokens.KeywordTagFirstMatch | ecom/shop/algorithms/product_recommendation.py:635-641 | the tag is Tech, Fashion or Home for the first group with a keyword in the lower-cased name, in that order, and there is none exactly when no keyword occurs |
| Tokens.NoKeywordByMissingChars | ecom/shop/algorithms/product_recommendation.py:636-641 | a group none of whose keywords can occur (each misses a character of the name) does not match |
| ProductAttributes.PriceTier | ecom/shop/algorithms/product_recommendation.py:604-616 | the price tier is one of the five price tokens |
| ProductAttributes.StockTier | ecom/shop/algorithms/product_recommendation.py:619-624 | the stock tier is one of the three stock tokens |
| ProductAttributes.GroupsDisjoint | ecom/shop/algorithms/product_recommendation.py:604-641 | the price, marker, stock, demand and keyword token groups are pairwise disjoint |
| ProductAttributes.IdsNotInGroups | ecom/shop/algorithms/product_recommendation.py:600-601 | the product and category tokens belong to none of the tier groups |
| ProductAttributes.IdentifiersDiffer | ecom/shop/algorithms/product_recommendation.py:600-601 | a product token never equals a category token |
| ProductAttributes.OnePriceTier | ecom/shop/algorithms/product_recommendation.py:604-616 | the attributes hold exactly one price tier |
| ProductAttributes.OneStockTier | ecom/shop/algorithms/product_recommendation.py:619-624 | the attributes hold exactly one stock tier |
| ProductAttributes.PriceMarkers | ecom/shop/algorithms/product_recommendation.py:605-616 | `Premium_Product` exactly when the price is at least 5000, `Budget_Product` exactly when it is below 500 |
| ProductAttributes.DemandMarkers | ecom/shop/algorithms/product_recommendation.py:627-632 | `Best_Seller` and `High_Demand` exactly when at least 10 are sold, `Popular_Item` exactly when 5 to 9 are sold |
| ProductAttributes.AtMostOneTag | ecom/shop/algorithms/product_recommendation.py:635-641 | at most one keyword tag, the first keyword group that matches |
| ProductAttributes.TopTierAttributes | ecom/shop/algorithms/product_recommendation.py:595-643 | a product priced at least 5000, with at least 20 in stock and 10 sales, has exactly its ids, `Price_High`, `Premium_Product`, `High_Stock`, `Best_Seller`, `High_Demand` and its tag |
| ProductAttributes.BottomTierAttributes | ecom/shop/algorithms/product_recommendation.py:595-643 | a product priced below 500, with fewer than 5 in stock and 5 sales, has exactly its ids, `Price_Low`, `Budget_Product`, `Low_Stock` and its tag |
| ProductAttributes.BuildAttributes | ecom/shop/algorithms/product_recommendation.py:595-643 | the set built step by step equals the attribute specification |
| ProductAttributes.AttributeTransaction | ecom/shop/algorithms/product_recommendation.py:204-247 | the product-attribute transaction lists exactly the product's attributes, each once |
| ProductAttributes.LineTokensEmpty | ecom/shop/algorithms/product_recommendation.py:98-103 | order lines give tokens exactly when one of them names a product |
| ProductAttributes.PurchaseTransaction | ecom/shop/algorithms/product_recommendation.py:94-114 | an order is kept exactly when a line names a product, and then it is the line tokens followed by the value tier |
| Apriori.Support | ecom/shop/algorithms/product_recommendation.py:316-320 | a support count is at most the number of transactions |
| Apriori.SupportAntiMonotone | ecom/shop/algorithms/product_recommendation.py:316-320 | a superset never has larger support |
| Apriori.FrequentDownward | ecom/shop/algorithms/product_recommendation.py:323-326 | every subset of a frequent itemset is frequent |
| Apriori.CountSingletons | ecom/shop/algorithms/product_recommendation.py:284-287 | the item counts hold exactly the tokens that occur, each with the number of transactions containing it |
| Apriori.FrequentSingletons | ecom/shop/algorithms/product_recommendation.py:290-294 | L1 holds exactly the singletons whose count reaches the threshold, with that count |
| Apriori.AllSubsetsKnown | ecom/shop/algorithms/product_recommendation.py:425-429 | the pruning test is true exactly when every one-smaller subset is a key of the previous level |
| Apriori.VisitedPairs | ecom/shop/algorithms/product_recommendation.py:420-431 | the sets collected after visiting the pairs up to (i, j) are the pruned k-unions of exactly those pairs |
| Apriori.CandidatesExact | ecom/shop/algorithms/product_recommendation.py:420-433 | after all pairs, the candidates are exactly the pruned k-unions of two distinct previous itemsets |
| Apriori.GenerateCandidates | ecom/shop/algorithms/product_recommendation.py:415-433 | a set is a candidate exactly when it has k tokens, is the union of two distinct (k-1)-itemsets, and all its (k-1)-subsets are frequent |
| Apriori.CandidatesCoverFrequent | ecom/shop/algorithms/product_recommendation.py:415-433 | every frequent k-itemset is among the candidates built from an exact level k-1 |
| Apriori.CountCandidates | ecom/shop/algorithms/product_recommendation.py:312-320 | the counts hold exactly the candidates that occur, each with its exact support |
| Apriori.KeepFrequent | ecom/shop/algorithms/product_recommendation.py:323-326 | Lk keeps exactly the counted candidates that reach the threshold, with their counts |
| Apriori.NextLevelExact | ecom/shop/algorithms/product_recommendation.py:311-326 | from an exact level k-1, one round yields exactly the frequent k-itemsets with their supports |
| Apriori.Mine | ecom/shop/algorithms/product_recommendation.py:283-334 | the level-wise search ends with every level exact, and stops after the first empty level or at the maximum length |
| Apriori.LevelsDownwardClosed | ecom/shop/algorithms/product_recommendation.py:306-334 | dropping a token of an itemset of a level gives an itemset of the previous level |
| Apriori.MiningComplete | ecom/shop/algorithms/product_recommendation.py:290-334 | every frequent itemset up to the maximum length is found at its level |
| Apriori.MiningSound | ecom/shop/algorithms/product_recommendation.py:290-334 | every itemset found is frequent, has its level's size, and carries its exact support |
| Apriori.MiningThresholdMonotone | ecom/shop/algorithms/product_recommendation.py:279-334 | a higher threshold finds no more levels and a subset of each level |
| Apriori.MiningDeterminate | ecom/shop/algorithms/product_recommendation.py:283-334 | the mining result does not depend on iteration order |
| Rules.SourceConfidence | ecom/shop/algorithms/product_recommendation.py:366 | the source's confidence formula equals the joint count over the antecedent count |
| Rules.SourceLift | ecom/shop/algorithms/product_recommendation.py:375 | the source's lift formula, including its zero case, equals the model's lift |
| Rules.RuleShape | ecom/shop/algorithms/product_recommendation.py:354-385 | the rule's antecedent and consequent list the split, sorted, and the consequent is interesting |
| Rules.RuleRatios | ecom/shop/algorithms/product_recommendation.py:366-383 | support is the joint count per hundred transactions, and confidence is the joint count per hundred antecedent occurrences, at least the minimum |
| Rules.RuleLift | ecom/shop/algorithms/product_recommendation.py:370-378 | lift is joint × n over antecedent × the largest single-token consequent count, and it is at least 1 |
| Rules.RuleSound | ecom/shop/algorithms/product_recommendation.py:354-385 | every emitted rule passes all the filters of the generator |
| Rules.RulePartitions | ecom/shop/algorithms/product_recommendation.py:355-356 | antecedent and consequent are disjoint, cover the itemset, the consequent is non-empty, and confidence is at most 100 |
| Rules.RuleForIdentifies | ecom/shop/algorithms/product_recommendation.py:354-385 | a rule determines the itemset and the split it came from |
| Rules.RuleForThresholdMonotone | ecom/shop/algorithms/product_recommendation.py:368 | a rule that passes a higher confidence threshold passes a lower one unchanged |
| Rules.LiftAtMostJointLift | ecom/shop/algorithms/product_recommendation.py:370-375 | the max-single-token consequent support never gives a higher lift than the textbook lift with the joint consequent support |
| Rules.ConsequentSupport | ecom/shop/algorithms/product_recommendation.py:370-373 | the loop computes the largest single-token support of the consequent |
| Rules.EvaluateSplit | ecom/shop/algorithms/product_recommendation.py:355-385 | one split gives exactly the specified rule, or nothing when the antecedent has no recorded support |
| Rules.ItemsetRules | ecom/shop/algorithms/product_recommendation.py:349-385 | an itemset's rules are exactly the specified rules of its non-empty proper subsets, without repeats |
| Rules.ItemsetRulesFacts | ecom/shop/algorithms/product_recommendation.py:353-354 | the combinations of sizes 1 to n-1 enumerate each non-empty proper subset once |
| Rules.SupportLookup | ecom/shop/algorithms/product_recommendation.py:336-340 | the support lookup is the union of the levels |
| Rules.MergedExact | ecom/shop/algorithms/product_recommendation.py:336-340 | the lookup holds exactly the frequent itemsets found, with their exact supports |
| Rules.GenerateRules | ecom/shop/algorithms/product_recommendation.py:342-385 | the rules are those of every itemset of the levels of size two or more |
| Ranking.SortDescFacts | ecom/shop/algorithms/product_recommendation.py:388 | the descending sort is sorted, a permutation, and stable within each key |
| Ranking.TakePy | ecom/shop/algorithms/product_recommendation.py:523 | Python slicing `[:limit]`, including a negative limit |
| Ranking.TakePySorted | ecom/shop/algorithms/product_recommendation.py:519-523 | a prefix of a sorted list is sorted |
| Reasons.FormatAttributeNoUnderscore | ecom/shop/algorithms/product_recommendation.py:709-718 | displayed attributes never contain an underscore |
| Reasons.FormatProductToken | ecom/shop/algorithms/product_recommendation.py:713-714 | every product token is shown as "this product" |
| Reasons.FormatCategoryToken | ecom/shop/algorithms/product_recommendation.py:711-712 | a category token shows its category name followed by " products" |
| Reasons.PriceText | ecom/shop/algorithms/product_recommendation.py:715-716 | a `Price_` token whose tail has no `P` shows that tail with spaces for `_`, lower-cased, followed by " priced items" |
| Reasons.PriceTierText | ecom/shop/algorithms/product_recommendation.py:604-616 | the price tier of every price is shown as "high", "medium high", "medium", "low medium" or "low" followed by " priced items", for the bands from 5000, 2000, 1000 and 500 down (display rule at lines 715-716) |
| Reasons.FirstMatch | ecom/shop/algorithms/product_recommendation.py:688-692 | the match is a consequent that is an attribute, and there is none exactly when no consequent is an attribute |
| Reasons.FirstMatchIsFirst | ecom/shop/algorithms/product_recommendation.py:689-692 | no consequent before the match is an attribute |
| Reasons.FormatReasonShape | ecom/shop/algorithms/product_recommendation.py:682-707 | the reason is empty exactly when there is no non-empty match; otherwise it names the antecedents and a matching consequent |
| Reasons.MatchingRuleHasReason | ecom/shop/algorithms/product_recommendation.py:470-478 | a rule that meets the attributes always yields a non-empty reason |
| Scoring.PersonalizationBoost | ecom/shop/algorithms/product_recommendation.py:645-680 | the boost lies in [0, 60]; it is 0 exactly when there is no interest, and 60 exactly when all three signals are at their highest |
| Scoring.PersonalizationBoostMonotone | ecom/shop/algorithms/product_recommendation.py:645-680 | more shopper interest never lowers the boost |
| Scoring.HeuristicBoostRange | ecom/shop/algorithms/product_recommendation.py:480-501 | the fixed and personal boosts add between 0 and 115 |
| Scoring.MatchingRulesFacts | ecom/shop/algorithms/product_recommendation.py:466-473 | the matching rules are exactly the rules whose consequent meets the attributes |
| Scoring.RuleScoreNonNegative | ecom/shop/algorithms/product_recommendation.py:471-472 | with non-negative confidences and lifts, the rule score is non-negative |
| Scoring.RuleScoreNoMatch | ecom/shop/algorithms/product_recommendation.py:466-473 | without a matching rule, the rule score is 0 and nothing matches |
| Scoring.RuleReasonsFacts | ecom/shop/algorithms/product_recommendation.py:476-478 | the rule reasons are distinct, each is a formatted reason, and there are no more than the matching rules |
| Scoring.RuleReasonsComplete | ecom/shop/algorithms/product_recommendation.py:476-478 | every matching rule's reason is among them |
| Scoring.AttributesNonEmpty | ecom/shop/algorithms/product_recommendation.py:595-643 | no attribute is the empty token |
| Scoring.RecommendFacts | ecom/shop/algorithms/product_recommendation.py:458-516 | a product is recommended exactly when its score is positive; the record carries that score, its counts and attributes, and at most five distinct reasons |
| Scoring.BoostReasonsOnly | ecom/shop/algorithms/product_recommendation.py:480-492 | without matching rules, the reasons are those of the sales and stock boosts |
| Scoring.TallyRules | ecom/shop/algorithms/product_recommendation.py:466-478 | the loop yields the specified rule score, the matching rules and the reasons |
| Scoring.ScoreProduct | ecom/shop/algorithms/product_recommendation.py:458-516 | scoring one product yields the specified recommendation |
| Scoring.ScoredFacts | ecom/shop/algorithms/product_recommendation.py:449-516 | the scored list holds exactly the recommendations of the eligible products |
| Scoring.RecommendedProductsFacts | ecom/shop/algorithms/product_recommendation.py:449-523 | the result is at most `limit` records, sorted by score, each an eligible product with a positive score and at most five distinct reasons |
| Scoring.RecommendedProductsTop | ecom/shop/algorithms/product_recommendation.py:519-523 | a recommendation left out scores no higher than any record kept |
| Scoring.RankProducts | ecom/shop/algorithms/product_recommendation.py:456-523 | the loop, sort and slice yield the specified list |
| Personalize.FirstIdsCover | ecom/shop/algorithms/product_recommendation.py:577-581 | every product id of the input appears in the merge order |
| Personalize.TableEntry | ecom/shop/algorithms/product_recommendation.py:577-581 | the stored record of an id is an input record with that id |
| Personalize.TableMax | ecom/shop/algorithms/product_recommendation.py:580-581 | the stored record has the largest score of its id |
| Personalize.TableFirst | ecom/shop/algorithms/product_recommendation.py:580-581 | the stored record is the first input record with that score |
| Personalize.DeduplicatedFacts | ecom/shop/algorithms/product_recommendation.py:577-584 | the merged list has one record per id, in first-appearance order, each the first that has its id's highest score |
| Personalize.DeduplicatedComplete | ecom/shop/algorithms/product_recommendation.py:577-581 | every input record is represented by a merged record with the same id and at least its score |
| Personalize.MergeByProduct | ecom/shop/algorithms/product_recommendation.py:577-584 | the loop over the records yields the specified merged list |
| Personalize.GatheredFacts | ecom/shop/algorithms/product_recommendation.py:564-572 | every gathered record is a scorer record for one of the shopper's non-empty categories |
| Personalize.PersonalizedShape | ecom/shop/algorithms/product_recommendation.py:583-589 | the result is at most `limit` records, sorted by score, with distinct product ids |
| Personalize.PersonalizedEntries | ecom/shop/algorithms/product_recommendation.py:564-589 | every record of the result is its product's best gathered record and a genuine scorer record |
| Personalize.PersonalizedRecommendations | ecom/shop/algorithms/product_recommendation.py:564-589 | the loop over the categories, the merge, the sort and the slice yield the specified list |
| Engine.AnalysisAntecedented | ecom/shop/algorithms/product_recommendation.py:353-385 | every rule of the analysis has a non-empty antecedent |
| Engine.MinedRulesSound | ecom/shop/algorithms/product_recommendation.py:342-388 | each sorted rule comes from a non-empty proper split of a frequent itemset of 2 to `max_itemset_length` tokens |
| Engine.MinedRulesComplete | ecom/shop/algorithms/product_recommendation.py:342-385 | each split that passes the filters is among the rules |
| Engine.NoFrequentItemsets | ecom/shop/algorithms/product_recommendation.py:298-300 | when L1 is empty, no itemset is frequent, so the empty rule list is complete |
| Engine.SampleRulesFacts | ecom/shop/algorithms/product_recommendation.py:730-754 | the canned rules all have antecedents, and they are not sorted by confidence |
| Engine.AnalyzeRules | ecom/shop/algorithms/product_recommendation.py:256-392 | no transactions give the canned rules; otherwise the result is sound, complete, free of repeats, and sorted by confidence then support |
| Engine.GetRecommendedProducts | ecom/shop/algorithms/product_recommendation.py:435-523 | the entry point scores the products against the rules of the analysis |
| Engine.GetPersonalizedRecommendations | ecom/shop/algorithms/product_recommendation.py:529-589 | the entry point merges the per-category recommendations made with the rules of the analysis |
| Thresholds.ToFraction | ecom/shop/algorithms/product_recommendation.py:28-32 | definition: no threshold gives 0, one above 1 is divided by 100, any other is kept |
| Thresholds.MinSupportCount | ecom/shop/algorithms/product_recommendation.py:279 | definition: the ceiling of fraction × number of transactions |
| Tokens.ProductToken | ecom/shop/algorithms/product_recommendation.py:600 | definition: `Product_` followed by the decimal id |
| Tokens.CategoryToken | ecom/shop/algorithms/product_recommendation.py:601 | definition: `Category_` followed by the name with spaces turned into `_` |
| Tokens.MatchesAnyPattern | ecom/shop/algorithms/product_recommendation.py:409-413 | definition: the scan for a pattern occurring in a token, in list order |
| Tokens.IsInterestingConsequent | ecom/shop/algorithms/product_recommendation.py:398-413 | definition: some consequent token matches some pattern of the list at 403-407 |
| Tokens.PurchaseValueTier | ecom/shop/algorithms/product_recommendation.py:106-111 | definition: High at 10000 or more, Medium at 5000 or more, Low otherwise |
| Tokens.AnyKeyword | ecom/shop/algorithms/product_recommendation.py:636-640 | definition: `any(keyword in name ...)` as a scan of the keyword list |
| Tokens.KeywordTag | ecom/shop/algorithms/product_recommendation.py:635-641 | definition: the lower-cased name tested against the Tech, Fashion and Home keywords, first match wins |
| ProductAttributes.PriceMarker | ecom/shop/algorithms/product_recommendation.py:605-616 | definition: `Premium_Product` from 5000 up, `Budget_Product` below 500, nothing between |
| ProductAttributes.DemandTokens | ecom/shop/algorithms/product_recommendation.py:627-632 | definition: `Best_Seller` and `High_Demand` from 10 sales, `Popular_Item` from 5, nothing below |
| ProductAttributes.TagTokens | ecom/shop/algorithms/product_recommendation.py:634-641 | definition: the keyword tag as a set of at most one token |
| ProductAttributes.Attributes | ecom/shop/algorithms/product_recommendation.py:595-643 | definition: the id and category tokens, the price tier and marker, the stock tier, the demand tokens and the keyword tag |
| ProductAttributes.LineTokens | ecom/shop/algorithms/product_recommendation.py:98-103 | definition: for each order line that names a product, its product, category and `Purchased_Product` tokens |
| Apriori.TokenCount | ecom/shop/algorithms/product_recommendation.py:284-287 | definition: the number of transactions containing a token |
| Apriori.Frequent | ecom/shop/algorithms/product_recommendation.py:293 | definition: the support reaches the count threshold and is at least 1, since only occurring itemsets are counted |
| Apriori.IsCandidate | ecom/shop/algorithms/product_recommendation.py:415-433 | definition: k tokens, the union of two distinct previous itemsets, and every subset one smaller is a previous itemset |
| Apriori.MiningResult | ecom/shop/algorithms/product_recommendation.py:283-334 | definition: every level is exactly the frequent itemsets of its size with their supports, and the search stopped at the first empty level or the maximum length |
| Rules.MaxTokenCount | ecom/shop/algorithms/product_recommendation.py:370-373 | definition: the largest single-token count over the consequent, 0 for none |
| Rules.ConfidenceOf | ecom/shop/algorithms/product_recommendation.py:366 | definition: joint count over antecedent count |
| Rules.LiftOf | ecom/shop/algorithms/product_recommendation.py:375 | definition: joint × n over antecedent × largest consequent count, or 0 when that count is 0 |
| Rules.RuleFor | ecom/shop/algorithms/product_recommendation.py:354-385 | definition: the rule of one split: none unless the consequent is interesting, the antecedent occurs, confidence reaches the minimum and lift is at least 1; otherwise the sorted lists and the percent support, percent confidence and lift |
| Rules.Antecedents | ecom/shop/algorithms/product_recommendation.py:353-354 | definition: the combinations of the itemset list of sizes 1 to n-1, as sets, in order |
| Rules.RulesOf | ecom/shop/algorithms/product_recommendation.py:354-385 | definition: the rules of a list of antecedents, in order, skipping those without support or without a rule |
| Rules.Merged | ecom/shop/algorithms/product_recommendation.py:336-340 | definition: the levels merged into one map, a later level overriding an earlier one |
| Rules.RulesOfLevels | ecom/shop/algorithms/product_recommendation.py:342-385 | definition: the rules, each once, of every itemset of size 2 or more of the levels |
| Ranking.InsertDesc | ecom/shop/algorithms/product_recommendation.py:388 | definition: insertion after every element with a key at least as large, which keeps equal keys in input order |
| Ranking.SortDesc | ecom/shop/algorithms/product_recommendation.py:388 | definition: Python's stable `sort(key=..., reverse=True)` |
| Reasons.FormatAttribute | ecom/shop/algorithms/product_recommendation.py:709-718 | definition: by prefix, first match wins: category name plus " products", "this product", lower-cased price tier plus " priced items", or the lower-cased token with spaces for `_` |
| Reasons.AntecedentText | ecom/shop/algorithms/product_recommendation.py:697-702 | definition: one antecedent alone, or all but the last joined by ", " and then " and " the last |
| Reasons.FormatReason | ecom/shop/algorithms/product_recommendation.py:682-707 | definition: "" without a matching consequent, otherwise "Customers interested in" the antecedent text "also purchase" the formatted match |
| Scoring.SalesBoost | ecom/shop/algorithms/product_recommendation.py:480-487 | definition: +30 from 10 sales, +20 from 5 |
| Scoring.StockBoost | ecom/shop/algorithms/product_recommendation.py:489-492 | definition: +15 from 20 in stock |
| Scoring.PriceBoost | ecom/shop/algorithms/product_recommendation.py:494-496 | definition: +10 from a price of 5000 |
| Scoring.BoostReasons | ecom/shop/algorithms/product_recommendation.py:480-492 | definition: "Best-selling product" or "Popular item", then "High availability", as the boosts add them |
| Scoring.SimilarPurchases | ecom/shop/algorithms/product_recommendation.py:666-670 | definition: the shopper's order lines in the product's category |
| Scoring.UserBoost | ecom/shop/algorithms/product_recommendation.py:498-501 | definition: the personalization boost from wishlist, cart and same-category purchases |
| Scoring.RuleWeight | ecom/shop/algorithms/product_recommendation.py:471 | definition: confidence × lift of one rule |
| Scoring.RuleScore | ecom/shop/algorithms/product_recommendation.py:466-472 | definition: the sum of the weights of the matching rules |
| Scoring.MatchingRules | ecom/shop/algorithms/product_recommendation.py:466-473 | definition: the rules whose consequent meets the attributes, in order |
| Scoring.AddReason | ecom/shop/algorithms/product_recommendation.py:477-478 | definition: a non-empty reason not yet listed is appended |
| Scoring.RuleReasons | ecom/shop/algorithms/product_recommendation.py:466-478 | definition: the reasons of the matching rules, added in order |
| Scoring.ProductScore | ecom/shop/algorithms/product_recommendation.py:458-501 | definition: rule score plus the sales, stock and price boosts and, for a shopper, the personalization boost |
| Scoring.Recommend | ecom/shop/algorithms/product_recommendation.py:458-516 | definition: a record only for a positive score, with the rule count, the first five reasons (rule reasons, then boost reasons), sales, stock and attributes |
| Scoring.Eligible | ecom/shop/algorithms/product_recommendation.py:449-452 | definition: in stock, and in the category when one is given |
| Scoring.Scored | ecom/shop/algorithms/product_recommendation.py:449-516 | definition: the records of the eligible products, in product order |
| Scoring.RecommendedProducts | ecom/shop/algorithms/product_recommendation.py:449-523 | definition: the scored records sorted by score, largest first, cut to the limit |
| Personalize.FirstIds | ecom/shop/algorithms/product_recommendation.py:577-581 | definition: the product ids in order of first appearance, the insertion order of the dict |
| Personalize.Table | ecom/shop/algorithms/product_recommendation.py:577-581 | definition: the dict after the loop: a record replaces the stored one when its id is new or its score is strictly larger |
| Personalize.Deduplicated | ecom/shop/algorithms/product_recommendation.py:583-584 | definition: the dict's values in insertion order |
| Personalize.Gathered | ecom/shop/algorithms/product_recommendation.py:564-572 | definition: for each non-empty category name in the given order, the top 5 recommendations of that category for the shopper, concatenated |
| Personalize.Personalized | ecom/shop/algorithms/product_recommendation.py:577-589 | definition: the merged records sorted by score, largest first, cut to the limit |
| Engine.MinedRules | ecom/shop/algorithms/product_recommendation.py:342-388 | definition: every rule is that of a proper non-empty split of a frequent itemset of 2 to `max_itemset_length` tokens, every such rule is listed once, and the list is sorted by confidence, then support |
| Engine.AnalysisResult | ecom/shop/algorithms/product_recommendation.py:269-271 | definition: the canned rules of 730-754 without transactions, the mined rules otherwise |

## Left out

- Database access. The queries behind `prepare_user_transactions`, `prepare_product_attributes`, the shopper's cart, wishlist and orders, and the category lookups are not modelled. Their results are inputs: transactions, products with their sales count, a `Shopper` record, and a list of category names.
- `prepare_user_transactions` and `_prepare_category_cooccurrence_transactions`. Only the purchase-history transaction of one order and the product-attribute transaction are modelled. The cart and wishlist transaction builders (lines 45-86) and the co-occurrence builder (lines 130-185) are not: neither their extra tokens (`User_Has_Profile`, `Wishlist_Item`, `User_Category_…`, `Purchased_Category_…`, `Wishlist_Category_…`) nor their filters (a cart or wishlist transaction is kept only with at least 2 tokens; the co-occurrence transaction is deduplicated through a set and kept only with at least 2 distinct tokens). Their output is taken as input transactions.
- Logging is not modelled; it has no effect on results.
- Exception handlers are not modelled. The one exception is that zero transactions return the canned rules. The fallbacks to sample transactions and sample recommended products, and `_get_sample_recommended_products`, are also not modelled, because they only run when the database fails.
- Floating point and `round(..., 2)` are not modelled. Support, confidence, lift and scores are exact reals, so the model sorts on unrounded values. Two rules whose values differ only beyond the second decimal can therefore come out in a different order. A borderline itemset or rule can also be kept or dropped differently: with `min_support` 7.0 and 100 transactions the float product 0.07 × 100 is 7.000000000000001, so the source's threshold is 8 and an itemset in 7 transactions is dropped, while `MinSupportCount` is 7 and keeps it; the float comparisons of confidence and lift can flip a rule at the boundary in the same way.
- Python's `str.lower` is modelled as ASCII lower-casing.
- Iteration order of Python sets and dicts is not modelled: the contracts hold in any order.
  - Mining is stated up to that order.
  - The shopper's category set is a caller-given sequence.
  - The order of rules with equal keys is not stated.
- Categories are matched by name, and a category that `Category.objects.get` cannot find is not modelled.
- `product_attributes` is kept as a set in the recommendation record, not as a list in hash order.
- Reasons.FormatReason: requires a non-empty antecedent. The source would raise `IndexError`, and every rule of the analysis has one (`Engine.AnalysisAntecedented`).
- Reasons.FormatCategoryToken: requires a name without `_` and without `Category `. `str.replace` removes every `Category_` in the token, so a name containing "Category " does not read back as itself.
- Scoring.RuleScoreNonNegative: assumes non-negative confidences and lifts, which every mined and canned rule has.
- With zero transactions, the code returns the canned sample rules, not an empty list. The model follows the code.
- The consequent support in the lift is the largest single-token support of the consequent. This deflates the lift compared with the joint consequent support (`Rules.LiftAtMostJointLift`); it does not inflate it.

# Holdings and stake-list pipelines, modelled in Dafny

This project models the two data pipelines of the dashboard's "My" holdings
table and its stake list. Quantities are exact decimals (`real`).

- **Holdings** (`holdings.dfy`, `src/pages/My/Holdings.tsx`). The page walks
  the token listing `listedAll` in order. For each token it looks up the
  balance and the pair price, computes `value = balance × price`, and computes
  the day-over-day `change` with `calcChange`. It keeps only the rows whose
  balance is strictly positive. Their values sum to `totalValue`, and each
  row's portfolio ratio is `value / totalValue`. The page also derives the
  `loading` flag (some refetched query is loading) and `hideChange` (every
  entry of yesterday's prices is nil).
- **Stake list** (`stake_list.dfy`, `src/pages/Stake/StakeList.tsx`).
  `getItem` turns every listed token into a card item. The item holds the
  staked and stakable flags (strict `> 0` tests), the displayed APR (`0`
  when there is no statistic), the total staked, the link path and the MIR
  emphasis. The items are then sorted twice with `Array.prototype.sort`:
  first MIR before the rest, then APR descending.
- **Stable sort** (`stable_sort.dfy`). Both passes use `Array.prototype.sort`
  with a comparator of the form `key(b) - key(a)`, and the `Array.prototype.sort`
  section of ECMA-262 (2019 edition onward) requires that sort to be stable.
  The model computes it with an insertion sort. Its result is proved to be a
  permutation of the input, non-increasing in the key (`StableSort.SortDesc`),
  and stable (`StableSort.SortDescStable`). These three properties determine
  the output of any stable sort uniquely (a standard fact that is not itself
  stated as a lemma here), so the insertion sort returns the same sequence as
  the engine's `.sort`. It is also proved that a second
  stable pass over an already sorted sequence yields the lexicographic order
  (second key, then first key).
- **Quotes** (`quotes.dfy`). Shared vocabulary: the listing entry, quote
  lookup, exact sums and `some`.

Two consequences of the stake-list code are worth stating:

- MIR is not pinned first. The stable APR sort runs last
  (`StakeList.tsx:68`), so the order is APR-descending and MIR wins only ties
  of APR. A MIR token with a lower APR comes after the higher ones
  (`StakeList.MirNotPinned`, `StakeList.TieOnlyExample`).
- The APR sort reads `apr[token]` with no fallback (`StakeList.tsx:68`). Only
  the displayed APR falls back to `"0"` (line 32). `StakeList.Ranked`
  therefore requires every listed token to have an APR entry
  (`StakeList.AprListed`).

## Model

| member | source | states |
|---|---|---|
| Quotes.Find | src/pages/My/Holdings.tsx:41-42 | a lookup returns the provider's entry for the token, and zero when there is none |
| Quotes.Any | src/pages/My/Holdings.tsx:32 | `some` over flags is true iff some flag is true |
| Quotes.Sum | src/pages/My/Holdings.tsx:60 | the empty sum is zero |
| Quotes.SumAppend | src/pages/My/Holdings.tsx:60 | the sum of a concatenation is the sum of the two sums |
| Quotes.SumBoundsTerms | src/pages/My/Holdings.tsx:60 | a sum of non-negative terms is non-negative and at least each term |
| Holdings.Loading | src/pages/My/Holdings.tsx:32 | `loading` holds iff the price query or the balance query is loading |
| Holdings.HideChange | src/pages/My/Holdings.tsx:33 | `hideChange` holds iff every entry of yesterday's prices is nil |
| Holdings.YesterdayOf | src/pages/My/Holdings.tsx:46 | yesterday's price is the map entry, and nil when the token has none |
| Holdings.EnrichItem | src/pages/My/Holdings.tsx:39-49 | a row copies its descriptor, takes balance and price from the lookups, has value = balance × price, and has change = calcChange(price, yesterday) |
| Holdings.Enrich | src/pages/My/Holdings.tsx:38-50 | one row per listing entry, and row i is the enrichment of entry i |
| Holdings.FilterPositive | src/pages/My/Holdings.tsx:51 | every kept row has balance > 0, every kept row comes from the input, and every input row with balance > 0 is kept |
| Holdings.DataSource | src/pages/My/Holdings.tsx:36-51 | without data the table is empty whatever the listing; never more rows than listed tokens |
| Holdings.PositiveIndices | src/pages/My/Holdings.tsx:51 | the positive-balance indices, strictly ascending, containing an index iff its balance is positive |
| Holdings.FilterPositiveExact | src/pages/My/Holdings.tsx:51 | the filter's result is the input at exactly the ascending positive-balance indices, so nothing is reordered |
| Holdings.DataSourceSpec | src/pages/My/Holdings.tsx:36-51 | `dataSource` is the enrichment of the listing at ascending indices; an index is picked iff its token's balance is > 0; this gives soundness, completeness and listing order |
| Holdings.DataSourceRows | src/pages/My/Holdings.tsx:41-51 | every row is a listed descriptor with balance > 0, and is that descriptor's own enrichment, so its value is its own balance × price |
| Holdings.DataSourceComplete | src/pages/My/Holdings.tsx:38-51 | once data is present, every listed token with a positive balance has its row |
| Holdings.Values | src/pages/My/Holdings.tsx:60 | the value column has one entry per row, equal to that row's value |
| Holdings.TotalValue | src/pages/My/Holdings.tsx:60 | the total of no rows is zero |
| Holdings.TotalIsPositiveWorth | src/pages/My/Holdings.tsx:38-60 | `totalValue` equals the sum of balance × price over exactly the listed tokens whose balance is > 0 |
| Holdings.Ratio | src/pages/My/Holdings.tsx:125 | the ratio is undefined iff the total is zero; otherwise ratio × total = value |
| Holdings.RatioColumn | src/pages/My/Holdings.tsx:125 | for a non-zero total, the ratio column holds each row's ratio |
| Holdings.RatioColumnSum | src/pages/My/Holdings.tsx:60-125 | the ratios of the rows, times the total, sum to the rows' total value |
| Holdings.RatiosSumToOne | src/pages/My/Holdings.tsx:60-125 | when `totalValue` is non-zero, the portfolio ratios of the rows sum to one |
| Holdings.RatioBounds | src/pages/My/Holdings.tsx:125 | when all values are non-negative and the total is non-zero, every ratio is between 0 and 1 |
| Holdings.DataSourceValuesNonNegative | src/pages/My/Holdings.tsx:41-51 | when prices are non-negative, every row of `dataSource` has a non-negative value |
| StableSort.Compare | src/pages/Stake/StakeList.tsx:64-68 | the comparator is negative iff `a`'s key is larger, and zero iff the keys tie |
| StableSort.Group | src/pages/Stake/StakeList.tsx:64-68 | the class of a key value holds exactly the elements with that key |
| StableSort.Insert | src/pages/Stake/StakeList.tsx:64-68 | inserting into a sorted sequence adds exactly the element and keeps it sorted |
| StableSort.SortDesc | src/pages/Stake/StakeList.tsx:64-68 | the sort keeps the length, is a permutation (same multiset), and is non-increasing in the key |
| StableSort.InsertStable | src/pages/Stake/StakeList.tsx:64-68 | insertion keeps every class of equal keys in its input order |
| StableSort.SortDescStableAt | src/pages/Stake/StakeList.tsx:64-68 | the class of each key value is the same sequence before and after the sort |
| StableSort.SortDescStable | src/pages/Stake/StakeList.tsx:64-68 | the sort is stable for every key value |
| StableSort.GroupCommute | src/pages/Stake/StakeList.tsx:64-68 | selecting by one key and then another gives the same as the other order |
| StableSort.SortAfterSortIsLex | src/pages/Stake/StakeList.tsx:64-68 | sorting by a major key a sequence already sorted by a minor key gives the major-then-minor order |
| StakeList.GetItem | src/pages/Stake/StakeList.tsx:31-53 | staked iff the LP-staked balance > 0; stakable iff the LP-stakable balance > 0; apr is the statistic, or 0 when absent; link is url/token; emphasize iff the symbol is MIR |
| StakeList.Items | src/pages/Stake/StakeList.tsx:62-63 | one item per listed token, item i built from token i |
| StakeList.MirRank | src/pages/Stake/StakeList.tsx:64-67 | the first sort's key is 1 exactly for the symbol "MIR" and 0 otherwise |
| StakeList.AprRank | src/pages/Stake/StakeList.tsx:68 | the second sort's key is the token's APR statistic |
| StakeList.MirFirst | src/pages/Stake/StakeList.tsx:64-67 | the first sort is a permutation that puts every MIR item before every other item |
| StakeList.MirFirstKeepsOrder | src/pages/Stake/StakeList.tsx:64-67 | after the first sort, the MIR items and the other items each keep their listing order |
| StakeList.Ranked | src/pages/Stake/StakeList.tsx:62-68 | the rendered list has as many items as `listed`, is a permutation of the mapped items, and is non-increasing in `apr[token]` |
| StakeList.RankedTiesPutMirFirst | src/pages/Stake/StakeList.tsx:64-68 | among items with equal APR, the MIR items come first |
| StakeList.RankedKeepsListingOrder | src/pages/Stake/StakeList.tsx:64-68 | items that agree on APR and on being MIR stay in listing order |
| StakeList.MirNotPinned | src/pages/Stake/StakeList.tsx:64-68 | a MIR item with strictly lower APR than another item comes after it |
| StakeList.DisplayedAprIsRank | src/pages/Stake/StakeList.tsx:32-68 | when every listed token has an APR, the displayed APR of each card is its sort key |
| StakeList.TieOnlyExample | src/pages/Stake/StakeList.tsx:62-68 | listed as c (0.1), a (0.2), MIR (0.1), the order is a, MIR, c: MIR is not first, but it beats c on their tie |

## Left out

- Rendering, table columns, cards, tooltips, formatting (`format`, `formatAsset`, `percent`), `<Count>`/`<CountWithResult>` wrappers and i18n strings are view glue. So is showing the total only when rows exist (`Holdings.tsx:58-66`).
- Data-fetching hooks are replaced by explicit inputs: the `data` presence flag, a `Snapshot` of balance, price and yesterday maps, the per-query loading map, `StakeQuotes`, the route `url`, and `getSymbol` as a function parameter.
- `find` of the contract hook is not part of this model. A lookup returns the provider's entry, or zero when there is none.
- `calcChange` is not part of this model. It is an uninterpreted function parameter, and nothing is claimed about its nil or zero-baseline results. An absent entry of yesterday's prices and a null one both reach it as nil.
- `libs/math` is not part of this model. `times`, `gt`, `sum` and `minus` are exact real arithmetic. The float conversion `number(...)` in the APR comparator is not modelled; only the sign of the exact difference is used.
- Holdings.Ratio: what `div` does with a zero total is not visible, so a zero total gives an undefined ratio (`None`) rather than a value.
- StakeList.Ranked: requires every listed token to have an APR entry, because the comparator reads `apr[token]` with no fallback and what `minus` does with a missing entry is not visible.
- Null APR statistics are not modelled. The APR map holds only numbers, so the `?? "0"` fallback is exercised only by absent entries.
- `AprRank` has a zero branch for a token with no APR entry, but `Ranked`'s precondition means that branch is never taken. It exists only because a sort key must be a total function.
- The `MIR` constant is imported from a constants file that is not part of this model. It is taken to be the string `"MIR"`, the literal the first sort compares with.
- Decimal strings are modelled as `real` values; parsing and the string form of quotes are not modelled.
- The in-place reordering of the temporary array by `.sort` is modelled as a function returning a new sequence, since nothing else observes that array.

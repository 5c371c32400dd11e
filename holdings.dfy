/**
 * The holdings table of the "My" page: every listed token is enriched with
 * its balance, price, value and day-over-day change, rows without a positive
 * balance are dropped, and the surviving values are summed into the
 * portfolio's total value, from which each row's portfolio ratio follows.
 */
module Holdings {
  import opened Quotes

  /** The two contract queries the page refetches: pair prices and token balances. */
  datatype ContractKey = PricePair | BalanceToken

  /**
   * The quote providers the page reads: balances and prices by token, and
   * yesterday's prices, whose entries may be null (`None`).
   */
  datatype Snapshot = Snapshot(
    balances: map<string, real>,
    prices: map<string, real>,
    yesterday: map<string, Option<real>>)

  /** A row of the table: the listing entry spread with its derived figures. */
  datatype Holding = Holding(
    item: Descriptor,
    balance: real,
    price: real,
    value: real,
    change: Option<real>)

  /** `calcChange({ today, yesterday })`, which is imported and not modelled. */
  type ChangeCalc = (real, Option<real>) -> Option<real>

  /** Yesterday's price of a token; an absent entry reads as nil. */
  function YesterdayOf(snap: Snapshot, token: string): (y: Option<real>)
    ensures token !in snap.yesterday ==> y == None
    ensures token in snap.yesterday ==> y == snap.yesterday[token]
  {
    if token in snap.yesterday then snap.yesterday[token] else None
  }

  /** `loading`: some refetched query is still loading. */
  function Loading(loadingOf: map<ContractKey, bool>): (r: bool)
    requires PricePair in loadingOf && BalanceToken in loadingOf
    ensures r <==> loadingOf[PricePair] || loadingOf[BalanceToken]
  {
    var flags := [loadingOf[PricePair], loadingOf[BalanceToken]];
    assert flags[0] == loadingOf[PricePair] && flags[1] == loadingOf[BalanceToken];
    Any(flags)
  }

  /** `hideChange`: every entry of yesterday's price map is nil. */
  function HideChange(yesterday: map<string, Option<real>>): (r: bool)
    ensures r <==> forall t :: t in yesterday ==> yesterday[t].None?
  {
    assert forall t :: t in yesterday ==> yesterday[t] in yesterday.Values;
    assert forall v :: v in yesterday.Values ==> exists t :: t in yesterday && yesterday[t] == v;
    yesterday.Values <= {None}
  }

  /** Enrichment of one listing entry (the body of the `map`). */
  function EnrichItem(d: Descriptor, snap: Snapshot, calcChange: ChangeCalc): (h: Holding)
    ensures h.item == d
    ensures h.balance == Find(snap.balances, d.token) && h.price == Find(snap.prices, d.token)
    ensures h.value == h.balance * h.price
    ensures h.change == calcChange(h.price, YesterdayOf(snap, d.token))
  {
    var balance := Find(snap.balances, d.token);
    var price := Find(snap.prices, d.token);
    Holding(d, balance, price, balance * price, calcChange(price, YesterdayOf(snap, d.token)))
  }

  /** The `map` step: one row per listing entry, in listing order. */
  function Enrich(listing: seq<Descriptor>, snap: Snapshot, calcChange: ChangeCalc): (rows: seq<Holding>)
    ensures |rows| == |listing|
    ensures forall i :: 0 <= i < |rows| ==> rows[i] == EnrichItem(listing[i], snap, calcChange)
  {
    if listing == [] then []
    else [EnrichItem(listing[0], snap, calcChange)] + Enrich(listing[1..], snap, calcChange)
  }

  /** The `filter` step: keep the rows whose balance is strictly positive. */
  function FilterPositive(rows: seq<Holding>): (kept: seq<Holding>)
    ensures |kept| <= |rows|
    ensures forall k :: 0 <= k < |kept| ==> kept[k].balance > 0.0
    ensures forall k :: 0 <= k < |kept| ==> kept[k] in rows
    ensures forall i :: 0 <= i < |rows| && rows[i].balance > 0.0 ==> rows[i] in kept
  {
    if rows == [] then []
    else if rows[0].balance > 0.0 then [rows[0]] + FilterPositive(rows[1..])
    else FilterPositive(rows[1..])
  }

  /** `dataSource`: empty until the refetched data is present. */
  function DataSource(hasData: bool, listing: seq<Descriptor>, snap: Snapshot, calcChange: ChangeCalc): (rows: seq<Holding>)
    ensures !hasData ==> rows == []
    ensures |rows| <= |listing|
  {
    if !hasData then [] else FilterPositive(Enrich(listing, snap, calcChange))
  }

  /** The value column of a sequence of rows. */
  function Values(rows: seq<Holding>): (vs: seq<real>)
    ensures |vs| == |rows|
    ensures forall i :: 0 <= i < |rows| ==> vs[i] == rows[i].value
  {
    if rows == [] then [] else [rows[0].value] + Values(rows[1..])
  }

  /** `totalValue`: the sum of the rows' values. */
  function TotalValue(rows: seq<Holding>): (total: real)
    ensures rows == [] ==> total == 0.0
  {
    Sum(Values(rows))
  }

  /**
   * The portfolio ratio `div(value, totalValue)` of one row; undefined when
   * the total is zero.
   */
  function Ratio(value: real, total: real): (r: Option<real>)
    ensures r.None? <==> total == 0.0
    ensures r.Some? ==> r.value * total == value
  {
    if total == 0.0 then None else Some(value / total)
  }

  /** The "Port. Ratio" column of the table, for a non-zero total. */
  function RatioColumn(rows: seq<Holding>, total: real): (rs: seq<real>)
    requires total != 0.0
    ensures |rs| == |rows|
    ensures forall i :: 0 <= i < |rows| ==> Some(rs[i]) == Ratio(rows[i].value, total)
  {
    if rows == [] then [] else [Ratio(rows[0].value, total).value] + RatioColumn(rows[1..], total)
  }

  // ----- reference definitions -----

  /** Indices `from..|rows|` of the rows with a positive balance, ascending. */
  function PositiveIndices(rows: seq<Holding>, from: nat): (idx: seq<nat>)
    requires from <= |rows|
    ensures forall k :: 0 <= k < |idx| ==> from <= idx[k] < |rows|
    ensures forall k, l :: 0 <= k < l < |idx| ==> idx[k] < idx[l]
    ensures forall i :: from <= i < |rows| ==> (i in idx <==> rows[i].balance > 0.0)
    decreases |rows| - from
  {
    if from == |rows| then []
    else (if rows[from].balance > 0.0 then [from] else []) + PositiveIndices(rows, from + 1)
  }

  /** `kept` lists `rows` at the positions `idx`, one after the other. */
  ghost predicate Picks(kept: seq<Holding>, rows: seq<Holding>, idx: seq<nat>)
  {
    && |idx| == |kept|
    && (forall k :: 0 <= k < |idx| ==> idx[k] < |rows| && kept[k] == rows[idx[k]])
  }

  /** Worth of the listing's positive holdings, computed token by token. */
  function PositiveWorth(listing: seq<Descriptor>, snap: Snapshot): real
  {
    if listing == [] then 0.0
    else
      var b := Find(snap.balances, listing[0].token);
      (if b > 0.0 then b * Find(snap.prices, listing[0].token) else 0.0) + PositiveWorth(listing[1..], snap)
  }

  // ----- properties -----

  /**
   * The filter is exactly the positive-balance rows, in their original
   * order: it picks `rows` at the indices `PositiveIndices`, which ascend and
   * are exactly those whose balance is positive.
   */
  lemma {:induction false} FilterPositiveExact(rows: seq<Holding>, from: nat)
    requires from <= |rows|
    ensures Picks(FilterPositive(rows[from..]), rows, PositiveIndices(rows, from))
    decreases |rows| - from
  {
    if from < |rows| {
      FilterPositiveExact(rows, from + 1);
      assert rows[from..][1..] == rows[from + 1..];
      var tail := FilterPositive(rows[from + 1..]);
      var idx := PositiveIndices(rows, from + 1);
      if rows[from].balance > 0.0 {
        var kept, idx' := [rows[from]] + tail, [from] + idx;
        assert FilterPositive(rows[from..]) == kept;
        assert PositiveIndices(rows, from) == idx';
        forall k | 0 <= k < |idx'| ensures idx'[k] < |rows| && kept[k] == rows[idx'[k]] {
          if k > 0 {
            assert kept[k] == tail[k - 1] && idx'[k] == idx[k - 1];
          }
        }
      } else {
        assert FilterPositive(rows[from..]) == tail;
        assert PositiveIndices(rows, from) == idx;
      }
    }
  }

  /**
   * Soundness, completeness and order of `dataSource`: row `k` is the
   * enrichment of the listing entry at the `k`-th ascending index `idx[k]`,
   * and a listing index is picked iff the token's balance is positive.
   */
  lemma DataSourceSpec(listing: seq<Descriptor>, snap: Snapshot, calcChange: ChangeCalc)
    ensures var rows := DataSource(true, listing, snap, calcChange);
      var idx := PositiveIndices(Enrich(listing, snap, calcChange), 0);
      && |idx| == |rows|
      && (forall k, l :: 0 <= k < l < |idx| ==> idx[k] < idx[l])
      && (forall k :: 0 <= k < |idx| ==> idx[k] < |listing| && rows[k] == EnrichItem(listing[idx[k]], snap, calcChange))
      && (forall i :: 0 <= i < |listing| ==> (i in idx <==> Find(snap.balances, listing[i].token) > 0.0))
  {
    var enriched := Enrich(listing, snap, calcChange);
    FilterPositiveExact(enriched, 0);
    assert enriched[0..] == enriched;
  }

  /**
   * Every row of `dataSource` is the enrichment of a listed descriptor (so
   * its fields are copied and its value is its own balance times price) and
   * has a positive balance.
   */
  lemma DataSourceRows(hasData: bool, listing: seq<Descriptor>, snap: Snapshot, calcChange: ChangeCalc)
    ensures forall h :: h in DataSource(hasData, listing, snap, calcChange) ==>
      && h.item in listing
      && h.balance > 0.0
      && h == EnrichItem(h.item, snap, calcChange)
  {
    var enriched := Enrich(listing, snap, calcChange);
    forall h | h in DataSource(hasData, listing, snap, calcChange)
      ensures h.item in listing && h.balance > 0.0 && h == EnrichItem(h.item, snap, calcChange)
    {
      assert h in FilterPositive(enriched);
      var i :| 0 <= i < |enriched| && enriched[i] == h;
      assert h == EnrichItem(listing[i], snap, calcChange);
    }
  }

  /** A listed token with positive balance always has a row, once data is present. */
  lemma DataSourceComplete(listing: seq<Descriptor>, snap: Snapshot, calcChange: ChangeCalc, i: nat)
    requires i < |listing| && Find(snap.balances, listing[i].token) > 0.0
    ensures EnrichItem(listing[i], snap, calcChange) in DataSource(true, listing, snap, calcChange)
  {
    var enriched := Enrich(listing, snap, calcChange);
    assert enriched[i] == EnrichItem(listing[i], snap, calcChange);
  }

  lemma {:induction false} ValuesAppend(a: seq<Holding>, b: seq<Holding>)
    ensures Values(a + b) == Values(a) + Values(b)
  {
    if a != [] {
      assert (a + b)[1..] == a[1..] + b;
      ValuesAppend(a[1..], b);
    }
  }

  /**
   * `totalValue` is the worth of the positive holdings of the listing: the
   * sum of balance times price over the tokens whose balance is positive.
   */
  lemma {:induction false} TotalIsPositiveWorth(listing: seq<Descriptor>, snap: Snapshot, calcChange: ChangeCalc)
    ensures TotalValue(DataSource(true, listing, snap, calcChange)) == PositiveWorth(listing, snap)
  {
    if listing != [] {
      var h := EnrichItem(listing[0], snap, calcChange);
      var enriched := Enrich(listing, snap, calcChange);
      var rest := FilterPositive(Enrich(listing[1..], snap, calcChange));
      assert enriched[0] == h && enriched[1..] == Enrich(listing[1..], snap, calcChange);
      TotalIsPositiveWorth(listing[1..], snap, calcChange);
      if h.balance > 0.0 {
        assert FilterPositive(enriched) == [h] + rest;
        TotalOfPrefix(rest, h);
      } else {
        assert FilterPositive(enriched) == rest;
      }
    }
  }

  /** The total of a row followed by others is that row's value plus their total. */
  lemma {:induction false} TotalOfPrefix(rows: seq<Holding>, h: Holding)
    ensures TotalValue([h] + rows) == h.value + TotalValue(rows)
  {
    ValuesAppend([h], rows);
    SumAppend([h.value], Values(rows));
  }

  /** The ratios of any rows, taken against a non-zero total, sum to their total over it. */
  lemma {:induction false} RatioColumnSum(rows: seq<Holding>, total: real)
    requires total != 0.0
    ensures Sum(RatioColumn(rows, total)) * total == TotalValue(rows)
  {
    if rows != [] {
      var col := RatioColumn(rows, total);
      assert col[1..] == RatioColumn(rows[1..], total);
      assert col[0] * total == rows[0].value;
      RatioColumnSum(rows[1..], total);
      assert (col[0] + Sum(col[1..])) * total == col[0] * total + Sum(col[1..]) * total;
      TotalOfPrefix(rows[1..], rows[0]);
      assert [rows[0]] + rows[1..] == rows;
    }
  }

  /** When the total value is non-zero, the portfolio ratios of the rows sum to one. */
  lemma RatiosSumToOne(rows: seq<Holding>)
    requires TotalValue(rows) != 0.0
    ensures Sum(RatioColumn(rows, TotalValue(rows))) == 1.0
  {
    var t := TotalValue(rows);
    RatioColumnSum(rows, t);
    UnitFactor(Sum(RatioColumn(rows, t)), t, TotalValue(rows));
  }

  /**
   * Cancelling a non-zero factor; kept apart from `RatiosSumToOne` so that the
   * solver meets the non-linear step without the sequence facts around it.
   */
  lemma UnitFactor(x: real, t: real, u: real)
    requires t != 0.0 && u == t && x * t == u
    ensures x == 1.0
  {
    assert (x - 1.0) * t == 0.0;
  }

  /** A ratio of a non-negative value to a total at least as large lies in [0, 1]. */
  lemma FractionBounds(v: real, t: real, r: real)
    requires 0.0 <= v <= t && t != 0.0 && r * t == v
    ensures 0.0 <= r <= 1.0
  {
  }

  /** With non-negative values, every row's portfolio ratio lies between zero and one. */
  lemma RatioBounds(rows: seq<Holding>, k: nat)
    requires forall j :: 0 <= j < |rows| ==> rows[j].value >= 0.0
    requires k < |rows| && TotalValue(rows) != 0.0
    ensures var r := Ratio(rows[k].value, TotalValue(rows));
      r.Some? && 0.0 <= r.value <= 1.0
  {
    var values := Values(rows);
    SumBoundsTerms(values);
    var v, t := values[k], Sum(values);
    assert 0.0 <= v <= t;
    FractionBounds(v, t, Ratio(v, t).value);
  }

  /** With non-negative prices, every row of `dataSource` has a non-negative value. */
  lemma DataSourceValuesNonNegative(hasData: bool, listing: seq<Descriptor>, snap: Snapshot, calcChange: ChangeCalc)
    requires forall t :: t in snap.prices ==> snap.prices[t] >= 0.0
    ensures var rows := DataSource(hasData, listing, snap, calcChange);
      forall j :: 0 <= j < |rows| ==> rows[j].value >= 0.0
  {
    var rows := DataSource(hasData, listing, snap, calcChange);
    DataSourceRows(hasData, listing, snap, calcChange);
    forall j | 0 <= j < |rows| ensures rows[j].value >= 0.0 {
      assert rows[j] in rows;
      NonNegativeValue(rows[j], snap, calcChange);
    }
  }

  lemma NonNegativeValue(h: Holding, snap: Snapshot, calcChange: ChangeCalc)
    requires forall t :: t in snap.prices ==> snap.prices[t] >= 0.0
    requires h.balance > 0.0 && h == EnrichItem(h.item, snap, calcChange)
    ensures h.value >= 0.0
  {
    assert h.price >= 0.0;
  }

}

/** The anomaly filter (`filter_anomalies`): every row is judged against the mean
    price of its fingerprint group, computed over the whole feed before anything is
    dropped. */
module Anomaly {
  import opened Wrappers
  import opened Config
  import opened Rows
  import opened Stats

  /** The present final prices of the rows of group fp, in feed order. */
  function GroupPrices(rows: seq<EnrichedRow>, fp: string): (ps: seq<real>)
    ensures |ps| <= |rows|
  {
    if rows == [] then []
    else
      var head := if rows[0].fingerprint == fp && rows[0].pricing.priceFinal.Some?
        then [rows[0].pricing.priceFinal.value] else [];
      head + GroupPrices(rows[1..], fp)
  }

  /** `mean().over("fingerprint")`: absent when no row of the group has a price. */
  function GroupMean(rows: seq<EnrichedRow>, fp: string): Option<real> {
    Mean(GroupPrices(rows, fp))
  }

  /** The three gates a row must pass, given the mean of its group. A comparison
      with an absent price or an absent mean is null, and a null filter condition
      drops the row. */
  predicate Keep(row: EnrichedRow, groupMean: Option<real>, config: PipelineConfig) {
    && row.pricing.priceFinal.Some?
    && groupMean.Some?
    && row.pricing.priceFinal.value >= config.minPriceEur
    && row.pricing.priceFinal.value <= groupMean.value * config.maxPriceMultiplier
    && |row.fingerprint| > 1
  }

  /** The rows of `rows` that pass the gates, the group means being taken over the
      whole feed `feed`. */
  function Select(feed: seq<EnrichedRow>, rows: seq<EnrichedRow>, config: PipelineConfig): (r: seq<EnrichedRow>)
    ensures |r| <= |rows|
  {
    if rows == [] then []
    else
      var head := if Keep(rows[0], GroupMean(feed, rows[0].fingerprint), config) then [rows[0]] else [];
      head + Select(feed, rows[1..], config)
  }

  function FilterAnomalies(rows: seq<EnrichedRow>, config: PipelineConfig): seq<EnrichedRow> {
    Select(rows, rows, config)
  }

  /** xs is ys with some elements deleted, the others kept in order. */
  predicate IsSubsequence<T(==)>(xs: seq<T>, ys: seq<T>)
    decreases |ys|
  {
    if ys == [] then xs == []
    else (xs != [] && xs[0] == ys[0] && IsSubsequence(xs[1..], ys[1..])) || IsSubsequence(xs, ys[1..])
  }

  lemma {:induction false} SelectIsSubsequence(feed: seq<EnrichedRow>, rows: seq<EnrichedRow>, config: PipelineConfig)
    ensures IsSubsequence(Select(feed, rows, config), rows)
  {
    if rows != [] {
      SelectIsSubsequence(feed, rows[1..], config);
      var rest := Select(feed, rows[1..], config);
      if Keep(rows[0], GroupMean(feed, rows[0].fingerprint), config) {
        assert ([rows[0]] + rest)[1..] == rest;
      } else {
        assert [] + rest == rest;
      }
    }
  }

  /** The filter keeps exactly the rows that pass, each as often as it occurs: the
      output is the input with the failing rows removed. */
  lemma {:induction false} SelectCounts(feed: seq<EnrichedRow>, rows: seq<EnrichedRow>, config: PipelineConfig, x: EnrichedRow)
    ensures multiset(Select(feed, rows, config))[x]
         == if Keep(x, GroupMean(feed, x.fingerprint), config) then multiset(rows)[x] else 0
  {
    if rows != [] {
      SelectCounts(feed, rows[1..], config, x);
      var head := if Keep(rows[0], GroupMean(feed, rows[0].fingerprint), config) then [rows[0]] else [];
      var rest := Select(feed, rows[1..], config);
      assert Select(feed, rows, config) == head + rest;
      assert multiset(head + rest) == multiset(head) + multiset(rest);
      assert rows == [rows[0]] + rows[1..];
      assert multiset(rows) == multiset{rows[0]} + multiset(rows[1..]);
      if x == rows[0] {
        assert multiset(head)[x] == if Keep(x, GroupMean(feed, x.fingerprint), config) then 1 else 0;
      } else {
        assert multiset(head)[x] == 0;
      }
    }
  }

  /** A row is in the output iff it is in the input and passes the gates against the
      mean of its group over the whole input. */
  lemma FilterMembership(rows: seq<EnrichedRow>, config: PipelineConfig, x: EnrichedRow)
    ensures x in FilterAnomalies(rows, config)
        <==> x in rows && Keep(x, GroupMean(rows, x.fingerprint), config)
  {
    SelectCounts(rows, rows, config, x);
    assert x in FilterAnomalies(rows, config) <==> multiset(FilterAnomalies(rows, config))[x] > 0;
    assert x in rows <==> multiset(rows)[x] > 0;
  }

  /** The output is the input in its own order with the failing rows left out. */
  lemma FilterKeepsOrder(rows: seq<EnrichedRow>, config: PipelineConfig)
    ensures IsSubsequence(FilterAnomalies(rows, config), rows)
  {
    SelectIsSubsequence(rows, rows, config);
  }

  /** Every surviving row has a price of at least `min_price_eur` and a fingerprint
      of two or more characters. */
  lemma SurvivorsPassGates(rows: seq<EnrichedRow>, config: PipelineConfig)
    ensures forall i :: 0 <= i < |FilterAnomalies(rows, config)| ==>
      var x := FilterAnomalies(rows, config)[i];
      x.pricing.priceFinal.Some? && x.pricing.priceFinal.value >= config.minPriceEur && |x.fingerprint| > 1
  {
    var out := FilterAnomalies(rows, config);
    forall i | 0 <= i < |out|
      ensures out[i].pricing.priceFinal.Some? && out[i].pricing.priceFinal.value >= config.minPriceEur && |out[i].fingerprint| > 1
    {
      FilterMembership(rows, config, out[i]);
    }
  }

  /** No present price is negative. */
  predicate PricesNonNegative(rows: seq<EnrichedRow>) {
    forall j :: 0 <= j < |rows| && rows[j].pricing.priceFinal.Some? ==> rows[j].pricing.priceFinal.value >= 0.0
  }

  /** Group fp has a mean, and some row of it is priced at most that mean times the
      multiplier. */
  predicate SomeRowUnderCeiling(rows: seq<EnrichedRow>, config: PipelineConfig, fp: string) {
    && GroupMean(rows, fp).Some?
    && exists i :: (0 <= i < |rows| && rows[i].fingerprint == fp && rows[i].pricing.priceFinal.Some? &&
      rows[i].pricing.priceFinal.value <= GroupMean(rows, fp).value * config.maxPriceMultiplier)
  }

  lemma {:induction false} GroupPricesNonNegative(rows: seq<EnrichedRow>, fp: string)
    requires PricesNonNegative(rows)
    ensures forall k :: 0 <= k < |GroupPrices(rows, fp)| ==> GroupPrices(rows, fp)[k] >= 0.0
  {
    if rows != [] {
      GroupPricesNonNegative(rows[1..], fp);
    }
  }

  /** A row's price is one of its group's prices. */
  lemma {:induction false} PriceInGroup(rows: seq<EnrichedRow>, i: nat)
    requires i < |rows| && rows[i].pricing.priceFinal.Some?
    ensures rows[i].pricing.priceFinal.value in GroupPrices(rows, rows[i].fingerprint)
  {
    if i > 0 {
      PriceInGroup(rows[1..], i - 1);
    }
  }

  /** Each price of a group is the price of a row of that group. */
  lemma {:induction false} GroupPriceFromRow(rows: seq<EnrichedRow>, fp: string, k: nat)
    requires k < |GroupPrices(rows, fp)|
    ensures exists i :: 0 <= i < |rows| && rows[i].fingerprint == fp && rows[i].pricing.priceFinal == Some(GroupPrices(rows, fp)[k])
  {
    var head := if rows[0].fingerprint == fp && rows[0].pricing.priceFinal.Some?
      then [rows[0].pricing.priceFinal.value] else [];
    if k < |head| {
      assert rows[0].pricing.priceFinal == Some(GroupPrices(rows, fp)[k]);
    } else {
      GroupPriceFromRow(rows[1..], fp, k - |head|);
      var i :| 0 <= i < |rows[1..]| && rows[1..][i].fingerprint == fp && rows[1..][i].pricing.priceFinal == Some(GroupPrices(rows[1..], fp)[k - |head|]);
      assert rows[i + 1] == rows[1..][i];
    }
  }

  /** With non-negative prices and a multiplier of at least 1, a row priced at or
      below its group mean always passes the upper gate. */
  lemma BelowMeanPassesCeiling(rows: seq<EnrichedRow>, config: PipelineConfig, i: nat)
    requires config.maxPriceMultiplier >= 1.0
    requires PricesNonNegative(rows)
    requires i < |rows| && rows[i].pricing.priceFinal.Some?
    requires GroupMean(rows, rows[i].fingerprint).Some?
    requires rows[i].pricing.priceFinal.value <= GroupMean(rows, rows[i].fingerprint).value
    ensures rows[i].pricing.priceFinal.value <= GroupMean(rows, rows[i].fingerprint).value * config.maxPriceMultiplier
  {
    var m := GroupMean(rows, rows[i].fingerprint).value;
    assert m >= 0.0;
    assert m * config.maxPriceMultiplier >= m * 1.0;
  }

  /** With non-negative prices, a group mean is never negative. */
  lemma GroupMeanNonNegative(rows: seq<EnrichedRow>, fp: string)
    requires PricesNonNegative(rows)
    requires GroupMean(rows, fp).Some?
    ensures GroupMean(rows, fp).value >= 0.0
  {
    GroupPricesNonNegative(rows, fp);
    MeanAtLeast(GroupPrices(rows, fp), 0.0);
  }

  /** The upper gate never empties a group: in every group with a price, some row is
      priced at most its group mean times the multiplier. */
  lemma CeilingSparesSomeRow(rows: seq<EnrichedRow>, config: PipelineConfig, fp: string)
    requires config.maxPriceMultiplier >= 1.0
    requires PricesNonNegative(rows)
    requires GroupMean(rows, fp).Some?
    ensures SomeRowUnderCeiling(rows, config, fp)
  {
    var i := RowAtMostGroupMean(rows, fp);
    GroupMeanNonNegative(rows, fp);
    BelowMeanPassesCeiling(rows, config, i);
    UnderCeilingWitness(rows, config, fp, i);
  }

  /** A row of group fp priced at most the group mean. */
  lemma RowAtMostGroupMean(rows: seq<EnrichedRow>, fp: string) returns (i: nat)
    requires GroupMean(rows, fp).Some?
    ensures i < |rows| && rows[i].fingerprint == fp && rows[i].pricing.priceFinal.Some?
    ensures rows[i].pricing.priceFinal.value <= GroupMean(rows, fp).value
  {
    var ps := GroupPrices(rows, fp);
    SomeAtMostMean(ps);
    var k :| 0 <= k < |ps| && ps[k] <= Mean(ps).value;
    GroupPriceFromRow(rows, fp, k);
    i :| 0 <= i < |rows| && rows[i].fingerprint == fp && rows[i].pricing.priceFinal == Some(ps[k]);
  }

  lemma UnderCeilingWitness(rows: seq<EnrichedRow>, config: PipelineConfig, fp: string, i: nat)
    requires GroupMean(rows, fp).Some?
    requires i < |rows| && rows[i].fingerprint == fp && rows[i].pricing.priceFinal.Some?
    requires rows[i].pricing.priceFinal.value <= GroupMean(rows, fp).value * config.maxPriceMultiplier
    ensures SomeRowUnderCeiling(rows, config, fp)
  {
  }
}

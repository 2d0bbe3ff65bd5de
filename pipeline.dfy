/** The whole run (`main`): normalise prices, fingerprint names, drop anomalies,
    aggregate. Reading the CSV and writing the result are outside the model; the
    input is the sequence of parsed rows and the output the sequence of records. */
module Pipeline {
  import opened Wrappers
  import opened Config
  import opened Rows
  import opened Rounding
  import opened Stats
  import opened Pricing
  import opened Tokens
  import opened Fingerprint
  import opened Anomaly
  import opened Aggregate

  /** The rows entering the anomaly filter: priced and fingerprinted. */
  function Enriched(rows: seq<RawRow>, config: PipelineConfig): seq<EnrichedRow>
    requires config.usdToEurRate != 0.0
  {
    GenerateFingerprints(NormalizePricing(rows, config), config.synonyms)
  }

  /** The enriched rows that survive the anomaly filter. */
  function Survivors(rows: seq<RawRow>, config: PipelineConfig): seq<EnrichedRow>
    requires config.usdToEurRate != 0.0
  {
    FilterAnomalies(Enriched(rows, config), config)
  }

  function RunPipeline(rows: seq<RawRow>, config: PipelineConfig): seq<AggregateRecord>
    requires config.usdToEurRate != 0.0
  {
    AggregateProducts(Survivors(rows, config))
  }

  /** Every price reaching the anomaly filter is a non-negative whole number of cents. */
  lemma EnrichedPricesNonNegative(rows: seq<RawRow>, config: PipelineConfig)
    requires config.usdToEurRate > 0.0
    ensures PricesNonNegative(Enriched(rows, config))
    ensures forall j :: 0 <= j < |Enriched(rows, config)| && Enriched(rows, config)[j].pricing.priceFinal.Some? ==>
      IsCents(Enriched(rows, config)[j].pricing.priceFinal.value)
  {
    var feed := Enriched(rows, config);
    forall j | 0 <= j < |feed| && feed[j].pricing.priceFinal.Some?
      ensures feed[j].pricing.priceFinal.value >= 0.0 && IsCents(feed[j].pricing.priceFinal.value)
    {
      PriceFinalIsNonNegativeCents(rows[j].rawPrice, config);
    }
  }

  /** Every output line is a group of surviving rows: its count is at least one, it has
      an average price in whole cents, and that average is at least the price floor
      (rounded to the cent). */
  lemma PublishedRecordsAboveFloor(rows: seq<RawRow>, config: PipelineConfig)
    requires config.usdToEurRate != 0.0
    ensures forall x :: x in RunPipeline(rows, config) ==>
      && x.occurrenceCount >= 1
      && x.avgPrice.Some? && IsCents(x.avgPrice.value)
      && x.avgPrice.value >= Round2(config.minPriceEur)
  {
    var out := Survivors(rows, config);
    SurvivorsPassGates(Enriched(rows, config), config);
    AggregateAboveFloor(out, config.minPriceEur);
  }

  /** With the command line's defaults no published average is below 5 euros. */
  lemma DefaultFloor(inputPath: string, outputPath: string, rate: real, rows: seq<RawRow>)
    requires rate != 0.0
    ensures forall x :: x in RunPipeline(rows, WithDefaults(inputPath, outputPath, rate)) ==>
      x.avgPrice.Some? && x.avgPrice.value >= 5.0
  {
    var config := WithDefaults(inputPath, outputPath, rate);
    PublishedRecordsAboveFloor(rows, config);
    assert IsCents(5.0) by {
      assert (5.0 * 100.0).Floor == 500;
    }
    Round2Idempotent(5.0);
  }

  /** With the command line's defaults, two rows whose names hold the same words, in any
      order and up to case, reach the anomaly filter with the same fingerprint, and so
      fall into one group. */
  lemma DefaultsGroupReorderedNames(inputPath: string, outputPath: string, rate: real, rows: seq<RawRow>,
                                    i: nat, j: nat, xs: seq<string>, ys: seq<string>)
    requires rate != 0.0
    requires i < |rows| && j < |rows|
    requires rows[i].rawName == JoinSpace(xs)
    requires Lower(rows[j].rawName) == Lower(JoinSpace(ys))
    requires multiset(xs) == multiset(ys)
    ensures Enriched(rows, WithDefaults(inputPath, outputPath, rate))[i].fingerprint
         == Enriched(rows, WithDefaults(inputPath, outputPath, rate))[j].fingerprint
  {
    var config := WithDefaults(inputPath, outputPath, rate);
    SameGroup(NormalizePricing(rows, config), config.synonyms, i, j, xs, ys);
  }

  /** The output accounts for exactly the surviving rows: the counts add up to their
      number, which is at most the number of input rows, and the lines come largest
      group first, one per distinct surviving fingerprint. */
  lemma PublishedCounts(rows: seq<RawRow>, config: PipelineConfig)
    requires config.usdToEurRate != 0.0
    ensures SumCounts(RunPipeline(rows, config)) == |Survivors(rows, config)| <= |rows|
    ensures |RunPipeline(rows, config)| == |Keys(Survivors(rows, config))|
    ensures ByCountDescending(RunPipeline(rows, config))
  {
    AggregateCountsSum(Survivors(rows, config));
    AggregateOnePerGroup(Survivors(rows, config));
    AggregateOrdered(Survivors(rows, config));
  }

  /** With a multiplier of at least one, the upper gate alone never empties a
      fingerprint group that has a price: some row of it is priced at most the
      group mean times the multiplier. */
  lemma CeilingNeverEmptiesAGroup(rows: seq<RawRow>, config: PipelineConfig, fp: string)
    requires config.usdToEurRate > 0.0 && config.maxPriceMultiplier >= 1.0
    requires GroupMean(Enriched(rows, config), fp).Some?
    ensures SomeRowUnderCeiling(Enriched(rows, config), config, fp)
  {
    EnrichedPricesNonNegative(rows, config);
    CeilingSparesSomeRow(Enriched(rows, config), config, fp);
  }
}

/** The records that flow between the stages. Each stage adds columns to the
    previous stage's rows; here each addition is a record wrapping the previous one. */
module Rows {
  import opened Wrappers

  /** One input line: `id, raw_name, raw_price, shop, date`. An empty CSV field
      (which the reader turns into a null) is represented by the empty string. */
  datatype RawRow = RawRow(id: int, rawName: string, rawPrice: string, shop: string, date: string)

  /** The columns the price normaliser adds. */
  datatype Pricing = Pricing(
    isUsd: bool,
    rawFloat: Option<real>,
    correctedFloat: Option<real>,
    priceFinal: Option<real>)

  /** A raw row after price normalisation. */
  datatype PricedRow = PricedRow(raw: RawRow, pricing: Pricing)

  /** A row after fingerprinting: the input of the anomaly filter and the aggregator. */
  datatype EnrichedRow = EnrichedRow(raw: RawRow, pricing: Pricing, fingerprint: string)

  /** One output line. `avgPrice` is absent only for a group with no present price,
      which the anomaly filter never lets through. */
  datatype AggregateRecord = AggregateRecord(displayTitle: string, avgPrice: Option<real>, occurrenceCount: nat)
}

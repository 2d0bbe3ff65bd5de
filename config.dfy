/** The pipeline's configuration record (`PipelineConfig` in src/pipeline.py). */
module Config {

  /** Input and output paths are carried but never read by the modelled stages.
      The synonym dictionary is kept as an ordered list of (pattern, replacement)
      pairs, in the dictionary's insertion order. */
  datatype PipelineConfig = PipelineConfig(
    inputPath: string,
    outputPath: string,
    usdToEurRate: real,
    minPriceEur: real,
    maxPriceMultiplier: real,
    priceScaleThreshold: real,
    synonyms: seq<(string, string)>)

  /** The default synonym substitutions, in declaration order. */
  function DefaultSynonyms(): seq<(string, string)> {
    [("ps5", "playstation 5"),
     ("ps4", "playstation 4"),
     ("s21", "galaxy s21"),
     ("macbook", "apple macbook"),
     ("playstation5", "playstation 5")]
  }

  /** A configuration built the way the command line builds one: paths and rate
      supplied, every quality gate and the synonym list at its default. */
  function WithDefaults(inputPath: string, outputPath: string, rate: real): (c: PipelineConfig)
    ensures c.usdToEurRate == rate
    ensures c.minPriceEur == 5.0 && c.maxPriceMultiplier == 10.0
    ensures c.priceScaleThreshold == 10000.0
    ensures |c.synonyms| == 5 && c.synonyms[0] == ("ps5", "playstation 5")
    ensures c.synonyms == DefaultSynonyms()
    ensures SpaceFreeKeys(c.synonyms) && NonOverlappingKeys(c.synonyms)
  {
    DefaultKeysNeverOverlap();
    PipelineConfig(inputPath, outputPath, rate, 5.0, 10.0, 10000.0, DefaultSynonyms())
  }

  /** Every synonym pattern is non-empty and free of spaces: a pattern then never
      matches across a space, which is what makes fingerprints word-order invariant. */
  predicate SpaceFreeKeys(synonyms: seq<(string, string)>) {
    forall i :: 0 <= i < |synonyms| ==> synonyms[i].0 != [] && ' ' !in synonyms[i].0
  }

  /** b agrees with a from position k on, for as many characters as both have: an
      occurrence of b may start k characters into an occurrence of a. */
  predicate AgreeFrom(a: string, k: nat, b: string) {
    forall m :: 0 <= m < |b| && k + m < |a| ==> a[k + m] == b[m]
  }

  /** Occurrences of two patterns never overlap in any text, unless they are the same
      occurrence of one pattern. No pattern starts another, and no non-empty proper
      suffix of a pattern agrees with the start of a pattern. */
  predicate NonOverlappingKeys(synonyms: seq<(string, string)>) {
    forall i, j, k :: 0 <= i < |synonyms| && 0 <= j < |synonyms| && 0 <= k < |synonyms[i].0| && (k > 0 || i != j)
      ==> !AgreeFrom(synonyms[i].0, k, synonyms[j].0)
  }

  /** The default patterns are space-free and never overlap one another, so how a
      substitution engine settles a conflict between them never matters. */
  lemma DefaultKeysNeverOverlap()
    ensures SpaceFreeKeys(DefaultSynonyms())
    ensures NonOverlappingKeys(DefaultSynonyms())
  {
    var syn := DefaultSynonyms();
    forall i, j, k | 0 <= i < |syn| && 0 <= j < |syn| && 0 <= k < |syn[i].0| && (k > 0 || i != j)
      ensures !AgreeFrom(syn[i].0, k, syn[j].0)
    {
      var a, b := syn[i].0, syn[j].0;
      if a[k] != b[0] {
      } else if a[k + 1] != b[1] {
      } else {
        assert i < 2 && j < 2 && k == 0 && a[2] != b[2];
      }
    }
  }
}

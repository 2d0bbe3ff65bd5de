# Product-catalogue pipeline, modelled in Dafny

This project models the batch pipeline in `high-perf-data-pipeline/src/pipeline.py`. The pipeline reads
rows of a scraped product feed (`id, raw_name, raw_price, shop, date`) and runs four stages:

1. **Price normalisation** (`normalize_pricing`). It flags dollar prices, extracts the digits,
   commas and points of the price text, and makes the first comma the decimal point. Then it
   parses a float, divides prices above the scale threshold by 100, converts dollars to euros
   and rounds to the cent.
2. **Fingerprinting** (`generate_fingerprints`). It lower-cases the product name and applies
   the synonym substitutions. It deletes the marketing stopwords as whole words and turns
   punctuation into spaces. Then it collapses whitespace, splits into words, sorts them and
   joins them with single spaces.
3. **Anomaly filtering** (`filter_anomalies`). Each row is compared with the mean price of its
   fingerprint group, taken over the whole feed. A row is kept when its price is at least the
   floor, at most the group mean times the multiplier, and its fingerprint is longer than one
   character.
4. **Aggregation** (`aggregate_products`). The pipeline emits one record per fingerprint: the
   longest raw name, the mean price rounded to the cent, and the row count. The largest groups
   come first.

The stages are pure column transformations, so the model is made of functions over sequences
and lemmas about them. Nothing in it is a class or a loop.

Module layout:

| module | file | what it holds |
|---|---|---|
| `Wrappers` | `wrappers.dfy` | `Option`, which stands for a null |
| `Config` | `config.dfy` | `PipelineConfig` and its defaults |
| `Rows` | `rows.dfy` | the row records each stage passes on |
| `Rounding` | `rounding.dfy` | `.round(2)` |
| `LexOrder` | `lexorder.dfy` | lexicographic order and the sort used by `list.sort()` |
| `Tokens` | `tokens.dfy` | whitespace collapsing, stripping, splitting and joining |
| `Stats` | `stats.dfy` | `mean()` over the present values |
| `Pricing` | `pricing.dfy` | stage 1 |
| `Fingerprint` | `fingerprint.dfy` | stage 2 |
| `Anomaly` | `anomaly.dfy` | stage 3 |
| `Aggregate` | `aggregate.dfy` | stage 4 |
| `Pipeline` | `pipeline.dfy` | the composition `main` runs, and end-to-end properties |

Prices are exact reals. A null column value is `None`. An empty CSV field is the empty string.
The synonym dictionary is a list of pairs in insertion order.

## Model

| member | source | states |
|---|---|---|
| Config.WithDefaults | high-perf-data-pipeline/src/pipeline.py:12-33 | a configuration built from paths and a rate has floor 5.0, multiplier 10.0, scale threshold 10000.0 and the default synonym list, first rule `ps5` to `playstation 5`, exactly the five default pairs in declaration order; its patterns are space-free and never overlap one another |
| Config.DefaultKeysNeverOverlap | high-perf-data-pipeline/src/pipeline.py:27-33 | the default patterns `ps5`, `ps4`, `s21`, `macbook` and `playstation5` are non-empty and space-free, and no occurrence of one can overlap an occurrence of another in any text |
| Rounding.Round2 | high-perf-data-pipeline/src/pipeline.py:79 | the rounded value is a whole number of cents within half a cent of the input |
| Rounding.Round2Idempotent | high-perf-data-pipeline/src/pipeline.py:79 | a value already in whole cents is unchanged by rounding |
| Rounding.Round2Monotone | high-perf-data-pipeline/src/pipeline.py:79 | rounding preserves order |
| Rounding.Round2NonNegative | high-perf-data-pipeline/src/pipeline.py:79 | a non-negative value never rounds to a negative one |
| LexOrder.LexLeReflexive | high-perf-data-pipeline/src/pipeline.py:98 | the string order used by the sort is reflexive |
| LexOrder.LexLeAntisymmetric | high-perf-data-pipeline/src/pipeline.py:98 | the string order is antisymmetric |
| LexOrder.LexLeTransitive | high-perf-data-pipeline/src/pipeline.py:98 | the string order is transitive |
| LexOrder.LexLeTotal | high-perf-data-pipeline/src/pipeline.py:98 | any two strings are comparable |
| LexOrder.Insert | high-perf-data-pipeline/src/pipeline.py:98 | inserting into a sorted list gives a sorted list with one more occurrence of the element |
| LexOrder.SortStrings | high-perf-data-pipeline/src/pipeline.py:98 | `list.sort()` returns a sorted permutation of its input |
| LexOrder.SortedHeadIsLeast | high-perf-data-pipeline/src/pipeline.py:98 | the first element of a sorted list is at most every element |
| LexOrder.SortedUnique | high-perf-data-pipeline/src/pipeline.py:98 | two sorted lists holding the same multiset of strings are equal, so the sort's result does not depend on how it sorts |
| LexOrder.SortStringsPermutationInvariant | high-perf-data-pipeline/src/pipeline.py:98 | sorting two reorderings of the same words gives the same list |
| Tokens.SplitSpace | high-perf-data-pipeline/src/pipeline.py:97 | `split(" ")` returns at least one piece, and no piece holds a space |
| Tokens.SplitJoin | high-perf-data-pipeline/src/pipeline.py:97-99 | splitting a join of space-free pieces on `" "` gives back the pieces |
| Tokens.JoinSplit | high-perf-data-pipeline/src/pipeline.py:97-99 | joining the pieces of a split with `" "` gives back the text |
| Tokens.Collapse | high-perf-data-pipeline/src/pipeline.py:95 | a whitespace run becomes one space: the result holds no whitespace other than spaces and no two spaces in a row, and starts with a space iff the input starts with whitespace |
| Tokens.NormalizeSpaces | high-perf-data-pipeline/src/pipeline.py:95-96 | collapsing and stripping a text gives its words joined by single spaces |
| Tokens.CanonicalIsJoinOfWords | high-perf-data-pipeline/src/pipeline.py:95-99 | a text with single inner spaces and no outer ones is the join of its words |
| Tokens.JoinWords | high-perf-data-pipeline/src/pipeline.py:99 | joining non-empty space-free words gives a text with single inner spaces whose words and pieces are exactly those words |
| Tokens.WordsOfJoin | high-perf-data-pipeline/src/pipeline.py:95-99 | the words of a join are the words of the pieces, in order |
| Tokens.ConcatWordsPermutation | high-perf-data-pipeline/src/pipeline.py:95-99 | reordering pieces reorders their words: the multiset of words is unchanged |
| Tokens.MapPermutation | high-perf-data-pipeline/src/pipeline.py:90-94 | cleaning each word of two reorderings of a list gives reorderings of one another |
| Stats.Mean | high-perf-data-pipeline/src/pipeline.py:107 | `mean()` is present exactly when there is a present value |
| Stats.Least | high-perf-data-pipeline/src/pipeline.py:107 | the least value is one of the values and at most each of them |
| Stats.MeanAtLeast | high-perf-data-pipeline/src/pipeline.py:107 | a lower bound on every value bounds the mean |
| Stats.MeanAtMost | high-perf-data-pipeline/src/pipeline.py:107 | an upper bound on every value bounds the mean |
| Stats.SomeAtMostMean | high-perf-data-pipeline/src/pipeline.py:107 | some value lies at or below the mean |
| Stats.MeanOfConstant | high-perf-data-pipeline/src/pipeline.py:107 | the mean of equal values is that value |
| Pricing.KeepPriceChars | high-perf-data-pipeline/src/pipeline.py:64 | the extracted text holds only digits, commas and points |
| Pricing.KeepPriceCharsCount | high-perf-data-pipeline/src/pipeline.py:64 | every digit, comma and point is kept as often as it occurs, and every other character is dropped |
| Pricing.KeepPriceCharsConcat | high-perf-data-pipeline/src/pipeline.py:64 | extraction works piece by piece |
| Pricing.KeepPriceCharsFixpoint | high-perf-data-pipeline/src/pipeline.py:64 | text made only of price characters is unchanged |
| Pricing.NoPriceCharsExtractsNothing | high-perf-data-pipeline/src/pipeline.py:64 | text with no price character extracts to the empty string |
| Pricing.ReplaceFirstComma | high-perf-data-pipeline/src/pipeline.py:65 | the replacement keeps the length |
| Pricing.ReplaceFirstCommaAt | high-perf-data-pipeline/src/pipeline.py:65 | the first comma becomes a point, and the text around it is unchanged |
| Pricing.NoCommaUnchanged | high-perf-data-pipeline/src/pipeline.py:65 | text without a comma is unchanged |
| Pricing.ParseDecimal | high-perf-data-pipeline/src/pipeline.py:66 | a successful cast of extracted text is never negative |
| Pricing.ParseDecimalSucceedsIff | high-perf-data-pipeline/src/pipeline.py:66 | the non-strict cast succeeds exactly on digits with at most one point and at least one digit; any other text gives null |
| Pricing.ParseDigits | high-perf-data-pipeline/src/pipeline.py:66 | a digit string parses to its integer value |
| Pricing.ParseDigitsPointDigits | high-perf-data-pipeline/src/pipeline.py:66 | digits, a point and digits parse to the integer part plus the fraction |
| Pricing.ScaleCorrect | high-perf-data-pipeline/src/pipeline.py:70-73 | a value above the threshold is divided by 100; any other value is kept |
| Pricing.NormalizePrice | high-perf-data-pipeline/src/pipeline.py:62-81 | the dollar flag is set iff the text holds `$`; the three derived prices are null exactly when the cast fails; otherwise they are the scale-corrected value and the rounded euro value |
| Pricing.PriceFinalIsNonNegativeCents | high-perf-data-pipeline/src/pipeline.py:62-81 | with a positive rate, every final price is a non-negative whole number of cents within half a cent of the exact converted value |
| Pricing.NormalizeDollarPrice | high-perf-data-pipeline/tests/test_pipeline.py:26-34 | `$110.00` at rate 1.10 is a dollar price of 100.0 euros |
| Pricing.NormalizeScaleError | high-perf-data-pipeline/tests/test_pipeline.py:26-36 | `197200` is scale-corrected to 1972.0 |
| Pricing.NormalizeEuroComma | high-perf-data-pipeline/tests/test_pipeline.py:26-38 | `€ 50,00` is a euro price of 50.0 |
| Pricing.NormalizeInvalid | high-perf-data-pipeline/tests/test_pipeline.py:26-40 | `invalid` has a null final price |
| Pricing.NormalizePricing | high-perf-data-pipeline/src/pipeline.py:57-82 | every row is kept in order with its raw columns, and gains the pricing of its own price text |
| Fingerprint.Lower | high-perf-data-pipeline/src/pipeline.py:91 | lower-casing maps each character on its own and keeps the length |
| Fingerprint.LowerIdempotent | high-perf-data-pipeline/src/pipeline.py:91 | lower-casing twice is lower-casing once |
| Fingerprint.FirstRule | high-perf-data-pipeline/src/pipeline.py:92 | at a position, the model applies the first non-empty pattern, in dictionary order, that starts there; none applies when no pattern starts there (list order is the model's tie rule; see Left out) |
| Fingerprint.FirstRuleUnique | high-perf-data-pipeline/src/pipeline.py:92 | when the patterns never overlap, no other pattern starts where the chosen one does, so the choice does not depend on the list's order |
| Fingerprint.FirstRuleBeforeSpace | high-perf-data-pipeline/src/pipeline.py:92 | with space-free patterns, the rule chosen at the start of a word followed by a space is the rule chosen on the word alone, and no rule starts at a space |
| Fingerprint.ReplaceManySplit | high-perf-data-pipeline/src/pipeline.py:92 | with space-free patterns, the substitutions work word by word |
| Fingerprint.StopwordsAreWords | high-perf-data-pipeline/src/pipeline.py:93 | every marketing stopword is a non-empty run of word characters |
| Fingerprint.FirstStopwordSpec | high-perf-data-pipeline/src/pipeline.py:93 | the alternative taken is the first, in alternation order, that matches between word boundaries; none is taken exactly when no alternative matches there |
| Fingerprint.RemoveStopwordsSplit | high-perf-data-pipeline/src/pipeline.py:93 | stopword deletion works word by word across a space |
| Fingerprint.StopwordVanishes | high-perf-data-pipeline/src/pipeline.py:93 | a stopword standing alone is deleted entirely |
| Fingerprint.KeepsNonStopword | high-perf-data-pipeline/src/pipeline.py:93 | a word that is not a stopword is kept whole, so `editions` survives |
| Fingerprint.KeepsInsideWord | high-perf-data-pipeline/src/pipeline.py:93 | no deletion starts inside a word |
| Fingerprint.LimiteeKeptAsWritten | high-perf-data-pipeline/src/pipeline.py:93 | with the alternation as spelt in the source, `limitée` is not deleted and leaves the tokens `limit` and `e` |
| Fingerprint.PunctToSpace | high-perf-data-pipeline/src/pipeline.py:94 | every character other than `a-z`, `0-9` and whitespace becomes a space; the length is kept |
| Fingerprint.Cleaned | high-perf-data-pipeline/src/pipeline.py:91-94 | after the character stages, only `a-z`, `0-9` and whitespace remain |
| Fingerprint.CleanedSplit | high-perf-data-pipeline/src/pipeline.py:91-94 | with space-free synonym patterns, the character stages work word by word |
| Fingerprint.SortTokensIsSortedWords | high-perf-data-pipeline/src/pipeline.py:95-99 | the token stage gives the sorted words of its text joined by single spaces |
| Fingerprint.SortTokensShape | high-perf-data-pipeline/src/pipeline.py:95-99 | the token stage gives single inner spaces and no outer ones; its characters come from its input; its words are the sorted words of the input; its pieces are sorted |
| Fingerprint.FingerprintIsSortedWords | high-perf-data-pipeline/src/pipeline.py:90-99 | a fingerprint is the sorted words of the cleaned name joined by single spaces |
| Fingerprint.FingerprintShape | high-perf-data-pipeline/src/pipeline.py:90-99 | a fingerprint holds only `a-z`, `0-9` and single inner spaces, and its tokens are in order |
| Fingerprint.FingerprintEmpty | high-perf-data-pipeline/src/pipeline.py:90-99 | the empty name has the empty fingerprint |
| Fingerprint.FingerprintIgnoresCase | high-perf-data-pipeline/src/pipeline.py:91 | names that differ only in letter case have the same fingerprint |
| Fingerprint.FingerprintWordOrder | high-perf-data-pipeline/src/pipeline.py:90-99 | with space-free synonym patterns, reordering the words of a name leaves its fingerprint unchanged |
| Fingerprint.GenerateFingerprints | high-perf-data-pipeline/src/pipeline.py:84-101 | every row is kept in order with its columns, and gains the fingerprint of its raw name |
| Fingerprint.SameGroup | high-perf-data-pipeline/src/pipeline.py:84-101 | two rows whose names are reorderings of the same words, up to letter case, get the same fingerprint |
| Fingerprint.CleanedEdition | high-perf-data-pipeline/tests/test_pipeline.py:64 | `Edition` is removed completely |
| Fingerprint.CleanedPromo | high-perf-data-pipeline/tests/test_pipeline.py:65 | `Promo` is removed completely |
| Fingerprint.CleanedLimitee | high-perf-data-pipeline/tests/test_pipeline.py:52 | `Limitée` is removed completely |
| Fingerprint.FingerprintTestNames | high-perf-data-pipeline/tests/test_pipeline.py:48-67 | with synonym `ps5` to `playstation 5`, both `Sony PS5 Edition Limitée` and `Promo Sony PlayStation 5` have fingerprint `5 playstation sony` |
| Anomaly.SelectIsSubsequence | high-perf-data-pipeline/src/pipeline.py:110-114 | the filter returns its input with some rows deleted and the rest in order |
| Anomaly.SelectCounts | high-perf-data-pipeline/src/pipeline.py:105-114 | a passing row is kept as often as it occurs, and a failing row never appears |
| Anomaly.FilterMembership | high-perf-data-pipeline/src/pipeline.py:105-114 | a row is in the output iff it is in the input, has a price, its group has a mean over the whole input, the price lies between the floor and the mean times the multiplier, and its fingerprint has more than one character |
| Anomaly.FilterKeepsOrder | high-perf-data-pipeline/src/pipeline.py:110-114 | the surviving rows keep their input order |
| Anomaly.SurvivorsPassGates | high-perf-data-pipeline/src/pipeline.py:110-114 | every survivor has a price at least the floor and a fingerprint of two or more characters |
| Anomaly.GroupPricesNonNegative | high-perf-data-pipeline/src/pipeline.py:107 | with non-negative prices, every price in a group is non-negative |
| Anomaly.PriceInGroup | high-perf-data-pipeline/src/pipeline.py:107 | a row's price counts towards its own group's mean |
| Anomaly.GroupPriceFromRow | high-perf-data-pipeline/src/pipeline.py:107 | every price counted for a group is the price of a row of that group |
| Anomaly.BelowMeanPassesCeiling | high-perf-data-pipeline/src/pipeline.py:112 | with non-negative prices and a multiplier of at least 1, a row at or below its group mean passes the upper gate |
| Anomaly.GroupMeanNonNegative | high-perf-data-pipeline/src/pipeline.py:107 | with non-negative prices, a group mean is non-negative |
| Anomaly.CeilingSparesSomeRow | high-perf-data-pipeline/src/pipeline.py:105-114 | with non-negative prices and a multiplier of at least 1, every group with a mean has a row that passes the upper gate |
| Aggregate.Keys | high-perf-data-pipeline/src/pipeline.py:119-120 | the group keys are distinct, and a string is a key iff some row has it as its fingerprint |
| Aggregate.Members | high-perf-data-pipeline/src/pipeline.py:119-120 | the members of a group are rows of the feed with that fingerprint |
| Aggregate.MemberOfGroup | high-perf-data-pipeline/src/pipeline.py:119-120 | every row is a member of its own fingerprint's group |
| Aggregate.LongestName | high-perf-data-pipeline/src/pipeline.py:122-125 | the display title is the raw name of a group member, and no member's name is longer |
| Aggregate.RoundedMean | high-perf-data-pipeline/src/pipeline.py:127 | the average is null exactly when the mean is; otherwise it is a whole number of cents within half a cent of the mean |
| Aggregate.InsertByCount | high-perf-data-pipeline/src/pipeline.py:130 | inserting a record into a list ordered by descending count keeps it ordered, adds the record once and adds its count to the total |
| Aggregate.SortByCount | high-perf-data-pipeline/src/pipeline.py:130 | the sort by descending count is a permutation whose counts never increase and whose total count is unchanged |
| Aggregate.GroupSizesCoverFeed | high-perf-data-pipeline/src/pipeline.py:119-128 | the group sizes add up to the number of rows, so the groups partition the feed |
| Aggregate.AggregateOrdered | high-perf-data-pipeline/src/pipeline.py:130 | the records come largest group first |
| Aggregate.AggregateOnePerGroup | high-perf-data-pipeline/src/pipeline.py:119-131 | the output is a reordering of the records of the distinct fingerprints, one record each |
| Aggregate.AggregateCountsSum | high-perf-data-pipeline/src/pipeline.py:128 | the occurrence counts add up to the number of rows aggregated |
| Aggregate.RecordOfGroup | high-perf-data-pipeline/src/pipeline.py:119-128 | a group's record has its size (at least one) as count, a longest raw name of the group as title, and the group's mean price rounded to the cent as average |
| Aggregate.PricedRowsHaveAverages | high-perf-data-pipeline/src/pipeline.py:127 | when every row has a price, every group has an average |
| Aggregate.OutputRecordIsGroupRecord | high-perf-data-pipeline/src/pipeline.py:119-131 | every output record is the record of one of the feed's groups |
| Aggregate.AggregateAboveFloor | high-perf-data-pipeline/src/pipeline.py:119-131 | when every row is priced at least a bound, every record has a count of at least one and an average in whole cents of at least the bound rounded to the cent |
| Pipeline.EnrichedPricesNonNegative | high-perf-data-pipeline/src/pipeline.py:153-156 | with a positive rate, every price reaching the filter is a non-negative whole number of cents |
| Pipeline.PublishedRecordsAboveFloor | high-perf-data-pipeline/src/pipeline.py:153-158 | every output line has a count of at least one and an average in whole cents of at least the floor rounded to the cent |
| Pipeline.DefaultFloor | high-perf-data-pipeline/src/pipeline.py:143-158 | with the command line's defaults, no published average is below 5 euros |
| Pipeline.DefaultsGroupReorderedNames | high-perf-data-pipeline/src/pipeline.py:143-158 | with the command line's defaults, rows whose names are reorderings of the same words, up to letter case, reach the anomaly filter with the same fingerprint |
| Pipeline.PublishedCounts | high-perf-data-pipeline/src/pipeline.py:153-158 | the counts add up to the number of surviving rows, which is at most the number of input rows; there is one line per distinct surviving fingerprint, largest group first |
| Pipeline.CeilingNeverEmptiesAGroup | high-perf-data-pipeline/src/pipeline.py:153-157 | with a positive rate and a multiplier of at least 1, every fingerprint group with a mean has a row that passes the upper gate |

## Left out

- Reading the CSV (`load_lazy_data`), writing the output (`sink_csv`), argument parsing,
  logging and the `try`/`exit(1)` error path are I/O. The model's input is the sequence of
  parsed rows, and its output is the sequence of records. `generate_data.py` is not part of
  this model.
- The lazy, parallel Polars engine is not modelled. Every stage is a function of the whole row
  sequence, which gives the same result.
- Prices are exact reals, not 64-bit floats. Overflow, `inf`, `NaN` and binary rounding are not
  modelled.
- Rounding.Round2: rounds halves up (half away from zero on non-negative prices). The
  source's `round(2)` does not show its tie rule. Under half-to-even, a tie such as 10.005
  rounds down. The strict lower bound `-1/200 < r - x` in `Round2`,
  `Pricing.PriceFinalIsNonNegativeCents` and `Aggregate.RoundedMean` then weakens to `<=`.
  `Round2Idempotent`, `Round2Monotone` and `Round2NonNegative` hold under either rule.
- The float cast accepts plain decimal text only. After extraction, only digits, commas and
  points remain, so exponents, signs, `inf` and `nan` cannot occur.
- Pricing.NormalizePrice: requires a non-zero rate. With a zero rate the source divides by
  zero and gets an infinite price, which exact reals cannot express. The non-negativity
  lemmas also need a positive rate.
- A null CSV field is modelled as the empty string, and the two differ part-way. A null
  `raw_price` gives a null `is_usd` and a null `price_final`. An empty one gives `is_usd`
  false and also a null `price_final`, because the cast of empty text fails. A null
  `raw_name` gives a null fingerprint, because every string step propagates null. An empty
  one gives the empty fingerprint. Either way the row fails the filter of
  `filter_anomalies`, because a null price fails the floor and both a null fingerprint and the
  empty one fail the length gate. So the two behave the same from the filter on.
- Unicode is covered only for ASCII and Latin-1:
  - lower-casing maps `A`-`Z` and the Latin-1 capitals;
  - `\w` is ASCII letters, digits, `_`, the Latin-1 letters and `ª`, `µ` and `º`;
  - `\s` is space, tab, line feed, vertical tab, form feed and carriage return.
  Other scripts and case folding are not modelled.
- An empty synonym pattern never matches.
- Fingerprint.FirstRule / ReplaceMany: where two patterns match overlapping text, the model
  applies the one that starts first, and at one position the one that comes first in the
  dictionary. Polars' `replace_many` uses the standard Aho-Corasick match kind instead, which
  reports the match that ends first. With the patterns `ps5` and `ps` the two give different
  output for `ps5`. The two rules agree when no occurrence of one pattern can overlap an
  occurrence of another. `Config.DefaultKeysNeverOverlap` proves this for the default
  dictionary, and `Fingerprint.FirstRuleUnique` shows that the choice is then forced. Other
  dictionaries are modelled only as far as their patterns never overlap.
- Group order and tie order are not specified by the source: `group_by` has no fixed order,
  and the count sort and the title sort are not stable. The model makes one deterministic
  choice:
  - groups in order of first occurrence;
  - a stable sort by count;
  - the first longest name in feed order.
  The lemmas about the output hold for every order: they are stated as multisets, the
  ordering by count and per-group facts.
- The stopword alternation is modelled as `limitée`, which is what the test requires. The
  source spells it differently; see Findings.

## Findings

| source | as written | input that shows it | evidently intended | confidence | as-written member | corrected member |
|---|---|---|---|---|---|---|
| high-perf-data-pipeline/src/pipeline.py:93 | the last stopword alternative is `limitÃ©e` (UTF-8 bytes of `limitée` decoded as Latin-1), so the word `limitée` never matches | `Sony PS5 Edition Limitée`: the word `limitée` survives the stopword pass and leaves the tokens `limit` and `e`, so the fingerprint is not `5 playstation sony` as tests/test_pipeline.py:67 expects | delete the word `limitée` | high (the bytes in the file are those of the mis-decoded text; not executed) | Fingerprint.LimiteeKeptAsWritten | Fingerprint.CleanedLimitee |

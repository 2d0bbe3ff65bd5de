/** Price normalisation (`normalize_pricing`): dirty price text to an optional price
    in euros, rounded to the cent. */
module Pricing {
  import opened Wrappers
  import opened Rounding
  import opened Config
  import opened Rows
  import opened Tokens

  predicate IsDigit(c: char) { '0' <= c <= '9' }

  /** The characters `[0-9,.]` that survive extraction. */
  predicate IsPriceChar(c: char) { IsDigit(c) || c == ',' || c == '.' }

  /** Deletes every character outside `[0-9,.]` (currency symbols, letters, spaces, signs). */
  function KeepPriceChars(s: string): (r: string)
    ensures |r| <= |s|
    ensures forall i :: 0 <= i < |r| ==> IsPriceChar(r[i])
  {
    if s == [] then []
    else (if IsPriceChar(s[0]) then [s[0]] else []) + KeepPriceChars(s[1..])
  }

  /** Replaces the first comma, and only the first, by a period (a localised decimal comma). */
  function ReplaceFirstComma(t: string): (r: string)
    ensures |r| == |t|
  {
    if t == [] then []
    else if t[0] == ',' then ['.'] + t[1..]
    else [t[0]] + ReplaceFirstComma(t[1..])
  }

  predicate AllDigits(d: string) {
    forall i :: 0 <= i < |d| ==> IsDigit(d[i])
  }

  /** The value of a string of decimal digits. */
  function DigitsValue(d: string): nat
    requires AllDigits(d)
  {
    if d == [] then 0 else DigitsValue(d[..|d| - 1]) * 10 + (d[|d| - 1] as int - '0' as int)
  }

  function Pow10(n: nat): (p: nat)
    ensures p >= 1
  {
    if n == 0 then 1 else 10 * Pow10(n - 1)
  }

  /** Text the Float64 cast accepts once only `[0-9.]` can remain: digits with at most
      one period and at least one digit ("12", "12.5", ".5", "5."). */
  predicate IsDecimalText(t: string) {
    && (forall i :: 0 <= i < |t| ==> IsDigit(t[i]) || t[i] == '.')
    && multiset(t)['.'] <= 1
    && (exists i :: 0 <= i < |t| && IsDigit(t[i]))
  }

  lemma AllDigitsCounts(d: string)
    requires AllDigits(d)
    ensures multiset(d)['.'] == 0 && multiset(d)[','] == 0
  {
    assert '.' !in d && ',' !in d;
  }

  /** Without a period, decimal text is a non-empty run of digits. */
  lemma DecimalTextWithoutPeriod(t: string)
    requires '.' !in t
    ensures IsDecimalText(t) <==> t != [] && AllDigits(t)
  {
    if t != [] && AllDigits(t) {
      assert IsDigit(t[0]);
      assert '.' !in multiset(t);
    }
  }

  /** With its first period at k, decimal text is digits, the period, digits, and
      at least one digit overall. */
  lemma DecimalTextWithPeriod(t: string, k: nat)
    requires k < |t| && t[k] == '.' && '.' !in t[..k]
    ensures IsDecimalText(t) <==> AllDigits(t[..k]) && AllDigits(t[k + 1..]) && |t| > 1
  {
    var ip, fp := t[..k], t[k + 1..];
    assert t == ip + ['.'] + fp;
    assert multiset(t)['.'] == multiset(ip)['.'] + 1 + multiset(fp)['.'];
    if AllDigits(ip) && AllDigits(fp) && |t| > 1 {
      AllDigitsCounts(fp);
      assert IsDigit(t[0]) || IsDigit(t[k + 1]);
    }
    if !AllDigits(ip) {
      var i :| 0 <= i < |ip| && !IsDigit(ip[i]);
      assert ip[i] == t[i] && t[i] != '.';
    } else if !AllDigits(fp) {
      var i :| 0 <= i < |fp| && !IsDigit(fp[i]);
      assert fp[i] == t[k + 1 + i];
      if fp[i] == '.' { assert fp[i] in multiset(fp); }
    } else if |t| <= 1 {
      assert t == ".";
    }
  }

  /** The value of whole-part digits ip and fraction digits fp. */
  function DecimalValue(ip: string, fp: string): (v: real)
    requires AllDigits(ip) && AllDigits(fp)
    ensures v >= 0.0
  {
    DigitsValue(ip) as real + DigitsValue(fp) as real / Pow10(|fp|) as real
  }

  /** A fraction of zeros adds nothing. */
  lemma DecimalValueZeroFraction(ip: string, fp: string)
    requires AllDigits(ip) && AllDigits(fp) && DigitsValue(fp) == 0
    ensures DecimalValue(ip, fp) == DigitsValue(ip) as real
  {
  }

  /** The lenient Float64 cast: the value of digits with at most one period, absent
      for anything else. */
  function ParseDecimal(t: string): (r: Option<real>)
    ensures r.Some? ==> r.value >= 0.0
  {
    if '.' !in t then
      if t != [] && AllDigits(t) then Some(DigitsValue(t) as real) else None
    else
      var k := IndexOf(t, '.');
      var ip, fp := t[..k], t[k + 1..];
      if AllDigits(ip) && AllDigits(fp) && |t| > 1 then
        Some(DecimalValue(ip, fp))
      else None
  }

  /** The cast succeeds exactly on decimal text. */
  lemma ParseDecimalSucceedsIff(t: string)
    ensures ParseDecimal(t).Some? <==> IsDecimalText(t)
  {
    if '.' !in t {
      DecimalTextWithoutPeriod(t);
    } else {
      DecimalTextWithPeriod(t, IndexOf(t, '.'));
    }
  }

  /** Scale correction: a value above the threshold is taken to have lost its decimal
      point and is divided by 100; anything else is left as it is. */
  function ScaleCorrect(raw: real, threshold: real): (c: real)
    ensures raw > threshold ==> c * 100.0 == raw
    ensures raw <= threshold ==> c == raw
  {
    if raw > threshold then raw / 100.0 else raw
  }

  /** The four decisions of the normaliser for one price text. */
  function NormalizePrice(rawPrice: string, config: PipelineConfig): (p: Pricing)
    requires config.usdToEurRate != 0.0
    ensures p.isUsd <==> '$' in rawPrice
    ensures p.rawFloat == ParseDecimal(ReplaceFirstComma(KeepPriceChars(rawPrice)))
    ensures p.correctedFloat.Some? <==> p.rawFloat.Some?
    ensures p.priceFinal.Some? <==> p.rawFloat.Some?
    ensures p.rawFloat.Some? ==> p.correctedFloat.value == ScaleCorrect(p.rawFloat.value, config.priceScaleThreshold)
    ensures p.priceFinal.Some? ==>
      p.priceFinal.value == Round2(if p.isUsd then p.correctedFloat.value / config.usdToEurRate else p.correctedFloat.value)
  {
    var isUsd := '$' in rawPrice;
    var rawFloat := ParseDecimal(ReplaceFirstComma(KeepPriceChars(rawPrice)));
    match rawFloat
    case None => Pricing(isUsd, None, None, None)
    case Some(v) =>
      var corrected := ScaleCorrect(v, config.priceScaleThreshold);
      var converted := if isUsd then corrected / config.usdToEurRate else corrected;
      Pricing(isUsd, rawFloat, Some(corrected), Some(Round2(converted)))
  }

  /** The exact euro value before rounding. */
  function Converted(p: Pricing, config: PipelineConfig): real
    requires config.usdToEurRate != 0.0 && p.correctedFloat.Some?
  {
    if p.isUsd then p.correctedFloat.value / config.usdToEurRate else p.correctedFloat.value
  }

  /** Every present final price is a non-negative whole number of cents within half a
      cent of the exact converted value: the minus sign never survives extraction. */
  lemma PriceFinalIsNonNegativeCents(rawPrice: string, config: PipelineConfig)
    requires config.usdToEurRate > 0.0
    ensures NormalizePrice(rawPrice, config).priceFinal.Some? ==>
      && NormalizePrice(rawPrice, config).priceFinal.value >= 0.0
      && IsCents(NormalizePrice(rawPrice, config).priceFinal.value)
      && -1.0 / 200.0 < NormalizePrice(rawPrice, config).priceFinal.value
                          - Converted(NormalizePrice(rawPrice, config), config) <= 1.0 / 200.0
  {
    var p := NormalizePrice(rawPrice, config);
    if p.priceFinal.Some? {
      var v := p.rawFloat.value;
      var c := p.correctedFloat.value;
      assert c == ScaleCorrect(v, config.priceScaleThreshold);
      assert c >= 0.0;
      var e := Converted(p, config);
      assert e >= 0.0 by {
        if p.isUsd { DivideNonNegative(c, config.usdToEurRate); }
      }
      assert p.priceFinal.value == Round2(e);
      Round2NonNegative(e);
    }
  }

  lemma DivideNonNegative(x: real, rate: real)
    requires x >= 0.0 && rate > 0.0
    ensures x / rate >= 0.0
  {
  }

  /** Extraction keeps every `[0-9,.]` character as often as it occurs and no other. */
  lemma {:induction false} KeepPriceCharsCount(s: string, c: char)
    ensures multiset(KeepPriceChars(s))[c] == if IsPriceChar(c) then multiset(s)[c] else 0
  {
    if s != [] {
      KeepPriceCharsCount(s[1..], c);
      var head := if IsPriceChar(s[0]) then [s[0]] else [];
      assert KeepPriceChars(s) == head + KeepPriceChars(s[1..]);
      assert multiset(head + KeepPriceChars(s[1..])) == multiset(head) + multiset(KeepPriceChars(s[1..]));
      assert s == [s[0]] + s[1..];
      assert multiset(s) == multiset{s[0]} + multiset(s[1..]);
    }
  }

  /** Extraction works piecewise: characters are judged one at a time, in order. */
  lemma {:induction false} KeepPriceCharsConcat(a: string, b: string)
    ensures KeepPriceChars(a + b) == KeepPriceChars(a) + KeepPriceChars(b)
  {
    if a != [] {
      var head := if IsPriceChar(a[0]) then [a[0]] else [];
      assert (a + b)[0] == a[0] && (a + b)[1..] == a[1..] + b;
      KeepPriceCharsConcat(a[1..], b);
      calc {
        KeepPriceChars(a + b);
        head + KeepPriceChars(a[1..] + b);
        head + (KeepPriceChars(a[1..]) + KeepPriceChars(b));
        (head + KeepPriceChars(a[1..])) + KeepPriceChars(b);
        KeepPriceChars(a) + KeepPriceChars(b);
      }
    } else {
      assert a + b == b;
    }
  }

  /** Text already made only of `[0-9,.]` comes through extraction unchanged. */
  lemma {:induction false} KeepPriceCharsFixpoint(t: string)
    requires forall i :: 0 <= i < |t| ==> IsPriceChar(t[i])
    ensures KeepPriceChars(t) == t
  {
    if t != [] {
      KeepPriceCharsFixpoint(t[1..]);
      assert t == [t[0]] + t[1..];
    }
  }

  /** Text with no character of `[0-9,.]` extracts to the empty string. */
  lemma {:induction false} NoPriceCharsExtractsNothing(t: string)
    requires forall i :: 0 <= i < |t| ==> !IsPriceChar(t[i])
    ensures KeepPriceChars(t) == []
  {
    if t != [] {
      assert !IsPriceChar(t[0]);
      NoPriceCharsExtractsNothing(t[1..]);
    }
  }

  /** Extraction drops a prefix of non-price characters and keeps price characters. */
  lemma KeptAfterJunk(a: string, b: string)
    requires forall i :: 0 <= i < |a| ==> !IsPriceChar(a[i])
    requires forall i :: 0 <= i < |b| ==> IsPriceChar(b[i])
    ensures KeepPriceChars(a + b) == b
  {
    KeepPriceCharsConcat(a, b);
    NoPriceCharsExtractsNothing(a);
    KeepPriceCharsFixpoint(b);
  }

  /** The comma that is replaced is the first one; every later comma stays a comma. */
  lemma {:induction false} ReplaceFirstCommaAt(a: string, b: string)
    requires ',' !in a
    ensures ReplaceFirstComma(a + [','] + b) == a + ['.'] + b
  {
    if a != [] {
      assert a[0] in a;
      assert (a + [','] + b)[1..] == a[1..] + [','] + b;
      ReplaceFirstCommaAt(a[1..], b);
    }
  }

  /** Text without a comma is left as it is. */
  lemma {:induction false} NoCommaUnchanged(t: string)
    requires ',' !in t
    ensures ReplaceFirstComma(t) == t
  {
    if t != [] {
      assert t[0] in t;
      NoCommaUnchanged(t[1..]);
    }
  }

  /** A plain run of digits parses to its value. */
  lemma ParseDigits(d: string)
    requires d != [] && AllDigits(d)
    ensures ParseDecimal(d) == Some(DigitsValue(d) as real)
  {
    assert '.' !in d;
  }

  /** Digits, one period, digits (with at least one digit) parse to the whole part
      plus the fraction. */
  lemma ParseDigitsPointDigits(ip: string, fp: string)
    requires AllDigits(ip) && AllDigits(fp) && |ip| + |fp| > 0
    ensures ParseDecimal(ip + ['.'] + fp)
         == Some(DecimalValue(ip, fp))
  {
    var t := ip + ['.'] + fp;
    assert t[|ip|] == '.';
    IndexOfAt(ip, '.', fp);
    var k := IndexOf(t, '.');
    assert k == |ip|;
    assert t[..k] == ip;
    assert t[k + 1..] == fp;
    assert |t| > 1;
  }

  /** The four price texts of the normaliser's unit test, at a rate of 1.10: a dollar
      price is converted, a scale error is repaired, a euro price with a decimal comma
      is read, and text without digits gives no price. */
  lemma ExtractDollarPrice()
    ensures ParseDecimal(ReplaceFirstComma(KeepPriceChars("$110.00"))) == Some(110.0)
  {
    DollarTextKept();
    DollarTextReplaced();
    DollarTextParsed();
  }

  lemma DollarTextKept()
    ensures KeepPriceChars("$110.00") == "110.00"
  {
    assert "$110.00" == "$" + "110.00";
    KeptAfterJunk("$", "110.00");
  }

  lemma DollarTextReplaced()
    ensures ReplaceFirstComma("110.00") == "110" + ['.'] + "00"
  {
    NoCommaUnchanged("110.00");
    assert "110.00" == "110" + ['.'] + "00";
  }

  lemma DollarTextParsed()
    ensures ParseDecimal("110" + ['.'] + "00") == Some(110.0)
  {
    assert DigitsValue("110") == 110 by {
      assert "110"[..2] == "11" && "11"[..1] == "1" && "1"[..0] == "";
    }
    assert DigitsValue("00") == 0 by {
      assert "00"[..1] == "0" && "0"[..0] == "";
    }
    ParseDigitsPointDigits("110", "00");
    DecimalValueZeroFraction("110", "00");
  }

  lemma NormalizeDollarPrice(config: PipelineConfig)
    requires config.usdToEurRate == 1.10 && config.priceScaleThreshold == 10000.0
    ensures NormalizePrice("$110.00", config).isUsd
    ensures NormalizePrice("$110.00", config).priceFinal == Some(100.0)
  {
    ExtractDollarPrice();
    var p := NormalizePrice("$110.00", config);
    assert "$110.00"[0] == '$';
    assert p.correctedFloat == Some(110.0);
    assert 110.0 / 1.10 == 100.0;
    Round2Idempotent(100.0);
  }

  lemma ExtractScaleError()
    ensures ParseDecimal(ReplaceFirstComma(KeepPriceChars("197200"))) == Some(197200.0)
  {
    assert AllDigits("197200");
    ExtractDigits("197200");
    ScaleErrorDigits();
  }

  /** A text of digits alone reads as their value. */
  lemma ExtractDigits(d: string)
    requires d != [] && AllDigits(d)
    ensures ParseDecimal(ReplaceFirstComma(KeepPriceChars(d))) == Some(DigitsValue(d) as real)
  {
    KeepPriceCharsFixpoint(d);
    assert forall i :: 0 <= i < |d| ==> d[i] != ',';
    NoCommaUnchanged(d);
    ParseDigits(d);
  }

  lemma ScaleErrorDigits()
    ensures DigitsValue("197200") == 197200
  {
    assert "197200"[..5] == "19720" && "19720"[..4] == "1972" && "1972"[..3] == "197";
    assert "197"[..2] == "19" && "19"[..1] == "1" && "1"[..0] == "";
  }

  lemma NormalizeScaleError(config: PipelineConfig)
    requires config.usdToEurRate == 1.10 && config.priceScaleThreshold == 10000.0
    ensures NormalizePrice("197200", config).priceFinal == Some(1972.0)
  {
    ExtractScaleError();
    assert '$' !in "197200";
    EuroPriceOfParsed("197200", config, 197200.0);
    assert ScaleCorrect(197200.0, 10000.0) == 1972.0;
    assert IsCents(1972.0) by {
      assert (1972.0 * 100.0).Floor == 197200;
    }
    Round2Idempotent(1972.0);
  }

  /** The final price of a text without a dollar sign that reads as v. */
  lemma EuroPriceOfParsed(raw: string, config: PipelineConfig, v: real)
    requires config.usdToEurRate != 0.0
    requires '$' !in raw
    requires ParseDecimal(ReplaceFirstComma(KeepPriceChars(raw))) == Some(v)
    ensures NormalizePrice(raw, config).priceFinal == Some(Round2(ScaleCorrect(v, config.priceScaleThreshold)))
  {
  }

  lemma ExtractEuroComma()
    ensures ParseDecimal(ReplaceFirstComma(KeepPriceChars("€ 50,00"))) == Some(50.0)
  {
    EuroTextKept();
    EuroTextReplaced();
    EuroTextParsed();
  }

  lemma EuroTextKept()
    ensures KeepPriceChars("€ 50,00") == "50" + [','] + "00"
  {
    assert "€ 50,00" == "€ " + "50,00";
    KeptAfterJunk("€ ", "50,00");
    assert "50,00" == "50" + [','] + "00";
  }

  lemma EuroTextReplaced()
    ensures ReplaceFirstComma("50" + [','] + "00") == "50" + ['.'] + "00"
  {
    ReplaceFirstCommaAt("50", "00");
  }

  lemma EuroTextParsed()
    ensures ParseDecimal("50" + ['.'] + "00") == Some(50.0)
  {
    assert DigitsValue("50") == 50 by {
      assert "50"[..1] == "5" && "5"[..0] == "";
    }
    assert DigitsValue("00") == 0 by {
      assert "00"[..1] == "0" && "0"[..0] == "";
    }
    ParseDigitsPointDigits("50", "00");
    DecimalValueZeroFraction("50", "00");
  }

  lemma NormalizeEuroComma(config: PipelineConfig)
    requires config.usdToEurRate == 1.10 && config.priceScaleThreshold == 10000.0
    ensures !NormalizePrice("€ 50,00", config).isUsd
    ensures NormalizePrice("€ 50,00", config).priceFinal == Some(50.0)
  {
    ExtractEuroComma();
    var p := NormalizePrice("€ 50,00", config);
    assert '$' !in "€ 50,00";
    assert p.correctedFloat == Some(50.0);
    Round2Idempotent(50.0);
  }

  lemma NormalizeInvalid(config: PipelineConfig)
    requires config.usdToEurRate != 0.0
    ensures NormalizePrice("invalid", config).priceFinal == None
  {
    NoPriceCharsExtractsNothing("invalid");
    assert ReplaceFirstComma([]) == [];
  }

  /** Price normalisation of a whole feed: row by row, order and raw columns kept. */
  function NormalizePricing(rows: seq<RawRow>, config: PipelineConfig): (r: seq<PricedRow>)
    requires config.usdToEurRate != 0.0
    ensures |r| == |rows|
    ensures forall i :: 0 <= i < |r| ==> r[i].raw == rows[i] && r[i].pricing == NormalizePrice(rows[i].rawPrice, config)
  {
    seq(|rows|, i requires 0 <= i < |rows| => PricedRow(rows[i], NormalizePrice(rows[i].rawPrice, config)))
  }
}

/** Fingerprint generation (`generate_fingerprints`): a product name becomes a
    canonical key whose tokens are sorted, so that names differing only in case,
    word order, punctuation, spacing, known synonyms or marketing words collide. */
module Fingerprint {
  import opened Wrappers
  import opened Config
  import opened Tokens
  import opened LexOrder
  import opened Rows

  // ---------------------------------------------------------------- lower case

  /** `to_lowercase` on ASCII and Latin-1 letters. */
  function LowerChar(c: char): (l: char)
    ensures !('A' <= l <= 'Z')
  {
    if 'A' <= c <= 'Z' || ('\U{00C0}' <= c <= '\U{00DE}' && c != '\U{00D7}') then (c as int + 32) as char
    else c
  }

  function Lower(s: string): (r: string)
    ensures |r| == |s|
    ensures forall i :: 0 <= i < |s| ==> r[i] == LowerChar(s[i])
  {
    seq(|s|, i requires 0 <= i < |s| => LowerChar(s[i]))
  }

  /** Lower-casing twice is lower-casing once. */
  lemma LowerIdempotent(s: string)
    ensures Lower(Lower(s)) == Lower(s)
  {
    forall i | 0 <= i < |s| ensures Lower(Lower(s))[i] == Lower(s)[i] {
      var c := s[i];
      if '\U{00C0}' <= c <= '\U{00DE}' && c != '\U{00D7}' {
        assert '\U{00E0}' <= LowerChar(c) <= '\U{00FE}';
      }
    }
  }

  // -------------------------------------------------------- synonym replacement

  /** key occurs at the start of s. */
  predicate StartsWith(s: string, key: string) {
    |key| <= |s| && s[..|key|] == key
  }

  /** The rule applied at the start of s: the first rule, in list order, whose non-empty
      pattern starts s. List order settles a conflict only between patterns that overlap;
      see FirstRuleUnique for patterns that do not. */
  function FirstRule(synonyms: seq<(string, string)>, s: string): (r: Option<nat>)
    ensures r.Some? ==> r.value < |synonyms| && synonyms[r.value].0 != [] && StartsWith(s, synonyms[r.value].0)
    ensures r.Some? ==> forall j :: 0 <= j < r.value ==> !(synonyms[j].0 != [] && StartsWith(s, synonyms[j].0))
    ensures r.None? ==> forall j :: 0 <= j < |synonyms| ==> !(synonyms[j].0 != [] && StartsWith(s, synonyms[j].0))
  {
    if synonyms == [] then None
    else if synonyms[0].0 != [] && StartsWith(s, synonyms[0].0) then Some(0)
    else match FirstRule(synonyms[1..], s)
      case None => None
      case Some(j) => Some(j + 1)
  }

  /** With patterns that never overlap, no other pattern starts where the chosen one
      does, so the choice at a position does not depend on the order of the list. */
  lemma FirstRuleUnique(synonyms: seq<(string, string)>, s: string)
    requires NonOverlappingKeys(synonyms)
    ensures FirstRule(synonyms, s).Some? ==>
      forall j :: 0 <= j < |synonyms| && j != FirstRule(synonyms, s).value ==> !StartsWith(s, synonyms[j].0)
  {
    if FirstRule(synonyms, s).Some? {
      var i := FirstRule(synonyms, s).value;
      forall j | 0 <= j < |synonyms| && j != i
        ensures !StartsWith(s, synonyms[j].0)
      {
        var a, b := synonyms[i].0, synonyms[j].0;
        assert !AgreeFrom(a, 0, b);
        var m :| 0 <= m < |b| && m < |a| && a[m] != b[m];
        assert s[..|a|][m] == a[m];
        if |b| <= |s| { assert s[..|b|][m] != b[m]; }
      }
    }
  }

  /** `replace_many(keys, values)`: one left-to-right pass; where a pattern starts,
      the first such rule's replacement is emitted and the scan resumes after the
      pattern, so replacements are never re-scanned. */
  function ReplaceMany(s: string, synonyms: seq<(string, string)>): string
    decreases |s|
  {
    if s == [] then []
    else match FirstRule(synonyms, s)
      case Some(j) => synonyms[j].1 + ReplaceMany(s[|synonyms[j].0|..], synonyms)
      case None => [s[0]] + ReplaceMany(s[1..], synonyms)
  }

  /** With space-free patterns, no rule matches across a space. */
  lemma FirstRuleBeforeSpace(synonyms: seq<(string, string)>, a: string, b: string)
    requires SpaceFreeKeys(synonyms) && a != []
    ensures FirstRule(synonyms, a + [' '] + b) == FirstRule(synonyms, a)
    ensures FirstRule(synonyms, [' '] + b) == None
  {
    var s := a + [' '] + b;
    forall j | 0 <= j < |synonyms|
      ensures StartsWith(s, synonyms[j].0) <==> StartsWith(a, synonyms[j].0)
      ensures !StartsWith([' '] + b, synonyms[j].0)
    {
      var k := synonyms[j].0;
      assert k != [] && ' ' !in k;
      if |k| <= |a| {
        assert s[..|k|] == a[..|k|];
      } else {
        assert k[|a|] != ' ';
        if |k| <= |s| { assert s[..|k|][|a|] == ' '; }
      }
      assert k[0] != ' ';
      if |k| <= |b| + 1 { assert ([' '] + b)[..|k|][0] == ' '; }
    }
    FirstRuleSame(synonyms, s, a);
    FirstRuleSame(synonyms, [' '] + b, []);
  }

  /** FirstRule depends only on which patterns start the text. */
  lemma {:induction false} FirstRuleSame(synonyms: seq<(string, string)>, s: string, t: string)
    requires forall j :: 0 <= j < |synonyms| ==> (StartsWith(s, synonyms[j].0) <==> StartsWith(t, synonyms[j].0))
    ensures FirstRule(synonyms, s) == FirstRule(synonyms, t)
  {
    if synonyms != [] {
      assert forall j :: 0 <= j < |synonyms| - 1 ==> synonyms[1..][j] == synonyms[j + 1];
      FirstRuleSame(synonyms[1..], s, t);
    }
  }

  /** Synonym replacement works word by word when the patterns hold no space. */
  lemma {:induction false} ReplaceManySplit(a: string, b: string, synonyms: seq<(string, string)>)
    requires SpaceFreeKeys(synonyms)
    ensures ReplaceMany(a + [' '] + b, synonyms) == ReplaceMany(a, synonyms) + [' '] + ReplaceMany(b, synonyms)
    decreases |a|
  {
    if a == [] {
      FirstRuleBeforeSpace(synonyms, [' '], b);
      var s := a + [' '] + b;
      assert s == [' '] + b && s[1..] == b;
    } else {
      var out, n := ReplaceStepBeforeSpace(a, b, synonyms);
      ReplaceManySplit(a[n..], b, synonyms);
      AppendAroundSpace(out, ReplaceMany(a[n..], synonyms), ReplaceMany(b, synonyms));
    }
  }

  /** One step of the pass over a word followed by a space: the same output and the
      same number of characters consumed as over the word alone. */
  lemma ReplaceStepBeforeSpace(a: string, b: string, synonyms: seq<(string, string)>) returns (out: string, n: nat)
    requires SpaceFreeKeys(synonyms) && a != []
    ensures 0 < n <= |a|
    ensures ReplaceMany(a + [' '] + b, synonyms) == out + ReplaceMany(a[n..] + [' '] + b, synonyms)
    ensures ReplaceMany(a, synonyms) == out + ReplaceMany(a[n..], synonyms)
  {
    FirstRuleBeforeSpace(synonyms, a, b);
    var s := a + [' '] + b;
    match FirstRule(synonyms, a)
    case Some(j) =>
      n := |synonyms[j].0|;
      out := synonyms[j].1;
      assert s[n..] == a[n..] + [' '] + b;
    case None =>
      n := 1;
      out := [a[0]];
      assert s[0] == a[0] && s[1..] == a[1..] + [' '] + b;
  }

  lemma AppendAroundSpace(p: string, x: string, y: string)
    ensures p + (x + [' '] + y) == (p + x) + [' '] + y
  {
  }

  // ---------------------------------------------------------------- stopwords

  /** The marketing words deleted as whole words, in the order of the alternation.
      The source text spells the last one `limitÃ©e`, a UTF-8 mis-decoding of
      `limitée`; its test requires `limitée` to be deleted, and that is modelled. */
  const Stopwords: seq<string> := ["edition", "eur", "promo", "soldes", "offre", "vente", "version", "limitée"]

  /** The alternation as the source text spells it: the last alternative is the
      eight characters `limit`, U+00C3, U+00A9, `e`. */
  const StopwordsAsWritten: seq<string> :=
    ["edition", "eur", "promo", "soldes", "offre", "vente", "version", "limit\U{00C3}\U{00A9}e"]

  /** With the alternation as written, the word `limitée` is not deleted: after
      punctuation clean-up it leaves the tokens `limit` and `e`. */
  lemma LimiteeKeptAsWritten()
    ensures RemoveStopwords(StopwordsAsWritten, false, "limit\U{00E9}e") == "limit\U{00E9}e"
    ensures PunctToSpace(RemoveStopwords(StopwordsAsWritten, false, "limit\U{00E9}e")) == "limit e"
  {
    LimiteeMatchesNoAlternative();
    assert AllWordChars("limit\U{00E9}e");
    WordKeptWhole(StopwordsAsWritten, "limit\U{00E9}e");
    LimiteePunctuation();
  }

  /** A run of word characters at which no alternative matches is kept whole. */
  lemma WordKeptWhole(stops: seq<string>, s: string)
    requires s != [] && AllWordChars(s)
    requires FirstStopword(stops, false, s, 0).None?
    ensures RemoveStopwords(stops, false, s) == s
  {
    KeepingStep(stops, false, s);
    KeepsInsideWord(stops, s[1..]);
    assert s == [s[0]] + s[1..];
  }

  lemma LimiteeMatchesNoAlternative()
    ensures FirstStopword(StopwordsAsWritten, false, "limit\U{00E9}e", 0).None?
  {
    var s := "limit\U{00E9}e";
    forall j | 0 <= j < |StopwordsAsWritten| ensures !StopwordAt(StopwordsAsWritten[j], false, s) {
      var w := StopwordsAsWritten[j];
      if j == 7 {
        assert w[5] != s[5];
      } else {
        assert w[0] != s[0];
      }
    }
    FirstStopwordSpec(StopwordsAsWritten, false, s, 0);
  }

  lemma LimiteePunctuation()
    ensures PunctToSpace("limit\U{00E9}e") == "limit e"
  {
  }

  /** `\w` on the characters this model covers: ASCII letters and digits, the
      underscore, the Latin-1 letters and the letter-like signs ª, µ and º. */
  predicate IsWordChar(c: char) {
    || 'a' <= c <= 'z' || 'A' <= c <= 'Z' || '0' <= c <= '9' || c == '_'
    || ('\U{00C0}' <= c <= '\U{00FF}' && c != '\U{00D7}' && c != '\U{00F7}')
    || c == '\U{00AA}' || c == '\U{00B5}' || c == '\U{00BA}'
  }

  predicate AllWordChars(s: string) {
    forall i :: 0 <= i < |s| ==> IsWordChar(s[i])
  }

  /** A list of alternatives that are non-empty runs of word characters, as every
      marketing stopword is. */
  predicate WordAlternatives(stops: seq<string>) {
    forall i :: 0 <= i < |stops| ==> stops[i] != [] && AllWordChars(stops[i])
  }

  lemma StopwordsAreWords()
    ensures WordAlternatives(Stopwords)
  {
    forall i | 0 <= i < |Stopwords| ensures Stopwords[i] != [] && AllWordChars(Stopwords[i]) {
      var w := Stopwords[i];
      assert forall k :: 0 <= k < |w| ==> IsWordChar(w[k]);
    }
  }

  /** The alternative w matches at the start of s between word boundaries, given
      whether the character before s is a word character. */
  predicate StopwordAt(w: string, afterWord: bool, s: string) {
    && !afterWord
    && StartsWith(s, w)
    && (|s| == |w| || !IsWordChar(s[|w|]))
  }

  /** The alternative the regex engine takes at the start of s: the first one, in
      alternation order, that matches there between boundaries. */
  function FirstStopword(stops: seq<string>, afterWord: bool, s: string, from: nat): (r: Option<nat>)
    requires from <= |stops|
    ensures r.Some? ==> from <= r.value < |stops| && |stops[r.value]| <= |s|
    decreases |stops| - from
  {
    if from == |stops| then None
    else if StopwordAt(stops[from], afterWord, s) then Some(from)
    else FirstStopword(stops, afterWord, s, from + 1)
  }

  /** The alternative taken matches, and none is taken only when none matches. */
  lemma {:induction false} FirstStopwordSpec(stops: seq<string>, afterWord: bool, s: string, from: nat)
    requires from <= |stops|
    ensures FirstStopword(stops, afterWord, s, from).Some? ==>
      StopwordAt(stops[FirstStopword(stops, afterWord, s, from).value], afterWord, s)
    ensures FirstStopword(stops, afterWord, s, from).Some? ==>
      forall j :: from <= j < FirstStopword(stops, afterWord, s, from).value ==> !StopwordAt(stops[j], afterWord, s)
    ensures FirstStopword(stops, afterWord, s, from).None? ==>
      forall j :: from <= j < |stops| ==> !StopwordAt(stops[j], afterWord, s)
    decreases |stops| - from
  {
    if from < |stops| && !StopwordAt(stops[from], afterWord, s) {
      FirstStopwordSpec(stops, afterWord, s, from + 1);
    }
  }

  /** `replace_all(r"\b(alternatives)\b", "")` on s, where afterWord says whether the
      character before s is a word character. Boundaries are judged on the original
      text, so after a deletion the scan goes on as if the deleted word's last
      character were still there. */
  function RemoveStopwords(stops: seq<string>, afterWord: bool, s: string): string
    decreases |s|
  {
    if s == [] then []
    else match FirstStopword(stops, afterWord, s, 0)
      case Some(i) =>
        if stops[i] == [] then [s[0]] + RemoveStopwords(stops, IsWordChar(s[0]), s[1..])
        else
          var n := |stops[i]|;
          RemoveStopwords(stops, IsWordChar(s[n - 1]), s[n..])
      case None => [s[0]] + RemoveStopwords(stops, IsWordChar(s[0]), s[1..])
  }

  /** The stopword pass works word by word: a space is never part of a match and
      is always a boundary. */
  lemma {:induction false} RemoveStopwordsSplit(stops: seq<string>, afterWord: bool, a: string, b: string)
    requires WordAlternatives(stops)
    ensures RemoveStopwords(stops, afterWord, a + [' '] + b)
         == RemoveStopwords(stops, afterWord, a) + [' '] + RemoveStopwords(stops, false, b)
    decreases |a|
  {
    if a == [] {
      RemoveStopwordsAtSpace(stops, afterWord, b);
      assert a + [' '] + b == [' '] + b;
    } else {
      var out, n := StopwordStepBeforeSpace(stops, afterWord, a, b);
      RemoveStopwordsSplit(stops, IsWordChar(a[n - 1]), a[n..], b);
      AppendAroundSpace(out, RemoveStopwords(stops, IsWordChar(a[n - 1]), a[n..]), RemoveStopwords(stops, false, b));
    }
  }

  /** One step of the pass over a word followed by a space: the same output and the
      same number of characters consumed as over the word alone. */
  lemma StopwordStepBeforeSpace(stops: seq<string>, afterWord: bool, a: string, b: string) returns (out: string, n: nat)
    requires WordAlternatives(stops) && a != []
    ensures 0 < n <= |a|
    ensures RemoveStopwords(stops, afterWord, a + [' '] + b)
         == out + RemoveStopwords(stops, IsWordChar(a[n - 1]), a[n..] + [' '] + b)
    ensures RemoveStopwords(stops, afterWord, a) == out + RemoveStopwords(stops, IsWordChar(a[n - 1]), a[n..])
  {
    if FirstStopword(stops, afterWord, a, 0).Some? {
      out, n := MatchedBeforeSpace(stops, afterWord, a, b);
    } else {
      out, n := UnmatchedBeforeSpace(stops, afterWord, a, b);
    }
  }

  /** A step that deletes an alternative of length n. */
  lemma MatchedBeforeSpace(stops: seq<string>, afterWord: bool, a: string, b: string) returns (out: string, n: nat)
    requires WordAlternatives(stops) && a != []
    requires FirstStopword(stops, afterWord, a, 0).Some?
    ensures 0 < n <= |a|
    ensures RemoveStopwords(stops, afterWord, a + [' '] + b)
         == out + RemoveStopwords(stops, IsWordChar(a[n - 1]), a[n..] + [' '] + b)
    ensures RemoveStopwords(stops, afterWord, a) == out + RemoveStopwords(stops, IsWordChar(a[n - 1]), a[n..])
  {
    var i := FirstStopword(stops, afterWord, a, 0).value;
    var s := a + [' '] + b;
    n := |stops[i]|;
    out := [];
    StopwordBeforeSpace(stops, afterWord, a, b);
    DeletionStep(stops, afterWord, a, i);
    DeletionStep(stops, afterWord, s, i);
    DropBeforeSpace(a, b, n);
    assert out + RemoveStopwords(stops, IsWordChar(a[n - 1]), a[n..]) == RemoveStopwords(stops, IsWordChar(a[n - 1]), a[n..]);
  }

  /** Dropping n characters of a, not reaching the space, from a + " " + b. */
  lemma DropBeforeSpace(a: string, b: string, n: nat)
    requires 0 < n <= |a|
    ensures (a + [' '] + b)[n - 1] == a[n - 1]
    ensures (a + [' '] + b)[n..] == a[n..] + [' '] + b
  {
  }

  /** One step of the stopword pass that deletes alternative i. */
  lemma DeletionStep(stops: seq<string>, afterWord: bool, s: string, i: nat)
    requires WordAlternatives(stops) && s != []
    requires FirstStopword(stops, afterWord, s, 0) == Some(i)
    ensures 0 < |stops[i]| <= |s|
    ensures RemoveStopwords(stops, afterWord, s)
         == RemoveStopwords(stops, IsWordChar(s[|stops[i]| - 1]), s[|stops[i]|..])
  {
  }

  /** One step of the stopword pass that keeps the first character. */
  lemma KeepingStep(stops: seq<string>, afterWord: bool, s: string)
    requires s != [] && FirstStopword(stops, afterWord, s, 0).None?
    ensures RemoveStopwords(stops, afterWord, s) == [s[0]] + RemoveStopwords(stops, IsWordChar(s[0]), s[1..])
  {
  }

  /** A step that keeps one character. */
  lemma UnmatchedBeforeSpace(stops: seq<string>, afterWord: bool, a: string, b: string) returns (out: string, n: nat)
    requires WordAlternatives(stops) && a != []
    requires FirstStopword(stops, afterWord, a, 0).None?
    ensures 0 < n <= |a|
    ensures RemoveStopwords(stops, afterWord, a + [' '] + b)
         == out + RemoveStopwords(stops, IsWordChar(a[n - 1]), a[n..] + [' '] + b)
    ensures RemoveStopwords(stops, afterWord, a) == out + RemoveStopwords(stops, IsWordChar(a[n - 1]), a[n..])
  {
    var s := a + [' '] + b;
    n := 1;
    out := [a[0]];
    StopwordBeforeSpace(stops, afterWord, a, b);
    KeepingStep(stops, afterWord, a);
    KeepingStep(stops, afterWord, s);
    assert s[0] == a[0] && s[1..] == a[1..] + [' '] + b;
  }

  lemma RemoveStopwordsAtSpace(stops: seq<string>, afterWord: bool, b: string)
    requires WordAlternatives(stops)
    ensures RemoveStopwords(stops, afterWord, [' '] + b) == [' '] + RemoveStopwords(stops, false, b)
  {
    forall j | 0 <= j < |stops| ensures !StopwordAt(stops[j], afterWord, [' '] + b) {
      var w := stops[j];
      assert IsWordChar(w[0]);
      if |w| <= |b| + 1 { assert ([' '] + b)[..|w|][0] == ' '; }
    }
    FirstStopwordSpec(stops, afterWord, [' '] + b, 0);
    assert ([' '] + b)[1..] == b;
  }

  lemma StopwordBeforeSpace(stops: seq<string>, afterWord: bool, a: string, b: string)
    requires WordAlternatives(stops) && a != []
    ensures FirstStopword(stops, afterWord, a + [' '] + b, 0) == FirstStopword(stops, afterWord, a, 0)
  {
    var s := a + [' '] + b;
    forall j | 0 <= j < |stops|
      ensures StopwordAt(stops[j], afterWord, s) <==> StopwordAt(stops[j], afterWord, a)
    {
      var w := stops[j];
      if |w| <= |a| {
        assert s[..|w|] == a[..|w|];
        if |w| < |a| { assert s[|w|] == a[|w|]; } else { assert s[|w|] == ' '; }
      } else {
        assert IsWordChar(w[|a|]);
        if |w| <= |s| { assert s[..|w|][|a|] == ' '; }
      }
    }
    FirstStopwordSame(stops, afterWord, s, a, 0);
  }

  lemma {:induction false} FirstStopwordSame(stops: seq<string>, afterWord: bool, s: string, t: string, from: nat)
    requires from <= |stops|
    requires forall j :: from <= j < |stops| ==> (StopwordAt(stops[j], afterWord, s) <==> StopwordAt(stops[j], afterWord, t))
    ensures FirstStopword(stops, afterWord, s, from) == FirstStopword(stops, afterWord, t, from)
    decreases |stops| - from
  {
    if from < |stops| {
      FirstStopwordSame(stops, afterWord, s, t, from + 1);
    }
  }

  /** An alternative standing alone is deleted entirely. */
  lemma StopwordVanishes(stops: seq<string>, i: nat)
    requires WordAlternatives(stops) && i < |stops|
    ensures RemoveStopwords(stops, false, stops[i]) == []
  {
    var w := stops[i];
    assert StopwordAt(w, false, w);
    FirstStopwordSpec(stops, false, w, 0);
    var j := FirstStopword(stops, false, w, 0).value;
    var v := stops[j];
    assert |v| == |w|;
    assert w[|v|..] == [];
  }

  /** A run of word characters that is not itself an alternative is kept whole, so a
      stopword inside a longer word ("editions", "promotion") survives. */
  lemma KeepsNonStopword(stops: seq<string>, s: string)
    requires WordAlternatives(stops)
    requires s != [] && AllWordChars(s)
    requires s !in stops
    ensures RemoveStopwords(stops, false, s) == s
  {
    forall j | 0 <= j < |stops| ensures !StopwordAt(stops[j], false, s) {
      var w := stops[j];
      assert w in stops && s[..|s|] == s;
    }
    FirstStopwordSpec(stops, false, s, 0);
    KeepsInsideWord(stops, s[1..]);
    assert s == [s[0]] + s[1..];
  }

  /** Inside a word no alternative can start. */
  lemma {:induction false} KeepsInsideWord(stops: seq<string>, s: string)
    requires AllWordChars(s)
    ensures RemoveStopwords(stops, true, s) == s
  {
    if s != [] {
      FirstStopwordSpec(stops, true, s, 0);
      assert FirstStopword(stops, true, s, 0) == None;
      assert AllWordChars(s[1..]);
      KeepsInsideWord(stops, s[1..]);
      assert s == [s[0]] + s[1..];
    }
  }

  // ----------------------------------------------------------- punctuation

  /** The characters a fingerprint token is made of: `[a-z0-9]`. */
  predicate IsKeyChar(c: char) {
    'a' <= c <= 'z' || '0' <= c <= '9'
  }

  /** `replace_all(r"[^a-z0-9\s]", " ")`. */
  function PunctToSpace(s: string): (r: string)
    ensures |r| == |s|
    ensures forall i :: 0 <= i < |s| ==> r[i] == if IsKeyChar(s[i]) || IsSpace(s[i]) then s[i] else ' '
  {
    seq(|s|, i requires 0 <= i < |s| => if IsKeyChar(s[i]) || IsSpace(s[i]) then s[i] else ' ')
  }

  // ------------------------------------------------------------ the pipeline

  /** The name after the character-level stages: lower case, synonyms, stopwords,
      punctuation. */
  function Cleaned(name: string, synonyms: seq<(string, string)>): (c: string)
    ensures forall i :: 0 <= i < |c| ==> IsKeyChar(c[i]) || IsSpace(c[i])
  {
    PunctToSpace(RemoveStopwords(Stopwords, false, ReplaceMany(Lower(name), synonyms)))
  }

  /** The token stage: `\s+` to " ", strip, split on " ", sort, join with " ". */
  function SortTokens(t: string): string {
    JoinSpace(SortStrings(SplitSpace(StripChars(Collapse(t)))))
  }

  /** The fingerprint of a product name. */
  function Fingerprint(name: string, synonyms: seq<(string, string)>): string {
    SortTokens(Cleaned(name, synonyms))
  }

  /** Fingerprinting a feed: every row gains the fingerprint of its raw name; rows,
      their order and their other columns are kept. */
  function GenerateFingerprints(rows: seq<PricedRow>, synonyms: seq<(string, string)>): (r: seq<EnrichedRow>)
    ensures |r| == |rows|
    ensures forall i :: 0 <= i < |r| ==>
      r[i].raw == rows[i].raw && r[i].pricing == rows[i].pricing && r[i].fingerprint == Fingerprint(rows[i].raw.rawName, synonyms)
  {
    seq(|rows|, i requires 0 <= i < |rows| => EnrichedRow(rows[i].raw, rows[i].pricing, Fingerprint(rows[i].raw.rawName, synonyms)))
  }

  /** Two rows whose names have the same words in another order, or differ only in
      letter case, land in the same group. */
  lemma SameGroup(rows: seq<PricedRow>, synonyms: seq<(string, string)>, i: nat, j: nat, xs: seq<string>, ys: seq<string>)
    requires SpaceFreeKeys(synonyms)
    requires i < |rows| && j < |rows|
    requires rows[i].raw.rawName == JoinSpace(xs)
    requires Lower(rows[j].raw.rawName) == Lower(JoinSpace(ys))
    requires multiset(xs) == multiset(ys)
    ensures GenerateFingerprints(rows, synonyms)[i].fingerprint == GenerateFingerprints(rows, synonyms)[j].fingerprint
  {
    FingerprintWordOrder(xs, ys, synonyms);
    FingerprintIgnoresCase(rows[j].raw.rawName, synonyms);
    FingerprintIgnoresCase(JoinSpace(ys), synonyms);
  }

  // -------------------------------------------------------- what it promises

  /** The token stage sorts the words of its text and joins them with single
      spaces; a text without words gives the empty string. */
  lemma SortTokensIsSortedWords(t: string)
    ensures SortTokens(t) == JoinSpace(SortStrings(Words(t)))
  {
    var ws := Words(t);
    var n := StripChars(Collapse(t));
    assert n == JoinSpace(ws) by { NormalizeSpaces(t); }
    if ws != [] {
      assert SplitSpace(n) == ws by { WordsAreWords(t); SplitJoin(ws); }
    } else {
      assert SplitSpace(n) == [[]];
      assert SortStrings([[]]) == [[]];
    }
  }

  /** The output of the token stage is space-normal and made of the characters of
      its text and single spaces; its tokens, whether taken as its words or as its
      pieces between spaces, are the words of the text in lexicographic order. */
  lemma SortTokensShape(t: string)
    ensures Canonical(SortTokens(t))
    ensures forall k :: 0 <= k < |SortTokens(t)| ==> SortTokens(t)[k] == ' ' || SortTokens(t)[k] in t
    ensures Words(SortTokens(t)) == SortStrings(Words(t))
    ensures Sorted(SplitSpace(SortTokens(t)))
  {
    SortTokensIsSortedWords(t);
    SortedJoinShape(t, SortTokens(t));
  }

  lemma SortedJoinShape(t: string, out: string)
    requires out == JoinSpace(SortStrings(Words(t)))
    ensures Canonical(out)
    ensures forall k :: 0 <= k < |out| ==> out[k] == ' ' || out[k] in t
    ensures Words(out) == SortStrings(Words(t))
    ensures Sorted(SplitSpace(out))
  {
    var sorted := SortStrings(Words(t));
    SortedWordsOfText(t);
    JoinWords(sorted);
    JoinFromPieces(sorted, t);
    if sorted == [] {
      assert SplitSpace([]) == [[]];
    }
  }

  /** Sorting keeps the words words. */
  lemma SortedWordsOfText(t: string)
    ensures forall i :: 0 <= i < |SortStrings(Words(t))| ==>
      SortStrings(Words(t))[i] != [] && NoSpace(SortStrings(Words(t))[i]) && CharsIn(SortStrings(Words(t))[i], t)
  {
    var ws := Words(t);
    var sorted := SortStrings(ws);
    WordsAreWords(t);
    WordsFromText(t);
    forall i | 0 <= i < |sorted| ensures sorted[i] != [] && NoSpace(sorted[i]) && CharsIn(sorted[i], t) {
      assert sorted[i] in multiset(ws);
      var j :| 0 <= j < |ws| && ws[j] == sorted[i];
    }
  }

  /** The fingerprint is the sorted words of the cleaned name joined by single
      spaces. */
  lemma FingerprintIsSortedWords(name: string, synonyms: seq<(string, string)>)
    ensures Fingerprint(name, synonyms) == JoinSpace(SortStrings(Words(Cleaned(name, synonyms))))
  {
    SortTokensIsSortedWords(Cleaned(name, synonyms));
  }

  /** Only lower-case letters, digits and whitespace. */
  predicate KeyOrSpaceText(s: string) {
    forall i :: 0 <= i < |s| ==> IsKeyChar(s[i]) || IsSpace(s[i])
  }

  /** Only lower-case letters, digits and plain spaces. */
  predicate KeyText(s: string) {
    forall i :: 0 <= i < |s| ==> IsKeyChar(s[i]) || s[i] == ' '
  }

  /** Every fingerprint holds only lower-case letters, digits and single inner
      spaces, and its space-separated tokens are in lexicographic order. */
  lemma FingerprintShape(name: string, synonyms: seq<(string, string)>)
    ensures Canonical(Fingerprint(name, synonyms))
    ensures KeyText(Fingerprint(name, synonyms))
    ensures Sorted(SplitSpace(Fingerprint(name, synonyms)))
  {
    var c := Cleaned(name, synonyms);
    assert KeyOrSpaceText(c);
    SortTokensOfKeyText(c);
  }

  /** The token stage on text of key characters and whitespace. */
  lemma SortTokensOfKeyText(c: string)
    requires KeyOrSpaceText(c)
    ensures Canonical(SortTokens(c)) && KeyText(SortTokens(c)) && Sorted(SplitSpace(SortTokens(c)))
  {
    SortTokensIsSortedWords(c);
    SortedKeyWords(c, SortTokens(c));
  }

  lemma SortedKeyWords(c: string, out: string)
    requires KeyOrSpaceText(c)
    requires out == JoinSpace(SortStrings(Words(c)))
    ensures Canonical(out) && KeyText(out) && Sorted(SplitSpace(out))
  {
    SortedJoinShape(c, out);
    KeyCharsSurvive(c, out);
  }

  lemma KeyCharsSurvive(c: string, out: string)
    requires KeyOrSpaceText(c)
    requires forall k :: 0 <= k < |out| ==> out[k] == ' ' || out[k] in c
    requires Canonical(out)
    ensures KeyText(out)
  {
    forall k | 0 <= k < |out| ensures IsKeyChar(out[k]) || out[k] == ' ' {
      if out[k] != ' ' {
        var m :| 0 <= m < |c| && c[m] == out[k];
      }
    }
  }

  /** The empty name has the empty fingerprint. */
  lemma FingerprintEmpty(synonyms: seq<(string, string)>)
    ensures Fingerprint([], synonyms) == []
  {
    FingerprintIsSortedWords([], synonyms);
  }

  /** Letter case does not matter: the name is lower-cased first. */
  lemma FingerprintIgnoresCase(name: string, synonyms: seq<(string, string)>)
    ensures Fingerprint(Lower(name), synonyms) == Fingerprint(name, synonyms)
  {
    LowerIdempotent(name);
  }

  /** Lower-casing works character by character. */
  lemma LowerSplit(a: string, b: string)
    ensures Lower(a + [' '] + b) == Lower(a) + [' '] + Lower(b)
  {
  }

  /** Punctuation handling works character by character. */
  lemma PunctToSpaceSplit(a: string, b: string)
    ensures PunctToSpace(a + [' '] + b) == PunctToSpace(a) + [' '] + PunctToSpace(b)
  {
  }

  /** With space-free synonym patterns, the character-level stages work piece by
      piece on space-separated text. */
  lemma CleanedSplit(a: string, b: string, synonyms: seq<(string, string)>)
    requires SpaceFreeKeys(synonyms)
    ensures Cleaned(a + [' '] + b, synonyms) == Cleaned(a, synonyms) + [' '] + Cleaned(b, synonyms)
  {
    var la, lb := Lower(a), Lower(b);
    LowerSplit(a, b);
    var ra, rb := ReplaceMany(la, synonyms), ReplaceMany(lb, synonyms);
    ReplaceManySplit(la, lb, synonyms);
    StopwordsAreWords();
    RemoveStopwordsSplit(Stopwords, false, ra, rb);
    PunctToSpaceSplit(RemoveStopwords(Stopwords, false, ra), RemoveStopwords(Stopwords, false, rb));
  }

  /** Each piece cleaned on its own. */
  function CleanedPieces(ws: seq<string>, synonyms: seq<(string, string)>): seq<string> {
    MapSeq(w => Cleaned(w, synonyms), ws)
  }

  lemma {:induction false} CleanedJoin(ws: seq<string>, synonyms: seq<(string, string)>)
    requires SpaceFreeKeys(synonyms)
    ensures Cleaned(JoinSpace(ws), synonyms) == JoinSpace(CleanedPieces(ws, synonyms))
  {
    var cs := CleanedPieces(ws, synonyms);
    if ws == [] {
      assert Cleaned([], synonyms) == [];
    } else if |ws| > 1 {
      CleanedJoin(ws[1..], synonyms);
      CleanedSplit(ws[0], JoinSpace(ws[1..]), synonyms);
      assert cs == [Cleaned(ws[0], synonyms)] + CleanedPieces(ws[1..], synonyms);
    } else {
      assert ws[1..] == [];
      assert cs == [Cleaned(ws[0], synonyms)] + CleanedPieces([], synonyms);
    }
  }

  /** With space-free synonym patterns the order of the words of a name does not
      matter: "A B" and "B A" have the same fingerprint. */
  lemma FingerprintWordOrder(xs: seq<string>, ys: seq<string>, synonyms: seq<(string, string)>)
    requires SpaceFreeKeys(synonyms)
    requires multiset(xs) == multiset(ys)
    ensures Fingerprint(JoinSpace(xs), synonyms) == Fingerprint(JoinSpace(ys), synonyms)
  {
    var cx, cy := CleanedPieces(xs, synonyms), CleanedPieces(ys, synonyms);
    CleanedJoin(xs, synonyms);
    CleanedJoin(ys, synonyms);
    WordsOfJoin(cx);
    WordsOfJoin(cy);
    MapPermutation(w => Cleaned(w, synonyms), xs, ys);
    ConcatWordsPermutation(cx, cy);
    SortStringsPermutationInvariant(ConcatWords(cx), ConcatWords(cy));
    FingerprintIsSortedWords(JoinSpace(xs), synonyms);
    FingerprintIsSortedWords(JoinSpace(ys), synonyms);
  }

  // ---------------------------------------------------------- worked example

  /** The characters a, b occur next to each other somewhere in s. */
  predicate HasPair(s: string, a: char, b: char)
    decreases |s|
  {
    |s| >= 2 && ((s[0] == a && s[1] == b) || HasPair(s[1..], a, b))
  }

  /** Text in which no pattern's first two characters occur is left alone. */
  lemma {:induction false} ReplaceManyUntouched(s: string, synonyms: seq<(string, string)>)
    requires forall j :: 0 <= j < |synonyms| ==> |synonyms[j].0| >= 2 && !HasPair(s, synonyms[j].0[0], synonyms[j].0[1])
    ensures ReplaceMany(s, synonyms) == s
    decreases |s|
  {
    if s != [] {
      assert FirstRule(synonyms, s) == None;
      ReplaceManyUntouched(s[1..], synonyms);
      assert s == [s[0]] + s[1..];
    }
  }

  lemma PunctToSpaceKeeps(s: string)
    requires forall i :: 0 <= i < |s| ==> IsKeyChar(s[i]) || s[i] == ' '
    ensures PunctToSpace(s) == s
  {
  }

  /** l is made of key characters, is no stopword and holds no pattern. */
  predicate PlainWord(l: string, synonyms: seq<(string, string)>) {
    && l != [] && (forall i :: 0 <= i < |l| ==> IsKeyChar(l[i]))
    && l !in Stopwords
    && forall j :: 0 <= j < |synonyms| ==> |synonyms[j].0| >= 2 && !HasPair(l, synonyms[j].0[0], synonyms[j].0[1])
  }

  /** A word that lower-cases to key characters, is no stopword and holds no
      pattern comes out of the character stages lower-cased and otherwise intact. */
  lemma CleanedKept(w: string, l: string, synonyms: seq<(string, string)>)
    requires Lower(w) == l && PlainWord(l, synonyms)
    ensures Cleaned(w, synonyms) == l
  {
    ReplaceManyUntouched(l, synonyms);
    StopwordsAreWords();
    KeepsNonStopword(Stopwords, l);
    PunctToSpaceKeeps(l);
  }

  /** A word that lower-cases to a stopword and holds no pattern vanishes. */
  lemma CleanedDropped(w: string, synonyms: seq<(string, string)>, i: nat)
    requires i < |Stopwords| && Lower(w) == Stopwords[i]
    requires forall j :: 0 <= j < |synonyms| ==> |synonyms[j].0| >= 2 && !HasPair(Stopwords[i], synonyms[j].0[0], synonyms[j].0[1])
    ensures Cleaned(w, synonyms) == []
  {
    ReplaceManyUntouched(Lower(w), synonyms);
    StopwordsAreWords();
    StopwordVanishes(Stopwords, i);
  }

  /** The single synonym rule of the fingerprint test. */
  function Ps5Rule(): (r: seq<(string, string)>)
    ensures SpaceFreeKeys(r)
  {
    [("ps5", "playstation 5")]
  }

  /** A string with no a directly followed by b does not hold the pair. */
  lemma {:induction false} NoPairWithout(s: string, a: char, b: char)
    requires forall i :: 0 <= i < |s| - 1 ==> s[i] != a || s[i + 1] != b
    ensures !HasPair(s, a, b)
    decreases |s|
  {
    if |s| >= 2 {
      forall i | 0 <= i < |s[1..]| - 1
        ensures s[1..][i] != a || s[1..][i + 1] != b
      {
        assert s[1..][i] == s[i + 1] && s[1..][i + 1] == s[i + 2];
      }
      NoPairWithout(s[1..], a, b);
    }
  }

  /** A string longer than every stopword is none of them. */
  lemma LongerThanStopwords(l: string)
    requires |l| > 7
    ensures l !in Stopwords
  {
  }

  lemma PlainSony()
    ensures PlainWord("sony", Ps5Rule())
  {
    assert "sony" !in Stopwords by {}
    NoPairWithout("sony", 'p', 's');
  }

  lemma PlainPlayStation()
    ensures PlainWord("playstation", Ps5Rule())
  {
    var l := "playstation";
    assert forall i :: 0 <= i < |l| ==> IsKeyChar(l[i]);
    LongerThanStopwords(l);
    NoPairWithout(l, 'p', 's');
  }

  lemma PlainFive()
    ensures PlainWord("5", Ps5Rule())
  {
    assert "5" !in Stopwords by {}
    NoPairWithout("5", 'p', 's');
  }

  lemma CleanedSony()
    ensures Cleaned("Sony", Ps5Rule()) == "sony"
  {
    assert Lower("Sony") == "sony";
    PlainSony();
    CleanedKept("Sony", "sony", Ps5Rule());
  }

  lemma CleanedPlayStation()
    ensures Cleaned("PlayStation", Ps5Rule()) == "playstation"
  {
    assert Lower("PlayStation") == "playstation";
    PlainPlayStation();
    CleanedKept("PlayStation", "playstation", Ps5Rule());
  }

  lemma CleanedFive()
    ensures Cleaned("5", Ps5Rule()) == "5"
  {
    assert Lower("5") == "5";
    PlainFive();
    CleanedKept("5", "5", Ps5Rule());
  }

  lemma CleanedEdition()
    ensures Cleaned("Edition", Ps5Rule()) == []
  {
    assert Lower("Edition") == Stopwords[0];
    CleanedDropped("Edition", Ps5Rule(), 0);
  }

  lemma CleanedLimitee()
    ensures Cleaned("Limitée", Ps5Rule()) == []
  {
    assert Lower("Limitée") == Stopwords[7];
    CleanedDropped("Limitée", Ps5Rule(), 7);
  }

  lemma CleanedPromo()
    ensures Cleaned("Promo", Ps5Rule()) == []
  {
    assert Lower("Promo") == Stopwords[2];
    CleanedDropped("Promo", Ps5Rule(), 2);
  }

  lemma ReplacedPs5()
    ensures ReplaceMany(Lower("PS5"), Ps5Rule()) == "playstation" + [' '] + "5"
  {
    assert Lower("PS5") == "ps5";
    assert ReplaceMany("ps5", Ps5Rule()) == "playstation 5";
  }

  lemma KeptTestWord(l: string)
    requires l == "playstation" || l == "5"
    ensures RemoveStopwords(Stopwords, false, l) == l
  {
    StopwordsAreWords();
    assert l !in Stopwords && AllWordChars(l) by {}
    KeepsNonStopword(Stopwords, l);
  }

  lemma ExpandedPs5()
    ensures RemoveStopwords(Stopwords, false, ReplaceMany(Lower("PS5"), Ps5Rule())) == "playstation 5"
  {
    ReplacedPs5();
    KeptTestWord("playstation");
    KeptTestWord("5");
    KeptAroundSpace("playstation", "5");
  }

  /** Two words each kept by the stopword pass are kept with a space between them. */
  lemma KeptAroundSpace(a: string, b: string)
    requires RemoveStopwords(Stopwords, false, a) == a && RemoveStopwords(Stopwords, false, b) == b
    ensures RemoveStopwords(Stopwords, false, a + [' '] + b) == a + [' '] + b
  {
    StopwordsAreWords();
    RemoveStopwordsSplit(Stopwords, false, a, b);
  }

  lemma PunctuationFreePs5()
    ensures PunctToSpace("playstation 5") == "playstation 5"
  {
    PunctToSpaceKeeps("playstation 5");
  }

  lemma CleanedPs5()
    ensures Cleaned("PS5", Ps5Rule()) == "playstation 5"
  {
    ExpandedPs5();
    PunctuationFreePs5();
  }

  /** Cleaning four words piece by piece. */
  lemma CleanedFour(a: string, b: string, c: string, d: string, synonyms: seq<(string, string)>)
    ensures CleanedPieces([a, b, c, d], synonyms)
         == [Cleaned(a, synonyms), Cleaned(b, synonyms), Cleaned(c, synonyms), Cleaned(d, synonyms)]
  {
    MapFour(w => Cleaned(w, synonyms), a, b, c, d);
  }

  lemma CleanedFirstName()
    ensures CleanedPieces(["Sony", "PS5", "Edition", "Limitée"], Ps5Rule()) == ["sony", "playstation 5", [], []]
  {
    CleanedFour("Sony", "PS5", "Edition", "Limitée", Ps5Rule());
    CleanedSony();
    CleanedPs5();
    CleanedEdition();
    CleanedLimitee();
  }

  lemma CleanedSecondName()
    ensures CleanedPieces(["Promo", "Sony", "PlayStation", "5"], Ps5Rule()) == [[], "sony", "playstation", "5"]
  {
    CleanedFour("Promo", "Sony", "PlayStation", "5", Ps5Rule());
    CleanedPromo();
    CleanedSony();
    CleanedPlayStation();
    CleanedFive();
  }

  lemma TestTokensSorted()
    ensures Sorted(["5", "playstation", "sony"])
  {
  }

  lemma TestTokensJoined()
    ensures JoinSpace(["5", "playstation", "sony"]) == "5 playstation sony"
  {
    var want := ["5", "playstation", "sony"];
    assert want[1..] == ["playstation", "sony"] && want[1..][1..] == ["sony"];
  }

  /** The sorted tokens of the test. */
  lemma SortedTestTokens(ws: seq<string>)
    requires multiset(ws) == multiset(["5", "playstation", "sony"])
    ensures JoinSpace(SortStrings(ws)) == "5 playstation sony"
  {
    TestTokensSorted();
    SortedUnique(SortStrings(ws), ["5", "playstation", "sony"]);
    TestTokensJoined();
  }

  lemma WordsOfPs5()
    ensures Words("playstation 5") == ["playstation", "5"]
  {
    assert "playstation 5" == "playstation" + [' '] + "5";
    assert NoSpace("playstation") && NoSpace("5");
    TwoWords("playstation", "5");
  }

  /** Two words separated by a space. */
  lemma TwoWords(a: string, b: string)
    requires a != [] && NoSpace(a) && b != [] && NoSpace(b)
    ensures Words(a + [' '] + b) == [a, b]
  {
    OneWord(a);
    OneWord(b);
    WordsSplitAt(a, ' ', b);
  }

  lemma FirstNameWords()
    ensures ConcatWords(["sony", "playstation 5", [], []]) == ["sony", "playstation", "5"]
  {
    assert NoSpace("sony");
    OneWord("sony");
    WordsOfPs5();
    TwoPiecesThenNothing("sony", "playstation 5", ["sony"], ["playstation", "5"]);
  }

  /** Four cleaned pieces of which the last two are empty. */
  lemma TwoPiecesThenNothing(a: string, b: string, wa: seq<string>, wb: seq<string>)
    requires Words(a) == wa && Words(b) == wb
    ensures ConcatWords([a, b, [], []]) == wa + wb
  {
    ConcatFour(a, b, [], []);
    assert Words([]) == [];
  }

  lemma SecondNameWords()
    ensures ConcatWords([[], "sony", "playstation", "5"]) == ["sony", "playstation", "5"]
  {
    var ws := ["sony", "playstation", "5"];
    assert ConcatWords(ws) == ws by {
      assert forall i :: 0 <= i < |ws| ==> ws[i] != [] && NoSpace(ws[i]);
      ConcatWordsOfWords(ws);
    }
    var cs := [[]] + ws;
    assert cs[1..] == ws;
    assert ConcatWords(cs) == Words([]) + ws;
  }

  lemma FirstNameJoined()
    ensures JoinSpace(["Sony", "PS5", "Edition", "Limitée"]) == "Sony PS5 Edition Limitée"
  {
    JoinFour("Sony", "PS5", "Edition", "Limitée");
  }

  lemma SecondNameJoined()
    ensures JoinSpace(["Promo", "Sony", "PlayStation", "5"]) == "Promo Sony PlayStation 5"
  {
    JoinFour("Promo", "Sony", "PlayStation", "5");
  }

  /** Marketing words go, the synonym is expanded and the tokens are sorted:
      "Sony PS5 Edition Limitée" and "Promo Sony PlayStation 5" share the
      fingerprint "5 playstation sony". */
  lemma FingerprintTestNames()
    ensures Fingerprint("Sony PS5 Edition Limitée", Ps5Rule()) == "5 playstation sony"
    ensures Fingerprint("Promo Sony PlayStation 5", Ps5Rule()) == "5 playstation sony"
  {
    FirstTestName();
    SecondTestName();
  }

  lemma FirstTestName()
    ensures Fingerprint("Sony PS5 Edition Limitée", Ps5Rule()) == "5 playstation sony"
  {
    CleanedFirstName();
    FirstNameWords();
    FirstNameJoined();
    SortedTestTokens(["sony", "playstation", "5"]);
    FingerprintOfPieces(["Sony", "PS5", "Edition", "Limitée"], "Sony PS5 Edition Limitée", ["sony", "playstation 5", [], []],
                        Ps5Rule(), ["sony", "playstation", "5"], "5 playstation sony");
  }

  lemma SecondTestName()
    ensures Fingerprint("Promo Sony PlayStation 5", Ps5Rule()) == "5 playstation sony"
  {
    CleanedSecondName();
    SecondNameWords();
    SecondNameJoined();
    SortedTestTokens(["sony", "playstation", "5"]);
    FingerprintOfPieces(["Promo", "Sony", "PlayStation", "5"], "Promo Sony PlayStation 5", [[], "sony", "playstation", "5"],
                        Ps5Rule(), ["sony", "playstation", "5"], "5 playstation sony");
  }

  /** The fingerprint of a name whose words clean to pieces cs, read through the
      words of those pieces. */
  lemma FingerprintOfPieces(ws: seq<string>, name: string, cs: seq<string>, synonyms: seq<(string, string)>,
                            tokens: seq<string>, fp: string)
    requires SpaceFreeKeys(synonyms)
    requires JoinSpace(ws) == name
    requires CleanedPieces(ws, synonyms) == cs
    requires ConcatWords(cs) == tokens
    requires JoinSpace(SortStrings(tokens)) == fp
    ensures Fingerprint(name, synonyms) == fp
  {
    CleanedJoin(ws, synonyms);
    WordsOfJoin(cs);
    FingerprintIsSortedWords(name, synonyms);
  }
}

/** Whitespace handling shared by the fingerprint stage: the regex class `\s`, the
    `\s+` to " " collapse, `strip_chars`, `split(" ")` and `join(" ")`, and the
    words of a text (its maximal runs of non-whitespace), which is what those
    operations preserve. */
module Tokens {

  /** `\s` on the characters this model covers: space, tab, line feed, vertical tab,
      form feed, carriage return. */
  predicate IsSpace(c: char) {
    c == ' ' || ('\t' <= c <= '\r')
  }

  predicate NoSpace(w: string) {
    forall i :: 0 <= i < |w| ==> !IsSpace(w[i])
  }

  /** Index of the first occurrence of c. */
  function IndexOf(t: string, c: char): (k: nat)
    requires c in t
    ensures k < |t| && t[k] == c && c !in t[..k]
  {
    if t[0] == c then 0 else
      var k := IndexOf(t[1..], c);
      assert t[1..][..k] == t[1..k + 1];
      assert t[..k + 1] == [t[0]] + t[1..k + 1];
      k + 1
  }

  lemma {:induction false} IndexOfAt(a: string, c: char, b: string)
    requires c !in a
    ensures IndexOf(a + [c] + b, c) == |a|
  {
    if a != [] {
      assert a[0] in a;
      assert (a + [c] + b)[1..] == a[1..] + [c] + b;
      IndexOfAt(a[1..], c, b);
    }
  }

  /** The words of s: its maximal runs of non-whitespace characters, in order. */
  function Words(s: string): (r: seq<string>)
    ensures s != [] && !IsSpace(s[0]) ==> r != []
  {
    if s == [] then []
    else
      var rest := Words(s[1..]);
      if IsSpace(s[0]) then rest
      else if |s| == 1 || IsSpace(s[1]) then [[s[0]]] + rest
      else [[s[0]] + rest[0]] + rest[1..]
  }

  /** Every word is non-empty and free of whitespace. */
  lemma {:induction false} WordsAreWords(s: string)
    ensures forall i :: 0 <= i < |Words(s)| ==> Words(s)[i] != [] && NoSpace(Words(s)[i])
  {
    if s != [] {
      WordsAreWords(s[1..]);
      var rest := Words(s[1..]);
      if !IsSpace(s[0]) && |s| > 1 && !IsSpace(s[1]) {
        var w := [s[0]] + rest[0];
        assert NoSpace(w) by {
          forall i | 0 <= i < |w| ensures !IsSpace(w[i]) {
            if i > 0 { assert w[i] == rest[0][i - 1]; }
          }
        }
      }
    }
  }

  /** Joins with single spaces (`list.join(" ")`). */
  function JoinSpace(ws: seq<string>): string {
    if ws == [] then []
    else if |ws| == 1 then ws[0]
    else ws[0] + [' '] + JoinSpace(ws[1..])
  }

  /** Splits on every single space (`str.split(" ")`): "" gives [""], and two adjacent
      spaces give an empty piece between them. */
  function SplitSpace(s: string): (r: seq<string>)
    ensures r != []
    ensures forall i :: 0 <= i < |r| ==> ' ' !in r[i]
    decreases |s|
  {
    if ' ' !in s then [s]
    else
      var k := IndexOf(s, ' ');
      [s[..k]] + SplitSpace(s[k + 1..])
  }

  /** The first space ends the first piece. */
  lemma SplitSpaceAt(a: string, b: string)
    requires ' ' !in a
    ensures SplitSpace(a + [' '] + b) == [a] + SplitSpace(b)
  {
    var s := a + [' '] + b;
    IndexOfAt(a, ' ', b);
    assert s[|a|] == ' ';
    assert s[..|a|] == a && s[|a| + 1..] == b;
  }

  /** Splitting a join gives back the pieces, provided no piece holds a space. */
  lemma {:induction false} SplitJoin(ws: seq<string>)
    requires ws != []
    requires forall i :: 0 <= i < |ws| ==> ' ' !in ws[i]
    ensures SplitSpace(JoinSpace(ws)) == ws
  {
    if |ws| == 1 {
      assert ' ' !in ws[0];
    } else {
      SplitSpaceAt(ws[0], JoinSpace(ws[1..]));
      SplitJoin(ws[1..]);
      assert ws == [ws[0]] + ws[1..];
    }
  }

  /** Joining the pieces of a split gives back the text. */
  lemma {:induction false} JoinSplit(s: string)
    ensures JoinSpace(SplitSpace(s)) == s
    decreases |s|
  {
    if ' ' in s {
      var k := IndexOf(s, ' ');
      JoinSplit(s[k + 1..]);
      assert s == s[..k] + [' '] + s[k + 1..];
    }
  }

  /** `replace_all(r"\s+", " ")`: every run of whitespace becomes one space. */
  function Collapse(s: string): (r: string)
    ensures s != [] ==> r != [] && (r[0] == ' ' <==> IsSpace(s[0]))
    ensures forall i :: 0 <= i < |r| && IsSpace(r[i]) ==> r[i] == ' '
    ensures forall i :: 0 <= i < |r| - 1 ==> !(r[i] == ' ' && r[i + 1] == ' ')
  {
    if s == [] then []
    else if IsSpace(s[0]) then
      if |s| > 1 && IsSpace(s[1]) then Collapse(s[1..]) else [' '] + Collapse(s[1..])
    else [s[0]] + Collapse(s[1..])
  }

  /** Drops leading whitespace. */
  function StripLeading(s: string): (r: string)
    ensures |r| <= |s| && r == s[|s| - |r|..]
    ensures r != [] ==> !IsSpace(r[0])
  {
    if s != [] && IsSpace(s[0]) then StripLeading(s[1..]) else s
  }

  /** Drops trailing whitespace. */
  function StripTrailing(s: string): (r: string)
    ensures |r| <= |s| && r == s[..|r|]
    ensures r != [] ==> !IsSpace(r[|r| - 1])
  {
    if s != [] && IsSpace(s[|s| - 1]) then StripTrailing(s[..|s| - 1]) else s
  }

  /** `strip_chars()`: drops whitespace at both ends. */
  function StripChars(s: string): string {
    StripTrailing(StripLeading(s))
  }

  /** Space-normal text: the only whitespace is the plain space, which never starts,
      ends or doubles. */
  predicate Canonical(s: string) {
    && (forall i :: 0 <= i < |s| && IsSpace(s[i]) ==> s[i] == ' ')
    && (s != [] ==> s[0] != ' ' && s[|s| - 1] != ' ')
    && (forall i :: 0 <= i < |s| - 1 ==> !(s[i] == ' ' && s[i + 1] == ' '))
  }

  predicate PlainSpaces(s: string) {
    forall i :: 0 <= i < |s| && IsSpace(s[i]) ==> s[i] == ' '
  }

  predicate NoDoubleSpace(s: string) {
    forall i :: 0 <= i < |s| - 1 ==> !(s[i] == ' ' && s[i + 1] == ' ')
  }

  lemma SliceKeepsSpacing(s: string, lo: nat, hi: nat)
    requires PlainSpaces(s) && NoDoubleSpace(s) && lo <= hi <= |s|
    ensures PlainSpaces(s[lo..hi]) && NoDoubleSpace(s[lo..hi])
  {
    var t := s[lo..hi];
    forall i | 0 <= i < |t| - 1 ensures !(t[i] == ' ' && t[i + 1] == ' ') {
      assert t[i] == s[lo + i] && t[i + 1] == s[lo + i + 1];
    }
  }

  /** Collapsing and then stripping always yields space-normal text. */
  lemma NormalizedIsCanonical(s: string)
    ensures Canonical(StripChars(Collapse(s)))
  {
    var c := Collapse(s);
    assert PlainSpaces(c) && NoDoubleSpace(c);
    StripMakesCanonical(c);
  }

  /** Stripping text whose only whitespace is single plain spaces makes it canonical. */
  lemma StripMakesCanonical(c: string)
    requires PlainSpaces(c) && NoDoubleSpace(c)
    ensures Canonical(StripChars(c))
  {
    var l := StripLeading(c);
    var t := StripTrailing(l);
    SliceKeepsSpacing(c, |c| - |l|, |c|);
    SliceKeepsSpacing(l, 0, |t|);
    SpacedAndTrimmed(l, t);
  }

  /** A prefix of space-normal text that starts where it does and does not end in
      whitespace is canonical. */
  lemma SpacedAndTrimmed(l: string, t: string)
    requires PlainSpaces(t) && NoDoubleSpace(t)
    requires |t| <= |l| && t == l[..|t|]
    requires l != [] ==> !IsSpace(l[0])
    requires t != [] ==> !IsSpace(t[|t| - 1])
    ensures Canonical(t)
  {
    if t != [] {
      assert t[0] == l[0];
    }
  }

  /** Words of a text with a whitespace character in the middle are the words of
      each side: no word spans the separator. */
  lemma {:induction false} WordsSplitAt(a: string, c: char, b: string)
    requires IsSpace(c)
    ensures Words(a + [c] + b) == Words(a) + Words(b)
    decreases |a|
  {
    var s := a + [c] + b;
    if a == [] {
      assert s[1..] == b;
    } else {
      assert s[0] == a[0] && s[1..] == a[1..] + [c] + b;
      WordsSplitAt(a[1..], c, b);
      if !IsSpace(a[0]) && |a| > 1 && !IsSpace(a[1]) {
        assert s[1] == a[1];
        var x, y := Words(a[1..]), Words(b);
        assert x != [];
        ExtendFirstWord(a[0], x, y);
      } else if !IsSpace(a[0]) && |a| == 1 {
        assert s[1] == c;
        assert a[1..] == [];
      }
    }
  }

  /** Gluing a character onto the first word commutes with appending more words. */
  lemma ExtendFirstWord(h: char, x: seq<string>, y: seq<string>)
    requires x != []
    ensures (x + y)[0] == x[0] && (x + y)[1..] == x[1..] + y
    ensures [[h] + x[0]] + (x[1..] + y) == ([[h] + x[0]] + x[1..]) + y
  {
  }

  /** Collapsing whitespace keeps the words. */
  lemma {:induction false} WordsCollapse(s: string)
    ensures Words(Collapse(s)) == Words(s)
  {
    if s != [] {
      WordsCollapse(s[1..]);
      var c := Collapse(s);
      var rest := Collapse(s[1..]);
      if IsSpace(s[0]) {
        if |s| > 1 && IsSpace(s[1]) {
          assert Words(s) == Words(s[1..]);
        } else {
          assert c == [' '] + rest && c[1..] == rest;
        }
      } else {
        assert c == [s[0]] + rest && c[1..] == rest;
        if |s| > 1 {
          assert rest != [] && (rest[0] == ' ' <==> IsSpace(s[1]));
          assert IsSpace(rest[0]) <==> IsSpace(s[1]);
        }
      }
    }
  }

  /** Stripping leading whitespace keeps the words. */
  lemma {:induction false} WordsStripLeading(s: string)
    ensures Words(StripLeading(s)) == Words(s)
  {
    if s != [] && IsSpace(s[0]) {
      WordsStripLeading(s[1..]);
    }
  }

  /** Stripping trailing whitespace keeps the words. */
  lemma {:induction false} WordsStripTrailing(s: string)
    ensures Words(StripTrailing(s)) == Words(s)
    decreases |s|
  {
    if s != [] && IsSpace(s[|s| - 1]) {
      var init := s[..|s| - 1];
      WordsStripTrailing(init);
      WordsSplitAt(init, s[|s| - 1], []);
      assert s == init + [s[|s| - 1]] + [];
    }
  }

  /** Space-normal text is the join of its words. */
  lemma {:induction false} CanonicalIsJoinOfWords(s: string)
    requires Canonical(s)
    ensures s == JoinSpace(Words(s))
    decreases |s|
  {
    if s != [] {
      if ' ' !in s {
        OneWord(s);
      } else {
        var k := IndexOf(s, ' ');
        var w, rest := s[..k], s[k + 1..];
        CanonicalAtSpace(s, k);
        CanonicalIsJoinOfWords(rest);
        OneWord(w);
        WordsSplitAt(w, ' ', rest);
        assert !IsSpace(rest[0]);
        assert Words(rest) != [];
      }
    }
  }

  /** Space-normal text cut at its first space: a non-empty word, then space-normal
      text that starts with a word character. */
  lemma CanonicalAtSpace(s: string, k: nat)
    requires Canonical(s) && k < |s| && s[k] == ' ' && ' ' !in s[..k]
    ensures 0 < k < |s| - 1
    ensures s == s[..k] + [' '] + s[k + 1..]
    ensures Canonical(s[k + 1..]) && !IsSpace(s[k + 1..][0])
    ensures s[..k] != [] && NoSpace(s[..k])
  {
    var w, rest := s[..k], s[k + 1..];
    assert s == w + [' '] + rest;
    assert rest[0] == s[k + 1];
    forall i | 0 <= i < |rest| - 1 ensures !(rest[i] == ' ' && rest[i + 1] == ' ') {
      assert rest[i] == s[k + 1 + i] && rest[i + 1] == s[k + 2 + i];
    }
    forall i | 0 <= i < |w| ensures !IsSpace(w[i]) {
      assert w[i] == s[i] && s[i] != ' ';
    }
  }

  /** A non-empty text without whitespace is one word. */
  lemma {:induction false} OneWord(w: string)
    requires w != [] && NoSpace(w)
    ensures Words(w) == [w]
  {
    assert !IsSpace(w[0]);
    if |w| > 1 {
      assert !IsSpace(w[1]);
      assert NoSpace(w[1..]) by {
        forall i | 0 <= i < |w| - 1 ensures !IsSpace(w[1..][i]) { assert w[1..][i] == w[i + 1]; }
      }
      OneWord(w[1..]);
      assert w == [w[0]] + w[1..];
    } else {
      assert w == [w[0]];
    }
  }

  /** Collapse-then-strip is the join of the words: the whitespace handling of the
      fingerprint depends on the words and nothing else. */
  lemma NormalizeSpaces(s: string)
    ensures StripChars(Collapse(s)) == JoinSpace(Words(s))
  {
    var n := StripChars(Collapse(s));
    NormalizedIsCanonical(s);
    CanonicalIsJoinOfWords(n);
    WordsStripTrailing(StripLeading(Collapse(s)));
    WordsStripLeading(Collapse(s));
    WordsCollapse(s);
  }

  /** The words of each piece, concatenated in order. */
  function ConcatWords(xs: seq<string>): seq<string> {
    if xs == [] then [] else Words(xs[0]) + ConcatWords(xs[1..])
  }

  lemma JoinCons(x: string, ys: seq<string>)
    requires ys != []
    ensures JoinSpace([x] + ys) == x + [' '] + JoinSpace(ys)
  {
    assert ([x] + ys)[1..] == ys;
  }

  lemma JoinFour(a: string, b: string, c: string, d: string)
    ensures JoinSpace([a, b, c, d]) == a + [' '] + (b + [' '] + (c + [' '] + d))
  {
    assert [a, b, c, d] == [a] + [b, c, d] && [b, c, d] == [b] + [c, d] && [c, d] == [c] + [d];
    assert JoinSpace([d]) == d;
    JoinCons(c, [d]);
    JoinCons(b, [c, d]);
    JoinCons(a, [b, c, d]);
  }

  lemma ConcatCons(x: string, ys: seq<string>)
    ensures ConcatWords([x] + ys) == Words(x) + ConcatWords(ys)
  {
    assert ([x] + ys)[1..] == ys;
  }

  lemma ConcatFour(a: string, b: string, c: string, d: string)
    ensures ConcatWords([a, b, c, d]) == Words(a) + (Words(b) + (Words(c) + Words(d)))
  {
    assert [a, b, c, d] == [a] + [b, c, d] && [b, c, d] == [b] + [c, d] && [c, d] == [c] + [d];
    ConcatCons(d, []);
    assert ConcatWords([d]) == Words(d) + [];
    ConcatCons(c, [d]);
    ConcatCons(b, [c, d]);
    ConcatCons(a, [b, c, d]);
  }

  /** The words of a join are the words of its pieces. */
  lemma {:induction false} WordsOfJoin(xs: seq<string>)
    ensures Words(JoinSpace(xs)) == ConcatWords(xs)
  {
    if |xs| == 1 {
      assert ConcatWords(xs[1..]) == [];
    } else if |xs| > 1 {
      WordsOfJoin(xs[1..]);
      WordsSplitAt(xs[0], ' ', JoinSpace(xs[1..]));
    }
  }

  lemma {:induction false} ConcatWordsAppend(a: seq<string>, b: seq<string>)
    ensures ConcatWords(a + b) == ConcatWords(a) + ConcatWords(b)
  {
    if a != [] {
      assert (a + b)[0] == a[0] && (a + b)[1..] == a[1..] + b;
      ConcatWordsAppend(a[1..], b);
    } else {
      assert a + b == b;
    }
  }

  /** Removing the element at j removes one occurrence of it. */
  lemma RemoveAt<T>(ys: seq<T>, j: nat)
    requires j < |ys|
    ensures multiset(ys[..j] + ys[j + 1..]) == multiset(ys) - multiset{ys[j]}
  {
    assert ys == ys[..j] + [ys[j]] + ys[j + 1..];
    assert multiset(ys) == multiset(ys[..j]) + multiset{ys[j]} + multiset(ys[j + 1..]);
  }

  /** A non-empty sequence is its head followed by its tail. */
  lemma HeadAndTail<T>(xs: seq<T>)
    requires xs != []
    ensures xs == [xs[0]] + xs[1..]
    ensures multiset(xs[1..]) == multiset(xs) - multiset{xs[0]}
  {
    assert xs == [xs[0]] + xs[1..];
  }

  lemma ConcatWordsSingle(x: string)
    ensures ConcatWords([x]) == Words(x)
  {
    assert [x][1..] == [];
  }

  lemma ConcatWordsAround(ys: seq<string>, j: nat)
    requires j < |ys|
    ensures ConcatWords(ys) == ConcatWords(ys[..j]) + (Words(ys[j]) + ConcatWords(ys[j + 1..]))
  {
    var suffix := ys[j..];
    assert ys == ys[..j] + suffix;
    ConcatWordsAppend(ys[..j], suffix);
    assert suffix[1..] == ys[j + 1..];
  }

  /** Reordering the pieces only reorders the words: the multiset of words of a
      sequence of pieces depends only on the multiset of pieces. */
  lemma {:induction false} ConcatWordsPermutation(xs: seq<string>, ys: seq<string>)
    requires multiset(xs) == multiset(ys)
    ensures multiset(ConcatWords(xs)) == multiset(ConcatWords(ys))
    decreases |xs|
  {
    if xs != [] {
      var x := xs[0];
      assert x in multiset(ys);
      var j :| 0 <= j < |ys| && ys[j] == x;
      var ys' := ys[..j] + ys[j + 1..];
      RemoveAt(ys, j);
      HeadAndTail(xs);
      ConcatWordsPermutation(xs[1..], ys');
      ConcatWordsAround(ys, j);
      ConcatWordsAppend(ys[..j], ys[j + 1..]);
      assert ConcatWords(xs) == Words(x) + ConcatWords(xs[1..]);
    } else {
      assert ys == [];
    }
  }

  /** Every character of s occurs in t. */
  predicate CharsIn(s: string, t: string) {
    forall k :: 0 <= k < |s| ==> s[k] in t
  }

  /** A word is made of characters of its text. */
  lemma {:induction false} WordsFromText(s: string)
    ensures forall i :: 0 <= i < |Words(s)| ==> CharsIn(Words(s)[i], s)
  {
    if s != [] {
      WordsFromText(s[1..]);
      var rest := Words(s[1..]);
      forall i | 0 <= i < |rest| ensures CharsIn(rest[i], s) {
        forall k | 0 <= k < |rest[i]| ensures rest[i][k] in s {
          var m :| 0 <= m < |s[1..]| && s[1..][m] == rest[i][k];
          assert s[m + 1] == rest[i][k];
        }
      }
      if !IsSpace(s[0]) && |s| > 1 && !IsSpace(s[1]) {
        var w := [s[0]] + rest[0];
        forall k | 0 <= k < |w| ensures w[k] in s {
          if k > 0 { assert w[k] == rest[0][k - 1]; }
        }
      }
    }
  }

  /** A join is made of the pieces' characters and spaces. */
  lemma {:induction false} JoinFromPieces(ws: seq<string>, t: string)
    requires forall i :: 0 <= i < |ws| ==> CharsIn(ws[i], t)
    ensures forall k :: 0 <= k < |JoinSpace(ws)| ==> JoinSpace(ws)[k] == ' ' || JoinSpace(ws)[k] in t
  {
    if |ws| > 1 {
      JoinFromPieces(ws[1..], t);
      var j := JoinSpace(ws);
      var r := JoinSpace(ws[1..]);
      forall k | 0 <= k < |j| ensures j[k] == ' ' || j[k] in t {
        if k < |ws[0]| {
          assert j[k] == ws[0][k];
        } else if k > |ws[0]| {
          assert j[k] == r[k - |ws[0]| - 1];
        }
      }
    }
  }

  /** Pieces that are already words are their own words. */
  lemma {:induction false} ConcatWordsOfWords(ws: seq<string>)
    requires forall i :: 0 <= i < |ws| ==> ws[i] != [] && NoSpace(ws[i])
    ensures ConcatWords(ws) == ws
  {
    if ws != [] {
      OneWord(ws[0]);
      ConcatWordsOfWords(ws[1..]);
    }
  }

  /** Joining words gives space-normal text whose words, and whose pieces split at
      spaces, are those words again. */
  lemma JoinWords(ws: seq<string>)
    requires forall i :: 0 <= i < |ws| ==> ws[i] != [] && NoSpace(ws[i])
    ensures Canonical(JoinSpace(ws))
    ensures Words(JoinSpace(ws)) == ws
    ensures ws != [] ==> SplitSpace(JoinSpace(ws)) == ws
  {
    var j := JoinSpace(ws);
    assert Words(j) == ws by {
      WordsOfJoin(ws);
      ConcatWordsOfWords(ws);
    }
    assert Canonical(j) by {
      NormalizeSpaces(j);
      NormalizedIsCanonical(j);
    }
    if ws != [] {
      SplitJoin(ws);
    }
  }

  /** f applied to every element. */
  function MapSeq(f: string -> string, xs: seq<string>): seq<string>
  {
    if xs == [] then [] else [f(xs[0])] + MapSeq(f, xs[1..])
  }

  lemma {:induction false} MapAppend(f: string -> string, a: seq<string>, b: seq<string>)
    ensures MapSeq(f, a + b) == MapSeq(f, a) + MapSeq(f, b)
  {
    if a == [] {
      assert a + b == b;
    } else {
      assert (a + b)[1..] == a[1..] + b;
      MapAppend(f, a[1..], b);
    }
  }

  lemma MapCons(f: string -> string, x: string, ys: seq<string>)
    ensures MapSeq(f, [x] + ys) == [f(x)] + MapSeq(f, ys)
  {
    assert ([x] + ys)[1..] == ys;
  }

  /** The image of a four-element sequence, element by element. */
  lemma MapFour(f: string -> string, a: string, b: string, c: string, d: string)
    ensures MapSeq(f, [a, b, c, d]) == [f(a), f(b), f(c), f(d)]
  {
    assert [a, b, c, d] == [a] + ([b] + ([c] + ([d] + [])));
    MapCons(f, d, []);
    MapCons(f, c, [d]);
    MapCons(f, b, [c, d]);
    MapCons(f, a, [b, c, d]);
    assert [c] + [d] == [c, d] && [b] + [c, d] == [b, c, d] && [a] + [b, c, d] == [a, b, c, d];
  }

  /** The image of a sequence split around position j. */
  lemma MapAround(f: string -> string, ys: seq<string>, j: nat)
    requires j < |ys|
    ensures MapSeq(f, ys) == MapSeq(f, ys[..j]) + [f(ys[j])] + MapSeq(f, ys[j + 1..])
  {
    var prefix, rest := ys[..j], ys[j + 1..];
    SplitAround(ys, j);
    MapAppend(f, prefix, [ys[j]] + rest);
    MapCons(f, ys[j], rest);
    Associate(MapSeq(f, prefix), [f(ys[j])], MapSeq(f, rest));
  }

  lemma SplitAround<T>(ys: seq<T>, j: nat)
    requires j < |ys|
    ensures ys == ys[..j] + ([ys[j]] + ys[j + 1..])
  {
    assert ys == ys[..j] + ys[j..];
    assert ys[j..] == [ys[j]] + ys[j + 1..];
  }

  lemma Associate(a: seq<string>, b: seq<string>, c: seq<string>)
    ensures a + (b + c) == a + b + c
  {
  }

  /** Taking one element out of the input takes its image out of the output. */
  lemma MapRemoveAt(f: string -> string, ys: seq<string>, j: nat)
    requires j < |ys|
    ensures multiset(MapSeq(f, ys)) == multiset(MapSeq(f, ys[..j] + ys[j + 1..])) + multiset{f(ys[j])}
  {
    MapAround(f, ys, j);
    MapAppend(f, ys[..j], ys[j + 1..]);
  }

  /** Mapping commutes with reordering. */
  lemma {:induction false} MapPermutation(f: string -> string, xs: seq<string>, ys: seq<string>)
    requires multiset(xs) == multiset(ys)
    ensures multiset(MapSeq(f, xs)) == multiset(MapSeq(f, ys))
    decreases |xs|
  {
    if xs != [] {
      var x := xs[0];
      assert x in multiset(ys);
      var j :| 0 <= j < |ys| && ys[j] == x;
      RemoveAt(ys, j);
      HeadAndTail(xs);
      MapPermutation(f, xs[1..], ys[..j] + ys[j + 1..]);
      MapRemoveAt(f, ys, j);
      MapCons(f, x, xs[1..]);
    } else {
      assert |ys| == |multiset(ys)| == 0;
    }
  }
}

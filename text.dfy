/**
 * The text pipeline of pyreds/reds.py: tokenising, stop-word removal,
 * stemming, word counts and phonetic codes. The Porter stemmer, the English
 * stop-word list and `metaphone` are not part of this model; a `Language`
 * value stands for them.
 */
module Text {
  import opened Keys

  /** The linguistic resources the module-level globals provide. */
  datatype Language = Language(stem: string -> string, stopWords: set<string>, metaphone: string -> string)

  /**
   * A dictionary whose keys are listed in insertion order, and its entries.
   * Python guarantees that order only from 3.7 on; the model assumes it.
   */
  datatype Dict<V> = Dict(keys: seq<string>, values: map<string, V>)

  // ---------------------------------------------------------------- _words

  /** The character class `[a-zA-Z0-9_]`. */
  predicate IsWordChar(c: char)
  {
    'a' <= c <= 'z' || 'A' <= c <= 'Z' || '0' <= c <= '9' || c == '_'
  }

  predicate IsWord(w: string)
  {
    |w| > 0 && forall i :: 0 <= i < |w| ==> IsWordChar(w[i])
  }

  predicate NoWordChars(s: string)
  {
    forall i :: 0 <= i < |s| ==> !IsWordChar(s[i])
  }

  /** Length of the run of word characters that `s` starts with. */
  function RunLength(s: string): (n: nat)
    ensures n <= |s|
    ensures forall i :: 0 <= i < n ==> IsWordChar(s[i])
    ensures n == |s| || !IsWordChar(s[n])
  {
    if s == [] || !IsWordChar(s[0]) then 0 else 1 + RunLength(s[1..])
  }

  /** `re.findall(r'[a-zA-Z0-9_]+', s)`: the maximal runs of word characters, left to right. */
  function Words(s: string): (r: seq<string>)
    ensures forall i :: 0 <= i < |r| ==> IsWord(r[i])
    decreases |s|
  {
    if s == [] then []
    else if !IsWordChar(s[0]) then Words(s[1..])
    else
      var n := RunLength(s);
      [s[..n]] + Words(s[n..])
  }

  /** `separators[0] + words[0] + separators[1] + ... + words[k-1] + separators[k]`. */
  function Glue(separators: seq<string>, words: seq<string>): string
    requires |separators| == |words| + 1
    decreases |words|
  {
    if words == [] then separators[0]
    else separators[0] + words[0] + Glue(separators[1..], words[1..])
  }

  lemma {:induction false} RunLengthAppend(a: string, b: string)
    requires RunLength(a) < |a| || b == [] || !IsWordChar(b[0])
    ensures RunLength(a + b) == RunLength(a)
    decreases |a|
  {
    if a == [] {
    } else if IsWordChar(a[0]) {
      assert (a + b)[1..] == a[1..] + b;
      RunLengthAppend(a[1..], b);
    }
  }

  lemma {:induction false} WordsSkip(p: string, x: string)
    requires NoWordChars(p)
    ensures Words(p + x) == Words(x)
    decreases |p|
  {
    if p != [] {
      assert (p + x)[0] == p[0] && !IsWordChar(p[0]);
      assert (p + x)[1..] == p[1..] + x;
      WordsSkip(p[1..], x);
    } else {
      assert p + x == x;
    }
  }

  /** Tokenising never joins two words across a separator: it splits at any non-word character. */
  lemma {:induction false} WordsAppend(a: string, b: string)
    requires a == [] || b == [] || !IsWordChar(a[|a| - 1]) || !IsWordChar(b[0])
    ensures Words(a + b) == Words(a) + Words(b)
    decreases |a|
  {
    if a == [] {
      assert a + b == b;
    } else if b == [] {
      assert a + b == a;
    } else if !IsWordChar(a[0]) {
      assert (a + b)[1..] == a[1..] + b;
      WordsAppend(a[1..], b);
    } else {
      var m := RunLength(a);
      RunLengthAppend(a, b);
      assert (a + b)[..m] == a[..m];
      assert (a + b)[m..] == a[m..] + b;
      WordsAppend(a[m..], b);
    }
  }

  /** Round trip: gluing words with separators and tokenising gives the words back. */
  lemma {:induction false} WordsOfGlue(separators: seq<string>, words: seq<string>)
    requires |separators| == |words| + 1
    requires forall i :: 0 <= i < |words| ==> IsWord(words[i])
    requires forall i :: 0 <= i < |separators| ==> NoWordChars(separators[i])
    requires forall i :: 0 < i < |words| ==> separators[i] != []
    ensures Words(Glue(separators, words)) == words
    decreases |words|
  {
    if words == [] {
      WordsSkip(separators[0], []);
      assert separators[0] + [] == separators[0];
    } else {
      var w := words[0];
      var rest := Glue(separators[1..], words[1..]);
      WordsOfGlue(separators[1..], words[1..]);
      GlueStartsWithSeparator(separators[1..], words[1..]);
      WordsAppend(w, rest);
      WordsOfWord(w);
      assert Glue(separators, words) == separators[0] + (w + rest);
      WordsSkip(separators[0], w + rest);
    }
  }

  /** A single word tokenises to itself. */
  lemma WordsOfWord(w: string)
    requires IsWord(w)
    ensures Words(w) == [w]
  {
    RunLengthAppend(w, []);
    assert w + [] == w;
    assert w[..|w|] == w && w[|w|..] == [];
  }

  /** Glued text starts with a non-word character, or is empty. */
  lemma GlueStartsWithSeparator(separators: seq<string>, words: seq<string>)
    requires |separators| == |words| + 1
    requires NoWordChars(separators[0])
    requires words != [] ==> separators[0] != []
    ensures Glue(separators, words) == [] || !IsWordChar(Glue(separators, words)[0])
  {
    if words != [] {
      assert Glue(separators, words)[0] == separators[0][0];
    }
  }

  /** Every word character of the input lands in some token, in order; nothing else does. */
  lemma {:induction false} WordsKeepWordChars(s: string)
    ensures Flatten(Words(s)) == OnlyWordChars(s)
    decreases |s|
  {
    if s == [] {
    } else if !IsWordChar(s[0]) {
      WordsKeepWordChars(s[1..]);
    } else {
      var n := RunLength(s);
      WordsKeepWordChars(s[n..]);
      OnlyWordCharsRun(s, n);
      assert Flatten([s[..n]] + Words(s[n..])) == s[..n] + Flatten(Words(s[n..]));
    }
  }

  function Flatten(ws: seq<string>): string
  {
    if ws == [] then [] else ws[0] + Flatten(ws[1..])
  }

  /** The word characters of `s`, in order. */
  function OnlyWordChars(s: string): string
  {
    if s == [] then []
    else if IsWordChar(s[0]) then [s[0]] + OnlyWordChars(s[1..])
    else OnlyWordChars(s[1..])
  }

  lemma {:induction false} OnlyWordCharsRun(s: string, n: nat)
    requires n <= |s| && forall i :: 0 <= i < n ==> IsWordChar(s[i])
    ensures OnlyWordChars(s) == s[..n] + OnlyWordChars(s[n..])
    decreases n
  {
    if n > 0 {
      OnlyWordCharsRun(s[1..], n - 1);
      assert s[..n] == [s[0]] + s[1..][..n - 1];
      assert s[n..] == s[1..][n - 1..];
    }
  }

  /** The tokeniser example of test_reds.py:28: a trailing space adds no word. */
  lemma WordsExample()
    ensures Words("foo bar baz ") == ["foo", "bar", "baz"]
  {
    var seps := ["", " ", " ", " "];
    var words := ["foo", "bar", "baz"];
    assert Glue(seps[3..], words[3..]) == " ";
    assert Glue(seps[2..], words[2..]) == " baz ";
    assert Glue(seps[1..], words[1..]) == " bar baz ";
    assert Glue(seps, words) == "foo bar baz ";
    WordsOfGlue(seps, words);
  }

  /** The tokeniser example of test_reds.py:37: digits form words too. */
  lemma WordsDigitsExample()
    ensures Words("Tobi wants 4 dollars") == ["Tobi", "wants", "4", "dollars"]
  {
    var seps := ["", " ", " ", " ", ""];
    var words := ["Tobi", "wants", "4", "dollars"];
    assert Glue(seps[4..], words[4..]) == "";
    assert Glue(seps[3..], words[3..]) == " dollars";
    assert Glue(seps[2..], words[2..]) == " 4 dollars";
    assert Glue(seps[1..], words[1..]) == " wants 4 dollars";
    assert Glue(seps, words) == "Tobi wants 4 dollars";
    WordsOfGlue(seps, words);
  }

  // ------------------------------------------------------- _strip_stopwords

  /** The words that are not stop words, in their original order. */
  function WithoutStopwords(stopWords: set<string>, words: seq<string>): (r: seq<string>)
    ensures forall w :: multiset(r)[w] == if w in stopWords then 0 else multiset(words)[w]
    decreases |words|
  {
    if words == [] then []
    else
      var w := words[|words| - 1];
      assert words == words[..|words| - 1] + [w];
      var kept := WithoutStopwords(stopWords, words[..|words| - 1]);
      if w in stopWords then kept else kept + [w]
  }

  /** Stop-word removal works word by word: it distributes over concatenation. */
  lemma {:induction false} WithoutStopwordsAppend(stopWords: set<string>, a: seq<string>, b: seq<string>)
    ensures WithoutStopwords(stopWords, a + b) == WithoutStopwords(stopWords, a) + WithoutStopwords(stopWords, b)
    decreases |b|
  {
    if b == [] {
      assert a + b == a;
    } else {
      var init := b[..|b| - 1];
      assert (a + b)[..|a + b| - 1] == a + init;
      WithoutStopwordsAppend(stopWords, a, init);
    }
  }

  /** A text made only of stop words leaves nothing to index. */
  lemma AllStopwords(stopWords: set<string>, words: seq<string>)
    requires forall i :: 0 <= i < |words| ==> words[i] in stopWords
    ensures WithoutStopwords(stopWords, words) == []
  {
  }

  /** The example of test_reds.py:40, for any stop-word list holding "this", "is", "just" and "a" but not "test". */
  lemma StopwordsExample(stopWords: set<string>, words: seq<string>)
    requires {"this", "is", "just", "a"} <= stopWords && "test" !in stopWords
    requires words == ["this", "is", "just", "a", "test"]
    ensures WithoutStopwords(stopWords, words) == ["test"]
  {
    assert words[..4] == ["this", "is", "just", "a"];
    AllStopwords(stopWords, words[..4]);
  }

  method StripStopwords(stopWords: set<string>, words: seq<string>) returns (r: seq<string>)
    ensures r == WithoutStopwords(stopWords, words)
  {
    r := [];
    if |words| == 0 {
      return;
    }
    for i := 0 to |words|
      invariant r == WithoutStopwords(stopWords, words[..i])
    {
      assert words[..i + 1][..i] == words[..i];
      if words[i] in stopWords {
        continue;
      }
      r := r + [words[i]];
    }
    assert words[..|words|] == words;
  }

  // ------------------------------------------------------------------ _stem

  function StemAll(stem: string -> string, words: seq<string>): seq<string>
  {
    seq(|words|, i requires 0 <= i < |words| => stem(words[i]))
  }

  method Stem(stem: string -> string, words: seq<string>) returns (r: seq<string>)
    ensures |r| == |words|
    ensures forall i :: 0 <= i < |r| ==> r[i] == stem(words[i])
  {
    r := [];
    if |words| == 0 {
      return;
    }
    for i := 0 to |words|
      invariant |r| == i
      invariant forall j :: 0 <= j < i ==> r[j] == stem(words[j])
    {
      r := r + [stem(words[i])];
    }
  }

  /** `_stem(_strip_stopwords(_words(txt)))`: the terms a text is indexed and queried by. */
  function Normalize(lang: Language, txt: string): seq<string>
  {
    StemAll(lang.stem, WithoutStopwords(lang.stopWords, Words(txt)))
  }

  /** A text of stop words only, such as "is a", normalizes to no terms. */
  lemma NormalizeStopwordsOnly(lang: Language, txt: string)
    requires forall i :: 0 <= i < |Words(txt)| ==> Words(txt)[i] in lang.stopWords
    ensures Normalize(lang, txt) == []
  {
    AllStopwords(lang.stopWords, Words(txt));
  }

  // ----------------------------------------------- order of first occurrence

  /** Index of the first occurrence of `x` in `s`. */
  function FirstIndex(s: seq<string>, x: string): (i: nat)
    requires x in s
    ensures i < |s| && s[i] == x
    ensures forall j :: 0 <= j < i ==> s[j] != x
  {
    if s[0] == x then 0 else 1 + FirstIndex(s[1..], x)
  }

  lemma {:induction false} FirstIndexPrefix(s: seq<string>, k: nat, x: string)
    requires k <= |s| && x in s[..k]
    ensures FirstIndex(s, x) == FirstIndex(s[..k], x)
  {
    var i := FirstIndex(s[..k], x);
    var j := FirstIndex(s, x);
    assert s[i] == x;
    assert j <= i;
    assert s[..k][j] == x;
  }

  /** The elements of `s` with repetitions dropped, each at its first occurrence. */
  function Distinct(s: seq<string>): (r: seq<string>)
    ensures forall x :: x in r <==> x in s
    ensures forall i, j :: 0 <= i < j < |r| ==> r[i] != r[j]
    decreases |s|
  {
    if s == [] then []
    else
      var n := |s| - 1;
      var d := Distinct(s[..n]);
      assert s == s[..n] + [s[n]];
      if s[n] in d then d else d + [s[n]]
  }

  /** `Distinct` keeps the order of first occurrence. */
  lemma {:induction false} DistinctOrder(s: seq<string>)
    ensures forall i, j :: 0 <= i < j < |Distinct(s)| ==> FirstIndex(s, Distinct(s)[i]) < FirstIndex(s, Distinct(s)[j])
    decreases |s|
  {
    if s != [] {
      var n := |s| - 1;
      var d := Distinct(s[..n]);
      DistinctOrder(s[..n]);
      assert s == s[..n] + [s[n]];
      forall i | 0 <= i < |d|
        ensures FirstIndex(s, d[i]) == FirstIndex(s[..n], d[i]) < n
      {
        FirstIndexPrefix(s, n, d[i]);
      }
      var r := Distinct(s);
      assert r == if s[n] in d then d else d + [s[n]];
      if s[n] !in d {
        assert FirstIndex(s, s[n]) == n;
      }
      forall i, j | 0 <= i < j < |r|
        ensures FirstIndex(s, r[i]) < FirstIndex(s, r[j])
      {
        assert r[i] == d[i];
        assert FirstIndex(s, d[i]) == FirstIndex(s[..n], d[i]) < n;
        if j < |d| {
          assert r[j] == d[j];
          assert FirstIndex(s[..n], d[i]) < FirstIndex(s[..n], d[j]);
          assert FirstIndex(s, d[j]) == FirstIndex(s[..n], d[j]);
        }
      }
    }
  }

  /** Appending a word adds it at the end unless it was already there. */
  lemma DistinctSnoc(s: seq<string>, x: string)
    ensures Distinct(s + [x]) == if x in s then Distinct(s) else Distinct(s) + [x]
  {
    assert (s + [x])[..|s|] == s;
  }

  // ----------------------------------------------------------- _count_words

  /** Sum of `values[k]` over the keys `ks`. */
  function Total(values: map<string, nat>, ks: seq<string>): nat
    requires forall i :: 0 <= i < |ks| ==> ks[i] in values
  {
    if ks == [] then 0 else Total(values, ks[..|ks| - 1]) + values[ks[|ks| - 1]]
  }

  /** Sum, over the keys `ks`, of the number of times each occurs in `words`. */
  function Occurrences(words: seq<string>, ks: seq<string>): nat
  {
    if ks == [] then 0 else Occurrences(words, ks[..|ks| - 1]) + multiset(words)[ks[|ks| - 1]]
  }

  /** The word counts as `_count_words` builds them, one word at a time. */
  function CountsOf(words: seq<string>): Dict<nat>
    decreases |words|
  {
    if words == [] then Dict([], map[])
    else
      var d := CountsOf(words[..|words| - 1]);
      var w := words[|words| - 1];
      if w in d.values then d.(values := d.values[w := d.values[w] + 1])
      else Dict(d.keys + [w], d.values[w := 1])
  }

  /** The counts list each distinct word once, in order of first occurrence, with its number of occurrences. */
  lemma {:induction false} CountsOfCounts(words: seq<string>)
    ensures CountsOf(words).keys == Distinct(words)
    ensures forall w :: w in CountsOf(words).values <==> w in words
    ensures forall w :: w in CountsOf(words).values ==> CountsOf(words).values[w] == multiset(words)[w]
    decreases |words|
  {
    if words != [] {
      var n := |words| - 1;
      var init := words[..n];
      var w := words[n];
      assert words == init + [w];
      CountsOfCounts(init);
      DistinctSnoc(init, w);
      assert multiset(words) == multiset(init) + multiset{w};
    }
  }

  method CountWords(words: seq<string>) returns (d: Dict<nat>)
    ensures d.keys == Distinct(words)
    ensures forall w :: w in d.values <==> w in words
    ensures forall w :: w in d.values ==> d.values[w] == multiset(words)[w]
  {
    CountsOfCounts(words);
    d := Dict([], map[]);
    if |words| == 0 {
      return;
    }
    for i := 0 to |words|
      invariant d == CountsOf(words[..i])
    {
      var w := words[i];
      assert words[..i + 1][..i] == words[..i];
      if w !in d.values {
        d := Dict(d.keys + [w], d.values[w := 1]);
      } else {
        d := d.(values := d.values[w := d.values[w] + 1]);
      }
    }
    assert words[..|words|] == words;
  }

  lemma {:induction false} OccurrencesSnoc(words: seq<string>, w: string, ks: seq<string>)
    requires forall i, j :: 0 <= i < j < |ks| ==> ks[i] != ks[j]
    ensures Occurrences(words + [w], ks) == Occurrences(words, ks) + if w in ks then 1 else 0
  {
    if ks != [] {
      var init := ks[..|ks| - 1];
      OccurrencesSnoc(words, w, init);
      assert ks == init + [ks[|ks| - 1]];
      assert multiset(words + [w]) == multiset(words) + multiset{w};
    }
  }

  /** Over the distinct words, the occurrence counts add up to the number of words. */
  lemma {:induction false} OccurrencesTotal(words: seq<string>)
    ensures Occurrences(words, Distinct(words)) == |words|
    decreases |words|
  {
    if words != [] {
      var n := |words| - 1;
      var init := words[..n];
      var w := words[n];
      assert words == init + [w];
      OccurrencesTotal(init);
      var d := Distinct(init);
      OccurrencesSnoc(init, w, d);
      if w !in d {
        assert Distinct(words) == d + [w];
        assert (d + [w])[..|d|] == d;
        assert multiset(words)[w] == 1;
      }
    }
  }

  lemma {:induction false} TotalIsOccurrences(words: seq<string>, values: map<string, nat>, ks: seq<string>)
    requires forall i :: 0 <= i < |ks| ==> ks[i] in values && values[ks[i]] == multiset(words)[ks[i]]
    ensures Total(values, ks) == Occurrences(words, ks)
  {
    if ks != [] {
      TotalIsOccurrences(words, values, ks[..|ks| - 1]);
    }
  }

  /** The values of a word count add up to the number of words counted. */
  lemma CountsTotal(words: seq<string>, d: Dict<nat>)
    requires d.keys == Distinct(words)
    requires forall w :: w in d.values <==> w in words
    requires forall w :: w in d.values ==> d.values[w] == multiset(words)[w]
    ensures forall i :: 0 <= i < |d.keys| ==> d.keys[i] in d.values
    ensures Total(d.values, d.keys) == |words|
  {
    assert forall i :: 0 <= i < |d.keys| ==> d.keys[i] in words;
    TotalIsOccurrences(words, d.values, d.keys);
    OccurrencesTotal(words);
  }

  /** One more word: its count goes up by one, or it is appended as a new key counted once. */
  lemma CountsSnoc(words: seq<string>, w: string)
    ensures var d := CountsOf(words);
      CountsOf(words + [w]) == if w in d.values then d.(values := d.values[w := d.values[w] + 1])
                               else Dict(d.keys + [w], d.values[w := 1])
  {
    assert (words + [w])[..|words|] == words;
  }

  /** The example of test_reds.py:43-48: each word counted, keys in order of first occurrence. */
  lemma CountsExample(words: seq<string>)
    requires words == ["foo", "bar", "baz", "foo", "jaz", "foo", "baz"]
    ensures CountsOf(words) == Dict(["foo", "bar", "baz", "jaz"], map["foo" := 3, "bar" := 1, "baz" := 2, "jaz" := 1])
  {
    CountsOfRepeats("foo", "bar", "baz", "jaz");
  }

  /** The shape of that example for any four different words `a`, `b`, `c`, `d`. */
  lemma CountsOfRepeats(a: string, b: string, c: string, d: string)
    requires a != b && a != c && a != d && b != c && b != d && c != d
    ensures CountsOf([a, b, c, a, d, a, c]) == Dict([a, b, c, d], map[a := 3, b := 1, c := 2, d := 1])
  {
    var w3 := [a, b, c];
    CountsOfThree(a, b, c);
    CountsSnoc(w3, a);
    var w4 := w3 + [a];
    assert CountsOf(w4) == Dict([a, b, c], map[a := 2, b := 1, c := 1]);
    CountsSnoc(w4, d);
    var w5 := w4 + [d];
    assert CountsOf(w5) == Dict([a, b, c, d], map[a := 2, b := 1, c := 1, d := 1]);
    CountsSnoc(w5, a);
    var w6 := w5 + [a];
    assert CountsOf(w6) == Dict([a, b, c, d], map[a := 3, b := 1, c := 1, d := 1]);
    CountsSnoc(w6, c);
    assert w6 + [c] == [a, b, c, a, d, a, c];
  }

  /** Three different words, each counted once, keys in the order given. */
  lemma CountsOfThree(a: string, b: string, c: string)
    requires a != b && a != c && b != c
    ensures CountsOf([a, b, c]) == Dict([a, b, c], map[a := 1, b := 1, c := 1])
  {
    var w0: seq<string> := [];
    CountsSnoc(w0, a);
    var w1 := w0 + [a];
    assert CountsOf(w1) == Dict([a], map[a := 1]);
    CountsSnoc(w1, b);
    var w2 := w1 + [b];
    assert CountsOf(w2) == Dict([a, b], map[a := 1, b := 1]);
    CountsSnoc(w2, c);
    assert w2 + [c] == [a, b, c];
  }

  // -------------------------------------------------------- _metaphone_map

  /** The word-to-code map as `_metaphone_map` builds it, one word at a time. */
  function CodesOf(metaphone: string -> string, words: seq<string>): Dict<string>
    decreases |words|
  {
    if words == [] then Dict([], map[])
    else
      var d := CodesOf(metaphone, words[..|words| - 1]);
      var w := words[|words| - 1];
      if w in d.values then d.(values := d.values[w := metaphone(w)])
      else Dict(d.keys + [w], d.values[w := metaphone(w)])
  }

  /** The map lists each distinct word once, in order of first occurrence, with its code. */
  lemma {:induction false} CodesOfCodes(metaphone: string -> string, words: seq<string>)
    ensures CodesOf(metaphone, words).keys == Distinct(words)
    ensures forall w :: w in CodesOf(metaphone, words).values <==> w in words
    ensures forall w :: w in CodesOf(metaphone, words).values ==> CodesOf(metaphone, words).values[w] == metaphone(w)
    decreases |words|
  {
    if words != [] {
      var n := |words| - 1;
      var init := words[..n];
      var w := words[n];
      assert words == init + [w];
      CodesOfCodes(metaphone, init);
      DistinctSnoc(init, w);
    }
  }

  method MetaphoneMap(metaphone: string -> string, words: seq<string>) returns (d: Dict<string>)
    ensures d.keys == Distinct(words)
    ensures forall w :: w in d.values <==> w in words
    ensures forall w :: w in d.values ==> d.values[w] == metaphone(w)
  {
    CodesOfCodes(metaphone, words);
    d := Dict([], map[]);
    if |words| == 0 {
      return;
    }
    for i := 0 to |words|
      invariant d == CodesOf(metaphone, words[..i])
    {
      var w := words[i];
      assert words[..i + 1][..i] == words[..i];
      if w !in d.values {
        d := Dict(d.keys + [w], d.values[w := metaphone(w)]);
      } else {
        d := d.(values := d.values[w := metaphone(w)]);
      }
    }
    assert words[..|words|] == words;
  }

  // ------------------------------------------------------- _metaphone_list

  /** The phonetic codes of `words`, one per word, in order. */
  function CodeOfEach(metaphone: string -> string, words: seq<string>): seq<string>
  {
    seq(|words|, i requires 0 <= i < |words| => metaphone(words[i]))
  }

  /** The distinct phonetic codes of `words`, in order of first occurrence. */
  function Codes(metaphone: string -> string, words: seq<string>): seq<string>
  {
    Distinct(CodeOfEach(metaphone, words))
  }

  /** The code list has no repetitions and holds exactly the codes of the words. */
  lemma CodesAreDistinctCodes(metaphone: string -> string, words: seq<string>)
    ensures forall i, j :: 0 <= i < j < |Codes(metaphone, words)| ==> Codes(metaphone, words)[i] != Codes(metaphone, words)[j]
    ensures forall c :: c in Codes(metaphone, words) <==> exists w :: w in words && metaphone(w) == c
  {
    var each := CodeOfEach(metaphone, words);
    forall c
      ensures c in each <==> exists w :: w in words && metaphone(w) == c
    {
      if c in each {
        var i :| 0 <= i < |each| && each[i] == c;
        assert words[i] in words;
      }
      if exists w :: w in words && metaphone(w) == c {
        var w :| w in words && metaphone(w) == c;
        var i :| 0 <= i < |words| && words[i] == w;
        assert each[i] == c;
      }
    }
  }

  method MetaphoneList(metaphone: string -> string, words: seq<string>) returns (r: seq<string>)
    ensures r == Codes(metaphone, words)
  {
    ghost var each := CodeOfEach(metaphone, words);
    r := [];
    if |words| == 0 {
      return;
    }
    for i := 0 to |words|
      invariant r == Distinct(each[..i])
    {
      var constant := metaphone(words[i]);
      assert each[..i + 1] == each[..i] + [constant];
      if constant !in r {
        r := r + [constant];
      }
    }
    assert each[..|words|] == each;
  }

  /** The example of test_reds.py:53-54, for any phonetic function agreeing with it on these words. */
  lemma CodesExample(metaphone: string -> string, words: seq<string>)
    requires metaphone("foo") == "F" && metaphone("bar") == "BR" && metaphone("baz") == "BS"
    requires words == ["foo", "bar", "baz"]
    ensures Codes(metaphone, words) == ["F", "BR", "BS"]
  {
    assert CodeOfEach(metaphone, words) == ["F", "BR", "BS"];
    DistinctOfThree("F", "BR", "BS");
  }

  /** Three different elements are already distinct. */
  lemma DistinctOfThree(a: string, b: string, c: string)
    requires a != b && a != c && b != c
    ensures Distinct([a, b, c]) == [a, b, c]
  {
    var e0: seq<string> := [];
    DistinctSnoc(e0, a);
    assert e0 + [a] == [a];
    DistinctSnoc([a], b);
    assert [a] + [b] == [a, b];
    DistinctSnoc([a, b], c);
    assert [a, b] + [c] == [a, b, c];
  }

  // ------------------------------------------------------- _metaphone_keys

  /** The posting-set keys for `words`: one per distinct code, in order of first occurrence. */
  function MetaphoneKeys(ns: string, metaphone: string -> string, words: seq<string>): (r: seq<string>)
    ensures |r| == |Codes(metaphone, words)|
    ensures forall i :: 0 <= i < |r| ==> r[i] == PostingKey(ns, Codes(metaphone, words)[i])
    ensures |r| == 0 <==> |words| == 0
    ensures forall i, j :: 0 <= i < j < |r| ==> r[i] != r[j]
    ensures forall k :: k in r <==> exists w :: w in words && k == PostingKey(ns, metaphone(w))
  {
    var codes := Codes(metaphone, words);
    CodesAreDistinctCodes(metaphone, words);
    var r := seq(|codes|, i requires 0 <= i < |codes| => PostingKey(ns, codes[i]));
    assert |words| > 0 ==> metaphone(words[0]) in codes;
    forall i, j | 0 <= i < j < |r|
      ensures r[i] != r[j]
    {
      KeysDistinct(ns, codes[i], codes[j], "", "");
    }
    forall k
      ensures k in r <==> exists w :: w in words && k == PostingKey(ns, metaphone(w))
    {
      if k in r {
        var i :| 0 <= i < |r| && r[i] == k;
        assert codes[i] in codes;
      }
      if exists w :: w in words && k == PostingKey(ns, metaphone(w)) {
        var w :| w in words && k == PostingKey(ns, metaphone(w));
        assert metaphone(w) in codes;
        var i :| 0 <= i < |codes| && codes[i] == metaphone(w);
        assert r[i] == k;
      }
    }
    r
  }

  /** The example of test_reds.py:56-58. */
  lemma MetaphoneKeysExample(metaphone: string -> string, words: seq<string>)
    requires metaphone("foo") == "F" && metaphone("bar") == "BR" && metaphone("baz") == "BS"
    requires words == ["foo", "bar", "baz"]
    ensures MetaphoneKeys("reds", metaphone, words) == ["reds:word:F", "reds:word:BR", "reds:word:BS"]
  {
    CodesExample(metaphone, words);
    var r := MetaphoneKeys("reds", metaphone, words);
    assert r[0] == "reds:word:F" && r[1] == "reds:word:BR" && r[2] == "reds:word:BS";
  }
}

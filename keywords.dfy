/** `extract_keywords(text, top_n=10)` (im.py:99-107): the lower-cased text is cut into
    runs of word characters, the runs are counted, ranked by descending count with ties
    kept in first-appearance order, stopwords are dropped, the first `top_n` survive and
    are joined with ", ". */
module Keywords {
  import opened Strings

  /** The twenty words that are never reported as keywords. */
  const Stopwords: set<string> := {
    "the", "and", "of", "in", "to", "a", "is", "with", "for", "on", "as",
    "an", "by", "its", "this", "are", "be", "at", "or", "from"
  }

  /** The `top_n` the application passes (the parameter's default). */
  const DefaultTopN: int := 10

  // ---------------------------------------------------------------------------
  // Tokenising: re.findall(r'\b\w+\b', s) yields the maximal runs of word characters.

  /** A word token: a non-empty run of word characters. */
  predicate IsToken(w: string) {
    |w| > 0 && forall i :: 0 <= i < |w| ==> IsWordChar(w[i])
  }

  /** `k` is the slice of `s` that starts at `i`. */
  predicate OccursAt(k: string, s: string, i: int) {
    0 <= i <= |s| - |k| && s[i..i + |k|] == k
  }

  /** `k` appears in `s` as a contiguous slice. */
  ghost predicate Occurs(k: string, s: string) {
    exists i :: OccursAt(k, s, i)
  }

  function Emit(run: string): seq<string> {
    if run == [] then [] else [run]
  }

  /** The maximal word runs of `run + s`, where `run` is a word run in progress. */
  function TokensFrom(s: string, run: string): seq<string> {
    if s == [] then Emit(run)
    else if IsWordChar(s[0]) then TokensFrom(s[1..], run + [s[0]])
    else Emit(run) + TokensFrom(s[1..], [])
  }

  function Tokens(s: string): seq<string> {
    TokensFrom(s, [])
  }

  /** The words of the text, in order and with repetitions: `re.findall(r'\b\w+\b', text.lower())`. */
  function Words(text: string): seq<string> {
    Tokens(Lower(text))
  }

  /** The empty text has no words; with `TokensSeparate` and `TokensOfRun` this fixes the
      tokens of every text. */
  lemma TokensEmpty()
    ensures Tokens("") == []
  {
  }

  lemma OccursShift(k: string, pre: string, s: string)
    requires Occurs(k, s)
    ensures Occurs(k, pre + s)
  {
    var i :| OccursAt(k, s, i);
    assert (pre + s)[|pre| + i..|pre| + i + |k|] == k;
    assert OccursAt(k, pre + s, |pre| + i);
  }

  /** Every token is a word run that occurs in the string it came from. */
  lemma {:induction false} TokensFromSound(s: string, run: string)
    requires forall i :: 0 <= i < |run| ==> IsWordChar(run[i])
    ensures forall k :: k in TokensFrom(s, run) ==> IsToken(k) && Occurs(k, run + s)
  {
    if s == [] {
      assert (run + s)[0..|run|] == run;
      assert OccursAt(run, run + s, 0);
    } else if IsWordChar(s[0]) {
      TokensFromSound(s[1..], run + [s[0]]);
      assert run + [s[0]] + s[1..] == run + s;
    } else {
      TokensFromSound(s[1..], []);
      assert (run + s)[0..|run|] == run;
      assert OccursAt(run, run + s, 0);
      forall k | k in TokensFrom(s[1..], [])
        ensures Occurs(k, run + s)
      {
        assert [] + s[1..] == s[1..];
        OccursShift(k, run + [s[0]], s[1..]);
        assert run + [s[0]] + s[1..] == run + s;
      }
    }
  }

  /** A non-word character separates tokens: what lies on each side is tokenised on its own. */
  lemma {:induction false} TokensFromSplit(a: string, c: char, b: string, run: string)
    requires !IsWordChar(c)
    ensures TokensFrom(a + [c] + b, run) == TokensFrom(a, run) + Tokens(b)
  {
    if a == [] {
      assert (a + [c] + b)[1..] == b;
    } else {
      assert (a + [c] + b)[1..] == a[1..] + [c] + b;
      if IsWordChar(a[0]) {
        TokensFromSplit(a[1..], c, b, run + [a[0]]);
      } else {
        TokensFromSplit(a[1..], c, b, []);
      }
    }
  }

  /** A single run of word characters is one token. */
  lemma {:induction false} TokensFromRun(w: string, run: string)
    requires forall i :: 0 <= i < |w| ==> IsWordChar(w[i])
    requires |run + w| > 0
    ensures TokensFrom(w, run) == [run + w]
  {
    if w == [] {
      assert run + w == run;
    } else {
      TokensFromRun(w[1..], run + [w[0]]);
      assert run + [w[0]] + w[1..] == run + w;
    }
  }

  /** Tokenising splits at every non-word character and keeps every word run whole. */
  lemma TokensSeparate(a: string, c: char, b: string)
    requires !IsWordChar(c)
    ensures Tokens(a + [c] + b) == Tokens(a) + Tokens(b)
  {
    TokensFromSplit(a, c, b, []);
  }

  lemma TokensOfRun(w: string)
    requires IsToken(w)
    ensures Tokens(w) == [w]
  {
    TokensFromRun(w, []);
    assert [] + w == w;
  }

  // ---------------------------------------------------------------------------
  // Counting and ranking: Counter(words).most_common().

  /** How often `w` occurs among the words. */
  function Count(ws: seq<string>, w: string): nat {
    multiset(ws)[w]
  }

  /** Position of the first occurrence of `w`, or `|ws|` when it does not occur. */
  function FirstIndex(ws: seq<string>, w: string): (i: nat)
    ensures i <= |ws|
    ensures i < |ws| <==> w in ws
    ensures i < |ws| ==> ws[i] == w && w !in ws[..i]
  {
    if ws == [] then 0
    else if ws[0] == w then 0
    else
      var j := FirstIndex(ws[1..], w);
      assert j < |ws| - 1 ==> ws[..j + 1] == [ws[0]] + ws[1..][..j];
      1 + j
  }

  /** The first occurrence is the one position holding `w` with no `w` before it. */
  lemma FirstIndexUnique(ws: seq<string>, w: string, i: nat)
    requires i < |ws| && ws[i] == w && w !in ws[..i]
    ensures FirstIndex(ws, w) == i
  {
    var f := FirstIndex(ws, w);
    assert forall t :: 0 <= t < i ==> ws[..i][t] == ws[t];
    assert forall t :: 0 <= t < f ==> ws[..f][t] == ws[t];
  }

  /** Adding a word at the end does not move the first occurrence of an earlier word. */
  lemma FirstIndexExtend(p: seq<string>, x: string, w: string)
    ensures w in p ==> FirstIndex(p + [x], w) == FirstIndex(p, w)
    ensures w !in p && w == x ==> FirstIndex(p + [x], w) == |p|
  {
    var ws := p + [x];
    if w in p {
      var j := FirstIndex(p, w);
      assert ws[..j] == p[..j];
      FirstIndexUnique(ws, w, j);
    } else if w == x {
      assert ws[..|p|] == p;
      FirstIndexUnique(ws, w, |p|);
    }
  }

  /** The distinct words in order of first appearance: the key order of `Counter(ws)`,
      which inserts a key the first time it is counted. */
  function Distinct(ws: seq<string>): seq<string> {
    if ws == [] then []
    else
      var p := ws[..|ws| - 1];
      if ws[|ws| - 1] in p then Distinct(p) else Distinct(p) + [ws[|ws| - 1]]
  }

  /** `Distinct` holds every word and lists them by increasing first occurrence. */
  lemma {:induction false} DistinctSpec(ws: seq<string>)
    ensures forall w :: w in Distinct(ws) <==> w in ws
    ensures forall i, j :: 0 <= i < j < |Distinct(ws)| ==>
      FirstIndex(ws, Distinct(ws)[i]) < FirstIndex(ws, Distinct(ws)[j])
  {
    if ws != [] {
      var p, x := ws[..|ws| - 1], ws[|ws| - 1];
      assert ws == p + [x];
      DistinctSpec(p);
      var d := Distinct(p);
      forall w | w in d
        ensures FirstIndex(ws, w) == FirstIndex(p, w) < |p|
      {
        FirstIndexExtend(p, x, w);
      }
      if x !in p {
        FirstIndexExtend(p, x, x);
        assert Distinct(ws) == d + [x];
      }
    }
  }

  /** `a` comes before `b` in `most_common()`: a higher count, or the same count and an
      earlier first appearance. */
  predicate Precedes(ws: seq<string>, a: string, b: string) {
    Count(ws, a) > Count(ws, b) ||
    (Count(ws, a) == Count(ws, b) && FirstIndex(ws, a) < FirstIndex(ws, b))
  }

  /** Every element of `s` precedes every later element. Since `Precedes` is irreflexive,
      a ranked sequence has no repeated element. */
  predicate Ranked(ws: seq<string>, s: seq<string>) {
    forall i, j :: 0 <= i < j < |s| ==> Precedes(ws, s[i], s[j])
  }

  /** Stable insertion by descending count: `x` goes before the first element whose
      count does not exceed its own. */
  function Insert(ws: seq<string>, x: string, ys: seq<string>): seq<string> {
    if ys == [] || Count(ws, x) >= Count(ws, ys[0]) then [x] + ys
    else [ys[0]] + Insert(ws, x, ys[1..])
  }

  /** `sorted(ds, key=count, reverse=True)`, which is stable. */
  function ByCount(ws: seq<string>, ds: seq<string>): seq<string> {
    if ds == [] then [] else Insert(ws, ds[0], ByCount(ws, ds[1..]))
  }

  /** `Counter(ws).most_common()`, keys only. */
  function MostCommon(ws: seq<string>): seq<string> {
    ByCount(ws, Distinct(ws))
  }

  /** An element that precedes everything in a ranked sequence can be put in front of it. */
  lemma RankedCons(ws: seq<string>, a: string, s: seq<string>)
    requires Ranked(ws, s)
    requires forall y :: y in s ==> Precedes(ws, a, y)
    ensures Ranked(ws, [a] + s)
  {
    var r := [a] + s;
    forall i, j | 0 <= i < j < |r|
      ensures Precedes(ws, r[i], r[j])
    {
      assert r[j] == s[j - 1];
      if i > 0 {
        assert r[i] == s[i - 1];
      }
    }
  }

  /** The head of a ranked sequence precedes every other element. */
  lemma RankedHead(ws: seq<string>, s: seq<string>, y: string)
    requires Ranked(ws, s) && |s| > 0
    requires y in s[1..]
    ensures Precedes(ws, s[0], y)
  {
    var k :| 0 <= k < |s[1..]| && s[1..][k] == y;
    assert s[k + 1] == y;
  }

  lemma {:induction false} InsertSpec(ws: seq<string>, x: string, ys: seq<string>)
    requires Ranked(ws, ys)
    requires forall y :: y in ys ==> FirstIndex(ws, x) < FirstIndex(ws, y)
    ensures multiset(Insert(ws, x, ys)) == multiset(ys) + multiset{x}
    ensures Ranked(ws, Insert(ws, x, ys))
  {
    if ys == [] || Count(ws, x) >= Count(ws, ys[0]) {
      forall y | y in ys
        ensures Precedes(ws, x, y)
      {
        if y != ys[0] {
          assert y in ys[1..] by {
            assert ys == [ys[0]] + ys[1..];
          }
          RankedHead(ws, ys, y);
        }
      }
      RankedCons(ws, x, ys);
    } else {
      var tail := ys[1..];
      assert ys == [ys[0]] + tail;
      assert Ranked(ws, tail) by {
        forall i, j | 0 <= i < j < |tail|
          ensures Precedes(ws, tail[i], tail[j])
        {
          assert tail[i] == ys[i + 1] && tail[j] == ys[j + 1];
        }
      }
      InsertSpec(ws, x, tail);
      var t := Insert(ws, x, tail);
      forall z | z in t
        ensures Precedes(ws, ys[0], z)
      {
        assert z in multiset(t);
        if z != x {
          RankedHead(ws, ys, z);
        }
      }
      RankedCons(ws, ys[0], t);
    }
  }

  lemma {:induction false} ByCountSpec(ws: seq<string>, ds: seq<string>)
    requires forall i, j :: 0 <= i < j < |ds| ==> FirstIndex(ws, ds[i]) < FirstIndex(ws, ds[j])
    ensures multiset(ByCount(ws, ds)) == multiset(ds)
    ensures Ranked(ws, ByCount(ws, ds))
  {
    if ds != [] {
      var tail := ds[1..];
      ByCountSpec(ws, tail);
      var sorted := ByCount(ws, tail);
      forall y | y in sorted
        ensures FirstIndex(ws, ds[0]) < FirstIndex(ws, y)
      {
        assert y in multiset(tail);
        var k :| 0 <= k < |tail| && tail[k] == y;
        assert ds[k + 1] == y;
      }
      InsertSpec(ws, ds[0], sorted);
      assert ds == [ds[0]] + tail;
    }
  }

  /** `most_common()` lists every word exactly once, by descending count, ties in order
      of first appearance. */
  lemma MostCommonSpec(ws: seq<string>)
    ensures forall w :: w in MostCommon(ws) <==> w in ws
    ensures Ranked(ws, MostCommon(ws))
  {
    DistinctSpec(ws);
    ByCountSpec(ws, Distinct(ws));
    forall w
      ensures w in MostCommon(ws) <==> w in ws
    {
      assert w in MostCommon(ws) <==> w in multiset(Distinct(ws));
    }
  }

  // ---------------------------------------------------------------------------
  // Dropping stopwords, slicing and joining.

  /** `[word for word in ranked if word not in stopwords]`. */
  function DropStopwords(s: seq<string>): (r: seq<string>)
    ensures forall w :: w in r <==> w in s && w !in Stopwords
  {
    if s == [] then []
    else (if s[0] in Stopwords then [] else [s[0]]) + DropStopwords(s[1..])
  }

  /** Filtering keeps the relative order. */
  lemma {:induction false} DropStopwordsRanked(ws: seq<string>, s: seq<string>)
    requires Ranked(ws, s)
    ensures Ranked(ws, DropStopwords(s))
  {
    if s != [] {
      DropStopwordsRanked(ws, s[1..]);
      var t := DropStopwords(s[1..]);
      if s[0] !in Stopwords {
        var r := DropStopwords(s);
        assert r == [s[0]] + t;
        forall j | 0 < j < |r|
          ensures Precedes(ws, r[0], r[j])
        {
          assert r[j] == t[j - 1] && r[j] in s[1..];
          var k :| 0 <= k < |s[1..]| && s[1..][k] == r[j];
          assert Precedes(ws, s[0], s[k + 1]);
        }
      }
    }
  }

  /** The keyword list before joining: `keywords[:top_n]`, a prefix of the ranked
      non-stopwords that keeps `top_n` of them when `top_n` is non-negative and drops the
      last `-top_n` of them otherwise. */
  function KeywordList(text: string, topN: int): (r: seq<string>)
    ensures r <= DropStopwords(MostCommon(Words(text)))
    ensures topN >= 0 ==> |r| <= topN
    ensures topN >= 0 && topN <= |DropStopwords(MostCommon(Words(text)))| ==> |r| == topN
    ensures topN < 0 ==> |r| + -topN >= |DropStopwords(MostCommon(Words(text)))|
    ensures topN < 0 && -topN <= |DropStopwords(MostCommon(Words(text)))| ==>
      |r| == |DropStopwords(MostCommon(Words(text)))| + topN
    ensures topN < 0 && -topN >= |DropStopwords(MostCommon(Words(text)))| ==> r == []
    ensures topN >= |DropStopwords(MostCommon(Words(text)))| ==> r == DropStopwords(MostCommon(Words(text)))
  {
    var ranked := DropStopwords(MostCommon(Words(text)));
    ranked[..SliceEnd(|ranked|, topN)]
  }

  /** `extract_keywords(text, top_n)`: the keywords joined with ", ". */
  function ExtractKeywords(text: string, topN: int): (r: string)
    ensures r == "" <==> KeywordList(text, topN) == []
    ensures KeywordList(text, topN) != [] ==> CountChar(r, ',') == |KeywordList(text, topN)| - 1
    ensures KeywordList(text, topN) != [] ==> CountChar(r, ' ') == |KeywordList(text, topN)| - 1
  {
    var ks := KeywordList(text, topN);
    KeywordsAreWords(text, topN);
    KeywordsCommaFree(ks);
    if ks != [] then
      JoinCommaCount(ks);
      JoinNonEmpty(ks);
      Join(ks, ", ")
    else
      Join(ks, ", ")
  }

  /** The ranked, stopword-free list the keywords are a prefix of. */
  lemma RankedCandidates(text: string)
    ensures Ranked(Words(text), DropStopwords(MostCommon(Words(text))))
    ensures forall w :: w in DropStopwords(MostCommon(Words(text))) <==>
      w in Words(text) && w !in Stopwords
  {
    MostCommonSpec(Words(text));
    DropStopwordsRanked(Words(text), MostCommon(Words(text)));
  }

  /** `k` is, lowered, the slice of `text` that starts at `i`. */
  predicate LoweredAt(k: string, text: string, i: int) {
    0 <= i <= |text| - |k| && Lower(text[i..i + |k|]) == k
  }

  /** Every word of the text is a lower-case word token found, lowered, in the text. */
  lemma WordShape(text: string, k: string)
    requires k in Words(text)
    ensures IsToken(k)
    ensures forall j :: 0 <= j < |k| ==> !IsUpper(k[j])
    ensures exists i :: LoweredAt(k, text, i)
  {
    TokensFromSound(Lower(text), []);
    assert [] + Lower(text) == Lower(text);
    var i :| OccursAt(k, Lower(text), i);
    LowerSlice(text, i, i + |k|);
    assert LoweredAt(k, text, i);
    forall j | 0 <= j < |k|
      ensures !IsUpper(k[j])
    {
      assert k[j] == Lower(text)[i + j];
    }
  }

  /** Every keyword is a lower-case word token that occurs in the text, and none is a stopword. */
  lemma KeywordsAreWords(text: string, topN: int)
    ensures forall k :: k in KeywordList(text, topN) ==>
      k in Words(text) && k !in Stopwords && IsToken(k) &&
      (forall j :: 0 <= j < |k| ==> !IsUpper(k[j])) &&
      exists i :: LoweredAt(k, text, i)
  {
    RankedCandidates(text);
    var ranked := DropStopwords(MostCommon(Words(text)));
    forall k | k in KeywordList(text, topN)
      ensures k in Words(text) && k !in Stopwords
      ensures IsToken(k) && (forall j :: 0 <= j < |k| ==> !IsUpper(k[j]))
      ensures exists i :: LoweredAt(k, text, i)
    {
      assert k in ranked;
      WordShape(text, k);
    }
  }

  /** No keyword is reported twice; keywords come by non-increasing count, and equal
      counts keep the order in which the words first appear. */
  lemma KeywordsOrdered(text: string, topN: int)
    ensures var ws, r := Words(text), KeywordList(text, topN);
      forall i, j :: 0 <= i < j < |r| ==>
        r[i] != r[j] && Count(ws, r[i]) >= Count(ws, r[j]) &&
        (Count(ws, r[i]) == Count(ws, r[j]) ==> FirstIndex(ws, r[i]) < FirstIndex(ws, r[j]))
  {
    RankedCandidates(text);
    var ws, r := Words(text), KeywordList(text, topN);
    var ranked := DropStopwords(MostCommon(ws));
    forall i, j | 0 <= i < j < |r|
      ensures Precedes(ws, r[i], r[j])
    {
      assert r[i] == ranked[i] && r[j] == ranked[j];
    }
  }

  /** The keywords are the top of the ranking: a non-stopword of the text that is left out
      ranks after every keyword, and it is left out only because `top_n` were already taken. */
  lemma KeywordsAreTop(text: string, topN: int, w: string)
    requires w in Words(text) && w !in Stopwords
    requires w !in KeywordList(text, topN)
    ensures topN >= 0 ==> |KeywordList(text, topN)| == topN
    ensures forall k :: k in KeywordList(text, topN) ==> Precedes(Words(text), k, w)
  {
    RankedCandidates(text);
    var ranked := DropStopwords(MostCommon(Words(text)));
    var r := KeywordList(text, topN);
    var e := SliceEnd(|ranked|, topN);
    assert forall t :: 0 <= t < e ==> r[t] == ranked[t];
    var j :| 0 <= j < |ranked| && ranked[j] == w;
    assert e <= j;
    forall k | k in r
      ensures Precedes(Words(text), k, w)
    {
      var i :| 0 <= i < |r| && r[i] == k;
      assert ranked[i] == k;
    }
  }

  /** Reads back a ", "-separated list: split at commas, then drop the one space that
      follows each comma. */
  function ParseList(s: string): seq<string> {
    if s == "" then []
    else
      var parts := Split(s, ',');
      [parts[0]] + DropLeadingSpaces(parts[1..])
  }

  function DropLeadingSpaces(parts: seq<string>): seq<string> {
    if parts == [] then []
    else
      var p := parts[0];
      [if p != [] && p[0] == ' ' then p[1..] else p] + DropLeadingSpaces(parts[1..])
  }

  /** A word token holds neither a comma nor a space. */
  lemma TokenHasNoSeparator(k: string)
    requires IsToken(k)
    ensures ',' !in k && ' ' !in k
  {
    assert forall i :: 0 <= i < |k| ==> k[i] != ',' && k[i] != ' ';
  }

  /** Words are free of commas and spaces. */
  lemma KeywordsCommaFree(ks: seq<string>)
    requires forall k :: k in ks ==> IsToken(k)
    ensures forall k :: k in ks ==> ',' !in k && ' ' !in k
  {
    forall k | k in ks
      ensures ',' !in k && ' ' !in k
    {
      TokenHasNoSeparator(k);
    }
  }

  /** Joining words free of commas and spaces with ", " puts exactly one comma and one
      space between neighbours. */
  lemma {:induction false} JoinCommaCount(ks: seq<string>)
    requires ks != []
    requires forall k :: k in ks ==> ',' !in k && ' ' !in k
    ensures CountChar(Join(ks, ", "), ',') == |ks| - 1
    ensures CountChar(Join(ks, ", "), ' ') == |ks| - 1
  {
    var k := ks[0];
    assert k in ks;
    assert multiset(k)[','] == 0 && multiset(k)[' '] == 0;
    if |ks| > 1 {
      var tail := ks[1..];
      assert ks == [k] + tail;
      JoinCommaCount(tail);
      JoinCommaSpace(k, tail);
      var j := Join(tail, ", ");
      assert multiset(k + [','] + ([' '] + j)) == multiset(k) + multiset{','} + multiset{' '} + multiset(j);
    }
  }

  /** Joining a non-empty list of non-empty words gives a non-empty string. */
  lemma JoinNonEmpty(ks: seq<string>)
    requires ks != [] && IsToken(ks[0])
    ensures Join(ks, ", ") != ""
  {
    JoinCons(ks[0], ks[1..], ", ");
    assert [ks[0]] + ks[1..] == ks;
  }

  lemma JoinCommaSpace(k: string, ks: seq<string>)
    requires ks != []
    ensures Join([k] + ks, ", ") == k + [','] + ([' '] + Join(ks, ", "))
  {
    JoinCons(k, ks, ", ");
  }

  /** Splitting "k, rest" at commas gives `k`, then the first piece of `rest` with the
      space in front, then the other pieces of `rest`. */
  lemma SplitAfterComma(k: string, rest: string)
    requires ',' !in k
    ensures var q := Split(rest, ',');
      Split(k + [','] + ([' '] + rest), ',') == [k] + ([[' '] + q[0]] + q[1..])
  {
    SplitAtSep(k, ',', [' '] + rest);
    SplitCons(' ', rest, ',');
  }

  lemma DropLeadingSpacesCons(p: string, rest: seq<string>)
    ensures DropLeadingSpaces([[' '] + p] + rest) == [p] + DropLeadingSpaces(rest)
  {
    assert ([[' '] + p] + rest)[1..] == rest;
    assert ([' '] + p)[1..] == p;
  }

  /** Putting a comma-free word in front of a list that reads back adds it at the front. */
  lemma SplitKeywordStep(k: string, tail: seq<string>)
    requires ',' !in k && tail != []
    requires var q := Split(Join(tail, ", "), ','); tail == [q[0]] + DropLeadingSpaces(q[1..])
    ensures var parts := Split(Join([k] + tail, ", "), ',');
      parts[0] == k && DropLeadingSpaces(parts[1..]) == tail
  {
    var joined := Join(tail, ", ");
    var q := Split(joined, ',');
    var parts := Split(Join([k] + tail, ", "), ',');
    assert parts == [k] + ([[' '] + q[0]] + q[1..]) by {
      JoinCommaSpace(k, tail);
      SplitAfterComma(k, joined);
    }
    assert parts[1..] == [[' '] + q[0]] + q[1..];
    DropLeadingSpacesCons(q[0], q[1..]);
  }

  /** Joining comma-free words with ", " and reading the result back gives the words. */
  lemma {:induction false} SplitKeywordJoin(ks: seq<string>)
    requires |ks| > 0
    requires forall k :: k in ks ==> ',' !in k
    ensures var parts := Split(Join(ks, ", "), ',');
      |parts| > 0 && parts[0] == ks[0] && DropLeadingSpaces(parts[1..]) == ks[1..]
  {
    if |ks| == 1 {
      SplitNoSep(ks[0], ',');
    } else {
      var tail := ks[1..];
      SplitKeywordJoin(tail);
      assert tail == [tail[0]] + tail[1..];
      assert ks == [ks[0]] + tail;
      SplitKeywordStep(ks[0], tail);
    }
  }

  /** The string `extract_keywords` returns reads back as exactly the keyword list, so it
      holds at most `top_n` comma-separated keywords. */
  lemma ExtractKeywordsReadsBack(text: string, topN: int)
    ensures ParseList(ExtractKeywords(text, topN)) == KeywordList(text, topN)
    ensures topN >= 0 ==> |ParseList(ExtractKeywords(text, topN))| <= topN
  {
    var ks := KeywordList(text, topN);
    KeywordsAreWords(text, topN);
    if ks != [] {
      KeywordsCommaFree(ks);
      SplitKeywordJoin(ks);
      JoinCons(ks[0], ks[1..], ", ");
      assert [ks[0]] + ks[1..] == ks;
      assert Join(ks, ", ") != "";
    }
  }
}

/** The summary shown under a response (im.py:132): the response is split at every ".",
    at most the first three pieces are kept, they are joined with ". " and a final "."
    is appended. */
module Summary {
  import opened Strings

  /** How many "."-separated pieces the summary keeps. */
  const MaxPieces: nat := 3

  /** `pieces[:k]` for a non-negative `k`: the summary only slices with the constant 3,
      so the negative case of `SliceEnd` never arises here. */
  function Take(pieces: seq<string>, k: nat): (r: seq<string>)
    ensures |r| == if |pieces| < k then |pieces| else k
  {
    pieces[..if |pieces| < k then |pieces| else k]
  }

  /** `". ".join(resp_text.split(".")[:3]) + "."` */
  function Summarize(response: string): (s: string)
    ensures |s| > 0 && s[|s| - 1] == '.'
  {
    Join(Take(Split(response, '.'), MaxPieces), ". ") + "."
  }

  // ---------------------------------------------------------------------------
  // A character-by-character description of the same string, independent of split/join.

  /** `s` with a space after every ".". */
  function Spaced(s: string): (r: string)
    ensures CountChar(r, '.') == CountChar(s, '.')
  {
    if s == [] then []
    else
      assert s == [s[0]] + s[1..];
      (if s[0] == '.' then ". " else [s[0]]) + Spaced(s[1..])
  }

  /** The part of `s` before its `k`-th ".", or all of `s` when it has fewer. */
  function BeforeDot(s: string, k: nat): (r: string)
    requires k >= 1
    ensures r <= s
    ensures CountChar(r, '.') == if CountChar(s, '.') < k then CountChar(s, '.') else k - 1
  {
    if s == [] then []
    else
      assert s == [s[0]] + s[1..];
      if s[0] == '.' then (if k == 1 then [] else ['.'] + BeforeDot(s[1..], k - 1))
      else [s[0]] + BeforeDot(s[1..], k)
  }

  lemma SpacedCons(c: char, t: string)
    ensures Spaced([c] + t) == (if c == '.' then ". " else [c]) + Spaced(t)
  {
    assert ([c] + t)[1..] == t;
  }

  lemma BeforeDotCons(c: char, t: string, k: nat)
    requires k >= 1
    ensures BeforeDot([c] + t, k) ==
      if c == '.' then (if k == 1 then [] else ['.'] + BeforeDot(t, k - 1)) else [c] + BeforeDot(t, k)
  {
    assert ([c] + t)[1..] == t;
  }

  lemma TakeCons(p: string, ps: seq<string>, k: nat)
    requires k >= 1
    ensures Take([p] + ps, k) == [p] + Take(ps, k - 1)
  {
  }

  /** An empty first piece adds ". " in front of the join of the others, or is all there
      is when only one piece is kept. */
  lemma JoinEmptyFirst(p: seq<string>, b: string, k: nat)
    requires p != [] && k >= 1
    requires k > 1 ==> Join(Take(p, k - 1), ". ") == Spaced(b)
    ensures Join([[]] + Take(p, k - 1), ". ") == if k == 1 then [] else Spaced(['.'] + b)
  {
    var rest := Take(p, k - 1);
    if k == 1 {
      assert rest == [];
      JoinCons([], rest, ". ");
    } else {
      assert rest != [];
      var e: string := [];
      calc {
        Join([e] + rest, ". ");
        { JoinCons(e, rest, ". "); }
        e + ". " + Join(rest, ". ");
        { assert e + ". " == ". "; }
        ". " + Join(rest, ". ");
        ". " + Spaced(b);
        { SpacedCons('.', b); }
        Spaced(['.'] + b);
      }
    }
  }

  /** The step of `JoinFirstPieces` for a leading ".": it closes the first piece. */
  lemma JoinFirstPiecesDot(s: string, k: nat)
    requires s != [] && s[0] == '.' && k >= 1
    requires k > 1 ==> Join(Take(Split(s[1..], '.'), k - 1), ". ") == Spaced(BeforeDot(s[1..], k - 1))
    ensures Join(Take(Split(s, '.'), k), ". ") == Spaced(BeforeDot(s, k))
  {
    var t := s[1..];
    var p := Split(t, '.');
    var b := BeforeDot(t, if k == 1 then 1 else k - 1);
    assert Take(Split(s, '.'), k) == [[]] + Take(p, k - 1) by {
      assert s == ['.'] + t;
      SplitCons('.', t, '.');
      TakeCons([], p, k);
    }
    assert BeforeDot(s, k) == if k == 1 then [] else ['.'] + b by {
      assert s == ['.'] + t;
      BeforeDotCons('.', t, k);
    }
    JoinEmptyFirst(p, b, k);
  }

  /** Extending the first piece by `c` extends the joined text by `c` at the front. */
  lemma JoinTakeExtendFirst(c: char, p: seq<string>, k: nat)
    requires p != [] && k >= 1
    ensures Join(Take([[c] + p[0]] + p[1..], k), ". ") == [c] + Join(Take(p, k), ". ")
  {
    var rest := Take(p[1..], k - 1);
    var tailJoin: string := if rest == [] then [] else ". " + Join(rest, ". ");
    assert p == [p[0]] + p[1..];
    TakeCons([c] + p[0], p[1..], k);
    JoinCons([c] + p[0], rest, ". ");
    TakeCons(p[0], p[1..], k);
    JoinCons(p[0], rest, ". ");
    assert [c] + p[0] + tailJoin == [c] + (p[0] + tailJoin);
  }

  /** A leading character other than "." is prepended to the joined pieces. */
  lemma JoinFirstPiecesPrepend(s: string, k: nat)
    requires s != [] && s[0] != '.' && k >= 1
    ensures Join(Take(Split(s, '.'), k), ". ") == [s[0]] + Join(Take(Split(s[1..], '.'), k), ". ")
  {
    var p := Split(s[1..], '.');
    assert Split(s, '.') == [[s[0]] + p[0]] + p[1..];
    JoinTakeExtendFirst(s[0], p, k);
  }

  /** The step of `JoinFirstPieces` for any other leading character: it extends the first piece. */
  lemma JoinFirstPiecesOther(s: string, k: nat)
    requires s != [] && s[0] != '.' && k >= 1
    requires Join(Take(Split(s[1..], '.'), k), ". ") == Spaced(BeforeDot(s[1..], k))
    ensures Join(Take(Split(s, '.'), k), ". ") == Spaced(BeforeDot(s, k))
  {
    var b := BeforeDot(s[1..], k);
    JoinFirstPiecesPrepend(s, k);
    SpacedCons(s[0], b);
    assert BeforeDot(s, k) == [s[0]] + b;
  }

  /** Joining the first `k` pieces of the split with ". " is the text before the `k`-th "."
      with a space after each ".". */
  lemma {:induction false} JoinFirstPieces(s: string, k: nat)
    requires k >= 1
    ensures Join(Take(Split(s, '.'), k), ". ") == Spaced(BeforeDot(s, k))
  {
    if s != [] {
      if s[0] == '.' {
        if k > 1 {
          JoinFirstPieces(s[1..], k - 1);
        }
        JoinFirstPiecesDot(s, k);
      } else {
        JoinFirstPieces(s[1..], k);
        JoinFirstPiecesOther(s, k);
      }
    }
  }

  /** The summary is the response up to its third "." (exclusive), with a space after
      each of the first two "." and a final "." appended. */
  lemma SummaryShape(response: string)
    ensures Summarize(response) == Spaced(BeforeDot(response, MaxPieces)) + "."
  {
    JoinFirstPieces(response, MaxPieces);
  }

  /** A response with no "." becomes its own summary followed by ".". */
  lemma SummaryWithoutDot(response: string)
    requires '.' !in response
    ensures Summarize(response) == response + "."
  {
    SplitNoSep(response, '.');
  }

  /** A response with at most two "." is kept whole, each "." followed by a space. */
  lemma {:induction false} SummaryOfShortResponse(response: string)
    requires CountChar(response, '.') < MaxPieces
    ensures Summarize(response) == Spaced(response) + "."
  {
    SummaryShape(response);
    BeforeDotWhole(response, MaxPieces);
  }

  lemma {:induction false} BeforeDotWhole(s: string, k: nat)
    requires k >= 1 && CountChar(s, '.') < k
    ensures BeforeDot(s, k) == s
  {
    if s != [] {
      assert s == [s[0]] + s[1..];
      assert CountChar(s, '.') == CountChar(s[1..], '.') + (if s[0] == '.' then 1 else 0) by {
        assert multiset(s) == multiset{s[0]} + multiset(s[1..]);
      }
      BeforeDotWhole(s[1..], if s[0] == '.' then k - 1 else k);
    }
  }

  /** The summary holds at most three ".": one per kept piece boundary and the final one. */
  lemma SummaryDots(response: string)
    ensures CountChar(Summarize(response), '.') ==
      (if CountChar(response, '.') < MaxPieces then CountChar(response, '.') else MaxPieces - 1) + 1
    ensures CountChar(Summarize(response), '.') <= MaxPieces
  {
    var body := Spaced(BeforeDot(response, MaxPieces));
    SummaryShape(response);
    assert multiset(body + ".") == multiset(body) + multiset{'.'};
  }
}

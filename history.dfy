/** The session history (im.py:31-32, 45-47, 49-61, 129): a list of (question, response)
    pairs that is created empty, cleared, appended to after each successful analysis, and
    dumped as numbered plain-text blocks for download. */
module History {
  import opened Strings

  /** One history record: the question sent and the response received. */
  datatype Entry = Entry(question: string, response: string)

  /** The separator line under each block: forty dashes. */
  const Rule: string := "----------------------------------------"

  const DownloadFileName: string := "ai_history.txt"
  const DownloadMime: string := "text/plain"
  const EmptyWarning: string := "No history to download!"

  /** The block written for the `i`-th entry:
      "Query i:\n" question "\nResponse:\n" response "\n\n" forty dashes "\n\n". */
  function Block(i: nat, e: Entry): string {
    "Query " + Decimal(i) + ":\n" + e.question + "\nResponse:\n" + e.response + "\n\n" + Rule + "\n\n"
  }

  /** The blocks of `es` in order, numbered from `first`. */
  function Blocks(es: seq<Entry>, first: nat): string {
    if es == [] then "" else Block(first, es[0]) + Blocks(es[1..], first + 1)
  }

  /** The download text: every entry's block, numbered from 1 as `enumerate(history, 1)` does. */
  function Transcript(es: seq<Entry>): string {
    Blocks(es, 1)
  }

  /** What the download button yields: a warning, or the text file offered for download. */
  datatype Download = Warning(message: string) | TxtFile(data: string, fileName: string, mime: string)

  lemma BlocksCons(e: Entry, rest: seq<Entry>, first: nat)
    ensures Blocks([e] + rest, first) == Block(first, e) + Blocks(rest, first + 1)
  {
    assert ([e] + rest)[1..] == rest;
  }

  /** Concatenating two runs of entries concatenates their blocks, the second run's
      numbering continuing where the first stops. */
  lemma {:induction false} BlocksAppend(a: seq<Entry>, b: seq<Entry>, first: nat)
    ensures Blocks(a + b, first) == Blocks(a, first) + Blocks(b, first + |a|)
  {
    if a == [] {
      assert a + b == b;
    } else {
      var head := Block(first, a[0]);
      calc {
        Blocks(a + b, first);
        { assert a + b == [a[0]] + (a[1..] + b); BlocksCons(a[0], a[1..] + b, first); }
        head + Blocks(a[1..] + b, first + 1);
        { BlocksAppend(a[1..], b, first + 1); }
        head + (Blocks(a[1..], first + 1) + Blocks(b, first + |a|));
        (head + Blocks(a[1..], first + 1)) + Blocks(b, first + |a|);
        { assert a == [a[0]] + a[1..]; BlocksCons(a[0], a[1..], first); }
        Blocks(a, first) + Blocks(b, first + |a|);
      }
    }
  }

  /** Appending an entry adds exactly its block, numbered one past the previous entries,
      at the end of the download text, and leaves the earlier text as it was. */
  lemma TranscriptAppend(es: seq<Entry>, e: Entry)
    ensures Transcript(es + [e]) == Transcript(es) + Block(|es| + 1, e)
  {
    BlocksAppend(es, [e], 1);
  }

  /** The `i`-th entry (from 0) appears in the download text as block number `i + 1`,
      after the blocks of the entries before it and before those of the entries after it. */
  lemma TranscriptAt(es: seq<Entry>, i: nat)
    requires i < |es|
    ensures Transcript(es) == Transcript(es[..i]) + Block(i + 1, es[i]) + Blocks(es[i + 1..], i + 2)
  {
    assert es == es[..i] + es[i..];
    BlocksAppend(es[..i], es[i..], 1);
    assert es[i..][1..] == es[i + 1..];
  }

  /** Where the query number sits in a block: right after "Query ", ended by ":". */
  lemma BlockHeader(i: nat, e: Entry)
    ensures var b, d := Block(i, e), Decimal(i);
      |b| > 6 + |d| && b[6 + |d|] == ':' &&
      forall t :: 0 <= t < |d| ==> b[6 + t] == d[t] && b[6 + t] != ':'
  {
    var d := Decimal(i);
    var rest := "\nResponse:\n" + e.response + "\n\n" + Rule + "\n\n";
    assert Block(i, e) == ("Query " + d + ":") + ("\n" + e.question + rest);
  }

  /** A block names its entry's number: blocks with different numbers differ. */
  lemma BlockNumberInjective(i: nat, e: Entry, j: nat, f: Entry)
    requires Block(i, e) == Block(j, f)
    ensures i == j
  {
    var d, d' := Decimal(i), Decimal(j);
    BlockHeader(i, e);
    BlockHeader(j, f);
    assert |d| == |d'|;
    assert d == d';
    DecimalInjective(i, j);
  }

  /** Every block is non-empty, so the download text is empty exactly when the history is. */
  lemma TranscriptEmpty(es: seq<Entry>)
    ensures Transcript(es) == "" <==> es == []
  {
  }

  /** The history as the session holds it. */
  class SessionHistory {
    var entries: seq<Entry>

    /** A new session starts with an empty history. */
    constructor ()
      ensures entries == []
    {
      entries := [];
    }

    /** The Clear History button. */
    method Clear()
      modifies this
      ensures entries == []
    {
      entries := [];
    }

    /** Records one analysed question and its response after the earlier entries. */
    method Append(question: string, response: string)
      modifies this
      ensures entries == old(entries) + [Entry(question, response)]
    {
      entries := entries + [Entry(question, response)];
    }

    /** The Download History button: a warning when there is nothing to download, otherwise
        the text built block by block. */
    method Download() returns (d: Download)
      ensures entries == [] ==> d == Warning(EmptyWarning)
      ensures entries != [] ==> d == TxtFile(Transcript(entries), DownloadFileName, DownloadMime)
    {
      if entries == [] {
        return Warning(EmptyWarning);
      }
      var txt := "";
      var i := 0;
      while i < |entries|
        invariant 0 <= i <= |entries|
        invariant txt == Transcript(entries[..i])
      {
        assert entries[..i + 1] == entries[..i] + [entries[i]];
        TranscriptAppend(entries[..i], entries[i]);
        txt := txt + Block(i + 1, entries[i]);
        i := i + 1;
      }
      assert entries[..i] == entries;
      d := TxtFile(txt, DownloadFileName, DownloadMime);
    }
  }
}

/**
 * The reader for the language model's sentiment reply in `get_stock_sentiment`.
 * The reply is stripped and cut into lines; a line starting `OVERALL:` sets the
 * overall sentiment, a line starting `ARTICLES:` carries whitespace-separated
 * `k:sentiment` pairs, each of which may overwrite the sentiment of article `k`.
 * Everything the reader does not understand is skipped silently.
 */
module SentimentParser {
  import opened Wrappers
  import opened PyStr

  const OverallTag: string := "OVERALL:"
  const ArticlesTag: string := "ARTICLES:"
  const Neutral: string := "neutral"

  /** The two results of the reader: the overall sentiment and one sentiment per article. */
  datatype Reply = Reply(overall: string, articles: seq<string>)

  /** A pair that takes effect writes `sentiment` into the zero-based `slot`. */
  datatype SlotWrite = SlotWrite(slot: nat, sentiment: string)

  /** `['neutral'] * n`. */
  function Neutrals(n: nat): (r: seq<string>)
    ensures |r| == n
    ensures forall i :: 0 <= i < n ==> r[i] == Neutral
  {
    seq(n, _ => Neutral)
  }

  /**
   * The write one pair performs on a list of `n` labels: it needs a colon,
   * exactly two colon-separated parts, an integer before the colon and that
   * integer in 1..n. Any other pair is the ignored exception.
   */
  function TokenWrite(pair: string, n: nat): (w: Option<SlotWrite>)
    ensures w.Some? ==> w.value.slot < n
  {
    if ':' !in pair then None
    else
      var parts := SplitOn(pair, ':');
      if |parts| != 2 then None
      else
        match ParseInt(parts[0])
        case None => None
        case Some(k) => if 0 <= k - 1 < n then Some(SlotWrite(k - 1, Lower(parts[1]))) else None
  }

  predicate WritesSlot(pair: string, n: nat, i: nat) {
    var w := TokenWrite(pair, n);
    w.Some? && w.value.slot == i
  }

  function ApplyPair(labels: seq<string>, pair: string): (r: seq<string>)
    ensures |r| == |labels|
  {
    match TokenWrite(pair, |labels|)
    case Some(w) => labels[w.slot := w.sentiment]
    case None => labels
  }

  /** The pairs applied to `labels` in order, the last pair last. */
  function ApplyPairs(labels: seq<string>, pairs: seq<string>): (r: seq<string>)
    ensures |r| == |labels|
    decreases |pairs|
  {
    if pairs == [] then labels
    else ApplyPair(ApplyPairs(labels, pairs[..|pairs| - 1]), pairs[|pairs| - 1])
  }

  predicate IsOverallLine(line: string) { OverallTag <= line }
  predicate IsArticlesLine(line: string) { ArticlesTag <= line }

  /** The line with every `OVERALL:` removed, stripped and lower-cased; never checked against a vocabulary. */
  function OverallLabel(line: string): string {
    Lower(Strip(ReplaceAll(line, OverallTag)))
  }

  /** An `OVERALL:` line whose remainder holds no second tag is labelled by that remainder, stripped and lower-cased. */
  lemma OverallLabelOf(rest: string)
    requires !Occurs(rest, OverallTag)
    ensures OverallLabel(OverallTag + rest) == Lower(Strip(rest))
  {
    ReplaceAllLeading(OverallTag, rest);
  }

  /** The whitespace-separated pairs of an `ARTICLES:` line, every `ARTICLES:` removed first. */
  function ArticlePairs(line: string): seq<string> {
    SplitWhitespace(Strip(ReplaceAll(line, ArticlesTag)))
  }

  function ApplyLine(r: Reply, line: string): (r': Reply)
    ensures |r'.articles| == |r.articles|
  {
    if IsOverallLine(line) then r.(overall := OverallLabel(line))
    else if IsArticlesLine(line) then r.(articles := ApplyPairs(r.articles, ArticlePairs(line)))
    else r
  }

  /** The lines applied to `r` in order, the last line last. */
  function ApplyLines(r: Reply, lines: seq<string>): (r': Reply)
    ensures |r'.articles| == |r.articles|
    decreases |lines|
  {
    if lines == [] then r
    else ApplyLine(ApplyLines(r, lines[..|lines| - 1]), lines[|lines| - 1])
  }

  /** The lines of the stripped reply, split on '\n' only. */
  function ReplyLines(text: string): seq<string> {
    SplitOn(Strip(text), '\n')
  }

  /** What the reader makes of `text` for `n` articles. */
  function ParseReply(text: string, n: nat): (r: Reply)
    ensures |r.articles| == n
  {
    ApplyLines(Reply(Neutral, Neutrals(n)), ReplyLines(text))
  }

  /** The pairs of every `ARTICLES:` line, in reply order. */
  function ArticleTokens(lines: seq<string>): seq<string>
    decreases |lines|
  {
    if lines == [] then []
    else
      var line := lines[|lines| - 1];
      ArticleTokens(lines[..|lines| - 1])
        + (if !IsOverallLine(line) && IsArticlesLine(line) then ArticlePairs(line) else [])
  }

  function ReplyTokens(text: string): seq<string> {
    ArticleTokens(ReplyLines(text))
  }

  // ---------------------------------------------------------------------------
  // The reader as the endpoint runs it: a preallocated list overwritten by index
  // inside a loop over lines and a loop over pairs.

  method ParseSentimentReply(text: string, n: nat) returns (overall: string, labels: seq<string>)
    ensures Reply(overall, labels) == ParseReply(text, n)
  {
    var responseText := Strip(text);
    overall := Neutral;
    var slots := new string[n](_ => Neutral);
    assert slots[..] == Neutrals(n);
    var lines := SplitOn(responseText, '\n');
    for li := 0 to |lines|
      invariant Reply(overall, slots[..]) == ApplyLines(Reply(Neutral, Neutrals(n)), lines[..li])
    {
      var line := lines[li];
      assert lines[..li + 1][..li] == lines[..li];
      if OverallTag <= line {
        overall := Lower(Strip(ReplaceAll(line, OverallTag)));
      } else if ArticlesTag <= line {
        var articlesLine := Strip(ReplaceAll(line, ArticlesTag));
        WriteArticlePairs(slots, SplitWhitespace(articlesLine));
      }
    }
    labels := slots[..];
    assert lines[..|lines|] == lines;
  }

  /** The loop over the pairs of one `ARTICLES:` line, each pair inside its own try/except. */
  method WriteArticlePairs(slots: array<string>, pairs: seq<string>)
    modifies slots
    ensures slots[..] == ApplyPairs(old(slots[..]), pairs)
  {
    for pi := 0 to |pairs|
      invariant slots[..] == ApplyPairs(old(slots[..]), pairs[..pi])
    {
      var pair := pairs[pi];
      ghost var prev := slots[..];
      assert pairs[..pi + 1][..pi] == pairs[..pi];
      if ':' in pair {
        var parts := SplitOn(pair, ':');
        if |parts| == 2 {
          var idxStr, sent := parts[0], parts[1];
          var parsed := ParseInt(idxStr);
          if parsed.Some? {
            var idx := parsed.value - 1;
            if 0 <= idx < slots.Length {
              slots[idx] := Lower(sent);
            }
          }
        }
      }
      assert slots[..] == ApplyPair(prev, pair);
    }
    assert pairs[..|pairs|] == pairs;
  }

  // ---------------------------------------------------------------------------
  // What a single pair does.

  /** A pair whose colon count is not exactly one never writes anything. */
  lemma PairNeedsOneColon(pair: string, n: nat)
    requires Count(pair, ':') != 1
    ensures TokenWrite(pair, n) == None
  {
  }

  /**
   * A pair with exactly one colon, `d:sentiment`, writes `sentiment` lower-cased into
   * slot `k - 1` when `int(d)` is some `k` in 1..n, and nothing otherwise.
   */
  lemma PairWithOneColon(d: string, sentiment: string, n: nat)
    requires ':' !in d && ':' !in sentiment
    ensures TokenWrite(d + [':'] + sentiment, n) ==
      match ParseInt(d)
      case Some(k) => if 1 <= k <= n then Some(SlotWrite(k - 1, Lower(sentiment))) else None
      case None => None
  {
    var pair := d + [':'] + sentiment;
    assert Join([d, sentiment], ':') == pair;
    SplitJoin([d, sentiment], ':');
    assert pair[|d|] == ':';
  }

  /** `str(k) + ':' + sentiment` with `k` in 1..n writes `sentiment.lower()` into slot `k - 1`. */
  lemma PairForArticle(k: nat, sentiment: string, n: nat)
    requires 1 <= k <= n && ':' !in sentiment
    ensures TokenWrite(Decimal(k) + [':'] + sentiment, n) == Some(SlotWrite(k - 1, Lower(sentiment)))
  {
    ParseDecimal(k);
    assert ':' !in Decimal(k) by {
      var d := Digits(k);
      assert Decimal(k) == d;
      assert forall i :: 0 <= i < |d| ==> IsDigit(d[i]);
    }
    PairWithOneColon(Decimal(k), sentiment, n);
  }

  /** `"1:"` is taken: it writes the empty sentiment into the first slot. */
  lemma EmptyLabelAccepted(n: nat)
    requires n >= 1
    ensures TokenWrite("1:", n) == Some(SlotWrite(0, ""))
  {
    PairForArticle(1, "", n);
    assert Decimal(1) + [':'] + "" == "1:";
  }

  // ---------------------------------------------------------------------------
  // What a sequence of pairs does to each slot.

  /** A slot that no pair writes keeps its sentiment. */
  lemma {:induction false} UnwrittenSlotKept(labels: seq<string>, pairs: seq<string>, i: nat)
    requires i < |labels|
    requires forall j :: 0 <= j < |pairs| ==> !WritesSlot(pairs[j], |labels|, i)
    ensures ApplyPairs(labels, pairs)[i] == labels[i]
  {
    if pairs != [] {
      var init := pairs[..|pairs| - 1];
      assert forall j :: 0 <= j < |init| ==> init[j] == pairs[j];
      UnwrittenSlotKept(labels, init, i);
      assert !WritesSlot(pairs[|pairs| - 1], |labels|, i);
    }
  }

  /** The last pair that writes a slot decides its sentiment. */
  lemma {:induction false} LastWriteWins(labels: seq<string>, pairs: seq<string>, i: nat, j: nat)
    requires i < |labels| && j < |pairs|
    requires WritesSlot(pairs[j], |labels|, i)
    requires forall j' :: j < j' < |pairs| ==> !WritesSlot(pairs[j'], |labels|, i)
    ensures ApplyPairs(labels, pairs)[i] == TokenWrite(pairs[j], |labels|).value.sentiment
  {
    var last := |pairs| - 1;
    var init := pairs[..last];
    if j < last {
      assert forall j' :: j < j' < |init| ==> init[j'] == pairs[j'];
      LastWriteWins(labels, init, i, j);
      assert !WritesSlot(pairs[last], |labels|, i);
    } else {
      assert |ApplyPairs(labels, init)| == |labels|;
    }
  }

  lemma {:induction false} ApplyPairsAppend(labels: seq<string>, a: seq<string>, b: seq<string>)
    ensures ApplyPairs(labels, a + b) == ApplyPairs(ApplyPairs(labels, a), b)
    decreases |b|
  {
    if b == [] {
      assert a + b == a;
    } else {
      var b' := b[..|b| - 1];
      ApplyPairsAppend(labels, a, b');
      assert (a + b)[..|a + b| - 1] == a + b';
    }
  }

  // ---------------------------------------------------------------------------
  // What a sequence of lines does.

  /** The labels come from the pairs of the `ARTICLES:` lines alone, taken in reply order. */
  lemma {:induction false} LinesWriteTheirPairs(r: Reply, lines: seq<string>)
    ensures ApplyLines(r, lines).articles == ApplyPairs(r.articles, ArticleTokens(lines))
    decreases |lines|
  {
    if lines != [] {
      var init := lines[..|lines| - 1];
      var line := lines[|lines| - 1];
      LinesWriteTheirPairs(r, init);
      var ps := if !IsOverallLine(line) && IsArticlesLine(line) then ArticlePairs(line) else [];
      ApplyPairsAppend(r.articles, ArticleTokens(init), ps);
    }
  }

  /** Without an `OVERALL:` line the overall sentiment is left as it was. */
  lemma {:induction false} OverallKept(r: Reply, lines: seq<string>)
    requires forall j :: 0 <= j < |lines| ==> !IsOverallLine(lines[j])
    ensures ApplyLines(r, lines).overall == r.overall
    decreases |lines|
  {
    if lines != [] {
      var init := lines[..|lines| - 1];
      assert forall j :: 0 <= j < |init| ==> init[j] == lines[j];
      OverallKept(r, init);
    }
  }

  /** The last `OVERALL:` line decides the overall sentiment. */
  lemma {:induction false} LastOverallLineWins(r: Reply, lines: seq<string>, j: nat)
    requires j < |lines| && IsOverallLine(lines[j])
    requires forall j' :: j < j' < |lines| ==> !IsOverallLine(lines[j'])
    ensures ApplyLines(r, lines).overall == OverallLabel(lines[j])
    decreases |lines|
  {
    var last := |lines| - 1;
    var init := lines[..last];
    if j < last {
      assert forall j' :: j < j' < |init| ==> init[j'] == lines[j'];
      LastOverallLineWins(r, init, j);
    }
  }

  // ---------------------------------------------------------------------------
  // The reader's promises, stated on the reply text.

  /** Every article that no pair of the reply names keeps the sentiment "neutral". */
  lemma NeutralUnlessWritten(text: string, n: nat, i: nat)
    requires i < n
    requires forall j :: 0 <= j < |ReplyTokens(text)| ==> !WritesSlot(ReplyTokens(text)[j], n, i)
    ensures ParseReply(text, n).articles[i] == Neutral
  {
    LinesWriteTheirPairs(Reply(Neutral, Neutrals(n)), ReplyLines(text));
    UnwrittenSlotKept(Neutrals(n), ReplyTokens(text), i);
  }

  /** Across all `ARTICLES:` lines, the last pair naming an article decides its sentiment. */
  lemma LastPairWins(text: string, n: nat, i: nat, j: nat)
    requires i < n && j < |ReplyTokens(text)|
    requires WritesSlot(ReplyTokens(text)[j], n, i)
    requires forall j' :: j < j' < |ReplyTokens(text)| ==> !WritesSlot(ReplyTokens(text)[j'], n, i)
    ensures ParseReply(text, n).articles[i] == TokenWrite(ReplyTokens(text)[j], n).value.sentiment
  {
    LinesWriteTheirPairs(Reply(Neutral, Neutrals(n)), ReplyLines(text));
    LastWriteWins(Neutrals(n), ReplyTokens(text), i, j);
  }

  /** A reply without an `OVERALL:` line has the overall sentiment "neutral". */
  lemma OverallDefaultsToNeutral(text: string, n: nat)
    requires forall j :: 0 <= j < |ReplyLines(text)| ==> !IsOverallLine(ReplyLines(text)[j])
    ensures ParseReply(text, n).overall == Neutral
  {
    OverallKept(Reply(Neutral, Neutrals(n)), ReplyLines(text));
  }

  /** With several `OVERALL:` lines, the last one decides the overall sentiment. */
  lemma LastOverallWins(text: string, n: nat, j: nat)
    requires j < |ReplyLines(text)| && IsOverallLine(ReplyLines(text)[j])
    requires forall j' :: j < j' < |ReplyLines(text)| ==> !IsOverallLine(ReplyLines(text)[j'])
    ensures ParseReply(text, n).overall == OverallLabel(ReplyLines(text)[j])
  {
    LastOverallLineWins(Reply(Neutral, Neutrals(n)), ReplyLines(text), j);
  }

  /** The overall label is not checked against bullish, bearish or neutral: "OVERALL: Mixed" gives "mixed". */
  lemma OverallNotChecked()
    ensures ParseReply("OVERALL: Mixed", 0).overall == "mixed"
  {
    MixedReplyLines();
    MixedLabel();
    LastOverallWins("OVERALL: Mixed", 0, 0);
  }

  lemma MixedReplyLines()
    ensures ReplyLines("OVERALL: Mixed") == ["OVERALL: Mixed"]
  {
    assert Strip("OVERALL: Mixed") == "OVERALL: Mixed";
    SplitOnNoSep("OVERALL: Mixed", '\n');
  }

  lemma MixedLabel()
    ensures OverallLabel("OVERALL: Mixed") == "mixed"
  {
    MixedRemainder();
    MixedStripped();
    MixedLowered();
  }

  lemma MixedStripped()
    ensures Strip(" Mixed") == "Mixed"
  {
    assert " Mixed"[1..] == "Mixed";
  }

  lemma MixedLowered()
    ensures Lower("Mixed") == "mixed"
  {
  }

  lemma MixedRemainder()
    ensures ReplaceAll("OVERALL: Mixed", OverallTag) == " Mixed"
  {
    assert "OVERALL: Mixed"[|OverallTag|..] == " Mixed";
    ReplaceAllNoMatch(" Mixed", OverallTag);
  }
}

/**
 * The page rewrite of `update_html_stats`: the statistics box and the
 * sentence in the page text both get the rounded publication count.
 */
module HtmlStats {
  import opened Wrappers
  import opened Decimal
  import opened Rounding
  import opened Pattern

  /** Group 1 of the statistics expression: the opening of the number box. */
  const StatOpen: string := "<div class=\"stat-number\">"
  /** The literal start of group 2: the end of the number box. */
  const StatClose: string := "</div>"
  /** The literal end of group 2: the label box that names the statistic. */
  const StatLabel: string := "<div class=\"stat-label\">SCI Publications"

  /**
   * `(<div class="stat-number">)\d+\+?(</div>\s*<div class="stat-label">SCI Publications)`.
   * Group 2 is the middle, the white space and the tail of a match.
   */
  const Stat: Pattern := Pattern(StatOpen, true, StatClose, true, StatLabel)

  /** `With over \d+ SCI-indexed publications`. */
  const Sentence: Pattern := Pattern("With over ", false, " SCI-indexed publications", false, "")

  /** The replacement for the statistics box, `\g<1>{stat_text}\g<2>`, keeps both groups and writes the stat text between them. */
  lemma StatReplacementKeepsGroups(m: Match, pubCount: int)
    ensures Rewrite(Stat, m, StatText(pubCount)) == StatOpen + StatText(pubCount) + (StatClose + m.gap + StatLabel)
  {
  }

  /** The replacement for the sentence is the whole sentence with the rounded count. */
  lemma SentenceReplacementIsLiteral(m: Match, pubCount: int)
    requires Wf(Sentence, m)
    ensures Rewrite(Sentence, m, IntToString(RoundedCount(pubCount)))
      == "With over " + IntToString(RoundedCount(pubCount)) + " SCI-indexed publications"
  {
    assert m.gap == [];
  }

  lemma StatWellFormed()
    ensures WellFormed(Stat) && WellFormed(Sentence)
  {
  }

  lemma StatOpenBlocksStat()
    ensures Blocks(StatOpen[1..], StatOpen)
  {
    assert forall k :: 0 <= k < |StatOpen[1..]| ==> StatOpen[1..][k] != '<';
    BlocksByFirst(StatOpen[1..], StatOpen);
  }

  /** The end of the number box differs from its opening at the second character. */
  lemma StatCloseBlocksStat()
    ensures Blocks(StatClose, StatOpen)
  {
    assert StatClose[1] != StatOpen[1];
    BlocksExceptFirst(StatClose, StatOpen);
  }

  /** The label box differs from the number box at the start of `label` against `number`. */
  lemma StatLabelBlocksStat()
    ensures Blocks(StatLabel, StatOpen)
  {
    assert StatLabel[17] != StatOpen[17];
    BlocksExceptFirst(StatLabel, StatOpen);
  }

  /** Past its first character, a statistics box holds '<' only where the two boxes open, and neither opens another number box. */
  lemma StatNeverRunsIntoStat()
    ensures NeverRunsInto(Stat, Stat)
  {
    StatOpenBlocksStat();
    StatCloseBlocksStat();
    StatLabelBlocksStat();
    NeverRunsIntoByParts(Stat, Stat);
  }

  /** A statistics box holds no 'W'. */
  lemma StatNeverRunsIntoSentence()
    ensures NeverRunsInto(Stat, Sentence)
  {
    BlocksByFirst(StatOpen[1..], Sentence.head);
    BlocksByFirst(StatClose, Sentence.head);
    BlocksByFirst(StatLabel, Sentence.head);
    NeverRunsIntoByParts(Stat, Sentence);
  }

  /** The sentence holds no '<'. */
  lemma SentenceNeverRunsIntoStat()
    ensures NeverRunsInto(Sentence, Stat)
  {
    BlocksByFirst(Sentence.head[1..], StatOpen);
    BlocksByFirst(Sentence.middle, StatOpen);
    BlocksByFirst(Sentence.tail, StatOpen);
    NeverRunsIntoByParts(Sentence, Stat);
  }

  /** The sentence holds 'W' only as its first character. */
  lemma SentenceNeverRunsIntoSentence()
    ensures NeverRunsInto(Sentence, Sentence)
  {
    BlocksByFirst(Sentence.head[1..], Sentence.head);
    BlocksByFirst(Sentence.middle, Sentence.head);
    BlocksByFirst(Sentence.tail, Sentence.head);
    NeverRunsIntoByParts(Sentence, Sentence);
  }

  /** The text the sentence receives: the rounded count, without the `+`. */
  function SentenceText(pubCount: int): (r: string)
    ensures |r| > 0
    ensures pubCount >= 0 ==> Canonical(r) && Value(r) == RoundedCount(pubCount)
    ensures pubCount < 0 ==> r[0] == '-' && Canonical(r[1..]) && Value(r[1..]) == -RoundedCount(pubCount)
  {
    IntToString(RoundedCount(pubCount))
  }

  /** For a non-negative count the sentence gets exactly the decimal text of the rounded count. */
  lemma SentenceTextIsDecimal(pubCount: int)
    requires pubCount >= 0
    ensures SentenceText(pubCount) == NatToString(RoundedCount(pubCount))
  {
    CanonicalIsNatToString(SentenceText(pubCount));
  }

  /** The content after both `re.sub` calls of `update_html_stats`. */
  function PatchStats(content: string, pubCount: int): string {
    Substitute(Sentence, Substitute(Stat, content, StatText(pubCount)), SentenceText(pubCount))
  }

  /** Every statistics box and every sentence in the content already shows the rounded count. */
  predicate ShowsCount(content: string, pubCount: int) {
    Settled(Stat, content, StatText(pubCount)) && Settled(Sentence, content, SentenceText(pubCount))
  }

  lemma ValuesValid(pubCount: int)
    requires pubCount >= 0
    ensures ValidValue(Stat, StatText(pubCount)) && ValidValue(Sentence, SentenceText(pubCount))
  {
  }

  /** A page with neither a statistics box nor the sentence is left as it is, whatever the count. */
  lemma PatchWithoutFields(content: string, pubCount: int)
    requires NoOccurrence(Stat, content) && NoOccurrence(Sentence, content)
    ensures PatchStats(content, pubCount) == content
  {
    SubstituteWithoutOccurrence(Stat, content, StatText(pubCount));
    SubstituteWithoutOccurrence(Sentence, content, SentenceText(pubCount));
  }

  /** After the rewrite, every statistics box and every sentence shows the rounded count. */
  lemma PatchShowsCount(content: string, pubCount: int)
    requires pubCount >= 0
    ensures ShowsCount(PatchStats(content, pubCount), pubCount)
  {
    StatWellFormed();
    StatNeverRunsIntoStat();
    StatNeverRunsIntoSentence();
    SentenceNeverRunsIntoStat();
    SentenceNeverRunsIntoSentence();
    ValuesValid(pubCount);
    var once := Substitute(Stat, content, StatText(pubCount));
    SubstituteSettles(Stat, content, StatText(pubCount));
    SettledAcross(Stat, Sentence, once, StatText(pubCount), SentenceText(pubCount));
    SubstituteSettles(Sentence, once, SentenceText(pubCount));
  }

  /** A page that already shows the rounded count everywhere is left as it is. */
  lemma PatchKeepsShownCount(content: string, pubCount: int)
    requires ShowsCount(content, pubCount)
    ensures PatchStats(content, pubCount) == content
  {
    SubstituteSettled(Stat, content, StatText(pubCount));
    SubstituteSettled(Sentence, content, SentenceText(pubCount));
  }

  /** The rewrite changes the page exactly when some box or sentence shows another count. */
  lemma PatchUnchangedIff(content: string, pubCount: int)
    requires pubCount >= 0
    ensures PatchStats(content, pubCount) == content <==> ShowsCount(content, pubCount)
  {
    PatchShowsCount(content, pubCount);
    if ShowsCount(content, pubCount) {
      PatchKeepsShownCount(content, pubCount);
    }
  }

  /** Running the rewrite a second time with the same count changes nothing. */
  lemma PatchIdempotent(content: string, pubCount: int)
    requires pubCount >= 0
    ensures PatchStats(PatchStats(content, pubCount), pubCount) == PatchStats(content, pubCount)
  {
    PatchShowsCount(content, pubCount);
    PatchKeepsShownCount(PatchStats(content, pubCount), pubCount);
  }

  /**
   * `update_html_stats`: the page is None when it cannot be read, and
   * `updated` is the function's result. The page is written back only when
   * the rewrite changed it.
   */
  method UpdateHtmlStats(page: Option<string>, pubCount: int) returns (updated: bool, pageAfter: Option<string>)
    ensures page.None? ==> !updated && pageAfter == page
    ensures page.Some? ==> updated == (PatchStats(page.value, pubCount) != page.value)
    ensures page.Some? ==> pageAfter == Some(PatchStats(page.value, pubCount))
    ensures pubCount >= 0 && page.Some? ==> (updated <==> !ShowsCount(page.value, pubCount))
  {
    if page.None? {
      return false, page;
    }
    var original := page.value;
    var content := Substitute(Stat, original, StatText(pubCount));
    content := Substitute(Sentence, content, SentenceText(pubCount));
    if pubCount >= 0 {
      PatchUnchangedIff(original, pubCount);
    }
    updated := content != original;
    pageAfter := Some(content);
  }
}

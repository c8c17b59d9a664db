/**
  Worked examples on a 1500 x 2400 front cover (the 5 x 8 inch cover at
  300 DPI), checked against the model.
 */
module Scenarios {
  import opened Text
  import opened Checker
  import opened Aggregator

  const BadgeLine := "Award Winner"
  const BadgeWords := ["award", "winner"]
  const BadgeBox := TextBox(BadgeLine, 90, 100, 2330, 600, 40)
  const StrayBox := TextBox("Bestseller", 95, 50, 2350, 200, 40)

  lemma BadgeLineNormalized()
    ensures Normalized(BadgeBox) == "award winner"
  {
    StripUntrimmed(BadgeLine);
  }

  lemma BadgeWordsJoin()
    ensures JoinWords(BadgeWords) == "award winner"
  {
  }

  lemma BadgeWordsAreWords()
    ensures forall i :: 0 <= i < |BadgeWords| ==> IsWord(BadgeWords[i])
  {
    assert IsWord("award") && IsWord("winner");
  }

  lemma BadgeLineSplit()
    ensures Split(Normalized(BadgeBox)) == BadgeWords
  {
    BadgeLineNormalized();
    BadgeWordsJoin();
    BadgeWordsAreWords();
    SplitJoinWords(BadgeWords);
  }

  lemma BadgeBoxHasNoForeignWord()
    ensures !HasForeignWord(BadgeBox)
  {
    BadgeLineSplit();
  }

  lemma BadgeBoxSilent()
    ensures CheckBox(BadgeBox, 1500, 2400) == []
  {
    BadgeBoxHasNoForeignWord();
    assert !InMargin(BadgeBox, 1500);
    CheckBoxOverlap(BadgeBox, 1500, 2400);
  }

  /** Badge text in the badge band is tolerated: the cover passes with full score. */
  lemma BadgeTextPasses()
    ensures AnalyzeRegion(1500, 2400, [BadgeBox], []) == Report(Pass, 100, [])
  {
    BadgeBoxSilent();
    ScanSingle(BadgeBox, 1500, 2400);
    assert Scan([], 1500, 2400) == [];
  }

  lemma StrayBoxWords()
    ensures Split(Normalized(StrayBox)) == ["bestseller"]
  {
    StripUntrimmed(StrayBox.text);
    assert Normalized(StrayBox) == JoinWords(["bestseller"]);
    SplitJoinWords(["bestseller"]);
  }

  lemma BestsellerForeign()
    ensures "bestseller" !in AwardIgnore
  {
  }

  lemma StrayBoxOverlaps()
    ensures CheckBox(StrayBox, 1500, 2400) == [TextOverlap("Bestseller")]
  {
    StrayBoxWords();
    BestsellerForeign();
    assert "bestseller" in Split(Normalized(StrayBox));
    assert !InMargin(StrayBox, 1500);
    CheckBoxOverlap(StrayBox, 1500, 2400);
    var r := CheckBox(StrayBox, 1500, 2400);
    assert TextOverlap("Bestseller") in r;
    assert |r| == 1;
  }

  /** Foreign text in the badge band is critical. */
  lemma ForeignTextInBadgeIsCritical()
    ensures AnalyzeRegion(1500, 2400, [StrayBox], []) == Report(ReviewNeeded, 10, [TextOverlap("Bestseller")])
  {
    StrayBoxOverlaps();
    ScanSingle(StrayBox, 1500, 2400);
    assert Scan([], 1500, 2400) == [];
  }

  /** A narrow cover with no text gets only the resolution warning. */
  lemma NarrowEmptyCover()
    ensures AnalyzeRegion(900, 2400, [], []) == Report(Pass, 80, [LowResolution(900)])
  {
    assert Scan([], 900, 2400) == [];
  }

  /** Two-letter text is dropped even at the very edge, in both scans. */
  lemma ShortTextDropped()
    ensures var b := TextBox("Hi", 95, 0, 2390, 1500, 10);
            AnalyzeRegion(1500, 2400, [b], [b]) == Report(Pass, 100, [])
  {
    var b := TextBox("Hi", 95, 0, 2390, 1500, 10);
    StripUntrimmed(b.text);
    assert !Kept(b);
    ScanDiscarded(b, 1500, 2400);
  }
}

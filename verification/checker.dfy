/**
  The zone/margin checker: text boxes reported by the detector for one
  rendering of the front cover become issues — text reaching into the award
  badge band at the bottom, and text inside the side safety margins.
 */
module Checker {
  import opened Text

  /**
    One detection: the recognised text as the detector returned it, its
    confidence (already converted to an integer), and its box in pixels
    relative to the front cover, origin top-left.
   */
  datatype TextBox = TextBox(text: string, conf: int, x: int, y: int, w: int, h: int)

  datatype Severity = Critical | Minor {
    function Name(): string {
      match this
      case Critical => "CRITICAL"
      case Minor => "MINOR"
    }
  }

  /**
    An issue. The source builds a record of three strings (type, details,
    severity) whose details interpolate the detected text or the cover width;
    `Record` below rebuilds it and `RecordInjective` shows that two issues
    are equal exactly when their records are, so deduplicating issues and
    deduplicating records agree.
   */
  datatype Issue = TextOverlap(text: string) | MarginViolation(text: string) | LowResolution(width: nat) {
    function Severity(): Severity {
      if TextOverlap? then Critical else Minor
    }

    function Kind(): string {
      match this
      case TextOverlap(_) => "Text Overlap"
      case MarginViolation(_) => "Margin Violation"
      case LowResolution(_) => "Low Resolution"
    }

    function Details(): string {
      match this
      case TextOverlap(t) => "The text '" + t + "' is overlapping with the award badge area."
      case MarginViolation(t) => "The text '" + t + "' is too close to the edge."
      case LowResolution(w) => "Front cover width is " + Decimal(w) + "px. A width of at least 1500px is recommended."
    }

    /**
      The source's record: the type names the kind, the severity is
      "CRITICAL" for an overlap and "MINOR" otherwise, and the details quote
      the detected text (or the cover width in decimal) right after their
      fixed opening words.
     */
    function Record(): (r: (string, string, string))
      ensures r.2 == "CRITICAL" <==> TextOverlap?
      ensures r.2 == "CRITICAL" || r.2 == "MINOR"
      ensures r.0 == "Text Overlap" <==> TextOverlap?
      ensures r.0 == "Margin Violation" <==> MarginViolation?
      ensures r.0 == "Low Resolution" <==> LowResolution?
      ensures !LowResolution? ==> 10 + |text| <= |r.1| && r.1[10..10 + |text|] == text
      ensures LowResolution? ==> 21 + |Decimal(width)| <= |r.1| && r.1[21..21 + |Decimal(width)|] == Decimal(width)
    {
      (Kind(), Details(), Severity().Name())
    }
  }

  /** `p + t + q` determines `t`. */
  lemma InfixInjective(p: string, t1: string, t2: string, q: string)
    requires p + t1 + q == p + t2 + q
    ensures t1 == t2
  {
    var s := p + t1 + q;
    assert |t1| == |t2|;
    assert t1 == s[|p|..|p| + |t1|];
    assert t2 == (p + t2 + q)[|p|..|p| + |t2|];
  }

  /** Issues with the same (type, details, severity) record are the same issue. */
  lemma RecordInjective(a: Issue, b: Issue)
    ensures a.Record() == b.Record() <==> a == b
  {
    if a.Record() == b.Record() {
      match a
      case TextOverlap(t1) =>
        InfixInjective("The text '", t1, b.text, "' is overlapping with the award badge area.");
      case MarginViolation(t1) =>
        InfixInjective("The text '", t1, b.text, "' is too close to the edge.");
      case LowResolution(w1) =>
        var p, q := "Front cover width is ", "px. A width of at least 1500px is recommended.";
        InfixInjective(p, Decimal(w1), Decimal(b.width), q);
        DecimalInjective(w1, b.width);
    }
  }

  // ---------------------------------------------------------------------------
  // Filters and zones

  /** Detections at or below this confidence are ignored. */
  const ConfidenceFloor := 30
  /** Normalised texts of at most this many characters are ignored. */
  const ShortTextLength := 2

  /** The badge's own printed words; text made only of these may sit in the badge band. */
  const AwardIgnore: set<string> := {"winner", "of", "the", "21st", "century", "emily", "dickinson", "award"}

  /** The detected text stripped of surrounding whitespace and lower-cased. */
  function Normalized(b: TextBox): string {
    Lower(Strip(b.text))
  }

  /**
    A box the checker looks at: confidence above the floor, and more than two
    characters once stripped (lower-casing does not change the length).
   */
  predicate Kept(b: TextBox)
    ensures Kept(b) <==> b.conf > ConfidenceFloor && |Strip(b.text)| > ShortTextLength
  {
    b.conf > ConfidenceFloor && |Normalized(b)| > ShortTextLength
  }

  /** For a whole number `x`, `1000 * x > n` exactly when `x` exceeds the floor of `n / 1000`. */
  lemma FloorBound(x: int, n: int)
    ensures 1000 * x > n <==> x > n / 1000
  {
  }

  /** For a whole number `x`, `1000 * x < n` exactly when `x` is below the ceiling of `n / 1000`. */
  lemma CeilBound(x: int, n: int)
    ensures 1000 * x < n <==> x < (n + 999) / 1000
  {
  }

  /**
    The box's bottom edge lies below the top of the award band, the bottom
    4.5% of a cover `height` pixels tall (bottom edge above 95.5% of the
    height, compared exactly). In whole pixels: the bottom edge passes the
    row `floor(0.955 * height)`.
   */
  predicate InAwardZone(b: TextBox, height: int)
    ensures InAwardZone(b, height) <==> b.y + b.h > 955 * height / 1000
  {
    FloorBound(b.y + b.h, 955 * height);
    1000 * (b.y + b.h) > 955 * height
  }

  /**
    The box starts inside the left safety margin or ends inside the right
    one, each 2.4% of a cover `width` pixels wide (left edge below 2.4% of the
    width, or right edge beyond 97.6% of it, compared exactly). In whole
    pixels: the left edge is before column `ceil(0.024 * width)`, or the right
    edge passes column `floor(0.976 * width)`.
   */
  predicate InMargin(b: TextBox, width: int)
    ensures InMargin(b, width) <==> b.x < (24 * width + 999) / 1000 || b.x + b.w > 976 * width / 1000
  {
    CeilBound(b.x, 24 * width);
    FloorBound(b.x + b.w, 976 * width);
    1000 * b.x < 24 * width || 1000 * (b.x + b.w) > 976 * width
  }

  /** Every word is one of the badge's words. */
  predicate AllIgnored(words: seq<string>) {
    |words| == 0 || (words[0] in AwardIgnore && AllIgnored(words[1..]))
  }

  lemma {:induction false} AllIgnoredIff(words: seq<string>)
    ensures AllIgnored(words) <==> forall w :: w in words ==> w in AwardIgnore
  {
    if |words| > 0 {
      AllIgnoredIff(words[1..]);
      assert words == [words[0]] + words[1..];
    }
  }

  /** A kept box always has at least one word, so the source's `if words` guard never fails on it. */
  lemma KeptHasWords(b: TextBox)
    requires Kept(b)
    ensures Split(Normalized(b)) != []
  {
    var s := Normalized(b);
    var st := Strip(b.text);
    assert !IsSpace(st[0]);
    assert !IsSpace(s[0]) by { assert s[0] == LowerChar(st[0]); }
  }

  /** The box's text has a word that is not one of the badge's words. */
  predicate HasForeignWord(b: TextBox) {
    exists w :: w in Split(Normalized(b)) && w !in AwardIgnore
  }

  // ---------------------------------------------------------------------------
  // The checker

  /**
    The issues one box contributes, in the order the source appends them.
    A box that fails the confidence or length filter contributes nothing; a
    kept box contributes a minor margin violation exactly when it touches a
    side margin, and nothing but that and the badge-band overlap (see
    `CheckBoxOverlap`), the overlap first. Both issues name the text as detected.
   */
  function CheckBox(b: TextBox, width: int, height: int): (r: seq<Issue>)
    ensures |r| <= 2
    ensures !Kept(b) ==> r == []
    ensures MarginViolation(b.text) in r <==> Kept(b) && InMargin(b, width)
    ensures forall i :: i in r ==> i == TextOverlap(b.text) || i == MarginViolation(b.text)
    ensures |r| == 2 ==> r[0].TextOverlap? && r[1].MarginViolation?
  {
    if !(b.conf > ConfidenceFloor) then []
    else
      var text := Normalized(b);
      if |text| == 0 || |text| <= ShortTextLength then []
      else
        var words := Split(text);
        var overlap := if InAwardZone(b, height) && words != [] && !AllIgnored(words) then [TextOverlap(b.text)] else [];
        var margin := if InMargin(b, width) then [MarginViolation(b.text)] else [];
        assert Kept(b) && MarginViolation(b.text) !in overlap;
        overlap + margin
  }

  /**
    A box contributes the critical overlap exactly when it passes both
    filters, reaches into the badge band and has a word foreign to the badge.
   */
  lemma CheckBoxOverlap(b: TextBox, width: int, height: int)
    ensures TextOverlap(b.text) in CheckBox(b, width, height) <==> Kept(b) && InAwardZone(b, height) && HasForeignWord(b)
  {
    if Kept(b) {
      AllIgnoredIff(Split(Normalized(b)));
      KeptHasWords(b);
    }
  }

  /** `f` applied to every element of `xs`, the results concatenated in order. */
  function FlatMap<A, B>(f: A -> seq<B>, xs: seq<A>): seq<B> {
    if |xs| == 0 then [] else f(xs[0]) + FlatMap(f, xs[1..])
  }

  lemma {:induction false} FlatMapAppend<A, B>(f: A -> seq<B>, a: seq<A>, b: seq<A>)
    ensures FlatMap(f, a + b) == FlatMap(f, a) + FlatMap(f, b)
    decreases |a|
  {
    if |a| == 0 {
      assert a + b == b;
    } else {
      assert (a + b)[0] == a[0] && (a + b)[1..] == a[1..] + b;
      FlatMapAppend(f, a[1..], b);
    }
  }

  lemma FlatMapSingle<A, B>(f: A -> seq<B>, x: A)
    ensures FlatMap(f, [x]) == f(x)
  {
    assert [x][1..] == [];
    assert f(x) + [] == f(x);
  }

  /** An element that maps to nothing can be dropped. */
  lemma FlatMapSkip<A, B>(f: A -> seq<B>, a: seq<A>, x: A, c: seq<A>)
    requires f(x) == []
    ensures FlatMap(f, a + [x] + c) == FlatMap(f, a + c)
  {
    FlatMapAppend(f, a + [x], c);
    FlatMapAppend(f, a, [x]);
    FlatMapAppend(f, a, c);
    FlatMapSingle(f, x);
    assert FlatMap(f, a) + [] == FlatMap(f, a);
  }

  lemma {:induction false} FlatMapContains<A, B>(f: A -> seq<B>, xs: seq<A>, y: B)
    ensures y in FlatMap(f, xs) <==> exists k :: 0 <= k < |xs| && y in f(xs[k])
  {
    if |xs| > 0 {
      FlatMapContains(f, xs[1..], y);
      if y in FlatMap(f, xs[1..]) {
        var k :| 0 <= k < |xs[1..]| && y in f(xs[1..][k]);
        assert xs[1..][k] == xs[k + 1];
      }
      if exists k :: 0 <= k < |xs| && y in f(xs[k]) {
        var k :| 0 <= k < |xs| && y in f(xs[k]);
        if k > 0 {
          assert xs[k] == xs[1..][k - 1];
        }
      }
    }
  }

  lemma {:induction false} FlatMapLength<A, B>(f: A -> seq<B>, xs: seq<A>, n: nat)
    requires forall x :: |f(x)| <= n
    ensures |FlatMap(f, xs)| <= n * |xs|
  {
    if |xs| > 0 {
      FlatMapLength(f, xs[1..], n);
    }
  }

  /** The checker for a cover `width` x `height`, one box at a time. */
  function Checks(width: int, height: int): TextBox -> seq<Issue> {
    b => CheckBox(b, width, height)
  }

  /** `run_ocr_and_check`: the issues of every box, box by box, in detection order. */
  function Scan(boxes: seq<TextBox>, width: int, height: int): (r: seq<Issue>)
    ensures |r| <= 2 * |boxes|
  {
    FlatMapLength(Checks(width, height), boxes, 2);
    FlatMap(Checks(width, height), boxes)
  }

  /** An issue comes out of a scan exactly when some box of the list contributes it. */
  lemma ScanContains(boxes: seq<TextBox>, width: int, height: int, i: Issue)
    ensures i in Scan(boxes, width, height) <==> exists k :: 0 <= k < |boxes| && i in CheckBox(boxes[k], width, height)
  {
    FlatMapContains(Checks(width, height), boxes, i);
  }

  /** Scanning one box gives that box's issues. */
  lemma ScanSingle(b: TextBox, width: int, height: int)
    ensures Scan([b], width, height) == CheckBox(b, width, height)
  {
    FlatMapSingle(Checks(width, height), b);
  }

  lemma ScanDiscarded(b: TextBox, width: int, height: int)
    requires !Kept(b)
    ensures Scan([b], width, height) == []
  {
    ScanSingle(b, width, height);
  }

  /** Scanning two lists of boxes one after the other gives the two scans' issues one after the other. */
  lemma ScanAppend(a: seq<TextBox>, b: seq<TextBox>, width: int, height: int)
    ensures Scan(a + b, width, height) == Scan(a, width, height) + Scan(b, width, height)
  {
    FlatMapAppend(Checks(width, height), a, b);
  }

  /** A box that fails the confidence or length filter changes nothing, wherever it lies and wherever it sits in the list. */
  lemma DiscardedBoxInvisible(a: seq<TextBox>, b: TextBox, c: seq<TextBox>, width: int, height: int)
    requires !Kept(b)
    ensures Scan(a + [b] + c, width, height) == Scan(a + c, width, height)
  {
    ScanDiscarded(b, width, height);
    FlatMapSkip(Checks(width, height), a, b, c);
  }

  /** The checker never reports resolution: that is the aggregator's business. */
  lemma ScanHasNoResolutionIssue(boxes: seq<TextBox>, width: int, height: int, w: nat)
    ensures LowResolution(w) !in Scan(boxes, width, height)
  {
    ScanContains(boxes, width, height, LowResolution(w));
  }

  /** A box that reaches into the badge band with a word foreign to the badge. */
  predicate OffendsBadge(b: TextBox, height: int) {
    Kept(b) && InAwardZone(b, height) && HasForeignWord(b)
  }

  /** Every critical issue of a scan is a badge-band overlap by a box that offends the badge. */
  lemma ScanCriticalMeansOverlap(boxes: seq<TextBox>, width: int, height: int, i: Issue)
    ensures i in Scan(boxes, width, height) && i.Severity() == Critical ==>
            exists k :: 0 <= k < |boxes| && i == TextOverlap(boxes[k].text) && OffendsBadge(boxes[k], height)
  {
    ScanContains(boxes, width, height, i);
    if i in Scan(boxes, width, height) && i.Severity() == Critical {
      var k :| 0 <= k < |boxes| && i in CheckBox(boxes[k], width, height);
      CheckBoxOverlap(boxes[k], width, height);
    }
  }

  /** Every box that offends the badge yields its critical overlap in the scan. */
  lemma OverlapInScan(boxes: seq<TextBox>, width: int, height: int, k: int)
    requires 0 <= k < |boxes| && OffendsBadge(boxes[k], height)
    ensures TextOverlap(boxes[k].text) in Scan(boxes, width, height)
  {
    CheckBoxOverlap(boxes[k], width, height);
    ScanContains(boxes, width, height, TextOverlap(boxes[k].text));
  }

  /** A scan holds a critical issue exactly when one of its boxes offends the badge. */
  lemma ScanCriticalIff(boxes: seq<TextBox>, width: int, height: int)
    ensures (exists i :: i in Scan(boxes, width, height) && i.Severity() == Critical) <==>
            (exists b :: b in boxes && OffendsBadge(b, height))
  {
    if exists i :: i in Scan(boxes, width, height) && i.Severity() == Critical {
      var i :| i in Scan(boxes, width, height) && i.Severity() == Critical;
      ScanCriticalMeansOverlap(boxes, width, height, i);
      var k :| 0 <= k < |boxes| && i == TextOverlap(boxes[k].text) && OffendsBadge(boxes[k], height);
      assert boxes[k] in boxes;
    }
    if exists b :: b in boxes && OffendsBadge(b, height) {
      var b :| b in boxes && OffendsBadge(b, height);
      var k :| 0 <= k < |boxes| && boxes[k] == b;
      OverlapInScan(boxes, width, height, k);
      assert TextOverlap(b.text).Severity() == Critical;
    }
  }
}

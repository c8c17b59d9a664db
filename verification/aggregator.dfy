/**
  The issue aggregator and the analysis entry points: the two scans' issues
  and the resolution warning are merged, duplicates are removed, and a status
  and a three-level confidence score are derived from what remains.
 */
module Aggregator {
  import opened Raster
  import opened Checker

  // ---------------------------------------------------------------------------
  // Deduplication

  predicate NoDuplicates(xs: seq<Issue>) {
    forall i, j :: 0 <= i < j < |xs| ==> xs[i] != xs[j]
  }

  function Elems(xs: seq<Issue>): set<Issue> {
    set x | x in xs
  }

  /** The elements of `xs` not in `seen`, each once, in order of first occurrence. */
  function DedupFrom(xs: seq<Issue>, seen: set<Issue>): (r: seq<Issue>)
    ensures NoDuplicates(r)
    ensures forall x :: x in r <==> x in xs && x !in seen
    ensures |r| <= |xs|
  {
    if |xs| == 0 then []
    else if xs[0] in seen then DedupFrom(xs[1..], seen)
    else
      var rest := DedupFrom(xs[1..], seen + {xs[0]});
      assert xs[0] !in rest;
      [xs[0]] + rest
  }

  /** The distinct elements of `xs`, each once, as the source's set of issue records keeps them. */
  function Dedup(xs: seq<Issue>): (r: seq<Issue>)
    ensures NoDuplicates(r)
    ensures Elems(r) == Elems(xs)
    ensures |r| <= |xs|
  {
    DedupFrom(xs, {})
  }

  /** A list without duplicates has as many distinct elements as entries. */
  lemma {:induction false} NoDuplicatesCardinality(xs: seq<Issue>)
    requires NoDuplicates(xs)
    ensures |Elems(xs)| == |xs|
  {
    if |xs| > 0 {
      NoDuplicatesCardinality(xs[1..]);
      assert Elems(xs) == {xs[0]} + Elems(xs[1..]);
      assert xs[0] !in Elems(xs[1..]);
    }
  }

  lemma {:induction false} DedupFromIdentity(xs: seq<Issue>, seen: set<Issue>)
    requires NoDuplicates(xs)
    requires forall x :: x in xs ==> x !in seen
    ensures DedupFrom(xs, seen) == xs
  {
    if |xs| > 0 {
      assert xs[0] !in xs[1..];
      DedupFromIdentity(xs[1..], seen + {xs[0]});
    }
  }

  /** Deduplication is idempotent. */
  lemma DedupIdempotent(xs: seq<Issue>)
    ensures Dedup(Dedup(xs)) == Dedup(xs)
  {
    DedupFromIdentity(Dedup(xs), {});
  }

  /** Deduplicating a concatenation: the second part only adds what the first has not already shown. */
  lemma {:induction false} DedupFromAppend(xs: seq<Issue>, ys: seq<Issue>, seen: set<Issue>)
    ensures DedupFrom(xs + ys, seen) == DedupFrom(xs, seen) + DedupFrom(ys, seen + Elems(xs))
    decreases |xs|
  {
    if |xs| == 0 {
      assert xs + ys == ys;
      assert Elems(xs) == {};
      assert seen + Elems(xs) == seen;
    } else {
      var xy := xs + ys;
      assert xy[0] == xs[0] && xy[1..] == xs[1..] + ys;
      assert Elems(xs) == {xs[0]} + Elems(xs[1..]);
      if xs[0] in seen {
        DedupFromAppend(xs[1..], ys, seen);
        assert seen + Elems(xs[1..]) == seen + Elems(xs);
      } else {
        DedupFromAppend(xs[1..], ys, seen + {xs[0]});
        assert seen + {xs[0]} + Elems(xs[1..]) == seen + Elems(xs);
      }
    }
  }

  // ---------------------------------------------------------------------------
  // Status and score

  /** A cover narrower than this many pixels draws a resolution warning. */
  const MinCoverWidth := 1000

  datatype Status = Pass | ReviewNeeded {
    function Name(): string {
      match this
      case Pass => "PASS"
      case ReviewNeeded => "REVIEW NEEDED"
    }
  }

  /** The analysis result; `issues` holds each distinct issue once. */
  datatype Report = Report(status: Status, score: int, issues: seq<Issue>)

  predicate HasCritical(issues: seq<Issue>) {
    exists i :: i in issues && i.Severity() == Critical
  }

  /** The resolution warning, present only for covers narrower than `MinCoverWidth`. */
  function ResolutionIssues(coverWidth: nat): (r: seq<Issue>)
    ensures LowResolution(coverWidth) in r <==> coverWidth < MinCoverWidth
    ensures forall i :: i in r ==> i == LowResolution(coverWidth)
  {
    if coverWidth < MinCoverWidth then [LowResolution(coverWidth)] else []
  }

  /**
    Dedupe `all`, then decide: REVIEW NEEDED with score 10 when a critical
    issue remains, otherwise PASS with score 80 when some issue remains and
    100 when none does.
   */
  function Finalize(all: seq<Issue>): (r: Report)
    ensures NoDuplicates(r.issues)
    ensures forall i :: i in r.issues <==> i in all
    ensures r.status == ReviewNeeded <==> HasCritical(all)
    ensures r.score == 10 <==> HasCritical(all)
    ensures r.score == 80 <==> all != [] && !HasCritical(all)
    ensures r.score == 100 <==> all == []
  {
    var unique := Dedup(all);
    assert Elems(unique) == Elems(all);
    assert all != [] ==> all[0] in unique;
    var critical := exists i :: i in unique && i.Severity() == Critical;
    var status := if critical then ReviewNeeded else Pass;
    var score := if critical then 10 else if |unique| > 0 then 80 else 100;
    Report(status, score, unique)
  }

  /** The verdict depends only on which issues were found, not on their order or multiplicity. */
  lemma FinalizeDependsOnElements(a: seq<Issue>, b: seq<Issue>)
    requires Elems(a) == Elems(b)
    ensures Finalize(a).status == Finalize(b).status
    ensures Finalize(a).score == Finalize(b).score
    ensures Elems(Finalize(a).issues) == Elems(Finalize(b).issues)
    ensures |Finalize(a).issues| == |Finalize(b).issues|
  {
    assert forall i :: i in a <==> i in Elems(a);
    assert forall i :: i in b <==> i in Elems(b);
    NoDuplicatesCardinality(Finalize(a).issues);
    NoDuplicatesCardinality(Finalize(b).issues);
    assert Elems(Finalize(a).issues) == Elems(a);
    assert Elems(Finalize(b).issues) == Elems(b);
  }

  /** Finalising an already final issue list changes nothing. */
  lemma FinalizeIdempotent(all: seq<Issue>)
    ensures Finalize(Finalize(all).issues) == Finalize(all)
  {
    DedupIdempotent(all);
  }

  /**
    More issues never make the verdict better: a critical issue anywhere forces
    REVIEW NEEDED and score 10, and in every case the score can only drop.
   */
  lemma MoreIssuesNeverHelp(a: seq<Issue>, b: seq<Issue>)
    ensures Finalize(a + b).score <= Finalize(a).score
    ensures Finalize(a).status == ReviewNeeded ==> Finalize(a + b).status == ReviewNeeded
    ensures HasCritical(b) ==> Finalize(a + b).status == ReviewNeeded && Finalize(a + b).score == 10
  {
    if HasCritical(a) {
      var i :| i in a && i.Severity() == Critical;
      assert i in a + b;
    }
    if HasCritical(b) {
      var i :| i in b && i.Severity() == Critical;
      assert i in a + b;
    }
    if a != [] {
      assert (a + b)[0] == a[0];
    }
  }

  // ---------------------------------------------------------------------------
  // Entry points

  /**
    Every issue found before deduplication: the first scan's issues in order,
    then the second's, then the resolution warning if the cover is narrow.
   */
  function Collect(issues1: seq<Issue>, issues2: seq<Issue>, coverWidth: nat): (r: seq<Issue>)
    ensures |r| == |issues1| + |issues2| + (if coverWidth < MinCoverWidth then 1 else 0)
    ensures r[..|issues1|] == issues1 && r[|issues1|..|issues1| + |issues2|] == issues2
    ensures forall i :: i in r <==> i in issues1 || i in issues2 || (i == LowResolution(coverWidth) && coverWidth < MinCoverWidth)
  {
    var r := issues1 + issues2 + ResolutionIssues(coverWidth);
    assert r[..|issues1|] == issues1;
    assert r[|issues1|..|issues1| + |issues2|] == issues2;
    r
  }

  /**
    The analysis of a front cover `width` x `height` pixels, given the boxes
    the detector found in its two renderings.
   */
  function AnalyzeRegion(width: nat, height: nat, boxes1: seq<TextBox>, boxes2: seq<TextBox>): (r: Report)
    ensures NoDuplicates(r.issues)
    ensures forall i :: i in r.issues <==>
              i in Scan(boxes1, width, height) || i in Scan(boxes2, width, height) || (i == LowResolution(width) && width < MinCoverWidth)
    ensures LowResolution(width) in r.issues <==> width < MinCoverWidth
    ensures r.score == 10 || r.score == 80 || r.score == 100
    ensures r.status == ReviewNeeded <==> r.score == 10
    ensures r.status == ReviewNeeded <==> HasCritical(r.issues)
    ensures r.score == 80 <==> r.issues != [] && !HasCritical(r.issues)
    ensures r.score == 100 <==> r.issues == []
  {
    var s1, s2 := Scan(boxes1, width, height), Scan(boxes2, width, height);
    var low := ResolutionIssues(width);
    var all := Collect(s1, s2, width);
    assert all == s1 + s2 + low;
    assert forall i :: i in all <==> i in s1 || i in s2 || i in low;
    ScanHasNoResolutionIssue(boxes1, width, height, width);
    ScanHasNoResolutionIssue(boxes2, width, height, width);
    var r := Finalize(all);
    assert HasCritical(r.issues) <==> HasCritical(all) by {
      assert forall i :: i in r.issues <==> i in all;
    }
    assert r.issues == [] <==> all == [] by {
      if all != [] {
        assert all[0] in r.issues;
      }
    }
    r
  }

  /**
    End to end: the report asks for review exactly when one of the two scans
    holds a confident box, with more than two characters of text, that reaches
    into the award band and carries a word foreign to the badge.
   */
  lemma ReviewIffForeignTextInBadge(width: nat, height: nat, boxes1: seq<TextBox>, boxes2: seq<TextBox>)
    ensures AnalyzeRegion(width, height, boxes1, boxes2).status == ReviewNeeded <==>
              exists b :: (b in boxes1 || b in boxes2) && OffendsBadge(b, height)
  {
    var s1, s2 := Scan(boxes1, width, height), Scan(boxes2, width, height);
    var low := ResolutionIssues(width);
    ScanCriticalIff(boxes1, width, height);
    ScanCriticalIff(boxes2, width, height);
    CollectCritical(s1, s2, width);
  }

  /** The resolution warning is minor: a collected list is critical exactly when one of the scans is. */
  lemma CollectCritical(s1: seq<Issue>, s2: seq<Issue>, width: nat)
    ensures HasCritical(Collect(s1, s2, width)) <==> HasCritical(s1) || HasCritical(s2)
  {
    var all := Collect(s1, s2, width);
    assert forall i :: i in all <==> i in s1 || i in s2 || i in ResolutionIssues(width);
  }

  /** The two renderings play symmetric roles: swapping their boxes gives the same verdict and issues. */
  lemma ScansSymmetric(width: nat, height: nat, boxes1: seq<TextBox>, boxes2: seq<TextBox>)
    ensures AnalyzeRegion(width, height, boxes1, boxes2).status == AnalyzeRegion(width, height, boxes2, boxes1).status
    ensures AnalyzeRegion(width, height, boxes1, boxes2).score == AnalyzeRegion(width, height, boxes2, boxes1).score
    ensures Elems(AnalyzeRegion(width, height, boxes1, boxes2).issues) == Elems(AnalyzeRegion(width, height, boxes2, boxes1).issues)
  {
    var s1, s2 := Scan(boxes1, width, height), Scan(boxes2, width, height);
    var low := ResolutionIssues(width);
    assert Elems(s1 + s2 + low) == Elems(s2 + s1 + low);
    FinalizeDependsOnElements(s1 + s2 + low, s2 + s1 + low);
  }

  /** Text found identically by both renderings is reported once: two identical scans report what one does. */
  lemma IdenticalScansCollapse(width: nat, height: nat, boxes: seq<TextBox>)
    ensures AnalyzeRegion(width, height, boxes, boxes) == AnalyzeRegion(width, height, boxes, [])
  {
    var s := Scan(boxes, width, height);
    var low := ResolutionIssues(width);
    assert Scan([], width, height) == [];
    assert Collect(s, [], width) == s + low;
    DedupRepeatedPrefix(s, low);
  }

  /** Repeating a block of issues adds nothing after deduplication. */
  lemma DedupRepeatedPrefix(s: seq<Issue>, t: seq<Issue>)
    ensures Dedup(s + s + t) == Dedup(s + t)
  {
    var e := Elems(s);
    assert Elems(s + s) == e;
    assert {} + e == e;
    DedupFromCovered(s, e);
    calc {
      Dedup(s + s + t);
    ==  { DedupFromAppend(s + s, t, {}); }
      DedupFrom(s + s, {}) + DedupFrom(t, e);
    ==  { DedupFromAppend(s, s, {}); }
      DedupFrom(s, {}) + DedupFrom(s, e) + DedupFrom(t, e);
    ==  { assert DedupFrom(s, {}) + [] == DedupFrom(s, {}); }
      DedupFrom(s, {}) + DedupFrom(t, e);
    ==  { DedupFromAppend(s, t, {}); }
      Dedup(s + t);
    }
  }

  /** Nothing is left when every element has been seen already. */
  lemma DedupFromCovered(xs: seq<Issue>, seen: set<Issue>)
    requires forall x :: x in xs ==> x in seen
    ensures DedupFrom(xs, seen) == []
  {
  }

  /**
    `analyze_image`: cut the front cover out of the spread, render it twice
    (thresholds 160 and 120, each inverted), let `ocr` detect text boxes in
    each rendering, and aggregate.
   */
  function AnalyzeImage(img: Image, ocr: Image -> seq<TextBox>): (r: Report)
    requires img.Valid()
    ensures NoDuplicates(r.issues)
    ensures var cover, w := FrontCover(img), CoverWidth(img.width);
            forall i :: i in r.issues <==>
              i in Scan(ocr(Binarize(cover, LightTextThreshold)), w, img.height) ||
              i in Scan(ocr(Binarize(cover, DarkTextThreshold)), w, img.height) ||
              (i == LowResolution(w) && w < MinCoverWidth)
    ensures LowResolution(CoverWidth(img.width)) in r.issues <==> CoverWidth(img.width) < MinCoverWidth
    ensures r.score == 10 || r.score == 80 || r.score == 100
    ensures r.status == ReviewNeeded <==> r.score == 10
    ensures r.status == ReviewNeeded <==> HasCritical(r.issues)
    ensures r.score == 80 <==> r.issues != [] && !HasCritical(r.issues)
    ensures r.score == 100 <==> r.issues == []
  {
    var cover := FrontCover(img);
    var v1 := Binarize(cover, LightTextThreshold);
    var v2 := Binarize(cover, DarkTextThreshold);
    AnalyzeRegion(cover.width, cover.height, ocr(v1), ocr(v2))
  }

  /** The left page of the spread never influences the report. */
  lemma AnalyzeImageIgnoresLeftHalf(a: Image, b: Image, ocr: Image -> seq<TextBox>)
    requires a.Valid() && b.Valid()
    requires a.width == b.width && a.height == b.height
    requires forall i, j :: 0 <= i < a.height && a.width / 2 <= j < a.width ==> a.rows[i][j] == b.rows[i][j]
    ensures AnalyzeImage(a, ocr) == AnalyzeImage(b, ocr)
  {
    FrontCoverIgnoresLeftHalf(a, b);
  }
}

/** Multi-scale template matching (`find_image_cv2`, core_engine.py:226-246)
    and the cached-location re-check (`quick_check_cv2`,
    core_engine.py:248-289). The correlation primitive is an oracle: for each
    scale it reports the scaled template's size and the best score and
    location in the screenshot. Scores are abstract ordered values. */
module Matcher {
  import opened Wrappers
  import opened Geometry
  import Regions

  /** SCALES (core_engine.py:216), native scale first. */
  const Scales: seq<real> := [1.0, 0.9, 1.1, 0.8, 1.2]

  /** QUICK_CHECK_SCALES (core_engine.py:35). */
  const QuickCheckScales: seq<real> := [1.0, 0.9, 1.1]

  /** A score at or above this (and the caller's threshold) stops the scan. */
  const EarlyExitScore: real := 0.95

  /** The initial best score of the scan. */
  const NoScore: real := -1.0

  /** One scale's outcome: no template could be loaded, or the scaled
      template's size with the best correlation score and its top-left
      location in the screenshot. */
  datatype Probe = NoTemplate | Probe(tw: nat, th: nat, score: real, loc: Point)

  /** A template that loaded and fits inside the screenshot. */
  predicate Usable(p: Probe, screenW: nat, screenH: nat) {
    p.Probe? && p.th <= screenH && p.tw <= screenW
  }

  datatype Match = Match(centre: Point, w: nat, h: nat, score: real)

  /** The reported match for a probe: the template's centre in screen
      coordinates. */
  function MatchOf(p: Probe, offset: Point): (m: Match)
    requires p.Probe?
    ensures m.score == p.score && m.w == p.tw && m.h == p.th
    ensures p.loc.x + offset.x <= m.centre.x <= p.loc.x + offset.x + p.tw
    ensures p.loc.y + offset.y <= m.centre.y <= p.loc.y + offset.y + p.th
  {
    Match(Point(offset.x + p.loc.x + p.tw / 2, offset.y + p.loc.y + p.th / 2), p.tw, p.th, p.score)
  }

  function ProbeAt(probe: real -> Probe, k: nat): Probe
    requires k < |Scales|
  {
    probe(Scales[k])
  }

  /** The best score after the first `n` scales: -1 at first, replaced by
      a usable scale's score only on strict improvement. */
  function BestScore(probe: real -> Probe, screenW: nat, screenH: nat, n: nat): (b: real)
    requires n <= |Scales|
    ensures b >= NoScore
    ensures forall k :: 0 <= k < n && Usable(ProbeAt(probe, k), screenW, screenH) ==> ProbeAt(probe, k).score <= b
    ensures b == NoScore || exists k :: 0 <= k < n && Usable(ProbeAt(probe, k), screenW, screenH) && ProbeAt(probe, k).score == b
  {
    if n == 0 then NoScore
    else
      var b := BestScore(probe, screenW, screenH, n - 1);
      var p := ProbeAt(probe, n - 1);
      if Usable(p, screenW, screenH) && p.score > b then p.score else b
  }

  /** The scan stops after scale `j`: it is usable and the best score so
      far reaches both 0.95 and `conf`. */
  predicate ExitsAt(probe: real -> Probe, conf: real, screenW: nat, screenH: nat, j: nat)
    requires j < |Scales|
  {
    && Usable(ProbeAt(probe, j), screenW, screenH)
    && BestScore(probe, screenW, screenH, j + 1) >= EarlyExitScore
    && BestScore(probe, screenW, screenH, j + 1) >= conf
  }

  /** Scale `j` is where the scan stops. */
  predicate FirstExit(probe: real -> Probe, conf: real, screenW: nat, screenH: nat, j: nat)
    requires j < |Scales|
  {
    ExitsAt(probe, conf, screenW, screenH, j) && forall k :: 0 <= k < j ==> !ExitsAt(probe, conf, screenW, screenH, k)
  }

  /** What the scan has established after its first `i` scales: the best
      score and the first scale that reached it, and whether it stopped
      early (then at scale `i - 1`). */
  predicate Scanned(probe: real -> Probe, conf: real, screenW: nat, screenH: nat,
                    i: nat, bestScore: real, bestIdx: Option<nat>, stopped: bool)
  {
    && i <= |Scales|
    && bestScore == BestScore(probe, screenW, screenH, i)
    && (bestIdx.None? ==> bestScore == NoScore)
    && (bestIdx.Some? ==> && bestIdx.value < i && Usable(ProbeAt(probe, bestIdx.value), screenW, screenH)
                          && ProbeAt(probe, bestIdx.value).score == bestScore && bestScore > NoScore)
    && (bestIdx.Some? ==> forall k :: 0 <= k < bestIdx.value && Usable(ProbeAt(probe, k), screenW, screenH) ==>
          ProbeAt(probe, k).score < bestScore)
    && (!stopped && bestIdx.Some? ==> bestScore < EarlyExitScore || bestScore < conf)
    && (!stopped ==> forall k :: 0 <= k < i ==> !ExitsAt(probe, conf, screenW, screenH, k))
    && (stopped ==> i >= 1 && bestIdx == Some(i - 1) && FirstExit(probe, conf, screenW, screenH, i - 1))
  }

  /** One more scale scanned: a usable scale that beats the best so far
      becomes the best, and the scan stops once the best reaches both 0.95
      and `conf`. */
  lemma ScanStep(probe: real -> Probe, conf: real, screenW: nat, screenH: nat, i: nat,
                 bestScore: real, bestIdx: Option<nat>, nextScore: real, nextIdx: Option<nat>, nextStopped: bool)
    requires Scanned(probe, conf, screenW, screenH, i, bestScore, bestIdx, false) && i < |Scales|
    requires var p := ProbeAt(probe, i);
      && nextScore == (if Usable(p, screenW, screenH) && p.score > bestScore then p.score else bestScore)
      && nextIdx == (if Usable(p, screenW, screenH) && p.score > bestScore then Some(i) else bestIdx)
      && nextStopped == (Usable(p, screenW, screenH) && nextScore >= EarlyExitScore && nextScore >= conf)
    ensures Scanned(probe, conf, screenW, screenH, i + 1, nextScore, nextIdx, nextStopped)
  {
    assert nextScore == BestScore(probe, screenW, screenH, i + 1);
    assert ExitsAt(probe, conf, screenW, screenH, i) <==> nextStopped;
  }

  /** The reported match: the best scale's, when its score reaches `conf`. */
  function Report(probe: real -> Probe, conf: real, offset: Point, bestScore: real, bestIdx: Option<nat>): Option<Match>
    requires bestIdx.Some? ==> bestIdx.value < |Scales| && ProbeAt(probe, bestIdx.value).Probe?
  {
    if bestScore >= conf && bestIdx.Some? then Some(MatchOf(ProbeAt(probe, bestIdx.value), offset)) else None
  }

  /** The result of a finished scan meets the contract of `FindImage`. */
  lemma ScannedReport(probe: real -> Probe, conf: real, screenW: nat, screenH: nat, offset: Point,
                      i: nat, bestScore: real, bestIdx: Option<nat>, stopped: bool)
    requires Scanned(probe, conf, screenW, screenH, i, bestScore, bestIdx, stopped)
    requires i == |Scales| || stopped
    ensures var r := Report(probe, conf, offset, bestScore, bestIdx);
      && (r.Some? ==> r.value.score >= conf && r.value.score > NoScore)
      && (r.Some? ==> exists j :: 0 <= j < |Scales| && Usable(ProbeAt(probe, j), screenW, screenH)
                                  && r.value == MatchOf(ProbeAt(probe, j), offset)
                                  && (forall k :: 0 <= k < j && Usable(ProbeAt(probe, k), screenW, screenH) ==>
                                                    ProbeAt(probe, k).score < r.value.score))
      && (r.Some? ==> r.value.score >= EarlyExitScore ||
                      forall k :: 0 <= k < |Scales| && Usable(ProbeAt(probe, k), screenW, screenH) ==>
                                    ProbeAt(probe, k).score <= r.value.score)
      && (r.None? <==> forall k :: 0 <= k < |Scales| && Usable(ProbeAt(probe, k), screenW, screenH) ==>
            ProbeAt(probe, k).score < conf || ProbeAt(probe, k).score <= NoScore)
      && (forall j :: 0 <= j < |Scales| && FirstExit(probe, conf, screenW, screenH, j) ==>
            r == Some(MatchOf(ProbeAt(probe, j), offset)))
  {
    if stopped {
      forall j | 0 <= j < |Scales| && FirstExit(probe, conf, screenW, screenH, j)
        ensures j == i - 1
      {
      }
    }
  }

  /** The best-scoring usable scale, kept on strict improvement over an
      initial score of -1, scanning the scales in order and stopping as soon
      as the best score reaches both 0.95 and `conf`. A match is reported
      only when the best score reaches `conf`. */
  method FindImage(probe: real -> Probe, conf: real, screenW: nat, screenH: nat, offset: Point)
    returns (r: Option<Match>)
    ensures r.Some? ==> r.value.score >= conf && r.value.score > NoScore
    ensures r.Some? ==> (exists j :: 0 <= j < |Scales| && Usable(ProbeAt(probe, j), screenW, screenH)
                                     && r.value == MatchOf(ProbeAt(probe, j), offset)
                                     && (forall k :: 0 <= k < j && Usable(ProbeAt(probe, k), screenW, screenH) ==>
                                                       ProbeAt(probe, k).score < r.value.score))
    ensures r.Some? ==> (r.value.score >= EarlyExitScore ||
                         forall k :: 0 <= k < |Scales| && Usable(ProbeAt(probe, k), screenW, screenH) ==>
                                       ProbeAt(probe, k).score <= r.value.score)
    ensures r.None? <==> forall k :: 0 <= k < |Scales| && Usable(ProbeAt(probe, k), screenW, screenH) ==>
      ProbeAt(probe, k).score < conf || ProbeAt(probe, k).score <= NoScore
    ensures forall j :: 0 <= j < |Scales| && FirstExit(probe, conf, screenW, screenH, j) ==>
      r == Some(MatchOf(ProbeAt(probe, j), offset))
  {
    var i, bestScore, bestIdx, stopped := Scan(probe, conf, screenW, screenH);
    ScannedReport(probe, conf, screenW, screenH, offset, i, bestScore, bestIdx, stopped);
    r := Report(probe, conf, offset, bestScore, bestIdx);
  }

  /** The scan loop of `find_image_cv2`: scales in order until the last one
      or an early stop. */
  method Scan(probe: real -> Probe, conf: real, screenW: nat, screenH: nat)
    returns (i: nat, bestScore: real, bestIdx: Option<nat>, stopped: bool)
    ensures Scanned(probe, conf, screenW, screenH, i, bestScore, bestIdx, stopped)
    ensures i == |Scales| || stopped
  {
    bestScore, bestIdx, i, stopped := NoScore, None, 0, false;
    while i < |Scales| && !stopped
      invariant Scanned(probe, conf, screenW, screenH, i, bestScore, bestIdx, stopped)
    {
      var p := ProbeAt(probe, i);
      var nextScore, nextIdx, nextStopped := bestScore, bestIdx, false;
      if Usable(p, screenW, screenH) {
        if p.score > bestScore {
          nextScore, nextIdx := p.score, Some(i);
        }
        nextStopped := nextScore >= EarlyExitScore && nextScore >= conf;
      }
      ScanStep(probe, conf, screenW, screenH, i, bestScore, bestIdx, nextScore, nextIdx, nextStopped);
      bestScore, bestIdx, stopped := nextScore, nextIdx, nextStopped;
      i := i + 1;
    }
  }

  /** A template can be no larger in one dimension than the image it is
      matched in while being larger in the other: OpenCV's `matchTemplate`
      then raises `cv2.error`. A template larger in both dimensions is
      matched with the roles swapped. */
  predicate Raises(tw: nat, th: nat, win: (int, int, int, int))
  {
    var (l, t, r, b) := win;
    (r - l < tw && b - t > th) || (b - t < th && r - l > tw)
  }

  /** The crop window of quick-check scale `k`, when the template loads. */
  function QuickWindow(template: real -> Option<(nat, nat)>, target: Point, offset: Point,
                       width: nat, height: nat, k: nat): Option<(int, int, int, int)>
    requires k < |QuickCheckScales|
  {
    var scale := QuickCheckScales[k];
    if template(scale).None? then None
    else Regions.QuickCheckWindow(template(scale).value.0, template(scale).value.1, target, offset, width, height)
  }

  /** Matching at quick-check scale `k` raises, which ends the whole
      re-check with `False`. */
  predicate QuickRaises(template: real -> Option<(nat, nat)>, target: Point, offset: Point,
                        width: nat, height: nat, k: nat)
    requires k < |QuickCheckScales|
  {
    var win := QuickWindow(template, target, offset, width, height, k);
    var scale := QuickCheckScales[k];
    win.Some? && Raises(template(scale).value.0, template(scale).value.1, win.value)
  }

  /** Whether the re-check succeeds at quick-check scale `k`: the template
      loads, its clamped crop window is non-empty, matching does not raise,
      and the crop scores at least `conf`. */
  predicate QuickHit(template: real -> Option<(nat, nat)>, cropScore: (real, (int, int, int, int)) -> real,
                     conf: real, target: Point, offset: Point, width: nat, height: nat, k: nat)
    requires k < |QuickCheckScales|
  {
    var win := QuickWindow(template, target, offset, width, height, k);
    && win.Some?
    && !QuickRaises(template, target, offset, width, height, k)
    && cropScore(QuickCheckScales[k], win.value) >= conf
  }

  /** The scan of `quick_check_cv2` from quick-check scale `k` on: it
      succeeds at the first scale that hits, unless an earlier scale
      raised. */
  function QuickCheckFrom(template: real -> Option<(nat, nat)>, cropScore: (real, (int, int, int, int)) -> real,
                          conf: real, target: Point, offset: Point, width: nat, height: nat, k: nat): (found: bool)
    requires k <= |QuickCheckScales|
    ensures found <==> (exists j :: k <= j < |QuickCheckScales|
                          && QuickHit(template, cropScore, conf, target, offset, width, height, j)
                          && forall i :: k <= i < j ==> !QuickRaises(template, target, offset, width, height, i))
    decreases |QuickCheckScales| - k
  {
    if k == |QuickCheckScales| then false
    else if QuickRaises(template, target, offset, width, height, k) then false
    else if QuickHit(template, cropScore, conf, target, offset, width, height, k) then true
    else QuickCheckFrom(template, cropScore, conf, target, offset, width, height, k + 1)
  }

  /** `quick_check_cv2`: true as soon as one of the scales 1.0, 0.9, 1.1
      re-finds the template around the cached location; false as soon as
      matching at one of them raises. */
  function QuickCheck(template: real -> Option<(nat, nat)>, cropScore: (real, (int, int, int, int)) -> real,
                      conf: real, target: Point, offset: Point, width: nat, height: nat): (found: bool)
    ensures found <==> (exists j :: 0 <= j < |QuickCheckScales|
                          && QuickHit(template, cropScore, conf, target, offset, width, height, j)
                          && forall i :: 0 <= i < j ==> !QuickRaises(template, target, offset, width, height, i))
  {
    QuickCheckFrom(template, cropScore, conf, target, offset, width, height, 0)
  }

  /** A raise at the native scale fails the re-check whatever the later
      scales would score. */
  lemma NativeRaiseFails(template: real -> Option<(nat, nat)>, cropScore: (real, (int, int, int, int)) -> real,
                         conf: real, target: Point, offset: Point, width: nat, height: nat)
    requires QuickRaises(template, target, offset, width, height, 0)
    ensures !QuickCheck(template, cropScore, conf, target, offset, width, height)
  {
  }

  /** The crop (0, 20, 140, 100) is narrower than a 200x50 template but
      taller, so matching it raises. */
  lemma CropNarrowerButTallerRaises()
    ensures Raises(200, 50, (0, 20, 140, 100))
  {
  }

  /** The scan stops at the first scale whose best score reaches both 0.95
      and `conf`, so a usable native scale scoring that high is the match
      even when a later scale scores higher. */
  lemma NativeScaleExits(probe: real -> Probe, conf: real, screenW: nat, screenH: nat)
    requires Usable(ProbeAt(probe, 0), screenW, screenH)
    requires ProbeAt(probe, 0).score >= EarlyExitScore && ProbeAt(probe, 0).score >= conf
    ensures FirstExit(probe, conf, screenW, screenH, 0)
  {
  }
}

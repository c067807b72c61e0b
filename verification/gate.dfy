/**
 * The adaptive gate of `VAD`: frame i is voiced when the share of scores above
 * the energy threshold among its neighbours, `context` frames on either side,
 * exceeds `percentTh`. Scores are reals and are only compared with the
 * threshold.
 */
module Gate {
  import opened Ints

  /** `np.sum(s > th)`: how many scores lie strictly above the threshold. */
  function CountAbove(s: seq<real>, th: real): (c: nat)
    ensures c <= |s|
  {
    if s == [] then 0
    else CountAbove(s[..|s| - 1], th) + (if s[|s| - 1] > th then 1 else 0)
  }

  /** The indices lo <= k < hi whose score lies strictly above th. */
  function AboveIn(scores: seq<real>, th: real, lo: nat, hi: nat): set<nat>
    requires lo <= hi <= |scores|
  {
    set k: nat | lo <= k < hi && scores[k] > th
  }

  /** Extending a window by one index adds that index exactly when its score exceeds th. */
  lemma AboveInStep(scores: seq<real>, th: real, lo: nat, hi: nat)
    requires lo < hi <= |scores|
    ensures |AboveIn(scores, th, lo, hi)| ==
      |AboveIn(scores, th, lo, hi - 1)| + (if scores[hi - 1] > th then 1 else 0)
  {
    var before := AboveIn(scores, th, lo, hi - 1);
    if scores[hi - 1] > th {
      assert hi - 1 !in before;
      assert AboveIn(scores, th, lo, hi) == before + {hi - 1};
    } else {
      assert AboveIn(scores, th, lo, hi) == before;
    }
  }

  /** CountAbove over a window counts exactly the indices of that window whose score exceeds th. */
  lemma {:induction false} CountAboveIsCardinality(scores: seq<real>, th: real, lo: nat, hi: nat)
    requires lo <= hi <= |scores|
    ensures CountAbove(scores[lo..hi], th) == |AboveIn(scores, th, lo, hi)|
    decreases hi - lo
  {
    if lo == hi {
      assert AboveIn(scores, th, lo, hi) == {};
    } else {
      CountAboveIsCardinality(scores, th, lo, hi - 1);
      var window := scores[lo..hi];
      assert window[..|window| - 1] == scores[lo..hi - 1];
      assert window[|window| - 1] == scores[hi - 1];
      AboveInStep(scores, th, lo, hi);
    }
  }

  /** Raising the threshold never adds a score above it. */
  lemma {:induction false} CountAboveAntitone(s: seq<real>, th1: real, th2: real)
    requires th1 <= th2
    ensures CountAbove(s, th2) <= CountAbove(s, th1)
  {
    if s != [] {
      CountAboveAntitone(s[..|s| - 1], th1, th2);
    }
  }

  /** `max(0, i - context)`: the first frame of frame i's neighbourhood. */
  function WindowStart(i: nat, context: nat): nat
  {
    Max(0, i - context)
  }

  /** `min(n_frames, i + context)`: one past the last frame of frame i's neighbourhood. */
  function WindowEnd(n: nat, i: nat, context: nat): nat
  {
    Min(n, i + context)
  }

  /**
   * The voiced/unvoiced decision for frame i: the count of scores above nrgTh
   * in the window, divided by the window's length plus one, exceeds percentTh.
   */
  predicate Decision(scores: seq<real>, nrgTh: real, context: nat, percentTh: real, i: nat)
    requires i < |scores|
  {
    var start, end := WindowStart(i, context), WindowEnd(|scores|, i, context);
    (CountAbove(scores[start..end], nrgTh) as real) / ((end - start + 1) as real) > percentTh
  }

  /** The decisions for every frame, in frame order. */
  function Decisions(scores: seq<real>, nrgTh: real, context: nat, percentTh: real): seq<bool>
  {
    seq(|scores|, i requires 0 <= i < |scores| => Decision(scores, nrgTh, context, percentTh, i))
  }

  /**
   * Frame i is voiced exactly when the number of indices k with
   * max(0, i - context) <= k < min(n, i + context) and scores[k] > nrgTh,
   * divided by the window length plus one, exceeds percentTh.
   */
  lemma DecisionMeaning(scores: seq<real>, nrgTh: real, context: nat, percentTh: real, i: nat)
    requires i < |scores|
    ensures var start := if i < context then 0 else i - context;
      var end := if i + context < |scores| then i + context else |scores|;
      start <= end &&
      (Decision(scores, nrgTh, context, percentTh, i) <==>
         (|AboveIn(scores, nrgTh, start, end)| as real) / ((end - start + 1) as real) > percentTh)
  {
    CountAboveIsCardinality(scores, nrgTh, WindowStart(i, context), WindowEnd(|scores|, i, context));
  }

  /** c / t < 1 for 0 <= c < t. */
  lemma RatioBelowOne(c: nat, t: nat)
    requires c < t
    ensures (c as real) / (t as real) < 1.0
  {
    assert (c as real) < (t as real);
  }

  /**
   * Because the denominator is one more than the window length, the share
   * compared with percentTh is always below 1: with percentTh >= 1 no frame is
   * ever voiced.
   */
  lemma ShareBelowOne(scores: seq<real>, nrgTh: real, context: nat, i: nat)
    requires i < |scores|
    ensures var start, end := WindowStart(i, context), WindowEnd(|scores|, i, context);
      (CountAbove(scores[start..end], nrgTh) as real) / ((end - start + 1) as real) < 1.0
  {
    var start, end := WindowStart(i, context), WindowEnd(|scores|, i, context);
    RatioBelowOne(CountAbove(scores[start..end], nrgTh), end - start + 1);
  }

  /** With no context the window is empty, so no frame is voiced for a non-negative percentTh. */
  lemma NoContextNoVoice(scores: seq<real>, nrgTh: real, percentTh: real)
    requires 0.0 <= percentTh
    ensures forall i :: 0 <= i < |scores| ==> !Decisions(scores, nrgTh, 0, percentTh)[i]
  {
    forall i | 0 <= i < |scores|
      ensures !Decision(scores, nrgTh, 0, percentTh, i)
    {
      assert scores[WindowStart(i, 0)..WindowEnd(|scores|, i, 0)] == [];
    }
  }

  /** c1 <= c2 implies c1 / t <= c2 / t for t > 0. */
  lemma RatioMono(c1: nat, c2: nat, t: nat)
    requires c1 <= c2 && 0 < t
    ensures (c1 as real) / (t as real) <= (c2 as real) / (t as real)
  {
    var d := (c2 as real) / (t as real) - (c1 as real) / (t as real);
    assert d * (t as real) == (c2 - c1) as real;
  }

  /** Raising the energy threshold never turns an unvoiced frame voiced. */
  lemma DecisionAntitone(scores: seq<real>, th1: real, th2: real, context: nat, percentTh: real, i: nat)
    requires i < |scores| && th1 <= th2
    ensures Decision(scores, th2, context, percentTh, i) ==> Decision(scores, th1, context, percentTh, i)
  {
    var start, end := WindowStart(i, context), WindowEnd(|scores|, i, context);
    CountAboveAntitone(scores[start..end], th1, th2);
    RatioMono(CountAbove(scores[start..end], th2), CountAbove(scores[start..end], th1), end - start + 1);
  }

  /** The number of voiced frames. */
  function NumVoiced(d: seq<bool>): (c: nat)
    ensures c <= |d|
  {
    if d == [] then 0 else NumVoiced(d[..|d| - 1]) + (if d[|d| - 1] then 1 else 0)
  }

  /** A decision sequence voiced wherever another is has at least as many voiced frames. */
  lemma {:induction false} NumVoicedMono(a: seq<bool>, b: seq<bool>)
    requires |a| == |b| && forall i :: 0 <= i < |a| && a[i] ==> b[i]
    ensures NumVoiced(a) <= NumVoiced(b)
  {
    if a != [] {
      NumVoicedMono(a[..|a| - 1], b[..|b| - 1]);
    }
  }

  /** Raising the energy threshold, other inputs fixed, never increases the number of voiced frames. */
  lemma VoicedCountAntitone(scores: seq<real>, th1: real, th2: real, context: nat, percentTh: real)
    requires th1 <= th2
    ensures NumVoiced(Decisions(scores, th2, context, percentTh)) <= NumVoiced(Decisions(scores, th1, context, percentTh))
  {
    forall i | 0 <= i < |scores|
      ensures Decision(scores, th2, context, percentTh, i) ==> Decision(scores, th1, context, percentTh, i)
    {
      DecisionAntitone(scores, th1, th2, context, percentTh, i);
    }
    NumVoicedMono(Decisions(scores, th2, context, percentTh), Decisions(scores, th1, context, percentTh));
  }

  /** The gating loop of `VAD`: fills a preallocated flag per frame. */
  method Gate(scores: seq<real>, nrgTh: real, context: nat, percentTh: real) returns (vad: seq<bool>)
    ensures |vad| == |scores|
    ensures forall i :: 0 <= i < |scores| ==> vad[i] == Decision(scores, nrgTh, context, percentTh, i)
  {
    var n := |scores|;
    var flags := new bool[n];
    for i := 0 to n
      invariant forall k :: 0 <= k < i ==> flags[k] == Decision(scores, nrgTh, context, percentTh, k)
    {
      var start := Max(0, i - context);
      var end := Min(n, i + context);
      var above := CountAbove(scores[start..end], nrgTh);
      var total := end - start + 1;
      flags[i] := (above as real) / (total as real) > percentTh;
    }
    vad := flags[..];
  }
}

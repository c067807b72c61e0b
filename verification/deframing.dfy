/**
 * The deframer: `_deframing` spreads each frame's decision over the frame's
 * sample range, later frames overwriting earlier ones, keeps the original
 * samples under a voiced mark, zeroes the rest, and trims the zero runs at
 * both ends (`np.trim_zeros`, whose default mode is 'fb').
 */
module Deframing {

  /** Frame f, whose range is [f * step, f * step + winLen), contains sample k. */
  predicate Covers(f: nat, step: nat, winLen: nat, k: nat)
  {
    f * step <= k < f * step + winLen
  }

  /**
   * The mark at sample k once frames 0 .. m - 1 have been written in order:
   * the decision of the last of them that covers k, unvoiced if none does.
   */
  function Marked(vad: seq<bool>, step: nat, winLen: nat, m: nat, k: nat): bool
    requires m <= |vad|
  {
    if m == 0 then false
    else if Covers(m - 1, step, winLen, k) then vad[m - 1]
    else Marked(vad, step, winLen, m - 1, k)
  }

  /**
   * Sample k is marked voiced exactly when some frame f < m covers it, voted
   * voiced, and no later frame below m covers it: the highest-indexed
   * covering frame decides.
   */
  lemma {:induction false} MarkedByLastCoveringFrame(vad: seq<bool>, step: nat, winLen: nat, m: nat, k: nat)
    requires m <= |vad|
    ensures Marked(vad, step, winLen, m, k) <==>
      exists f :: 0 <= f < m && Covers(f, step, winLen, k) && vad[f] &&
        forall g :: f < g < m ==> !Covers(g, step, winLen, k)
  {
    if m > 0 {
      MarkedByLastCoveringFrame(vad, step, winLen, m - 1, k);
      if Covers(m - 1, step, winLen, k) {
        if !vad[m - 1] {
          forall f | 0 <= f < m && Covers(f, step, winLen, k) && vad[f]
            ensures exists g :: f < g < m && Covers(g, step, winLen, k)
          {
            assert f < m - 1;
          }
        }
      } else {
        if Marked(vad, step, winLen, m, k) {
          var f :| 0 <= f < m - 1 && Covers(f, step, winLen, k) && vad[f] &&
            forall g :: f < g < m - 1 ==> !Covers(g, step, winLen, k);
          assert forall g :: f < g < m ==> !Covers(g, step, winLen, k);
        } else {
          forall f | 0 <= f < m && Covers(f, step, winLen, k) && vad[f]
            ensures exists g :: f < g < m && Covers(g, step, winLen, k)
          {
            assert f < m - 1;
          }
        }
      }
    }
  }

  /** When every frame below m voted voiced, every sample one of them covers is marked voiced. */
  lemma {:induction false} AllVoicedMarksCovered(vad: seq<bool>, step: nat, winLen: nat, m: nat, k: nat, f: nat)
    requires m <= |vad| && forall g :: 0 <= g < m ==> vad[g]
    requires f < m && Covers(f, step, winLen, k)
    ensures Marked(vad, step, winLen, m, k)
  {
    if f < m - 1 {
      AllVoicedMarksCovered(vad, step, winLen, m - 1, k, f);
    }
  }

  /** When no frame below m voted voiced, no sample is marked voiced. */
  lemma {:induction false} NoneVoicedMarksNothing(vad: seq<bool>, step: nat, winLen: nat, m: nat, k: nat)
    requires m <= |vad| && forall g :: 0 <= g < m ==> !vad[g]
    ensures !Marked(vad, step, winLen, m, k)
  {
    if m > 0 {
      NoneVoicedMarksNothing(vad, step, winLen, m - 1, k);
    }
  }

  /**
   * Marking is monotone in the decisions: where one decision sequence is
   * voiced wherever another is, so are its marks.
   */
  lemma {:induction false} MarkedMono(lower: seq<bool>, upper: seq<bool>, step: nat, winLen: nat, m: nat, k: nat)
    requires m <= |lower| == |upper|
    requires forall g :: 0 <= g < |lower| && lower[g] ==> upper[g]
    ensures Marked(lower, step, winLen, m, k) ==> Marked(upper, step, winLen, m, k)
  {
    if m > 0 {
      MarkedMono(lower, upper, step, winLen, m - 1, k);
    }
  }

  /** The distance between consecutive frame starts. */
  function Hop(winLen: nat, overlap: nat): nat
    requires overlap <= winLen
  {
    winLen - overlap
  }

  /**
   * The buffer `_deframing` holds before trimming: the original sample where
   * the mark is voiced, 0 elsewhere, one entry per input sample.
   */
  function Voiced(x: seq<real>, vad: seq<bool>, winLen: nat, overlap: nat): seq<real>
    requires overlap <= winLen
  {
    seq(|x|, k requires 0 <= k < |x| =>
      if Marked(vad, Hop(winLen, overlap), winLen, |vad|, k) then x[k] else 0.0)
  }

  /**
   * Sample k of the untrimmed buffer is x[k] when the highest-indexed frame
   * covering it voted voiced, and 0 when that frame voted unvoiced or no frame
   * covers it; the buffer is exactly as long as the signal.
   */
  lemma VoicedAt(x: seq<real>, vad: seq<bool>, winLen: nat, overlap: nat, k: nat)
    requires overlap <= winLen && k < |x|
    ensures |Voiced(x, vad, winLen, overlap)| == |x|
    ensures Voiced(x, vad, winLen, overlap)[k] ==
      if exists f :: 0 <= f < |vad| && Covers(f, Hop(winLen, overlap), winLen, k) && vad[f] &&
           forall g :: f < g < |vad| ==> !Covers(g, Hop(winLen, overlap), winLen, k)
      then x[k] else 0.0
  {
    MarkedByLastCoveringFrame(vad, Hop(winLen, overlap), winLen, |vad|, k);
  }

  /** The untrimmed buffer is as long as the signal, and each of its samples is kept or silenced. */
  lemma VoicedKeepsOrSilences(x: seq<real>, vad: seq<bool>, winLen: nat, overlap: nat)
    requires overlap <= winLen
    ensures var v := Voiced(x, vad, winLen, overlap);
      |v| == |x| && forall k :: 0 <= k < |x| ==> v[k] == x[k] || v[k] == 0.0
  {
  }

  /** A sample no frame covers is 0 in the untrimmed buffer. */
  lemma UncoveredIsSilent(x: seq<real>, vad: seq<bool>, winLen: nat, overlap: nat, k: nat)
    requires overlap <= winLen && k < |x|
    requires forall f :: 0 <= f < |vad| ==> !Covers(f, Hop(winLen, overlap), winLen, k)
    ensures Voiced(x, vad, winLen, overlap)[k] == 0.0
  {
    MarkedByLastCoveringFrame(vad, Hop(winLen, overlap), winLen, |vad|, k);
  }

  /**
   * When every frame is voiced the untrimmed buffer equals the signal at every
   * sample some frame covers.
   */
  lemma AllVoicedRestoresCovered(x: seq<real>, vad: seq<bool>, winLen: nat, overlap: nat, k: nat, f: nat)
    requires overlap <= winLen && k < |x|
    requires forall g :: 0 <= g < |vad| ==> vad[g]
    requires f < |vad| && Covers(f, Hop(winLen, overlap), winLen, k)
    ensures Voiced(x, vad, winLen, overlap)[k] == x[k]
  {
    AllVoicedMarksCovered(vad, Hop(winLen, overlap), winLen, |vad|, k, f);
  }

  /**
   * Where one decision sequence is voiced wherever another is, each sample of
   * the other's untrimmed buffer is either 0 or the same as in the first's.
   */
  lemma VoicedMono(x: seq<real>, lower: seq<bool>, upper: seq<bool>, winLen: nat, overlap: nat)
    requires overlap <= winLen && |lower| == |upper|
    requires forall g :: 0 <= g < |lower| && lower[g] ==> upper[g]
    ensures forall k :: 0 <= k < |x| ==>
      Voiced(x, lower, winLen, overlap)[k] == 0.0 ||
      Voiced(x, lower, winLen, overlap)[k] == Voiced(x, upper, winLen, overlap)[k]
  {
    forall k | 0 <= k < |x|
      ensures Marked(lower, Hop(winLen, overlap), winLen, |lower|, k) ==> Marked(upper, Hop(winLen, overlap), winLen, |upper|, k)
    {
      MarkedMono(lower, upper, Hop(winLen, overlap), winLen, |lower|, k);
    }
  }

  /** Drops the leading run of zeros. */
  function TrimFront(s: seq<real>): seq<real>
  {
    if s != [] && s[0] == 0.0 then TrimFront(s[1..]) else s
  }

  /**
   * TrimFront keeps a suffix, drops only zeros, and leaves a result that is
   * empty or starts with a non-zero sample.
   */
  lemma {:induction false} TrimFrontDropsLeadingZeros(s: seq<real>)
    ensures var r := TrimFront(s);
      |r| <= |s| && r == s[|s| - |r|..] &&
      (forall k :: 0 <= k < |s| - |r| ==> s[k] == 0.0) &&
      (r != [] ==> r[0] != 0.0)
  {
    if s != [] && s[0] == 0.0 {
      TrimFrontDropsLeadingZeros(s[1..]);
      var r := TrimFront(s);
      assert r == TrimFront(s[1..]);
      assert s[1..][|s| - 1 - |r|..] == s[|s| - |r|..];
      forall k | 1 <= k < |s| - |r|
        ensures s[k] == 0.0
      {
        assert s[k] == s[1..][k - 1];
      }
    }
  }

  /** Drops the trailing run of zeros. */
  function TrimBack(s: seq<real>): seq<real>
  {
    if s != [] && s[|s| - 1] == 0.0 then TrimBack(s[..|s| - 1]) else s
  }

  /**
   * TrimBack keeps a prefix, drops only zeros, and leaves a result that is
   * empty or ends with a non-zero sample.
   */
  lemma {:induction false} TrimBackDropsTrailingZeros(s: seq<real>)
    ensures var r := TrimBack(s);
      |r| <= |s| && r == s[..|r|] &&
      (forall k :: |r| <= k < |s| ==> s[k] == 0.0) &&
      (r != [] ==> r[|r| - 1] != 0.0)
  {
    if s != [] && s[|s| - 1] == 0.0 {
      TrimBackDropsTrailingZeros(s[..|s| - 1]);
      var r := TrimBack(s);
      assert r == TrimBack(s[..|s| - 1]);
      assert s[..|s| - 1][..|r|] == s[..|r|];
    }
  }

  /** `np.trim_zeros(s)`: strips the zeros at the front and at the back. */
  function TrimZeros(s: seq<real>): seq<real>
  {
    TrimBack(TrimFront(s))
  }

  /**
   * TrimZeros keeps one contiguous stretch s[a..b], interior zeros included;
   * everything outside it is zero, and the stretch, unless empty, starts and
   * ends with a non-zero sample.
   */
  lemma TrimZerosBounds(s: seq<real>) returns (a: nat, b: nat)
    ensures a <= b <= |s| && TrimZeros(s) == s[a..b]
    ensures forall k :: 0 <= k < a ==> s[k] == 0.0
    ensures forall k :: b <= k < |s| ==> s[k] == 0.0
    ensures a < b ==> s[a] != 0.0 && s[b - 1] != 0.0
  {
    var front := TrimFront(s);
    var r := TrimBack(front);
    TrimFrontDropsLeadingZeros(s);
    TrimBackDropsTrailingZeros(front);
    a := |s| - |front|;
    b := a + |r|;
    assert front == s[a..];
    assert r == front[..|r|];
    assert forall k :: |r| <= k < |front| ==> front[k] == 0.0;
    assert forall k :: b <= k < |s| ==> s[k] == front[k - a];
    if a < b {
      assert s[a] == front[0] && front[0] == r[0];
    }
  }

  /** TrimZeros gives the empty sequence exactly when every sample is zero. */
  lemma TrimZerosEmptyIffSilent(s: seq<real>)
    ensures TrimZeros(s) == [] <==> forall k :: 0 <= k < |s| ==> s[k] == 0.0
  {
    var a, b := TrimZerosBounds(s);
    if TrimZeros(s) == [] {
      assert a == b;
    }
  }

  /**
   * Trimming a copy of x in which each sample is kept or silenced gives a
   * stretch of x, starting at some sample a, with each sample kept or 0, and
   * with kept non-zero samples at both ends.
   */
  lemma TrimmedMaskIsStretch(x: seq<real>, v: seq<real>) returns (a: nat)
    requires |v| == |x| && forall k :: 0 <= k < |x| ==> v[k] == x[k] || v[k] == 0.0
    ensures var y := TrimZeros(v);
      a + |y| <= |x| &&
      (forall j :: 0 <= j < |y| ==> y[j] == x[a + j] || y[j] == 0.0) &&
      (y != [] ==> y[0] == x[a] != 0.0 && y[|y| - 1] == x[a + |y| - 1] != 0.0)
  {
    var b;
    a, b := TrimZerosBounds(v);
    var y := TrimZeros(v);
    forall j | 0 <= j < |y|
      ensures y[j] == x[a + j] || y[j] == 0.0
    {
      assert y[j] == v[a + j];
    }
    if y != [] {
      assert y[0] == v[a] == x[a] != 0.0;
      assert y[|y| - 1] == v[b - 1] == x[b - 1] != 0.0;
      assert a + |y| - 1 == b - 1;
    }
  }

  /**
   * The deframed result is a stretch of the signal, starting at some sample a,
   * in which every sample is kept or silenced to 0, and which starts and ends
   * with a kept non-zero sample.
   */
  lemma TrimmedIsMaskedStretch(x: seq<real>, vad: seq<bool>, winLen: nat, overlap: nat) returns (a: nat)
    requires overlap <= winLen
    ensures var y := TrimZeros(Voiced(x, vad, winLen, overlap));
      a + |y| <= |x| &&
      (forall j :: 0 <= j < |y| ==> y[j] == x[a + j] || y[j] == 0.0) &&
      (y != [] ==> y[0] == x[a] != 0.0 && y[|y| - 1] == x[a + |y| - 1] != 0.0)
  {
    VoicedKeepsOrSilences(x, vad, winLen, overlap);
    a := TrimmedMaskIsStretch(x, Voiced(x, vad, winLen, overlap));
  }

  /** When no frame is voiced the trimmed result is empty. */
  lemma AllUnvoicedIsEmpty(x: seq<real>, vad: seq<bool>, winLen: nat, overlap: nat)
    requires overlap <= winLen && forall g :: 0 <= g < |vad| ==> !vad[g]
    ensures TrimZeros(Voiced(x, vad, winLen, overlap)) == []
  {
    var v := Voiced(x, vad, winLen, overlap);
    forall k | 0 <= k < |v|
      ensures v[k] == 0.0
    {
      NoneVoicedMarksNothing(vad, Hop(winLen, overlap), winLen, |vad|, k);
    }
    TrimZerosEmptyIffSilent(v);
  }

  /**
   * `_deframing`: writes each frame's mark over its range in a zeroed buffer,
   * replaces every marked entry by the original sample, and trims the zero
   * runs at both ends.
   */
  method Deframe(x: seq<real>, vad: seq<bool>, winLen: nat, overlap: nat) returns (y: seq<real>)
    requires overlap <= winLen
    ensures y == TrimZeros(Voiced(x, vad, winLen, overlap))
    ensures |y| <= |x|
  {
    var n := |x|;
    var step := Hop(winLen, overlap);
    var voice := new real[n](_ => 0.0);
    for i := 0 to |vad|
      invariant forall k :: 0 <= k < n ==>
        voice[k] == if Marked(vad, step, winLen, i, k) then 1.0 else 0.0
    {
      var start := i * step;
      var end := start + winLen;
      var mark := if vad[i] then 1.0 else 0.0;
      forall k | start <= k < end && k < n {
        voice[k] := mark;
      }
    }
    for k := 0 to n
      invariant forall j :: 0 <= j < k ==> voice[j] == Voiced(x, vad, winLen, overlap)[j]
      invariant forall j :: k <= j < n ==>
        voice[j] == if Marked(vad, step, winLen, |vad|, j) then 1.0 else 0.0
    {
      if voice[k] != 0.0 {
        voice[k] := x[k];
      }
    }
    assert voice[..] == Voiced(x, vad, winLen, overlap);
    y := TrimZeros(voice[..]);
    ghost var a, b := TrimZerosBounds(voice[..]);
  }
}

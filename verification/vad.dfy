/**
 * `VAD(x, fs, db, nrg_th, context)`: derives the frame length and overlap from
 * the sampling rate, frames the signal, scores the frames with the energy
 * profile, gates each frame against its neighbours and deframes the decisions
 * back onto the signal. The energy profile is a parameter of the model.
 */
module VoiceActivity {
  import opened Wrappers
  import Framing
  import Gate
  import Deframing

  /** Why `VAD` raises. */
  datatype VadError =
    | FramingFailed(cause: Framing.FrameError)  // `_framing` raises
    | NoFrames                                   // the energy profile is empty: `min` of an empty array

  /** The three settings `VAD` derives before framing. */
  datatype Params = Params(percentTh: real, winLen: nat, overlap: nat)

  /** The settings `VAD` derives from the sampling rate and the database id. */
  function Parameters(fs: nat, db: int): Params
  {
    var winLen := fs / 40;
    Params(if db == 1 then 0.4 else 0.3, winLen, winLen / 4)
  }

  /**
   * The share threshold is 0.4 for database 1 and 0.3 for any other id; the
   * frame length is the whole number of samples in 25 ms, and the overlap the
   * whole number part of a quarter frame. A frame has a positive hop exactly
   * when the rate gives at least one sample per 25 ms.
   */
  lemma ParametersMeaning(fs: nat, db: int)
    ensures var p := Parameters(fs, db);
      && (db == 1 ==> p.percentTh == 0.4)
      && (db != 1 ==> p.percentTh == 0.3)
      && 40 * p.winLen <= fs < 40 * (p.winLen + 1)
      && 4 * p.overlap <= p.winLen < 4 * (p.overlap + 1)
      && (p.overlap < p.winLen <==> 40 <= fs)
  {
  }

  /**
   * The per-frame decisions `VAD` computes (`x_vad`), or why it raises; `nrg`
   * stands for the energy profile of the frames. `_calculate_nrg` normalises
   * with the minimum of the log energies, which fails when there are no
   * frames.
   */
  function Detect(x: seq<real>, fs: nat, db: int, nrgTh: real, context: nat,
                  nrg: seq<seq<real>> -> seq<real>): Result<seq<bool>, VadError>
  {
    var p := Parameters(fs, db);
    match Framing.Frames(x, p.winLen, p.overlap)
    case Err(e) => Err(FramingFailed(e))
    case Ok(frames) =>
      if frames == [] then Err(NoFrames)
      else Ok(Gate.Decisions(nrg(frames), nrgTh, context, p.percentTh))
  }

  /** What `VAD` returns: the decisions deframed onto the signal and trimmed. */
  function Pipeline(x: seq<real>, fs: nat, db: int, nrgTh: real, context: nat,
                    nrg: seq<seq<real>> -> seq<real>): Result<seq<real>, VadError>
  {
    var p := Parameters(fs, db);
    match Detect(x, fs, db, nrgTh, context, nrg)
    case Err(e) => Err(e)
    case Ok(vad) => Ok(Deframing.TrimZeros(Deframing.Voiced(x, vad, p.winLen, p.overlap)))
  }

  /** Pipeline unfolded over the outcome of framing. */
  lemma PipelineOfFrames(x: seq<real>, fs: nat, db: int, nrgTh: real, context: nat,
                         nrg: seq<seq<real>> -> seq<real>)
    ensures var p := Parameters(fs, db);
      var framed := Framing.Frames(x, p.winLen, p.overlap);
      Pipeline(x, fs, db, nrgTh, context, nrg) ==
        if framed.Err? then Err(FramingFailed(framed.error))
        else if framed.value == [] then Err(NoFrames)
        else Ok(Deframing.TrimZeros(Deframing.Voiced(x,
          Gate.Decisions(nrg(framed.value), nrgTh, context, p.percentTh), p.winLen, p.overlap)))
  {
  }

  /**
   * With VAD's parameters framing never raises from 40 samples per second on,
   * and at least one frame is allocated exactly when win_len + overlap is
   * less than twice the signal length.
   */
  lemma FramesAtRate(x: seq<real>, fs: nat, db: int)
    requires 40 <= fs
    ensures var p := Parameters(fs, db);
      var framed := Framing.Frames(x, p.winLen, p.overlap);
      framed.Ok? && (framed.value != [] <==> p.winLen + p.overlap < 2 * |x|)
  {
    var p := Parameters(fs, db);
    Framing.FramesOkAtVadParameters(x, p.winLen);
    Framing.FramesRow(x, p.winLen, p.overlap, 0);
    Framing.FrameCountPositive(|x|, p.winLen, p.overlap);
  }

  /**
   * `VAD` fails in exactly two ways: below 40 samples per second the frame
   * length and the hop are 0 and framing divides by zero; from 40 on, a
   * signal too short for a single frame leaves the energy profile empty.
   * Otherwise it returns a signal.
   */
  lemma FailureConditions(x: seq<real>, fs: nat, db: int, nrgTh: real, context: nat,
                          nrg: seq<seq<real>> -> seq<real>)
    ensures var p := Parameters(fs, db);
      && (fs < 40 ==> Pipeline(x, fs, db, nrgTh, context, nrg) == Err(FramingFailed(Framing.ZeroStep)))
      && (40 <= fs && 2 * |x| <= p.winLen + p.overlap ==> Pipeline(x, fs, db, nrgTh, context, nrg) == Err(NoFrames))
      && (Pipeline(x, fs, db, nrgTh, context, nrg).Ok? <==> 40 <= fs && p.winLen + p.overlap < 2 * |x|)
  {
    if 40 <= fs {
      FramesAtRate(x, fs, db);
    }
  }

  /**
   * When `VAD` has frames to score and one score per frame, it makes one
   * decision per frame, and each decision is the gate's verdict on that
   * frame's neighbourhood.
   */
  lemma DetectPerFrame(x: seq<real>, fs: nat, db: int, nrgTh: real, context: nat,
                       nrg: seq<seq<real>> -> seq<real>)
    requires 40 <= fs
    requires forall frames: seq<seq<real>> :: |nrg(frames)| == |frames|
    ensures var p := Parameters(fs, db);
      var frames := Framing.Frames(x, p.winLen, p.overlap);
      var d := Detect(x, fs, db, nrgTh, context, nrg);
      frames.Ok? && (d.Ok? <==> frames.value != []) &&
      (d.Ok? ==>
        |d.value| == |frames.value| == Framing.FrameCount(|x|, p.winLen, p.overlap) &&
        forall i :: 0 <= i < |d.value| ==>
          d.value[i] == Gate.Decision(nrg(frames.value), nrgTh, context, p.percentTh, i))
  {
    var p := Parameters(fs, db);
    Framing.FramesOkAtVadParameters(x, p.winLen);
    Framing.FramesRow(x, p.winLen, p.overlap, 0);
  }

  /**
   * With no context every window is empty and no share exceeds the threshold,
   * so whenever `VAD` has frames to score the whole signal is trimmed away.
   */
  lemma NoContextIsSilent(x: seq<real>, fs: nat, db: int, nrgTh: real,
                          nrg: seq<seq<real>> -> seq<real>)
    ensures var p := Parameters(fs, db);
      40 <= fs && p.winLen + p.overlap < 2 * |x| ==> Pipeline(x, fs, db, nrgTh, 0, nrg) == Ok([])
  {
    var p := Parameters(fs, db);
    if 40 <= fs && p.winLen + p.overlap < 2 * |x| {
      FramesAtRate(x, fs, db);
      var frames := Framing.Frames(x, p.winLen, p.overlap).value;
      var vad := Gate.Decisions(nrg(frames), nrgTh, 0, p.percentTh);
      Gate.NoContextNoVoice(nrg(frames), nrgTh, p.percentTh);
      Deframing.AllUnvoicedIsEmpty(x, vad, p.winLen, p.overlap);
    }
  }

  /**
   * The result is a stretch of the signal, starting at some sample a, in
   * which every sample is either kept or silenced to 0, and it starts and
   * ends with a kept non-zero sample.
   */
  lemma OutputIsMaskedStretch(x: seq<real>, fs: nat, db: int, nrgTh: real, context: nat,
                              nrg: seq<seq<real>> -> seq<real>) returns (a: nat)
    ensures var r := Pipeline(x, fs, db, nrgTh, context, nrg);
      r.Ok? ==>
        var y := r.value;
        a + |y| <= |x| &&
        (forall j :: 0 <= j < |y| ==> y[j] == x[a + j] || y[j] == 0.0) &&
        (y != [] ==> y[0] == x[a] != 0.0 && y[|y| - 1] == x[a + |y| - 1] != 0.0)
  {
    a := 0;
    var d := Detect(x, fs, db, nrgTh, context, nrg);
    if d.Ok? {
      var p := Parameters(fs, db);
      assert Pipeline(x, fs, db, nrgTh, context, nrg).value ==
        Deframing.TrimZeros(Deframing.Voiced(x, d.value, p.winLen, p.overlap));
      a := Deframing.TrimmedIsMaskedStretch(x, d.value, p.winLen, p.overlap);
    }
  }

  /**
   * Raising the energy threshold only silences: it does not change whether
   * `VAD` fails, and every sample of the untrimmed output at the higher
   * threshold is 0 or equal to the sample at the lower threshold.
   */
  lemma ThresholdOnlySilences(x: seq<real>, fs: nat, db: int, th1: real, th2: real, context: nat,
                              nrg: seq<seq<real>> -> seq<real>)
    requires th1 <= th2
    ensures var p := Parameters(fs, db);
      var d1 := Detect(x, fs, db, th1, context, nrg);
      var d2 := Detect(x, fs, db, th2, context, nrg);
      (d1.Ok? <==> d2.Ok?) &&
      (d1.Ok? && d2.Ok? ==>
        var v1 := Deframing.Voiced(x, d1.value, p.winLen, p.overlap);
        var v2 := Deframing.Voiced(x, d2.value, p.winLen, p.overlap);
        forall k :: 0 <= k < |x| ==> v2[k] == 0.0 || v2[k] == v1[k])
  {
    var p := Parameters(fs, db);
    var framed := Framing.Frames(x, p.winLen, p.overlap);
    if framed.Ok? && framed.value != [] {
      var scores := nrg(framed.value);
      var d1 := Gate.Decisions(scores, th1, context, p.percentTh);
      var d2 := Gate.Decisions(scores, th2, context, p.percentTh);
      forall i | 0 <= i < |d2| && d2[i]
        ensures d1[i]
      {
        Gate.DecisionAntitone(scores, th1, th2, context, p.percentTh, i);
      }
      Deframing.VoicedMono(x, d2, d1, p.winLen, p.overlap);
    }
  }

  /**
   * `VAD`: the derived parameters, framing, energy scoring, gating and
   * deframing in turn. The energy threshold defaults to 0 and the context to
   * 5 frames; scoring an empty frame matrix raises.
   */
  method Vad(x: seq<real>, fs: nat, db: int, nrgTh: real := 0.0, context: nat := 5,
             nrg: seq<seq<real>> -> seq<real>) returns (r: Result<seq<real>, VadError>)
    ensures r == Pipeline(x, fs, db, nrgTh, context, nrg)
    ensures r.Ok? ==> |r.value| <= |x|
  {
    var percentTh := if db == 1 then 0.4 else 0.3;
    var winLen := fs / 40;
    var overlap := winLen / 4;
    var framed := Framing.Framing(x, winLen, overlap);
    PipelineOfFrames(x, fs, db, nrgTh, context, nrg);
    if framed.Err? {
      return Err(FramingFailed(framed.error));
    }
    if |framed.value| == 0 {
      return Err(NoFrames);
    }
    assert Parameters(fs, db) == Params(percentTh, winLen, overlap);
    var scores := nrg(framed.value);
    var vad := Gate.Gate(scores, nrgTh, context, percentTh);
    assert vad == Gate.Decisions(scores, nrgTh, context, percentTh);
    var y := Deframing.Deframe(x, vad, winLen, overlap);
    return Ok(y);
  }
}

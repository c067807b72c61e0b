/**
 * The framer: `_framing` splits a signal into overlapping frames of `winLen`
 * samples whose starts are `winLen - overlap` apart. Samples are reals; the
 * framer only copies them.
 */
module Framing {
  import opened Wrappers
  import opened Ints

  /** The exceptions `_framing` can raise. */
  datatype FrameError =
    | ZeroStep            // winLen == overlap: the frame count divides by zero
    | NegativeFrameCount  // the rounded frame count is negative: numpy refuses a negative dimension
    | EmptySlice          // a frame starts at or past the end: `winLen % 0`
    | RowShapeMismatch    // a padded row neither has winLen samples nor broadcasts from one sample

  /**
   * numpy's `round` of the rational a / b: the nearest integer, ties going to
   * the even neighbour.
   */
  function RoundHalfEven(a: int, b: int): int
    requires b > 0
  {
    var q, m := a / b, a % b;
    if 2 * m < b then q
    else if 2 * m > b then q + 1
    else if q % 2 == 0 then q else q + 1
  }

  /** RoundHalfEven(a, b) is within half of a / b, and even when a / b lies halfway between two integers. */
  lemma RoundHalfEvenNearest(a: int, b: int)
    requires b > 0
    ensures var r := RoundHalfEven(a, b);
      && (2 * r - 1) * b <= 2 * a <= (2 * r + 1) * b
      && (2 * a == (2 * r - 1) * b || 2 * a == (2 * r + 1) * b ==> r % 2 == 0)
  {
    var q, m := a / b, a % b;
    assert a == q * b + m;
    assert (2 * q - 1) * b == 2 * (q * b) - b && (2 * q + 1) * b == 2 * (q * b) + b;
    assert (2 * q + 3) * b == 2 * (q * b) + 3 * b;
  }

  /** Any integer meeting RoundHalfEven's contract is its result: the contract pins the rounding down. */
  lemma RoundHalfEvenUnique(a: int, b: int, r: int)
    requires b > 0
    requires (2 * r - 1) * b <= 2 * a <= (2 * r + 1) * b
    requires 2 * a == (2 * r - 1) * b || 2 * a == (2 * r + 1) * b ==> r % 2 == 0
    ensures r == RoundHalfEven(a, b)
  {
    var s := RoundHalfEven(a, b);
    RoundHalfEvenNearest(a, b);
    if r < s {
      NearestIntegersTie(a, b, r, s);
    } else if s < r {
      NearestIntegersTie(a, b, s, r);
    }
  }

  /** Two distinct integers within half of a / b are neighbours and a / b lies halfway between them. */
  lemma NearestIntegersTie(a: int, b: int, lo: int, hi: int)
    requires b > 0 && lo < hi
    requires (2 * lo - 1) * b <= 2 * a <= (2 * lo + 1) * b
    requires (2 * hi - 1) * b <= 2 * a <= (2 * hi + 1) * b
    ensures hi == lo + 1 && 2 * a == (2 * lo + 1) * b && 2 * a == (2 * hi - 1) * b
  {
    MulMono(2 * lo + 1, 2 * hi - 1, b);
    if hi > lo + 1 {
      MulMono(2 * lo + 3, 2 * hi - 1, b);
    }
  }

  /** Where frame i starts: `i * (win_len - overlap)`. */
  function FrameStart(i: nat, step: nat): nat
  {
    i * step
  }

  /** The number of frames `_framing` allocates for n samples. */
  function FrameCount(n: nat, winLen: nat, overlap: nat): int
    requires overlap < winLen
  {
    RoundHalfEven(n - overlap, winLen - overlap)
  }

  /** Python's `x[lo:hi]` for 0 <= lo <= hi: both bounds are clamped to the length. */
  function Slice(x: seq<real>, lo: nat, hi: nat): (s: seq<real>)
    requires lo <= hi
    ensures |s| == Min(hi, |x|) - Min(lo, |x|)
    ensures forall j :: 0 <= j < |s| ==> s[j] == x[lo + j]
  {
    x[Min(lo, |x|)..Min(hi, |x|)]
  }

  /** `np.zeros(k)`. */
  function Zeros(k: nat): (z: seq<real>)
    ensures |z| == k && forall j :: 0 <= j < k ==> z[j] == 0.0
  {
    seq(k, _ => 0.0)
  }

  /** A one-sample row broadcast by numpy over a row of winLen samples. */
  function Fill(v: real, k: nat): (z: seq<real>)
    ensures |z| == k && forall j :: 0 <= j < k ==> z[j] == v
  {
    seq(k, _ => v)
  }

  /** `winLen % L`: how many zeros `_framing` appends to a slice of L samples. */
  function PadLength(winLen: nat, len: nat): nat
    requires len > 0
  {
    winLen % len
  }

  /**
   * The row stored for the frame starting at `start`: the slice when it is
   * full, otherwise the slice followed by `winLen % L` zeros, L being the
   * slice's length; a one-sample result is broadcast over the row, any other
   * length that is not winLen is refused by numpy.
   */
  function FrameRow(x: seq<real>, start: nat, winLen: nat): Result<seq<real>, FrameError>
  {
    var slice := Slice(x, start, start + winLen);
    if |slice| == winLen then Ok(slice)
    else if |slice| == 0 then Err(EmptySlice)
    else
      var padded := slice + Zeros(PadLength(winLen, |slice|));
      if |padded| == winLen then Ok(padded)
      else if |padded| == 1 then Ok(Fill(padded[0], winLen))
      else Err(RowShapeMismatch)
  }

  /**
   * A row that can be built has winLen samples and holds, at each position,
   * the sample it was sliced from where that exists; a frame lying inside the
   * signal is its slice; the only frames whose slice is empty start at or past
   * the end.
   */
  lemma FrameRowShape(x: seq<real>, start: nat, winLen: nat)
    ensures var r := FrameRow(x, start, winLen);
      && (r.Ok? ==> |r.value| == winLen)
      && (r.Ok? ==> forall j :: 0 <= j < winLen && start + j < |x| ==> r.value[j] == x[start + j])
      && (r == Err(EmptySlice) <==> 0 < winLen && |x| <= start)
      && (start + winLen <= |x| ==> r == Ok(x[start..start + winLen]))
  {
  }

  /**
   * A short final slice of L samples with winLen / 2 < L < winLen is padded
   * with exactly the winLen - L zeros it lacks.
   */
  lemma FrameRowPadded(x: seq<real>, start: nat, winLen: nat)
    requires start < |x| < start + winLen
    requires winLen < 2 * (|x| - start)
    ensures FrameRow(x, start, winLen) == Ok(x[start..] + Zeros(winLen - (|x| - start)))
  {
    var len := |x| - start;
    assert Slice(x, start, start + winLen) == x[start..];
    ModOfLessThanDouble(winLen, len);
  }

  /** For L <= w < 2L, w % L is w - L. */
  lemma ModOfLessThanDouble(w: nat, len: nat)
    requires 0 < len <= w < 2 * len
    ensures w % len == w - len
  {
    var q := w / len;
    assert w == q * len + w % len;
    if q > 1 {
      MulMono(2, q, len);
    }
  }

  /** A final slice of a single sample, with winLen >= 2, becomes a row that repeats that sample. */
  lemma FrameRowBroadcast(x: seq<real>, start: nat, winLen: nat)
    requires start + 1 == |x| && 2 <= winLen
    ensures FrameRow(x, start, winLen) == Ok(Fill(x[start], winLen))
  {
    assert Slice(x, start, start + winLen) == [x[start]];
    assert winLen % 1 == 0;
  }

  /** Rows i .. count - 1 of the frame matrix; the first row that fails decides the error. */
  function Rows(x: seq<real>, winLen: nat, step: nat, count: nat, i: nat): Result<seq<seq<real>>, FrameError>
    decreases count - i
  {
    if count <= i then Ok([])
    else match FrameRow(x, FrameStart(i, step), winLen)
      case Err(e) => Err(e)
      case Ok(row) =>
        match Rows(x, winLen, step, count, i + 1)
        case Err(e) => Err(e)
        case Ok(rest) => Ok([row] + rest)
  }

  /** What `_framing(x, winLen, overlap)` returns or raises. */
  function Frames(x: seq<real>, winLen: nat, overlap: nat): Result<seq<seq<real>>, FrameError>
    requires overlap <= winLen
  {
    if overlap == winLen then Err(ZeroStep)
    else
      var n := FrameCount(|x|, winLen, overlap);
      if n < 0 then Err(NegativeFrameCount)
      else Rows(x, winLen, winLen - overlap, n, 0)
  }

  /** Rows 0 .. count - 1 are the already built rows followed by rows i .. count - 1. */
  lemma {:induction false} RowsSplit(x: seq<real>, winLen: nat, step: nat, count: nat, i: nat, prefix: seq<seq<real>>)
    requires i <= count && |prefix| == i
    requires forall k :: 0 <= k < i ==> FrameRow(x, FrameStart(k, step), winLen) == Ok(prefix[k])
    ensures Rows(x, winLen, step, count, 0) ==
      match Rows(x, winLen, step, count, i)
      case Err(e) => Err(e)
      case Ok(rest) => Ok(prefix + rest)
  {
    if i > 0 {
      RowsSplit(x, winLen, step, count, i - 1, prefix[..i - 1]);
      var row := FrameRow(x, FrameStart(i - 1, step), winLen);
      assert row == Ok(prefix[i - 1]);
      var later := Rows(x, winLen, step, count, i);
      assert Rows(x, winLen, step, count, i - 1) ==
        if later.Err? then Err(later.error) else Ok([prefix[i - 1]] + later.value);
      if later.Ok? {
        assert prefix[..i - 1] + ([prefix[i - 1]] + later.value) == prefix + later.value;
      }
    } else {
      var all := Rows(x, winLen, step, count, 0);
      if all.Ok? {
        assert prefix + all.value == all.value;
      }
    }
  }

  /** When rows i .. count - 1 succeed, entry k - i of the result is the frame starting at k * step. */
  lemma {:induction false} RowsOk(x: seq<real>, winLen: nat, step: nat, count: nat, i: nat)
    requires i <= count && Rows(x, winLen, step, count, i).Ok?
    ensures |Rows(x, winLen, step, count, i).value| == count - i
    ensures forall k :: i <= k < count ==>
      FrameRow(x, FrameStart(k, step), winLen) == Ok(Rows(x, winLen, step, count, i).value[k - i])
    decreases count - i
  {
    if i < count {
      RowsOk(x, winLen, step, count, i + 1);
    }
  }

  /** When every row i .. count - 1 can be built, so can the matrix. */
  lemma {:induction false} RowsAllOk(x: seq<real>, winLen: nat, step: nat, count: nat, i: nat)
    requires i <= count
    requires forall k :: i <= k < count ==> FrameRow(x, FrameStart(k, step), winLen).Ok?
    ensures Rows(x, winLen, step, count, i).Ok?
    decreases count - i
  {
    if i < count {
      RowsAllOk(x, winLen, step, count, i + 1);
    }
  }

  /** Row i of a frame matrix is the frame starting at i * (winLen - overlap). */
  lemma FramesRow(x: seq<real>, winLen: nat, overlap: nat, i: nat)
    requires overlap < winLen && Frames(x, winLen, overlap).Ok?
    ensures |Frames(x, winLen, overlap).value| == FrameCount(|x|, winLen, overlap)
    ensures i < |Frames(x, winLen, overlap).value| ==>
      FrameRow(x, FrameStart(i, winLen - overlap), winLen) == Ok(Frames(x, winLen, overlap).value[i])
  {
    RowsOk(x, winLen, winLen - overlap, FrameCount(|x|, winLen, overlap), 0);
  }

  /**
   * A frame matrix has FrameCount rows of winLen samples each, and position j
   * of frame i holds sample i * (winLen - overlap) + j whenever it exists.
   */
  lemma FramesShape(x: seq<real>, winLen: nat, overlap: nat)
    requires overlap < winLen && Frames(x, winLen, overlap).Ok?
    ensures var frames := Frames(x, winLen, overlap).value;
      && |frames| == FrameCount(|x|, winLen, overlap)
      && (forall i :: 0 <= i < |frames| ==> |frames[i]| == winLen)
      && forall i, j :: 0 <= i < |frames| && 0 <= j < winLen && FrameStart(i, winLen - overlap) + j < |x| ==>
           frames[i][j] == x[FrameStart(i, winLen - overlap) + j]
  {
    var frames := Frames(x, winLen, overlap).value;
    FramesRow(x, winLen, overlap, 0);
    forall i | 0 <= i < |frames|
      ensures |frames[i]| == winLen
      ensures forall j :: 0 <= j < winLen && FrameStart(i, winLen - overlap) + j < |x| ==>
        frames[i][j] == x[FrameStart(i, winLen - overlap) + j]
    {
      FramesRow(x, winLen, overlap, i);
      FrameRowShape(x, FrameStart(i, winLen - overlap), winLen);
    }
  }

  /** With one third of a step or less of overlap, the rounded frame count is never negative. */
  lemma FrameCountNonNegative(n: nat, winLen: nat, overlap: nat)
    requires overlap < winLen && 4 * overlap <= winLen
    ensures FrameCount(n, winLen, overlap) >= 0
  {
    var c := FrameCount(n, winLen, overlap);
    var step := winLen - overlap;
    RoundHalfEvenNearest(n - overlap, step);
    if c < 0 {
      MulMono(2 * c + 1, -1, step);
    }
  }

  /**
   * At least one frame is allocated exactly when the samples past the overlap
   * are more than half a step: a remainder of exactly half a step rounds to
   * the even count 0.
   */
  lemma FrameCountPositive(n: nat, winLen: nat, overlap: nat)
    requires overlap < winLen
    ensures FrameCount(n, winLen, overlap) >= 1 <==> winLen + overlap < 2 * n
  {
    var c := FrameCount(n, winLen, overlap);
    var step := winLen - overlap;
    RoundHalfEvenNearest(n - overlap, step);
    if winLen + overlap < 2 * n {
      if c <= 0 {
        MulMono(2 * c + 1, 1, step);
      }
    } else if c >= 1 {
      MulMono(1, 2 * c - 1, step);
      if c >= 2 {
        MulMono(3, 2 * c - 1, step);
      }
    }
  }

  /**
   * Every frame counted from a signal of n samples starts early enough that
   * at least overlap + step / 2 samples remain from its start on.
   */
  lemma FrameStartBound(n: nat, winLen: nat, overlap: nat, i: nat)
    requires overlap < winLen && i < FrameCount(n, winLen, overlap)
    ensures 2 * (n - FrameStart(i, winLen - overlap)) >= 2 * overlap + (winLen - overlap)
  {
    var c := FrameCount(n, winLen, overlap);
    var step := winLen - overlap;
    RoundHalfEvenNearest(n - overlap, step);
    MulMono(i, c - 1, step);
    assert (2 * c - 1) * step == 2 * ((c - 1) * step) + step;
  }

  /**
   * With the parameters VAD derives (winLen >= 1, overlap = winLen / 4) every
   * frame can be built, and, unless winLen is 2, frame i holds the sample it
   * was sliced from where that exists and 0 past the end of the signal.
   */
  lemma FrameRowAtVadParameters(x: seq<real>, winLen: nat, i: nat)
    requires 1 <= winLen && i < FrameCount(|x|, winLen, winLen / 4)
    ensures var start := FrameStart(i, winLen - winLen / 4);
      var r := FrameRow(x, start, winLen);
      && r.Ok?
      && (winLen != 2 ==> forall j :: 0 <= j < winLen ==>
            r.value[j] == if start + j < |x| then x[start + j] else 0.0)
  {
    var start := FrameStart(i, winLen - winLen / 4);
    FrameStartBound(|x|, winLen, winLen / 4, i);
    FrameRowShape(x, start, winLen);
    if |x| < start + winLen {
      var len := |x| - start;
      if winLen < 2 * len {
        FrameRowPadded(x, start, winLen);
        var row := x[start..] + Zeros(winLen - len);
        assert forall j :: 0 <= j < winLen && len <= j ==> row[j] == 0.0;
      } else {
        FrameRowBroadcast(x, start, winLen);
      }
    }
  }

  /** With VAD's parameters (winLen >= 1, overlap = winLen / 4) `_framing` never raises. */
  lemma FramesOkAtVadParameters(x: seq<real>, winLen: nat)
    requires 1 <= winLen
    ensures Frames(x, winLen, winLen / 4).Ok?
  {
    var step := winLen - winLen / 4;
    var n := FrameCount(|x|, winLen, winLen / 4);
    FrameCountNonNegative(|x|, winLen, winLen / 4);
    forall k | 0 <= k < n
      ensures FrameRow(x, FrameStart(k, step), winLen).Ok?
    {
      FrameRowAtVadParameters(x, winLen, k);
    }
    RowsAllOk(x, winLen, step, n, 0);
  }

  /**
   * With VAD's parameters and any winLen but 2, every frame is its slice
   * padded with zeros: position j of frame i holds the sample it was sliced
   * from where that exists and 0 past the end of the signal.
   */
  lemma FramesPaddedAtVadParameters(x: seq<real>, winLen: nat)
    requires 1 <= winLen && winLen != 2
    ensures Frames(x, winLen, winLen / 4).Ok?
    ensures var frames := Frames(x, winLen, winLen / 4).value;
      forall i, j :: 0 <= i < |frames| && 0 <= j < winLen ==>
        |frames[i]| == winLen &&
        frames[i][j] == var k := FrameStart(i, winLen - winLen / 4) + j; if k < |x| then x[k] else 0.0
  {
    FramesOkAtVadParameters(x, winLen);
    var frames := Frames(x, winLen, winLen / 4).value;
    forall i | 0 <= i < |frames|
      ensures |frames[i]| == winLen
      ensures forall j :: 0 <= j < winLen ==>
        frames[i][j] == var k := FrameStart(i, winLen - winLen / 4) + j; if k < |x| then x[k] else 0.0
    {
      FramesRow(x, winLen, winLen / 4, i);
      FrameRowShape(x, FrameStart(i, winLen - winLen / 4), winLen);
      FrameRowAtVadParameters(x, winLen, i);
    }
  }

  /**
   * With winLen 2 and no overlap (sampling rates from 80 to 119 Hz) a
   * three-sample signal gives two frames, and the second repeats the last
   * sample instead of padding it with a zero.
   */
  lemma LastFrameRepeatsSample()
    ensures Frames([1.0, 2.0, 3.0], 2, 0) == Ok([[1.0, 2.0], [3.0, 3.0]])
  {
    var x := [1.0, 2.0, 3.0];
    assert FrameCount(3, 2, 0) == 2;
    assert FrameRow(x, FrameStart(0, 2), 2) == Ok([1.0, 2.0]) by {
      assert Slice(x, 0, 2) == [1.0, 2.0];
    }
    assert FrameRow(x, FrameStart(1, 2), 2) == Ok([3.0, 3.0]) by {
      FrameRowBroadcast(x, 2, 2);
      assert Fill(3.0, 2) == [3.0, 3.0];
    }
    assert Rows(x, 2, 2, 2, 2) == Ok([]);
    assert Rows(x, 2, 2, 2, 1) == Ok([[3.0, 3.0]] + []);
    assert Rows(x, 2, 2, 2, 0) == Ok([[1.0, 2.0]] + ([[3.0, 3.0]] + []));
    assert [[1.0, 2.0]] + ([[3.0, 3.0]] + []) == [[1.0, 2.0], [3.0, 3.0]];
  }

  /** `_framing`: fills a preallocated matrix of zero rows frame by frame. */
  method Framing(x: seq<real>, winLen: nat, overlap: nat) returns (r: Result<seq<seq<real>>, FrameError>)
    requires overlap <= winLen
    ensures r == Frames(x, winLen, overlap)
  {
    if overlap == winLen {
      return Err(ZeroStep);
    }
    var step := winLen - overlap;
    var n := RoundHalfEven(|x| - overlap, step);
    if n < 0 {
      return Err(NegativeFrameCount);
    }
    var frames := new seq<real>[n](_ => Zeros(winLen));
    for i := 0 to n
      invariant forall k :: 0 <= k < i ==> FrameRow(x, FrameStart(k, step), winLen) == Ok(frames[k])
    {
      var start := i * step;
      var row := FrameRow(x, start, winLen);
      if row.Err? {
        RowsSplit(x, winLen, step, n, i, frames[..i]);
        assert Rows(x, winLen, step, n, i) == Err(row.error);
        return Err(row.error);
      }
      frames[i] := row.value;
    }
    RowsSplit(x, winLen, step, n, n, frames[..]);
    assert frames[..] + [] == frames[..];
    r := Ok(frames[..]);
  }
}

# Energy-based voice activity detector — verified model

This project models the voice activity detector in `Tools/voiceActivityDetector.py`. The detector works in four stages:

1. **Framing** (`_framing`): cuts a mono signal into overlapping frames of `win_len` samples that start `win_len - overlap` samples apart.
2. **Scoring** (`_calculate_nrg`): gives each frame a normalised energy score. It is a parameter of this model (see Left out).
3. **Adaptive gate** (the loop in `VAD`): marks a frame voiced when enough of its neighbours score above the energy threshold.
4. **Deframing** (`_deframing`): spreads the frame decisions back over the samples, keeps the voiced samples, zeroes the rest, and trims the zero runs at both ends.

`VAD` also derives the share threshold from the database id and the frame length and overlap from the sampling rate.

Modules:

- `Wrappers` (`common.dfy`) holds the `Result` type used for the error paths. `Ints` (same file) holds `Min`/`Max`.
- `Framing` (`framing.dfy`): the frame count is `(len(x) - overlap) / (win_len - overlap)` rounded half to even.
  - Every row is built exactly as line 23 builds it. `Framing.Framing` fills a preallocated matrix row by row and is proved equal to the function `Framing.Frames`.
  - The errors the code can raise are part of the model: division by zero when `win_len == overlap`, a negative frame count, `win_len % 0` on an empty slice, and numpy's shape mismatch.
- `Gate` (`gate.dfy`): the per-frame decision is `count / (end - start + 1) > percent_th`. The count is taken over the window `[max(0, i - context), min(n, i + context))`. `Gate.Gate` fills a flag array in a loop.
- `Deframing` (`deframing.dfy`):
  - `Deframing.Deframe` writes each frame's mark over its range in a zeroed array, where later frames overwrite earlier ones and writes past the end are dropped.
  - It then copies the signal under non-zero marks and trims.
  - The function `Deframing.Voiced` states the untrimmed buffer sample by sample. `Deframing.TrimZeros` is `np.trim_zeros`.
- `VoiceActivity` (`vad.dfy`): `VoiceActivity.Vad` composes the stages. It is proved equal to the function `VoiceActivity.Pipeline`.

Samples and scores are Dafny `real`s. Samples are only copied and compared with zero, and scores are only compared with the threshold.

Behaviour of the code that the model keeps, each contrasted with what the names, defaults or docstrings in the file suggest:

- `_deframing` returns `np.trim_zeros(x_voice)`. Its default mode `'fb'` strips zeros from the front **and** the back of the result, not only the trailing silence after the voice. Interior zeros are kept.
- `win_len = int(fs * 0.025)` truncates the 25 ms frame length; it does not round it. It is `fs / 40` under integer division. `overlap = int(win_len * 0.25)` is `win_len / 4`.
- The docstring names two databases (1 and 2). Any id other than 1 selects the share threshold 0.3, and no id is rejected.
- `VAD`'s docstring promises a list of frame decisions. The code returns the deframed, trimmed signal, and so does the model. The decisions themselves are `VoiceActivity.Detect`.
- The pad length on line 23 is `win_len % L` for a short final slice of length `L`. This equals `win_len - L` only when `win_len / 2 < L < win_len` (`Framing.FrameRowPadded`).
  - With `VAD`'s parameters every frame meets that condition except when `win_len == 2` (sampling rates 80 to 119).
  - In that case the last slice can hold one sample. The pad is `2 % 1 == 0` zeros, and numpy broadcasts the single sample over the row, so the last frame repeats the last sample. `Framing.LastFrameRepeatsSample` shows this on `[1, 2, 3]`.
  - `Framing.FramesOkAtVadParameters` proves that with these parameters framing never raises.
- `VAD` raises in exactly two cases (`VoiceActivity.FailureConditions`).
  - Below 40 samples per second `win_len` and `overlap` are both 0, and framing divides by zero.
  - From 40 on, a signal with `2 * len(x) <= win_len + overlap` gets no frames (`Framing.FrameCountPositive`). `_calculate_nrg` then takes the builtin `min` of an empty array and raises. An empty signal and, at 16000 samples per second, any signal of up to 250 samples fail this way.
- `VoiceActivity.Vad` keeps `VAD`'s defaults: `nrg_th = 0` and `context = 5`.

## Model

| member | source | states |
|---|---|---|
| Framing.RoundHalfEvenNearest | Tools/voiceActivityDetector.py:18 | `np.round` of a / b is an integer within one half of a / b, and an exact half goes to the even neighbour |
| Framing.RoundHalfEvenUnique | Tools/voiceActivityDetector.py:18 | the rounding is the only integer with that property, so the frame count is determined by round-half-to-even |
| Framing.Slice | Tools/voiceActivityDetector.py:23 | `x[start:end]` clamps both bounds to the signal length; its elements are the signal's from `start` on |
| Framing.FrameRowShape | Tools/voiceActivityDetector.py:23 | a row that can be built has `win_len` samples and holds `x[start + j]` wherever that exists; a full slice is stored as is; only a frame starting at or past the end has an empty slice and fails |
| Framing.FrameRowPadded | Tools/voiceActivityDetector.py:23 | when the final slice has length L with win_len / 2 < L < win_len, the row is the slice followed by win_len - L zeros |
| Framing.FrameRowBroadcast | Tools/voiceActivityDetector.py:23 | a one-sample final slice with win_len >= 2 gets no padding and numpy repeats that sample over the row |
| Framing.FramesRow | Tools/voiceActivityDetector.py:18-23 | a successful framing has exactly n_frames rows, and row i is the row built from start i * (win_len - overlap) |
| Framing.FramesShape | Tools/voiceActivityDetector.py:18-23 | every row has win_len samples and position j of row i holds `x[i * (win_len - overlap) + j]` whenever that index is inside the signal |
| Framing.FrameCountPositive | Tools/voiceActivityDetector.py:18 | at least one frame is allocated exactly when win_len + overlap < 2 * len(x); a remainder of exactly half a step rounds to 0 |
| Framing.FrameCountNonNegative | Tools/voiceActivityDetector.py:18 | with overlap at most a quarter of win_len the frame count is never negative |
| Framing.FrameRowAtVadParameters | Tools/voiceActivityDetector.py:20-23 | with VAD's overlap every row can be built, and for win_len other than 2 each position holds the sample or 0 |
| Framing.FramesOkAtVadParameters | Tools/voiceActivityDetector.py:18-23 | with win_len >= 1 and overlap = win_len / 4 framing never raises |
| Framing.FramesPaddedAtVadParameters | Tools/voiceActivityDetector.py:18-23 | with VAD's parameters and win_len other than 2 position j of frame i is the sample it was cut from, or 0 past the end of the signal |
| Framing.LastFrameRepeatsSample | Tools/voiceActivityDetector.py:23 | framing [1, 2, 3] with win_len 2 and overlap 0 gives [[1, 2], [3, 3]]: the last frame repeats its sample instead of being zero-padded |
| Framing.Framing | Tools/voiceActivityDetector.py:18-24 | filling the preallocated matrix row by row returns the frame matrix, or the first error a row raises |
| Gate.CountAboveIsCardinality | Tools/voiceActivityDetector.py:94 | the count over a window is the number of indices in it whose score strictly exceeds the threshold |
| Gate.CountAboveAntitone | Tools/voiceActivityDetector.py:94 | a higher threshold never counts more scores |
| Gate.DecisionMeaning | Tools/voiceActivityDetector.py:91-96 | frame i is voiced exactly when the number of k in [max(0, i - context), min(n, i + context)) with score above nrg_th, over the window length plus one, exceeds percent_th |
| Gate.ShareBelowOne | Tools/voiceActivityDetector.py:94-96 | the share compared with percent_th is always below 1 because the denominator is one more than the window length |
| Gate.NoContextNoVoice | Tools/voiceActivityDetector.py:91-96 | with context 0 no frame is voiced for a non-negative percent_th |
| Gate.DecisionAntitone | Tools/voiceActivityDetector.py:94-96 | raising nrg_th never turns an unvoiced frame voiced |
| Gate.VoicedCountAntitone | Tools/voiceActivityDetector.py:90-96 | raising nrg_th never increases the number of voiced frames |
| Gate.Gate | Tools/voiceActivityDetector.py:90-96 | the loop produces one flag per frame, each the gate's decision for that frame |
| Deframing.MarkedByLastCoveringFrame | Tools/voiceActivityDetector.py:42-45 | after writing frames in order, a sample is marked exactly when the highest-indexed frame covering it voted voiced |
| Deframing.AllVoicedMarksCovered | Tools/voiceActivityDetector.py:42-45 | when every frame voted voiced, every covered sample is marked |
| Deframing.NoneVoicedMarksNothing | Tools/voiceActivityDetector.py:42-45 | when no frame voted voiced, no sample is marked |
| Deframing.MarkedMono | Tools/voiceActivityDetector.py:42-45 | decisions that are voiced wherever others are give marks that are set wherever the others' are |
| Deframing.VoicedAt | Tools/voiceActivityDetector.py:41-48 | the untrimmed buffer has len(x) samples; sample k is x[k] when the last frame covering k voted voiced and 0 otherwise, including samples no frame covers |
| Deframing.UncoveredIsSilent | Tools/voiceActivityDetector.py:41-48 | a sample no frame covers is 0 before trimming |
| Deframing.AllVoicedRestoresCovered | Tools/voiceActivityDetector.py:41-48 | with every frame voiced the untrimmed buffer equals the signal at every covered sample |
| Deframing.VoicedMono | Tools/voiceActivityDetector.py:41-48 | with fewer voiced frames each untrimmed sample is 0 or what it was with more |
| Deframing.TrimFrontDropsLeadingZeros | Tools/voiceActivityDetector.py:49 | the result is a suffix, only zeros are dropped, and it starts with a non-zero sample unless empty |
| Deframing.TrimBackDropsTrailingZeros | Tools/voiceActivityDetector.py:49 | the result is a prefix, only zeros are dropped, and it ends with a non-zero sample unless empty |
| Deframing.TrimZerosBounds | Tools/voiceActivityDetector.py:49 | `np.trim_zeros` keeps one contiguous stretch, interior zeros included, with only zeros outside it and non-zero samples at both of its ends |
| Deframing.TrimZerosEmptyIffSilent | Tools/voiceActivityDetector.py:49 | the trimmed result is empty exactly when every sample is zero |
| Deframing.TrimmedMaskIsStretch | Tools/voiceActivityDetector.py:49 | trimming a copy of the signal whose samples are each kept or zeroed leaves a stretch of the signal with each sample kept or zeroed and kept non-zero samples at both ends |
| Deframing.TrimmedIsMaskedStretch | Tools/voiceActivityDetector.py:41-49 | the deframed result is such a stretch of the signal |
| Deframing.AllUnvoicedIsEmpty | Tools/voiceActivityDetector.py:41-49 | when no frame is voiced the result is the empty sequence |
| Deframing.Deframe | Tools/voiceActivityDetector.py:41-49 | the two in-place loops and the trim return the trimmed voiced buffer, which is never longer than the signal |
| VoiceActivity.ParametersMeaning | Tools/voiceActivityDetector.py:84-86 | percent_th is 0.4 for database 1 and 0.3 for every other id; win_len is the floor of fs / 40 and overlap the floor of win_len / 4; the hop is positive exactly when fs >= 40 |
| VoiceActivity.FramesAtRate | Tools/voiceActivityDetector.py:85-88 | from fs >= 40 framing with VAD's parameters never raises, and it yields at least one frame exactly when win_len + overlap < 2 * len(x) |
| VoiceActivity.FailureConditions | Tools/voiceActivityDetector.py:85-89 | VAD raises division by zero exactly when fs < 40; from 40 on it raises for want of frames exactly when 2 * len(x) <= win_len + overlap, the minimum of an empty energy profile being undefined; otherwise it returns a signal |
| VoiceActivity.DetectPerFrame | Tools/voiceActivityDetector.py:87-96 | from fs >= 40 and with one score per frame, VAD makes decisions exactly when there are frames; it then makes n_frames of them, decision i being the gate's verdict on frame i |
| VoiceActivity.NoContextIsSilent | Tools/voiceActivityDetector.py:91-97 | with context 0 VAD returns the empty signal whenever it returns at all (fs >= 40 and at least one frame) |
| VoiceActivity.OutputIsMaskedStretch | Tools/voiceActivityDetector.py:97 | whenever `VAD` returns, the result is a stretch of the signal in which each sample is kept or zeroed, beginning and ending with a kept non-zero sample |
| VoiceActivity.ThresholdOnlySilences | Tools/voiceActivityDetector.py:94-97 | raising nrg_th does not change whether VAD raises, and it only silences samples: each untrimmed sample becomes 0 or stays as it was |
| VoiceActivity.Vad | Tools/voiceActivityDetector.py:68-97 | VAD's steps in order, with its default threshold and context, return the pipeline's result or its error; a result is never longer than the signal |

## Left out

- `_calculate_nrg` (Tools/voiceActivityDetector.py:51-66) is not part of this model. It is floating-point numerics: a matrix product, a logarithm and min-max normalisation. `VAD` takes the scoring as a function parameter `nrg`.
  - Of its failures only one is modelled: `min` of an empty profile when there are no frames (`VoiceActivity.NoFrames`).
  - `log(0)` for a silent frame and a zero range in the normalisation are not modelled. numpy computes with non-finite values there rather than raising; the model takes whatever scores `nrg` returns.
- VoiceActivity.Vad: the gate runs over the scores `nrg` returns rather than over `x_frames.shape[0]`. The two agree because `_calculate_nrg` returns one score per frame; `VoiceActivity.DetectPerFrame` states this under that assumption.
- The products `fs * 0.025` and `win_len * 0.25` are taken as exact. For integer rates this matches `int()` of the floating-point product. Non-integer and negative rates are not modelled (`fs` is a `nat`).
- The frame count divides as exact rationals before rounding. The floating-point quotient could only round differently for signals far longer than any audio file.
- The gate's share is compared with 0.4 or 0.3 as an exact rational. Floating-point division could only disagree for windows of more than 10^15 frames.
- A negative `context` is not modelled (`context` is a `nat`). In the code it would make the windows empty or reversed.
- The numpy representation is not modelled: `x_vad` having shape `(n, 1)` and the row broadcast in `x_voice[start:end] = x_vad[i]` become a plain boolean per frame. NaN samples and scores are not modelled.
- Audio file I/O, datasets and the downstream classifier are not part of this file or this model.

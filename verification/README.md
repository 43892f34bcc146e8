# audio: the piano-roll compiler and the signal graph, in Dafny

This project models the two parts of `glennimoss/audio` that carry logic:

- `music.py`, the pitch arithmetic and the piano-roll compiler:
  - `_parts` reads a pitch spelling.
  - `freq` turns a spelling into half-steps above A4.
  - `offset` transposes a pitch and respells it from the twelve `_semitones` names.
  - `to_dur` and `to_dotted` convert between dot marks and exact `Fraction` lengths.
  - `PianoRoll` is the token loop with its running default note size.
- `device.py`, the signal graph:
  - the `asInput` adapter and the stateless nodes: `Const`, `FrequencySignal`, `ConstFrequency`, `PositiveSignal`, `Amp`, `Mult`/`Bias`, `OldBias` and `Mixer`;
  - `p2f`/`f2p`;
  - the state machines `TriggerSignal`, `Trigger`, `Gate`, `Sequence`, `LinearRamp`, `SegmentedRamp` and `ADSREnvelope`;
  - the `PhasedSignal` phase accumulator and the `Saw`, `Square` and `Triangle` tables;
  - the `Sampler` loop.

Modules:

| module | file | what it holds |
|---|---|---|
| `Python` | `python.dfy` | Python exceptions, a `Result` that either holds a value or raises, `math.gcd`, `Fraction` as a numerator and a positive denominator (`Normalize`, like the `Fraction` constructor, puts it in lowest terms), powers of two, and the double nearest to `1/n` |
| `Text` | `text.dfy` | ASCII digits, `int()`/`str()` on them, and `str.split()` |
| `Music` | `music.dfy` | `_pitch_re`, `_parts`, `freq` (as half-steps, with its `OverflowError`), `offset`, `to_dur`, `to_dotted` |
| `Roll` | `roll.dfy` | `_note_re`, the body of the `PianoRoll` loop, and the whole loop |
| `Signals` | `signals.dfy` | classes, `asInput`, stateless nodes, `p2f`/`f2p`, `Mixer` |
| `Controls` | `controls.dfy` | `TriggerSignal`, `Trigger`, `GateSignal`, `Gate`, `Sequence` |
| `Envelopes` | `envelopes.dfy` | `LinearRamp`, `SegmentedRamp`, `ADSREnvelope` |
| `Oscillators` | `oscillators.dfy` | `PhasedSignal` and the three rational wave tables |
| `Sampling` | `sampling.dfy` | `Sampler` with a duration |

A node whose fields change from call to call is a class. Its `Call` method takes the samples of the node's inputs at that time as parameters, and its `ensures` ties the new state and the output to a pure step function of the old state: `EdgeStep`, `SeqStep`, `RampCall`, `AdsrStep` or `Advance`. The lemmas about those step functions state what the node promises.

Loops in the source are loops here, with invariants:

- `Music.ToDur` and `Music.ToDotted`;
- `Roll.PianoRoll`;
- `Envelopes.SegmentedRamp.Call`;
- `Sampling.Sampler`.

The graph itself is values. A `Node` datatype records how each node was built. `Eval` gives its value at a time; stateful nodes take their samples from an environment.

Times, samples, frequencies and levels are `real`. Note lengths are exact fractions, as in the source. A pitch is a number of half-steps above A4, with `None` for a rest. The frequency `440 * 2**(h/12)` of `h` half-steps is not computed, but the `OverflowError` that `2**(h/12)` raises from `h = 12288` on is. A size `/N` is read as Python reads it: `1/int(size)` is the double nearest to `1/N`, and `Fraction` takes that double exactly.

## Model

| member | source | states |
|---|---|---|
| `Music.MatchThenSpell` | music.py:30 | `_pitch_re` accepts only a scale sign, one run of sharps or one run of flats, and optional octave digits; the matched text is their concatenation, plus at most a final newline |
| `Music.SpellThenMatch` | music.py:30 | every such spelling is accepted and its groups are read back exactly |
| `Music.DotEndUnmatched` | music.py:30 | no text that ends in a dot mark is a pitch |
| `Music.PartsOf` | music.py:63-70 | `_parts` raises `AttributeError` exactly when the pattern does not match; otherwise the scale sign is one of `ABCDEFG;` |
| `Music.PartsOfSpelling` | music.py:63-70 | `_parts` returns the written scale and accidentals, and the octave read as a number, or 4 when none is written |
| `Music.HalfStepsOfSpelling` | music.py:72-77 | for a letter, `freq` counts `_dist_A[letter] + 12*(octave-4) + sign*len(accidentals)` half-steps, with sign -1 for flats and +1 for sharps |
| `Music.PitchErrors` | music.py:72-98 | `freq` and `offset` raise `AttributeError` exactly on text that is not a pitch; `freq` gives `None` exactly for a rest, and `offset` raises `TypeError` exactly for a rest |
| `Python.RoundHalfEvenNearest` | music.py:122 | the rounded quotient is within half a unit of the exact one, and a tie goes to the even neighbour |
| `Python.FloatReciprocalExact` | music.py:122 | the double nearest to `1/n` is exactly `1/n` when `n` is a power of two up to `2^1074`, and only then |
| `Python.FloatReciprocalZero` | music.py:122 | the double nearest to `1/n` is zero exactly when `n >= 2^1075` |
| `Python.ReciprocalOfThree` | music.py:122 | `1/3` is the double `6004799503160661/2^54` |
| `Music.HalfStepsOfMatch` | music.py:72-77 | the same count for any text that `_pitch_re` accepts, including one with a final newline |
| `Music.Freq` | music.py:72-80 | `freq` raises only `AttributeError` (not a pitch) or `OverflowError` (`2**(halfs/12)` too large), and every pitch it returns is below 12288 half-steps |
| `Music.FreqOf` | music.py:78 | `freq` returns the count `halfs` when it is below 12288 and raises `OverflowError` from 12288 on |
| `Music.FreqOfMatch` | music.py:72-80 | for any text that `_pitch_re` accepts, `freq` returns the count `_dist_A[letter] + 12*(octave-4) + sign*len(accidentals)` or raises `OverflowError` when it is 12288 or more |
| `Music.HighestPitch` | music.py:72-80 | `freq("G#1027")` is 12287 half-steps, one below the first count that overflows |
| `Music.OverflowPitch` | music.py:78 | `freq("A1028")` raises `OverflowError` |
| `Music.AccidentalsShift` | music.py:76-77 | for two accepted pitches with the same letter and the same written octave, each `#` adds one half-step and each `b` takes one away |
| `Music.OctavesShift` | music.py:76 | for two accepted pitches with the same letter and accidentals, each octave adds twelve half-steps, and a missing octave counts as 4 |
| `Music.Offset` | music.py:82-98 | `offset` raises only `AttributeError` (not a pitch) or `TypeError` (a rest) |
| `Music.Transpose` | music.py:85-98 | once the pitch has been parsed, the only error is the rest's `TypeError` |
| `Music.SemitoneSpelling` | music.py:5-27 | entry `i` of `_semitones` is a letter with at most one accidental and lies exactly `i` half-steps above A |
| `Music.OffsetNamesPitch` | music.py:82-98 | `offset(p, k)` is the `_semitones` name of the pitch `k` half-steps above `p`, with octave `octave + h // 12` and name index `h % 12` |
| `Music.TransposeNote` | music.py:85-98 | the same, stated on the parsed parts |
| `Music.OffsetPreservesDistance` | music.py:82-98 | the pitch named by `offset(p, k)` is `k` half-steps above `p` whenever its octave is not negative |
| `Music.NameOfRoundTrip` | music.py:93-98 | a name that `offset` writes with a non-negative octave reads back as the pitch it was written for |
| `Music.NegativeOctaveUnreadable` | music.py:93-98 | a name written with a negative octave does not parse |
| `Music.NegativeOctaveExample` | music.py:93-98 | `offset("Ab0", 0)` is `"G#-1"`, and `freq` of that raises |
| `Music.OffsetZeroIdempotent` | music.py:82-98 | `offset(p, 0)` respells `p`, and applying it again changes nothing |
| `Music.RespellExample` | music.py:82-98 | `offset("Db4", 0) == "C#4"` |
| `Music.DurLoop` | music.py:53-59 | the `to_dur` loop succeeds exactly when every character is a dot mark; an unknown mark raises `KeyError` |
| `Music.ToDur` | music.py:53-59 | the imperative loop of `to_dur` computes `DurLoop` |
| `Music.DurLoopValue` | music.py:53-59 | `to_dur` adds exactly one term per mark: one over the running denominator, multiplied first by the mark's `_dotval` |
| `Music.DotTailBounds` | music.py:53-59 | the marks add a positive amount that is less than one over the base denominator |
| `Music.DotsAddHalves` | music.py:53-59 | `k` dots add `1/2 + ... + 1/2^k` of the base length |
| `Music.DurLoopReduced` | music.py:53-59 | every `to_dur` result is a `Fraction` in lowest terms |
| `Music.DottedQuarter` | music.py:53-59 | `to_dur(1/4, ".") == 3/8` |
| `Music.DoubleDottedQuarter` | music.py:53-59 | `to_dur(1/4, "..") == 7/16` |
| `Music.ColonQuarter` | music.py:101-105 | `to_dur(1/4, ":") == 5/16` |
| `Music.ToDotted` | music.py:33-51 | the imperative loop of `to_dotted` computes `DottedText` |
| `Music.PeelValue` | music.py:36-47 | each turn of the `to_dotted` loop keeps the length: the fraction left plus what the marks add equals the input |
| `Music.DottedUnit` | music.py:33-51 | a fraction with numerator one is written as its denominator alone |
| `Music.DottedInvertsDur` | music.py:33-59 | `to_dotted(to_dur(1/d, marks)) == str(d) + marks` for every power of two `d` and every string of marks |
| `Music.DottedRoundTrip` | music.py:33-59 | when `to_dotted` stops at numerator one, `to_dur` of its text gives back exactly the input |
| `Music.QuarterNamed` | music.py:33-59 | a quarter note with marks is written back as `"4"` and those marks |
| `Music.DottedQuarterText` | music.py:33-51 | `to_dotted(3/8) == "4."` |
| `Music.DoubleDottedQuarterText` | music.py:33-51 | `to_dotted(7/16) == "4.."` |
| `Music.ColonQuarterText` | music.py:33-51 | `to_dotted(5/16) == "4:"` |
| `Music.DottedTooFine` | music.py:46-47 | `to_dotted(17/32)` raises `ValueError` because no mark shrinks a denominator by 16 |
| `Roll.MatchNote` | music.py:100 | a `_note_re` match has digits for its size, and dot marks alone after it |
| `Roll.NoteTextMatches` | music.py:100 | every pitch without `/` that has either digits and marks, or neither, is accepted and read back as its three groups |
| `Roll.MatchedNoteText` | music.py:100 | the pattern accepts only such tokens, with at most a final newline |
| `Roll.SizeOf` | music.py:121-122 | `/0` raises `ZeroDivisionError`, and only `/0` does; any other `/N` gives a non-negative `Fraction` in lowest terms |
| `Roll.SizeOfExact` | music.py:121-122 | `/N` is read as exactly `1/N` when `N` is a power of two up to `2^1074`, and only then; it is read as zero exactly when `N >= 2^1075` |
| `Roll.ThirdSize` | music.py:121-122 | `/3` is read as `6004799503160661/18014398509481984`, not `1/3` |
| `Roll.PowerSize` | music.py:121-135 | a size that is a power of two is used as `1/N` or, being zero, passed over for the fallback |
| `Roll.SizePositive` | music.py:121-135 | a non-zero `/N` with a positive fallback leaves a positive size |
| `Roll.StepErrors` | music.py:117-139 | an exception escapes a token exactly when its size is `/0` (`ZeroDivisionError`, whatever the rest of the token is) or its pitch is too high for `freq` (`OverflowError`) |
| `Roll.UnmatchedSkipped` | music.py:118-139 | a token that `_note_re` rejects yields nothing and leaves the default size |
| `Roll.BadPitchSkipped` | music.py:124-139 | a token whose pitch `_pitch_re` rejects yields nothing and leaves the default size |
| `Roll.MarksNeedSize` | music.py:100-139 | marks after a pitch without `/N` become part of the pitch, and the token is skipped |
| `Roll.DottedPitchSkipped` | music.py:100-139 | `A4.` is skipped |
| `Roll.SizeSetsDefault` | music.py:133-135 | a `/N` token without a pitch yields nothing and makes its size the default, unless that size is zero |
| `Roll.NoteUsesDefault` | music.py:124-132 | a pitch without a size is played for the current default size |
| `Roll.SizedNote` | music.py:121-132 | a pitch with `/N` and marks is played for `to_dur` of its size (of the default, when the size is zero) and the marks, and the default size does not change |
| `Roll.ZeroSizeRaises` | music.py:121-122 | `/0` raises before the pitch is looked at |
| `Roll.StepKeepsUnitSize` | music.py:115-135 | when sizes are powers of two, the default stays a unit fraction over a power of two, and every note yielded has a positive length that `to_dotted` can write |
| `Roll.CompileCons` | music.py:117-139 | a token that yields a note puts it in front of what the rest of the score plays |
| `Roll.CompileRaise` | music.py:117-139 | a token that raises ends the score with that exception |
| `Roll.SkippedToken` | music.py:117-139 | a skipped token leaves the rest of the score as it was |
| `Roll.MatchPositive` | music.py:115-135 | from a positive default, a token keeps the default positive and yields a note that lasts longer than zero, whatever its size |
| `Roll.CompilePositive` | music.py:115-139 | every note of a score compiled from a positive default lasts longer than zero |
| `Roll.CompileLengths` | music.py:115-135 | when sizes are powers of two, every note of the score has a length that `to_dotted` can write |
| `Roll.FirstNoteQuarter` | music.py:115-132 | the default size starts at a quarter: a first note without a size is a quarter note |
| `Roll.SizeThenNote` | music.py:121-135 | `/N` followed by a pitch plays that pitch for the size of `/N`, which stays the default for the rest of the score; a zero size leaves the default as it was |
| `Roll.Timed` | music.py:132 | one event for each note |
| `Roll.TimedSnoc` | music.py:132 | each event lasts `size * (60 / tempo)` seconds |
| `Roll.PianoRoll` | music.py:107-139 | the imperative generator loop produces the events and the escaping exception of `PianoRollOf` |
| `Roll.EventsLast` | music.py:107-139 | at a positive tempo every event lasts a positive number of seconds, whatever the sizes |
| `Text.Split` | music.py:114 | `str.split()` gives non-empty words without whitespace |
| `Text.SplitKeepsText` | music.py:114 | joining the words gives back every non-whitespace character of the input, in order |
| `Text.IntOfDecimal` | music.py:98 | `int(str(n)) == n` for the octave numbers `offset` writes |
| `Signals.Ancestors` | device.py:36-476 | every class is an instance of itself and of `Signal`, and of its bases as declared |
| `Signals.Converted` | device.py:53-56 | after `asInput`, a typed input is an instance of its type, and a value that already was one is kept |
| `Signals.AsInput` | device.py:43-56 | a number becomes a node unless `const_type` is `None`; in that case it stays a number, with `None` read as 0 |
| `Signals.Plain` | device.py:36-56 | an untyped input keeps a node as it is and makes `Const(val)` of a number, with `None` read as 0 |
| `Signals.TypedInputKept` | device.py:53-56 | an input that is already of the input's type is not wrapped again |
| `Signals.AsInputIdempotent` | device.py:43-56 | applying `asInput` twice is the same as applying it once |
| `Signals.FrequencyInput` | device.py:69-79 | a node assigned to a frequency input is rescaled by `(x+1)*5500` exactly when it is not already a frequency signal |
| `Signals.RawFrequency` | device.py:332-339 | `PhasedSignal.freq` keeps a number as hertz and reads `None` as 0 Hz |
| `Signals.ConstFrequencyValue` | device.py:81-85 | `ConstFrequency` rescales only numbers in [-1, 1] and keeps any other number; `None` gives 0 Hz |
| `Signals.SequenceFeedsHertz` | device.py:475-476 | `FrequencySequence` is already a frequency signal, so an oscillator takes its values as hertz without rescaling them |
| `Signals.PitchRoundTrip` | device.py:315-330 | `f2p(p2f(p)) == p` |
| `Signals.FrequencyRoundTrip` | device.py:315-330 | `p2f(f2p(f)) == f` |
| `Signals.PitchRange` | device.py:315-321 | `p2f` maps [-1, 1] onto [0, 11000] in order |
| `Signals.AmpRatio` | device.py:386-395 | `Amp` with a number `r` scales its input by `(r+1)/2`, because the ratio goes through `PositiveSignal`; an envelope ratio scales by its own sample |
| `Signals.MakeMod` | device.py:397-418 | `Mult`/`Bias` raise `TypeError` exactly when the carrier is not a node |
| `Signals.ModKeepsKind` | device.py:397-418 | `Mult`/`Bias` are instances of exactly the classes their carrier is, and compute the product or the sum |
| `Signals.OldBiasAdds` | device.py:435-444 | `OldBias` is the sum of its offset and its input, is not a frequency signal, and is rescaled when it drives a frequency input |
| `Signals.Mix` | device.py:511-516 | `Mixer` divides by zero exactly when there are no synths |
| `Signals.MixBounds` | device.py:511-516 | the mix of samples that all lie in [lo, hi] also lies in [lo, hi] |
| `Controls.TriggerSignal.constructor` | device.py:96-99 | a new trigger is not hot |
| `Controls.TriggerSignal.Call` | device.py:101-112 | the output and the new `hot` flag are `EdgeStep` of the old flag |
| `Controls.EdgeStepTracksGate` | device.py:101-140 | after a call, `hot` is exactly the `GateSignal` level of the same samples; the output is 1 exactly when the input reaches the threshold and the trigger was not hot |
| `Controls.EdgesAreRises` | device.py:101-112 | over a run of samples, the output is 1 exactly on a rising edge, and always 0 or 1 |
| `Controls.GateThreshold` | device.py:139-140 | `GateSignal` gives 1 exactly when the input is at or above the threshold, and 0 otherwise |
| `Controls.Trigger.constructor` | device.py:115-116 | a new `Trigger` is not firing |
| `Controls.Trigger.Fire` | device.py:118-119 | `fire()` sets `firing` |
| `Controls.Trigger.Call` | device.py:121-125 | a call returns 1 exactly when the trigger was firing, and clears `firing` |
| `Controls.FiresThenRead` | device.py:118-125 | any number of `fire()` calls before a read give that read a single 1 and leave the trigger clear |
| `Controls.PulsesAtMostFires` | device.py:118-125 | a trigger pulses no more often than it is fired, plus once if it started out firing |
| `Controls.Gate.constructor` | device.py:143-144 | a new `Gate` is closed |
| `Controls.Gate.On` | device.py:146-147 | `on()` opens the gate |
| `Controls.Gate.Off` | device.py:149-150 | `off()` closes the gate |
| `Controls.Gate.Call` | device.py:152-153 | reading a `Gate` returns the level last set and changes nothing |
| `Controls.Sequence.constructor` | device.py:447-453 | a new sequence is at its first step, with `until = -1`, value 0, and a fresh trigger and gate that are clear and closed |
| `Controls.Sequence.Call` | device.py:455-473 | a call updates the sequence, its trigger and its gate as `SeqStep` does, keeps the sequence invariant, and returns the held value |
| `Controls.SeqStepKeepsInvariant` | device.py:455-473 | the held value is always that of the last note handed out, and an open gate means the last step handed out was a note |
| `Controls.SeqHolds` | device.py:456 | while `t <= until` nothing changes |
| `Controls.SeqAdvances` | device.py:456-471 | past `until` the next step lasts until `t + dur`; a note fires the trigger, opens the gate and is held; a rest closes the gate and keeps the old value |
| `Controls.SeqExhausted` | device.py:461-467 | when the steps run out, `until` becomes -1, the gate closes and the value is kept; no later call changes anything |
| `Envelopes.LinearRamp` | device.py:164-177 | `begin` before the start, `end` after the end, and a `ZeroDivisionError` exactly for a zero length sampled at its start |
| `Envelopes.LinearRampShape` | device.py:164-177 | a ramp of positive length goes from `begin` at its start to `end` at its end and never leaves the segment between them |
| `Envelopes.LinearRampRises` | device.py:164-177 | a rising ramp never falls |
| `Envelopes.SegmentedRamp.constructor` | device.py:180-187 | starts from the breakpoint (0, 0) and takes the first breakpoint from the list |
| `Envelopes.SegmentedRamp.Next` | device.py:189-198 | `_next()` moves the upcoming breakpoint to the current one and scales the next one by `dur` and onto [low, high]; it reports when none is left |
| `Envelopes.SegmentedRamp.Call` | device.py:200-211 | the imperative `while next_t <= t` loop and the interpolation compute `RampCall`, and the cursor invariant is kept |
| `Envelopes.AdvanceFacts` | device.py:200-205 | the loop leaves the upcoming breakpoint after `t` unless the list ran out, and then both breakpoints are the last one |
| `Envelopes.RampNeverDividesByZero` | device.py:210-211 | when calls come at times from the current breakpoint on, the divisor `next_t - cur_t` is positive whenever it is reached |
| `Envelopes.RampInterpolates` | device.py:210-211 | up to `dur` the sample lies between the values of the breakpoints around `t` |
| `Envelopes.RampExhausted` | device.py:204-205 | once the list has run out, the last value is returned on this call and on every later one |
| `Envelopes.RampPastEnd` | device.py:207-208 | past `dur`, with breakpoint times in [0, 1], the sample is the last breakpoint's value |
| `Envelopes.ADSREnvelope.constructor` | device.py:271-274 | no attack and no release started, last sample 0, last time `-1/22050` |
| `Envelopes.ADSREnvelope.Call` | device.py:277-313 | a call updates the four fields and returns the sample as `AdsrStep` does |
| `Envelopes.AdsrFailsOnlyUntriggered` | device.py:277-313 | the only failure is a `TypeError` on an open gate before any trigger; every other call records its sample and time |
| `Envelopes.TriggerRestarts` | device.py:280-282 | a trigger sets `start_A = t` and clears `start_R` |
| `Envelopes.AttackStarts` | device.py:291-294 | the first sample of an attack moves from the last sample towards 1 by the share of the attack that the step from `last_t` covers |
| `Envelopes.AttackBetween` | device.py:291-294 | during the attack the sample stays between the last one and 1 when the step from `last_t` is no longer than the rest of the attack |
| `Envelopes.AttackOvershoots` | device.py:291-294 | without that bound it overshoots: at ten samples a second with a quarter-second attack the third sample is 1.2 |
| `Envelopes.DecayBetween` | device.py:295-297 | in the decay the sample falls from 1 towards `S` without passing it |
| `Envelopes.Sustains` | device.py:298-300 | outside the attack and the decay an open gate outputs `S` |
| `Envelopes.ReleaseToZero` | device.py:301-313 | with the gate closed the output is 0 when the last sample was 0, before the release starts, and once `t >= start_R + R` |
| `Envelopes.ReleaseStarts` | device.py:303-304 | the first closed-gate call after a sound starts the release at `t` |
| `Envelopes.ReleaseBetween` | device.py:307-309 | during the release the sample stays between 0 and the last sample when the step from `last_t` is no longer than the rest of the release |
| `Oscillators.Advance` | device.py:348 | `(pa + df) & 0xFFFFFF` lies in [0, 2^24) and is congruent to `pa + df` modulo 2^24 |
| `Oscillators.Index` | device.py:349 | `pa >> 14` lies in [0, 1024) and picks the 2^14-wide slice of the phase that holds `pa` |
| `Oscillators.AdvanceAllIsSum` | device.py:341-349 | after any run of calls from 0, `pa` is the sum of the increments modulo 2^24 |
| `Oscillators.PhasedSignal.constructor` | device.py:336-339 | `pa` and `last_t` start at 0 |
| `Oscillators.PhasedSignal.Call` | device.py:341-349 | a call advances `pa` by `floor(dt*f*2^24)`, records `t`, and returns the table entry at `pa >> 14` |
| `Oscillators.FirstCallReadsFirstEntry` | device.py:341-349 | the first call at `t = 0` returns the first table entry |
| `Oscillators.SawShape` | device.py:357-358 | the saw falls from 1 by 1/512 per entry, stays in (-1, 1], crosses 0 at the middle and is odd about it |
| `Oscillators.SquareShape` | device.py:360-361 | the square is 1 exactly on the first 512 entries and -1 on the rest |
| `Oscillators.TriangleShape` | device.py:363-364 | the triangle rises from 0 to 1, falls to -1 and rises back towards 0, piece by piece linearly, within [-1, 1] |
| `Sampling.Sampler` | device.py:519-529 | samples are taken at `k/rate` from 0 on; every tick after the first lies at or before `dur` and the next one does not; for `dur >= 0` there are `floor(dur*rate) + 1` samples |

## Left out

- I/O and randomness: `play`, `write`, `generate`, the `__main__` block and `random_walk`.
- Transcendental and floating-point content:
  - the Sine, Cosine and Fourier tables;
  - `PolyRamp`, `ExpRamp` and `LogRamp`;
  - the `440 * 2**(h/12)` of `freq`.
- `Music.Freq` returns the half-step count rather than the frequency. It raises `OverflowError` from 12288 half-steps on. It does not model the `OverflowError` of `halfs/12` itself, which needs more than about `12 * 2^1024` flats in one pitch.
- Floating-point rounding. Times, samples and levels are exact reals, so the model does not capture:
  - the drift of the accumulated `t += 1/rate` in `Sampler`;
  - the rounding of `dt*f*2**24` before its floor in `PhasedSignal`;
  - rounding in the ramps and the envelope.
- `Roll.CompileLengths`: states that `to_dotted` can write every length only when every `/N` size is a power of two. Other sizes are doubles such as `6004799503160661/2^54`, which `to_dotted` may reject.
- `Text`: `int()` of more than 4300 digits, which newer Pythons refuse with `ValueError`, is read as the number.
- `Text`: `\d` and `int()` are taken to accept only ASCII digits.
- The descriptor and metaclass machinery (`Input`, `NamedDescriptor`, `NamedMeta`, `configable`). It is replaced by an explicit call to `AsInput` on a tagged `Arg` datatype. `BinaryMod`'s runtime subclassing is modelled only as "the result is of its carrier's kind".
- The graph is not evaluated recursively through stateful nodes. Each node's `Call` takes the samples of its inputs at the same time as parameters. Sharing one node between two graph positions, which aliases its state, is therefore not modelled.
- `Sequence` and `SegmentedRamp` read their steps through an iterator. Here the iterator is a list and an index.
- `Synth`, `AMSynth`, `FMSynth`, `RMSynth` and `Vibrato` only wire nodes together, and are not modelled.
- The debug `print` in `Sequence` is not modelled.
- `Envelopes.SegmentedRamp.constructor`: requires at least one breakpoint, because the source's first `_next()` raises `StopIteration` out of the constructor on an empty list.
- `Sampling.Sampler`: requires a positive rate and a non-zero duration. It leaves out the endless stream for a duration of `None` or 0, and the division by zero for a rate of 0.
- `PianoRoll` is a lazy generator. The model runs it to the end and returns the events with the exception, if any, that ended it.
- `audio.py`, `sounds.py` and `util.py` are not part of this model.
- Behaviours modelled as the code has them:
  - `ADSREnvelope` outputs 0 after the release window.
  - `Sampler` yields `floor(D*R) + 1` samples for a duration `D` at rate `R`.
  - `ADSREnvelope` does not clamp A, D and R away from zero.
  - `FrequencySequence` returns its step values as they are, because `Sequence.__call__` comes first in its method resolution order.
- The attack of `ADSREnvelope` divides by the time left after `t`, not after `last_t`, so a coarse sampling overshoots 1. This is stated as the condition of `Envelopes.AttackBetween` and shown by `Envelopes.AttackOvershoots`. It is modelled as written.

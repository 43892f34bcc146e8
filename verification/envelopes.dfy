/** The envelope nodes of `device.py`: `LinearRamp`, a clamped straight
    line; `SegmentedRamp`, a piecewise-linear curve through breakpoints read
    one at a time from an iterator; and `ADSREnvelope`, the
    attack/decay/sustain/release state machine driven by a trigger and a
    gate. Times and samples are reals. */
module Envelopes {
  import opened Python

  // ---------------------------------------------------------------------
  // Shares of a quantity, as the interpolations below compute them
  // ---------------------------------------------------------------------

  /** `x` lies between `a` and `b`, in either order. */
  predicate Between(x: real, a: real, b: real) {
    (a <= x <= b) || (b <= x <= a)
  }

  /** `x / d * y`: the share `x / d` of `y`, as the ramps and the attack and
      release of the envelope compute it. */
  function Scale(x: real, d: real, y: real): real
    requires d != 0.0
  {
    x / d * y
  }

  /** `x * y / d`, as the decay computes it. */
  function Share(x: real, y: real, d: real): real
    requires d != 0.0
  {
    x * y / d
  }

  lemma UnitRatio(x: real, d: real)
    requires d > 0.0 && 0.0 <= x <= d
    ensures 0.0 <= x / d <= 1.0
  {
    var q := x / d;
    assert q * d == x;
    assert (1.0 - q) * d == d - x;
  }

  lemma FractionOf(k: real, y: real)
    requires 0.0 <= k <= 1.0
    ensures Between(k * y, 0.0, y)
  {
    if y >= 0.0 {
      assert (1.0 - k) * y >= 0.0;
    } else {
      assert (1.0 - k) * (-y) >= 0.0;
    }
  }

  lemma AtMostWhole(k: real, x: real)
    requires 0.0 <= k <= 1.0 && x >= 0.0
    ensures 0.0 <= k * x <= x
  {
    assert (1.0 - k) * x >= 0.0;
  }

  /** A share of at most the whole of `y` lies between 0 and `y`. */
  lemma ScaleBounds(x: real, d: real, y: real)
    requires d > 0.0 && 0.0 <= x <= d
    ensures Between(Scale(x, d, y), 0.0, y)
  {
    UnitRatio(x, d);
    FractionOf(x / d, y);
  }

  lemma ScaleBounds'(x: real, d: real, y: real)
    requires d > 0.0 && 0.0 <= y <= d
    ensures Between(Scale(x, d, y), 0.0, x)
  {
    UnitRatio(y, d);
    FractionOf(y / d, x);
    assert x / d * y == y / d * x;
  }

  lemma ShareBounds(x: real, y: real, d: real)
    requires d > 0.0 && 0.0 <= x <= d
    ensures Between(Share(x, y, d), 0.0, y)
  {
    ScaleBounds(x, d, y);
    assert Share(x, y, d) == Scale(x, d, y);
  }

  /** None of `y` at the start, all of it at the end, and more of a
      non-negative `y` further along. */
  lemma ScaleGrows(x: real, x': real, d: real, y: real)
    requires d > 0.0 && x <= x' && y >= 0.0
    ensures Scale(0.0, d, y) == 0.0 && Scale(d, d, y) == y
    ensures Scale(x, d, y) <= Scale(x', d, y)
  {
    assert d / d == 1.0;
    var k, k' := x / d, x' / d;
    assert k <= k' by {
      assert k * d == x && k' * d == x';
      assert (k' - k) * d == x' - x;
    }
    assert (k' - k) * y >= 0.0;
  }

  // ---------------------------------------------------------------------
  // LinearRamp
  // ---------------------------------------------------------------------

  /** `LinearRamp(t_start, dur, begin, end)` at time `t`. The division by
      `dur` is reached only for `t_start <= t <= t_start + dur`, so it fails
      exactly when `dur` is 0 and `t` is `t_start`. */
  function LinearRamp(tStart: real, dur: real, begin: real, end: real, t: real): (r: Result<real>)
    ensures r.Raise? <==> dur == 0.0 && t == tStart
    ensures r.Raise? ==> r.exc == ZeroDivisionError
    ensures t < tStart ==> r == Ok(begin)
    ensures tStart <= t && t > tStart + dur ==> r == Ok(end)
  {
    if t < tStart then Ok(begin)
    else if t > tStart + dur then Ok(end)
    else if dur == 0.0 then Raise(ZeroDivisionError)
    else Ok(Scale(t - tStart, dur, end - begin) + begin)
  }

  /** A ramp of positive length starts at `begin`, ends at `end`, and in
      between never leaves the segment from `begin` to `end`. */
  lemma LinearRampShape(tStart: real, dur: real, begin: real, end: real, t: real)
    requires dur > 0.0
    ensures LinearRamp(tStart, dur, begin, end, tStart) == Ok(begin)
    ensures LinearRamp(tStart, dur, begin, end, tStart + dur) == Ok(end)
    ensures LinearRamp(tStart, dur, begin, end, t).Ok?
    ensures Between(LinearRamp(tStart, dur, begin, end, t).value, begin, end)
  {
    ScaleEnds(tStart, dur, end - begin);
    if tStart <= t <= tStart + dur {
      ScaleBounds(t - tStart, dur, end - begin);
    }
  }

  lemma ScaleEnds(tStart: real, dur: real, y: real)
    requires dur > 0.0
    ensures Scale(tStart - tStart, dur, y) == 0.0
    ensures Scale(tStart + dur - tStart, dur, y) == y
  {
    assert tStart - tStart == 0.0 && tStart + dur - tStart == dur;
    ScaleGrows(0.0, 0.0, dur, if y >= 0.0 then y else 0.0);
    assert 0.0 / dur * y == 0.0;
    assert dur / dur * y == y;
  }

  /** With `begin <= end` and a positive length the ramp never falls. */
  lemma LinearRampRises(tStart: real, dur: real, begin: real, end: real, t: real, t': real)
    requires dur > 0.0 && begin <= end && t <= t'
    ensures LinearRamp(tStart, dur, begin, end, t).Ok?
    ensures LinearRamp(tStart, dur, begin, end, t').Ok?
    ensures LinearRamp(tStart, dur, begin, end, t).value <= LinearRamp(tStart, dur, begin, end, t').value
  {
    LinearRampShape(tStart, dur, begin, end, t);
    LinearRampShape(tStart, dur, begin, end, t');
    if tStart <= t && t' <= tStart + dur {
      ScaleGrows(t - tStart, t' - tStart, dur, end - begin);
    }
  }

  // ---------------------------------------------------------------------
  // SegmentedRamp
  // ---------------------------------------------------------------------

  /** What a `SegmentedRamp` is built from: its length `dur`, the
      breakpoints as (fraction of `dur`, fraction of the range) pairs, and
      the range from `low` to `high`. */
  datatype RampConfig = RampConfig(dur: real, steps: seq<(real, real)>, low: real, high: real)

  /** A breakpoint as `_next` scales it: its time times `dur`, its value
      mapped onto [low, high]. */
  function Breakpoint(c: RampConfig, step: (real, real)): (real, real) {
    (step.0 * c.dur, (c.high - c.low) * step.1 + c.low)
  }

  /** The cursor of a `SegmentedRamp`: how many breakpoints the iterator has
      handed out, and the breakpoints on either side of the current time. */
  datatype RampState = RampState(pos: nat, curT: real, curVal: real, nextT: real, nextVal: real)

  /** The upcoming breakpoint is the last one handed out. */
  predicate RampInvariant(c: RampConfig, s: RampState) {
    1 <= s.pos <= |c.steps| && (s.nextT, s.nextVal) == Breakpoint(c, c.steps[s.pos - 1])
  }

  /** `_next()`: the upcoming breakpoint becomes the current one, then the
      iterator is asked for another; `true` when it has none left
      (`StopIteration`), in which case the upcoming one stays as it was. */
  function NextStep(c: RampConfig, s: RampState): (RampState, bool)
    requires s.pos <= |c.steps|
  {
    var s' := s.(curT := s.nextT, curVal := s.nextVal);
    if s.pos == |c.steps| then (s', true)
    else
      var (t, v) := Breakpoint(c, c.steps[s.pos]);
      (s'.(pos := s.pos + 1, nextT := t, nextVal := v), false)
  }

  /** The `while next_t <= t` loop of `__call__`: `_next()` until the
      upcoming breakpoint lies after `t` or the iterator runs out. */
  function Advance(c: RampConfig, s: RampState, t: real): (RampState, bool)
    requires s.pos <= |c.steps|
    decreases |c.steps| - s.pos
  {
    if s.nextT > t then (s, false)
    else
      var (s', stopped) := NextStep(c, s);
      if stopped then (s', true) else Advance(c, s', t)
  }

  /** `__call__(t)`: the new cursor and the sample. Past the last breakpoint
      or past `dur` it holds the current value; otherwise it interpolates
      between the breakpoints around `t`, dividing by their distance. */
  function RampCall(c: RampConfig, s: RampState, t: real): (RampState, Result<real>)
    requires s.pos <= |c.steps|
  {
    var (s', stopped) := Advance(c, s, t);
    if stopped || t > c.dur then (s', Ok(s'.curVal))
    else if s'.nextT - s'.curT == 0.0 then (s', Raise(ZeroDivisionError))
    else (s', Ok(Scale(t - s'.curT, s'.nextT - s'.curT, s'.nextVal - s'.curVal) + s'.curVal))
  }

  /** The loop leaves the cursor valid; unless the iterator ran out the
      upcoming breakpoint lies after `t`; and a current breakpoint at or
      before `t` stays so. When the iterator runs out, the current and
      upcoming breakpoints coincide. */
  lemma {:induction false} AdvanceFacts(c: RampConfig, s: RampState, t: real)
    requires RampInvariant(c, s)
    ensures var (s', stopped) := Advance(c, s, t);
      && RampInvariant(c, s')
      && (!stopped ==> s'.nextT > t)
      && (s.curT <= t ==> s'.curT <= t)
      && (stopped ==> s'.pos == |c.steps| && s'.curT == s'.nextT <= t && s'.curVal == s'.nextVal)
    decreases |c.steps| - s.pos
  {
    if s.nextT <= t {
      var (s', stopped) := NextStep(c, s);
      if !stopped {
        AdvanceFacts(c, s', t);
      }
    }
  }

  /** The divisor `next_t - cur_t` is positive whenever it is reached, as
      long as the current breakpoint is not after `t`; the cursor then stays
      so for any later `t`. Since the constructor leaves the current
      breakpoint at time 0, calls at non-decreasing times from 0 on never
      divide by zero. */
  lemma RampNeverDividesByZero(c: RampConfig, s: RampState, t: real)
    requires RampInvariant(c, s) && s.curT <= t
    ensures var (s', r) := RampCall(c, s, t);
      && r.Ok? && RampInvariant(c, s') && s'.curT <= t
  {
    AdvanceFacts(c, s, t);
  }

  /** Between the breakpoints around `t` the sample lies between their
      values. */
  lemma RampInterpolates(c: RampConfig, s: RampState, t: real)
    requires RampInvariant(c, s) && s.curT <= t <= c.dur
    ensures var (s', r) := RampCall(c, s, t);
      r.Ok? && Between(r.value, s'.curVal, s'.nextVal)
  {
    AdvanceFacts(c, s, t);
    var (s', stopped) := Advance(c, s, t);
    if !stopped {
      ScaleBounds(t - s'.curT, s'.nextT - s'.curT, s'.nextVal - s'.curVal);
    }
  }

  /** Once every breakpoint has been handed out and the last one is not
      after `t`, the call returns the last breakpoint's value and leaves the
      cursor so that every later call at a time not before that breakpoint
      returns the same value. */
  lemma RampExhausted(c: RampConfig, s: RampState, t: real, t': real)
    requires RampInvariant(c, s) && s.pos == |c.steps| && s.nextT <= t
    ensures var (s', r) := RampCall(c, s, t);
      && r == Ok(Breakpoint(c, c.steps[|c.steps| - 1]).1)
      && (s'.nextT <= t' ==> RampCall(c, s', t') == (s', r))
  {
  }

  /** Past `dur` the sample is the value of the current breakpoint, which,
      when every breakpoint's time is in [0, 1] and `dur >= 0`, is the last
      breakpoint: the ramp holds its final value. */
  lemma RampPastEnd(c: RampConfig, s: RampState, t: real)
    requires RampInvariant(c, s) && t > c.dur >= 0.0
    requires forall i :: 0 <= i < |c.steps| ==> 0.0 <= c.steps[i].0 <= 1.0
    ensures RampCall(c, s, t).1 == Ok(Breakpoint(c, c.steps[|c.steps| - 1]).1)
  {
    PastEndAdvance(c, s, t);
  }

  lemma {:induction false} PastEndAdvance(c: RampConfig, s: RampState, t: real)
    requires RampInvariant(c, s) && t > c.dur >= 0.0
    requires forall i :: 0 <= i < |c.steps| ==> 0.0 <= c.steps[i].0 <= 1.0
    ensures var (s', stopped) := Advance(c, s, t);
      stopped && s'.curVal == Breakpoint(c, c.steps[|c.steps| - 1]).1
    decreases |c.steps| - s.pos
  {
    assert s.nextT <= c.dur by {
      AtMostWhole(c.steps[s.pos - 1].0, c.dur);
    }
    var (s', stopped) := NextStep(c, s);
    if !stopped {
      PastEndAdvance(c, s', t);
    }
  }

  class SegmentedRamp {
    const dur: real
    const steps: seq<(real, real)>
    const low: real
    const high: real
    var pos: nat
    var curT: real
    var curVal: real
    var nextT: real
    var nextVal: real

    function Config(): RampConfig {
      RampConfig(dur, steps, low, high)
    }

    function State(): RampState
      reads this
    {
      RampState(pos, curT, curVal, nextT, nextVal)
    }

    ghost predicate Valid()
      reads this
    {
      RampInvariant(Config(), State())
    }

    /** The constructor starts from a breakpoint (0, 0) and calls `_next()`
        once, which takes the first breakpoint from the list. */
    constructor (dur: real, steps: seq<(real, real)>, low: real, high: real)
      requires |steps| >= 1
      ensures Config() == RampConfig(dur, steps, low, high) && Valid()
      ensures State() == NextStep(Config(), RampState(0, 0.0, 0.0, 0.0, 0.0)).0
    {
      this.dur := dur;
      this.steps := steps;
      this.low := low;
      this.high := high;
      pos := 1;
      curT := 0.0;
      curVal := 0.0;
      var first := Breakpoint(RampConfig(dur, steps, low, high), steps[0]);
      nextT := first.0;
      nextVal := first.1;
    }

    /** `_next()`; `stopped` stands for the `StopIteration` it raises. */
    method Next() returns (stopped: bool)
      requires pos <= |steps|
      modifies this
      ensures (State(), stopped) == NextStep(Config(), old(State()))
    {
      curT := nextT;
      curVal := nextVal;
      if pos == |steps| {
        return true;
      }
      var next := Breakpoint(Config(), steps[pos]);
      nextT := next.0;
      nextVal := next.1;
      pos := pos + 1;
      return false;
    }

    method Call(t: real) returns (r: Result<real>)
      requires Valid()
      modifies this
      ensures Valid()
      ensures (State(), r) == RampCall(Config(), old(State()), t)
    {
      AdvanceFacts(Config(), State(), t);
      var stopped := false;
      while nextT <= t
        invariant pos <= |steps|
        invariant Advance(Config(), old(State()), t) == Advance(Config(), State(), t)
        decreases |steps| - pos
      {
        stopped := Next();
        if stopped {
          return Ok(curVal);
        }
      }
      if t > dur {
        return Ok(curVal);
      }
      if nextT - curT == 0.0 {
        return Raise(ZeroDivisionError);
      }
      return Ok(Scale(t - curT, nextT - curT, nextVal - curVal) + curVal);
    }
  }

  // ---------------------------------------------------------------------
  // ADSREnvelope
  // ---------------------------------------------------------------------

  /** The sample rate the envelope's `last_t` is first set back by. */
  const DefaultSampleRate: real := 22050.0

  /** The samples of the A, D, S and R inputs at the time of a call. */
  datatype Levels = Levels(attack: real, decay: real, sustain: real, release: real)

  /** The fields of an `ADSREnvelope`: when the attack and the release
      started (`None` until they do) and the previous sample and its time. */
  datatype AdsrState = AdsrState(startA: Option<real>, startR: Option<real>, lastSamp: real, lastT: real)

  const AdsrStart := AdsrState(None, None, 0.0, -1.0 / DefaultSampleRate)

  /** Python's truth value of `start_R`: `None` and 0 are both false. */
  predicate Unset(x: Option<real>) {
    x.None? || x.value == 0.0
  }

  /** Where `t` falls with the gate open: before the decay starts (from
      `start_A` on), in the decay, or anywhere else (sustain). */
  predicate InAttack(startA: real, l: Levels, t: real) {
    startA <= t < startA + l.attack
  }

  predicate InDecay(startA: real, l: Levels, t: real) {
    startA + l.attack <= t < startA + l.attack + l.decay
  }

  /** One call of `ADSREnvelope` at time `t` with trigger and gate samples
      `trig` and `gate`: the new fields and the sample. With the gate open
      and no attack ever started, `start_A + A` fails with a `TypeError` and
      nothing changes. */
  function AdsrStep(s: AdsrState, t: real, trig: int, gate: int, l: Levels): (AdsrState, Result<real>) {
    var startA := if trig != 0 then Some(t) else s.startA;
    var startR := if trig != 0 then None else s.startR;
    if gate != 0 then
      if startA.None? then (s, Raise(TypeError))
      else
        var samp := OpenSample(startA.value, s.lastSamp, s.lastT, t, l);
        (AdsrState(startA, startR, samp, t), Ok(samp))
    else if s.lastSamp != 0.0 then
      var r := if Unset(startR) then t else startR.value;
      var samp := ReleaseSample(r, s.lastSamp, s.lastT, t, l);
      (AdsrState(startA, Some(r), samp, t), Ok(samp))
    else (AdsrState(startA, startR, 0.0, t), Ok(0.0))
  }

  /** The sample with the gate open and the attack started at `a`: the
      attack closes the gap between the last sample and 1 in proportion to
      the time left until the peak, the decay falls linearly from 1 to the
      sustain level, and otherwise the sample is the sustain level. */
  function OpenSample(a: real, lastSamp: real, lastT: real, t: real, l: Levels): real {
    if InAttack(a, l, t) then lastSamp + Scale(1.0 - lastSamp, a + l.attack - t, t - lastT)
    else if InDecay(a, l, t) then 1.0 - Share(t - (a + l.attack), 1.0 - l.sustain, l.decay)
    else l.sustain
  }

  /** The sample with the gate closed and the release started at `r`: the
      last sample shrinks in proportion to the time left in the release,
      and is 0 outside it. */
  function ReleaseSample(r: real, lastSamp: real, lastT: real, t: real, l: Levels): real {
    if r <= t < r + l.release then lastSamp - Scale(lastSamp, r + l.release - t, t - lastT)
    else 0.0
  }

  /** The only failure is a `TypeError`, on an open gate before any trigger;
      every other call succeeds and records its sample and time. */
  lemma AdsrFailsOnlyUntriggered(s: AdsrState, t: real, trig: int, gate: int, l: Levels)
    ensures var (s', r) := AdsrStep(s, t, trig, gate, l);
      && (r.Raise? <==> gate != 0 && trig == 0 && s.startA.None?)
      && (r.Raise? ==> r.exc == TypeError && s' == s)
      && (r.Ok? ==> s'.lastSamp == r.value && s'.lastT == t)
  {
  }

  /** A trigger starts the attack at `t` and forgets the release; the call
      succeeds. Only a closed gate with a sample still sounding starts a new
      release in the same call. */
  lemma TriggerRestarts(s: AdsrState, t: real, gate: int, l: Levels)
    ensures var (s', r) := AdsrStep(s, t, 1, gate, l);
      && r.Ok? && s'.startA == Some(t)
      && s'.startR == (if gate == 0 && s.lastSamp != 0.0 then Some(t) else None)
  {
  }

  /** The first sample of an attack started at `t` moves from the last sample
      towards 1 by the share of the attack that the step from `last_t` is. */
  lemma AttackStarts(s: AdsrState, t: real, l: Levels)
    requires l.attack > 0.0
    ensures AdsrStep(s, t, 1, 1, l).1
         == Ok(s.lastSamp + Scale(1.0 - s.lastSamp, l.attack, t - s.lastT))
  {
    assert t + l.attack - t == l.attack;
  }

  /** With the gate open, past the attack and the decay (or before the
      attack's start) the sample is the sustain level. */
  lemma Sustains(s: AdsrState, t: real, gate: int, l: Levels, a: real)
    requires gate != 0 && s.startA == Some(a)
    requires !InAttack(a, l, t) && !InDecay(a, l, t)
    ensures AdsrStep(s, t, 0, gate, l).1 == Ok(l.sustain)
  {
  }

  /** In the decay, with a sustain level at most 1, the sample falls from 1
      towards the sustain level without passing it. */
  lemma DecayBetween(s: AdsrState, t: real, gate: int, l: Levels, a: real)
    requires gate != 0 && s.startA == Some(a)
    requires InDecay(a, l, t) && l.sustain <= 1.0
    ensures var r := AdsrStep(s, t, 0, gate, l).1;
      r.Ok? && l.sustain <= r.value <= 1.0
  {
    ShareBounds(t - (a + l.attack), 1.0 - l.sustain, l.decay);
  }

  /** The attack moves the sample from the last one towards 1 without
      passing it, as long as the step from `last_t` to `t` is no longer than
      what is left of the attack. */
  lemma AttackBetween(s: AdsrState, t: real, gate: int, l: Levels, a: real)
    requires gate != 0 && s.startA == Some(a)
    requires InAttack(a, l, t) && s.lastSamp <= 1.0
    requires s.lastT <= t && t - s.lastT <= a + l.attack - t
    ensures var r := AdsrStep(s, t, 0, gate, l).1;
      r.Ok? && s.lastSamp <= r.value <= 1.0
  {
    ScaleBounds'(1.0 - s.lastSamp, a + l.attack - t, t - s.lastT);
  }

  /** Without that bound the attack overshoots 1: sampled ten times a second
      with an attack of a quarter second, the third sample is 1.2. */
  lemma AttackOvershoots()
    ensures var l := Levels(0.25, 0.1, 0.5, 0.1);
      var (s1, r1) := AdsrStep(AdsrState(None, None, 0.0, -0.1), 0.0, 1, 1, l);
      var (s2, r2) := AdsrStep(s1, 0.1, 0, 1, l);
      var (s3, r3) := AdsrStep(s2, 0.2, 0, 1, l);
      r1 == Ok(0.4) && r2 == Ok(0.8) && r3 == Ok(1.2)
  {
  }

  /** With the gate closed the sample is 0 when the last one was 0, before
      the release's start, and once the release time has passed. */
  lemma ReleaseToZero(s: AdsrState, t: real, l: Levels)
    ensures var (s', r) := AdsrStep(s, t, 0, 0, l);
      && r.Ok?
      && (s.lastSamp == 0.0 ==> r.value == 0.0 && s'.startR == s.startR)
      && (s.lastSamp != 0.0 ==>
            s'.startR.Some? && (t < s'.startR.value || t >= s'.startR.value + l.release ==> r.value == 0.0))
  {
  }

  /** The first call with the gate closed after a sound starts the release at
      `t`; a release recorded as starting at time 0 counts as not started
      and is moved to `t`. */
  lemma ReleaseStarts(s: AdsrState, t: real, l: Levels)
    requires s.lastSamp != 0.0 && Unset(s.startR)
    ensures AdsrStep(s, t, 0, 0, l).0.startR == Some(t)
  {
  }

  /** During the release the sample moves from the last one towards 0
      without passing it, as long as the step from `last_t` to `t` is no
      longer than what is left of the release. */
  lemma ReleaseBetween(s: AdsrState, t: real, l: Levels, r0: real)
    requires s.lastSamp > 0.0 && s.startR == Some(r0) && r0 != 0.0
    requires r0 <= t < r0 + l.release
    requires s.lastT <= t && t - s.lastT <= r0 + l.release - t
    ensures var r := AdsrStep(s, t, 0, 0, l).1;
      r.Ok? && 0.0 <= r.value <= s.lastSamp
  {
    ScaleBounds'(s.lastSamp, r0 + l.release - t, t - s.lastT);
  }

  class ADSREnvelope {
    var startA: Option<real>
    var startR: Option<real>
    var lastSamp: real
    var lastT: real

    function State(): AdsrState
      reads this
    {
      AdsrState(startA, startR, lastSamp, lastT)
    }

    constructor ()
      ensures State() == AdsrStart
    {
      startA := None;
      startR := None;
      lastSamp := 0.0;
      lastT := -1.0 / DefaultSampleRate;
    }

    /** `__call__(t)`, given the samples of the trigger, the gate and the
        A, D, S and R inputs at `t`. */
    method Call(t: real, trig: int, gate: int, l: Levels) returns (r: Result<real>)
      modifies this
      ensures (State(), r) == AdsrStep(old(State()), t, trig, gate, l)
    {
      if trig != 0 {
        startA := Some(t);
        startR := None;
      }
      var samp := 0.0;
      if gate != 0 {
        if startA.None? {
          return Raise(TypeError);
        }
        var startD := startA.value + l.attack;
        var startS := startD + l.decay;
        if startA.value <= t < startD {
          samp := lastSamp + Scale(1.0 - lastSamp, startA.value + l.attack - t, t - lastT);
        } else if startD <= t < startS {
          samp := 1.0 - Share(t - startD, 1.0 - l.sustain, l.decay);
        } else {
          samp := l.sustain;
        }
        assert samp == OpenSample(startA.value, lastSamp, lastT, t, l);
      } else if lastSamp != 0.0 {
        if Unset(startR) {
          startR := Some(t);
        }
        if startR.value <= t < startR.value + l.release {
          samp := lastSamp - Scale(lastSamp, startR.value + l.release - t, t - lastT);
        }
        assert samp == ReleaseSample(startR.value, lastSamp, lastT, t, l);
      }
      lastSamp := samp;
      lastT := t;
      return Ok(samp);
    }
  }
}

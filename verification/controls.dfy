/** The control nodes of `device.py`: `TriggerSignal`, which pulses when its
    input rises to a threshold; `Trigger`, which pulses once after `fire()`;
    `GateSignal` and `Gate`, which hold a level; and `Sequence`, which walks
    a list of (value, duration) steps and drives a trigger and a gate.
    A node's inputs are other nodes; each `Call` takes the samples of those
    inputs at the time of the call. */
module Controls {
  import opened Python

  // ---------------------------------------------------------------------
  // TriggerSignal
  // ---------------------------------------------------------------------

  /** One call of `TriggerSignal`: the output and the new `hot` flag. */
  function EdgeStep(hot: bool, samp: real, thresh: real): (int, bool) {
    if !hot && samp >= thresh then (1, true)
    else if hot && samp < thresh then (0, false)
    else (0, hot)
  }

  class TriggerSignal {
    var hot: bool

    constructor ()
      ensures !hot
    {
      hot := false;
    }

    /** `__call__(t)`, given the samples of the input and the threshold at `t`. */
    method Call(samp: real, thresh: real) returns (out: int)
      modifies this
      ensures (out, hot) == EdgeStep(old(hot), samp, thresh)
    {
      if !hot && samp >= thresh {
        hot := true;
        return 1;
      }
      if hot && samp < thresh {
        hot := false;
      }
      return 0;
    }
  }

  /** `GateSignal`: 1 while the input is at or above the threshold. */
  function GateLevel(samp: real, thresh: real): int {
    if samp < thresh then 0 else 1
  }

  /** `GateSignal` outputs 1 exactly when the input is at or above the
      threshold, and 0 otherwise; it keeps no state. */
  lemma GateThreshold(samp: real, thresh: real)
    ensures GateLevel(samp, thresh) == 1 <==> samp >= thresh
    ensures GateLevel(samp, thresh) == 0 <==> samp < thresh
  {
  }

  /** After any call, `hot` tells whether the input was at or above the
      threshold, that is, what `GateSignal` outputs on the same samples; the
      output is 1 exactly when it was not before. */
  lemma EdgeStepTracksGate(hot: bool, samp: real, thresh: real)
    ensures EdgeStep(hot, samp, thresh).1 <==> GateLevel(samp, thresh) == 1
    ensures EdgeStep(hot, samp, thresh).0 == 1 <==> !hot && GateLevel(samp, thresh) == 1
    ensures EdgeStep(hot, samp, thresh).0 in {0, 1}
  {
  }

  /** The outputs of `TriggerSignal` over successive (input, threshold)
      samples, from the flag `hot`. */
  function Edges(hot: bool, samples: seq<(real, real)>): (outs: seq<int>)
    ensures |outs| == |samples|
    decreases |samples|
  {
    if samples == [] then []
    else
      var (out, hot') := EdgeStep(hot, samples[0].0, samples[0].1);
      [out] + Edges(hot', samples[1..])
  }

  predicate Above(sample: (real, real)) {
    sample.0 >= sample.1
  }

  /** `TriggerSignal` pulses exactly on a rising edge: a sample at or above
      its threshold after one below it (the first sample is compared with
      the flag it starts from). It never pulses twice in a row. */
  lemma {:induction false} EdgesAreRises(hot: bool, samples: seq<(real, real)>, k: nat)
    requires k < |samples|
    ensures Edges(hot, samples)[k] == 1 <==>
      Above(samples[k]) && (if k == 0 then !hot else !Above(samples[k - 1]))
    ensures Edges(hot, samples)[k] in {0, 1}
    decreases k
  {
    var hot' := EdgeStep(hot, samples[0].0, samples[0].1).1;
    if k > 0 {
      EdgesAreRises(hot', samples[1..], k - 1);
      if k > 1 {
        assert samples[1..][k - 2] == samples[k - 1];
      }
    }
  }

  // ---------------------------------------------------------------------
  // Trigger
  // ---------------------------------------------------------------------

  class Trigger {
    var firing: bool

    constructor ()
      ensures !firing
    {
      firing := false;
    }

    method Fire()
      modifies this
      ensures firing
    {
      firing := true;
    }

    /** `__call__(t)`: 1 once after `fire()`, then 0. */
    method Call() returns (out: int)
      modifies this
      ensures out == (if old(firing) then 1 else 0) && !firing
    {
      if firing {
        firing := false;
        return 1;
      }
      return 0;
    }
  }

  /** What is done to a `Trigger`: `fire()` or a call that reads it. */
  datatype TriggerOp = Fire | Read

  /** The outputs of the reads among `ops`, from the flag `firing`. */
  function Pulses(firing: bool, ops: seq<TriggerOp>): seq<int>
    decreases |ops|
  {
    if ops == [] then []
    else if ops[0] == Fire then Pulses(true, ops[1..])
    else [if firing then 1 else 0] + Pulses(false, ops[1..])
  }

  function Fires(n: nat): (ops: seq<TriggerOp>)
    ensures |ops| == n && forall i :: 0 <= i < n ==> ops[i] == Fire
  {
    if n == 0 then [] else [Fire] + Fires(n - 1)
  }

  /** Any number of `fire()` calls before a read give that read a single 1,
      and the trigger is clear again after it. */
  lemma {:induction false} FiresThenRead(firing: bool, n: nat, rest: seq<TriggerOp>)
    ensures Pulses(firing, Fires(n) + [Read] + rest)
         == [if firing || n > 0 then 1 else 0] + Pulses(false, rest)
    decreases n
  {
    var ops := Fires(n) + [Read] + rest;
    if n > 0 {
      assert ops[0] == Fire;
      assert ops[1..] == Fires(n - 1) + [Read] + rest;
      FiresThenRead(true, n - 1, rest);
    } else {
      assert ops == [Read] + rest;
      assert ops[1..] == rest;
    }
  }

  function Count<T(==)>(xs: seq<T>, x: T): nat {
    if xs == [] then 0 else (if xs[0] == x then 1 else 0) + Count(xs[1..], x)
  }

  /** A trigger never pulses more often than it is fired (plus once if it
      starts out firing). */
  lemma {:induction false} PulsesAtMostFires(firing: bool, ops: seq<TriggerOp>)
    ensures Count(Pulses(firing, ops), 1) <= Count(ops, Fire) + (if firing then 1 else 0)
    decreases |ops|
  {
    if ops != [] {
      PulsesAtMostFires(ops[0] == Fire, ops[1..]);
      if ops[0] == Read {
        var p := Pulses(false, ops[1..]);
        assert Pulses(firing, ops) == [if firing then 1 else 0] + p;
        assert ([if firing then 1 else 0] + p)[1..] == p;
      }
    }
  }

  // ---------------------------------------------------------------------
  // Gate
  // ---------------------------------------------------------------------

  class Gate {
    var open: int

    constructor ()
      ensures open == 0
    {
      open := 0;
    }

    method On()
      modifies this
      ensures open == 1
    {
      open := 1;
    }

    method Off()
      modifies this
      ensures open == 0
    {
      open := 0;
    }

    /** `__call__(t)`: the level last set; reading changes nothing. */
    method Call() returns (out: int)
      ensures out == open
    {
      return open;
    }
  }

  // ---------------------------------------------------------------------
  // Sequence
  // ---------------------------------------------------------------------

  /** A step of a sequence: a value (`None` for a rest) and a duration. */
  datatype Step = Step(value: Option<real>, dur: real)

  /** The state of a `Sequence` and of the trigger and gate it drives: the
      number of steps its iterator has handed out, `until`, the held
      `value`, the trigger's `firing` flag and the gate's level. */
  datatype SeqState = SeqState(next: nat, until: real, value: real, firing: bool, open: int)

  /** One call of `Sequence` at time `t`. */
  function SeqStep(steps: seq<Step>, s: SeqState, t: real): SeqState
    requires s.next <= |steps|
  {
    if t <= s.until then s
    else if s.next == |steps| then s.(until := -1.0, open := 0)
    else
      var step := steps[s.next];
      var s' := s.(next := s.next + 1, until := t + step.dur);
      if step.value.None? then s'.(open := 0)
      else s'.(firing := true, open := 1, value := step.value.value)
  }

  /** The value of the last note among the first `k` steps, 0 if none. */
  function LastNote(steps: seq<Step>, k: nat): real
    requires k <= |steps|
  {
    if k == 0 then 0.0
    else if steps[k - 1].value.Some? then steps[k - 1].value.value
    else LastNote(steps, k - 1)
  }

  /** What every call of a sequence keeps: the held value is that of the last
      note handed out, and an open gate means the last step handed out was a
      note. */
  predicate SeqInvariant(steps: seq<Step>, s: SeqState) {
    && s.next <= |steps|
    && s.value == LastNote(steps, s.next)
    && (s.open == 1 ==> s.next > 0 && steps[s.next - 1].value.Some?)
    && s.open in {0, 1}
  }

  lemma SeqStepKeepsInvariant(steps: seq<Step>, s: SeqState, t: real)
    requires SeqInvariant(steps, s)
    ensures SeqInvariant(steps, SeqStep(steps, s, t))
  {
  }

  /** Until `until` has passed nothing changes. */
  lemma SeqHolds(steps: seq<Step>, s: SeqState, t: real)
    requires s.next <= |steps| && t <= s.until
    ensures SeqStep(steps, s, t) == s
  {
  }

  /** Past `until`, the next step starts: it lasts until `t + dur`; a note
      fires the trigger, opens the gate and is held; a rest closes the gate
      and keeps the value held before. */
  lemma SeqAdvances(steps: seq<Step>, s: SeqState, t: real)
    requires s.next < |steps| && t > s.until
    ensures var s' := SeqStep(steps, s, t); var step := steps[s.next];
      && s'.next == s.next + 1 && s'.until == t + step.dur
      && (step.value.Some? ==> s'.firing && s'.open == 1 && s'.value == step.value.value)
      && (step.value.None? ==> s'.firing == s.firing && s'.open == 0 && s'.value == s.value)
  {
  }

  /** When the steps have run out the gate closes, `until` becomes -1 and the
      value is kept; every later call at a time after -1 changes nothing. */
  lemma SeqExhausted(steps: seq<Step>, s: SeqState, t: real, t': real)
    requires s.next == |steps| && t > s.until && t' > -1.0
    ensures var s' := SeqStep(steps, s, t);
      && s' == s.(until := -1.0, open := 0)
      && SeqStep(steps, s', t') == s'
  {
  }

  class Sequence {
    const steps: seq<Step>
    var next: nat
    var until: real
    var value: real
    const trigger: Trigger
    const gate: Gate

    function State(): SeqState
      reads this, trigger, gate
    {
      SeqState(next, until, value, trigger.firing, gate.open)
    }

    ghost predicate Valid()
      reads this, trigger, gate
    {
      SeqInvariant(steps, State())
    }

    constructor (steps: seq<Step>)
      ensures Valid() && fresh(trigger) && fresh(gate)
      ensures this.steps == steps && State() == SeqState(0, -1.0, 0.0, false, 0)
    {
      this.steps := steps;
      next := 0;
      until := -1.0;
      value := 0.0;
      trigger := new Trigger();
      gate := new Gate();
    }

    /** `__call__(t)`: the held value, after stepping if `until` has passed.
        For a `FrequencySequence` too the value is returned as it is. */
    method Call(t: real) returns (out: real)
      requires Valid()
      modifies this, trigger, gate
      ensures Valid()
      ensures State() == SeqStep(steps, old(State()), t)
      ensures out == value
    {
      SeqStepKeepsInvariant(steps, State(), t);
      if t > until {
        var nextValue: Option<real>;
        if next < |steps| {
          nextValue := steps[next].value;
          until := t + steps[next].dur;
          next := next + 1;
        } else {
          nextValue := None;
          until := -1.0;
        }
        if nextValue.None? {
          gate.Off();
        } else {
          trigger.Fire();
          gate.On();
          value := nextValue.value;
        }
      }
      return value;
    }
  }
}

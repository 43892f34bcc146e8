/** The stateless part of the signal graph of `device.py`: the classes a node
    can be an instance of, the `asInput` adapter that every `Input` descriptor
    applies to the value assigned to a node's input, the value each stateless
    node has at a time, and `Mixer`. Nodes that keep state (triggers, gates,
    envelopes, oscillators, sequences, ramps) appear here only as sources whose
    samples come from outside; their state machines are in other modules. */
module Signals {
  import opened Python

  // ---------------------------------------------------------------------
  // Classes
  // ---------------------------------------------------------------------

  datatype Class =
    | SignalClass | ConstClass | FrequencyClass | ConstFrequencyClass
    | TriggerSignalClass | TriggerClass | GateSignalClass | GateClass
    | PositiveClass | EnvelopeClass | PhasedClass | AmpClass | OldBiasClass
    | SequenceClass | FrequencySequenceClass | LinearRampClass | SegmentedRampClass

  /** The classes an instance of `c` is an instance of: `c` and its bases. */
  function Ancestors(c: Class): (s: set<Class>)
    ensures c in s && SignalClass in s
  {
    match c
    case SignalClass => {SignalClass}
    case ConstClass => {ConstClass, SignalClass}
    case FrequencyClass => {FrequencyClass, SignalClass}
    case ConstFrequencyClass => {ConstFrequencyClass, ConstClass, FrequencyClass, SignalClass}
    case TriggerSignalClass => {TriggerSignalClass, SignalClass}
    case TriggerClass => {TriggerClass, TriggerSignalClass, SignalClass}
    case GateSignalClass => {GateSignalClass, SignalClass}
    case GateClass => {GateClass, GateSignalClass, SignalClass}
    case PositiveClass => {PositiveClass, SignalClass}
    case EnvelopeClass => {EnvelopeClass, PositiveClass, SignalClass}
    case PhasedClass => {PhasedClass, SignalClass}
    case AmpClass => {AmpClass, SignalClass}
    case OldBiasClass => {OldBiasClass, SignalClass}
    case SequenceClass => {SequenceClass, SignalClass}
    case FrequencySequenceClass => {FrequencySequenceClass, SequenceClass, FrequencyClass, SignalClass}
    case LinearRampClass => {LinearRampClass, SignalClass}
    case SegmentedRampClass => {SegmentedRampClass, SignalClass}
  }

  /** The classes an `Input` descriptor converts its value to. */
  datatype Type = FrequencyType | PositiveType | TriggerType | GateType

  function TypeClass(ty: Type): Class {
    match ty
    case FrequencyType => FrequencyClass
    case PositiveType => PositiveClass
    case TriggerType => TriggerSignalClass
    case GateType => GateSignalClass
  }

  /** `operator.mul` and `operator.add`, the functions of `Mult` and `Bias`. */
  datatype Op = Mul | Add

  // ---------------------------------------------------------------------
  // Nodes
  // ---------------------------------------------------------------------

  /** A node of the graph. `Wrap(ty, n)` is `ty(n)` built by `asInput`, with
      the default threshold 0.5 for a trigger or a gate; `Mod` is the class
      `BinaryMod` makes, whose right operand is the carrier; `Source` is a
      stateful node of class `cls`, sampled elsewhere. */
  datatype Node =
    | Const(val: real)
    | ConstFrequency(val: real)
    | Wrap(ty: Type, input: Node)
    | Amp(ratio: Node, input: Node)
    | Mod(op: Op, left: Node, right: Node)
    | OldBias(offset: Node, input: Node)
    | Source(cls: Class, id: nat)

  /** The class of a node that `BinaryMod` did not make. */
  function ClassOf(n: Node): Class
    requires !n.Mod?
  {
    match n
    case Const(_) => ConstClass
    case ConstFrequency(_) => ConstFrequencyClass
    case Wrap(ty, _) => TypeClass(ty)
    case Amp(_, _) => AmpClass
    case OldBias(_, _) => OldBiasClass
    case Source(cls, _) => cls
  }

  /** `isinstance(n, c)`. The class `BinaryMod` makes derives from the class
      of its carrier, so it is an instance of whatever the carrier is. */
  predicate IsA(n: Node, c: Class) {
    if n.Mod? then IsA(n.right, c) else c in Ancestors(ClassOf(n))
  }

  /** A value assigned to an input: Python's `None`, a number or a node. */
  datatype Arg = NoArg | Num(x: real) | Sig(node: Node)

  /** The `const_type` of an `Input`: `Const`, `ConstFrequency`, or `None`
      (numbers are then kept as they are). */
  datatype ConstType = ConstOf | ConstFrequencyOf | RawConst

  /** `Const(val)`: `None` becomes 0. */
  function ConstVal(a: Arg): real
    requires !a.Sig?
  {
    if a.NoArg? then 0.0 else a.x
  }

  /** `p2f`: a pitch signal over [-1, 1] as a frequency over [0, 11000]. */
  function P2F(p: real): real {
    (p + 1.0) * 5500.0
  }

  /** `f2p`: the inverse map. */
  function F2P(f: real): real {
    f / 5500.0 - 1.0
  }

  /** `ConstFrequency(val)`: a number in [-1, 1] is read as a pitch signal
      and rescaled to a frequency; any other value is kept (`None` as 0). */
  function MakeConstFrequency(a: Arg): Node
    requires !a.Sig?
  {
    if a.Num? && -1.0 <= a.x <= 1.0 then ConstFrequency(P2F(a.x)) else ConstFrequency(ConstVal(a))
  }

  /** The second half of `asInput`: a node that is not already an instance
      of the input's type is wrapped in it. */
  function Converted(n: Node, ty: Option<Type>): (r: Node)
    ensures ty.Some? ==> IsA(r, TypeClass(ty.value))
    ensures ty.None? || IsA(n, TypeClass(ty.value)) ==> r == n
  {
    if ty.Some? && !IsA(n, TypeClass(ty.value)) then Wrap(ty.value, n) else n
  }

  /** `asInput(input, type, const_type)`. */
  function AsInput(input: Arg, ty: Option<Type>, ct: ConstType): (r: Arg)
    ensures ct != RawConst || input.Sig? ==> r.Sig?
    ensures r.Sig? && ty.Some? ==> IsA(r.node, TypeClass(ty.value))
    ensures ct == RawConst && !input.Sig? ==> r == Num(ConstVal(input))
  {
    if !input.Sig? then
      match ct
      case RawConst => Num(ConstVal(input))
      case ConstOf => Sig(Converted(Const(ConstVal(input)), ty))
      case ConstFrequencyOf => Sig(Converted(MakeConstFrequency(input), ty))
    else Sig(Converted(input.node, ty))
  }

  /** `Input()` with no type: numbers become `Const`, nodes stay. */
  function Plain(input: Arg): (n: Node)
    ensures input.Sig? ==> n == input.node
    ensures !input.Sig? ==> n == Const(ConstVal(input))
  {
    AsInput(input, None, ConstOf).node
  }

  // ---------------------------------------------------------------------
  // Values
  // ---------------------------------------------------------------------

  /** The value of `n` at a given time, `env` giving the samples of the
      stateful nodes at that time. `ConstFrequency` returns its stored value:
      `Const.__call__` comes first in its method resolution order. */
  function Eval(n: Node, env: Node -> real): real {
    match n
    case Const(v) => v
    case ConstFrequency(v) => v
    case Wrap(ty, i) =>
      (match ty
       case FrequencyType => P2F(Eval(i, env))
       case PositiveType => (Eval(i, env) + 1.0) / 2.0
       case GateType => if Eval(i, env) < 0.5 then 0.0 else 1.0
       case TriggerType => env(n))
    case Amp(r, i) => Eval(r, env) * Eval(i, env)
    case Mod(op, l, r) => if op == Mul then Eval(l, env) * Eval(r, env) else Eval(l, env) + Eval(r, env)
    case OldBias(o, i) => Eval(o, env) + Eval(i, env)
    case Source(_, _) => env(n)
  }

  // ---------------------------------------------------------------------
  // Combinators
  // ---------------------------------------------------------------------

  /** `Amp(ratio, input)`: the ratio input has type `PositiveSignal`. */
  function MakeAmp(ratio: Arg, input: Arg): Node {
    Amp(AsInput(ratio, Some(PositiveType), ConstOf).node, Plain(input))
  }

  /** `Mult(mod, carrier)` and `Bias(mod, carrier)`: a subclass of the
      carrier's class is made and instantiated. A carrier that is not a node
      (a number or `None`) makes that instantiation raise `TypeError`. */
  function MakeMod(op: Op, mod: Arg, carrier: Arg): (r: Result<Node>)
    ensures r.Raise? <==> !carrier.Sig?
    ensures r.Raise? ==> r.exc == TypeError
  {
    if !carrier.Sig? then Raise(TypeError) else Ok(Mod(op, Plain(mod), Plain(carrier)))
  }

  /** `OldBias(offset, input)`. */
  function MakeOldBias(offset: Arg, input: Arg): Node {
    OldBias(Plain(offset), Plain(input))
  }

  function Sum(xs: seq<real>): real {
    if xs == [] then 0.0 else Sum(xs[..|xs| - 1]) + xs[|xs| - 1]
  }

  /** `Mixer(synths)(t)`, given the samples of the synths at `t`: their sum
      divided by their number; no synths at all divide by zero. */
  function Mix(samples: seq<real>): (r: Result<real>)
    ensures r.Raise? <==> samples == []
    ensures r.Raise? ==> r.exc == ZeroDivisionError
  {
    if samples == [] then Raise(ZeroDivisionError) else Ok(Sum(samples) / |samples| as real)
  }

  // ---------------------------------------------------------------------
  // Properties
  // ---------------------------------------------------------------------

  /** `f2p` undoes `p2f`. */
  lemma PitchRoundTrip(p: real)
    ensures F2P(P2F(p)) == p
  {
  }

  /** `p2f` undoes `f2p`. */
  lemma FrequencyRoundTrip(f: real)
    ensures P2F(F2P(f)) == f
  {
  }

  /** `p2f` maps the pitch range [-1, 1] onto [0, 11000], in order. */
  lemma PitchRange(p: real, q: real)
    requires -1.0 <= p <= q <= 1.0
    ensures 0.0 <= P2F(p) <= P2F(q) <= 11000.0
  {
  }

  /** A value already of the input's type is taken as it is. */
  lemma TypedInputKept(n: Node, ty: Type, ct: ConstType)
    requires IsA(n, TypeClass(ty))
    ensures AsInput(Sig(n), Some(ty), ct) == Sig(n)
  {
  }

  /** Converting twice is converting once. */
  lemma AsInputIdempotent(input: Arg, ty: Option<Type>, ct: ConstType)
    ensures AsInput(AsInput(input, ty, ct), ty, ct) == AsInput(input, ty, ct)
  {
  }

  /** A node assigned to a frequency input is rescaled by `p2f` exactly when
      it is not already a frequency signal. */
  lemma FrequencyInput(n: Node, ct: ConstType, env: Node -> real)
    ensures var v := Eval(AsInput(Sig(n), Some(FrequencyType), ct).node, env);
      v == if IsA(n, FrequencyClass) then Eval(n, env) else P2F(Eval(n, env))
  {
  }

  /** `PhasedSignal.freq` has no `const_type`: a number is a frequency in
      hertz, kept as it is, and `None` is 0 Hz. */
  lemma RawFrequency(x: real)
    ensures AsInput(Num(x), Some(FrequencyType), RawConst) == Num(x)
    ensures AsInput(NoArg, Some(FrequencyType), RawConst) == Num(0.0)
  {
  }

  /** `ConstFrequency` rescales only numbers in [-1, 1]; there it agrees with
      a plain constant assigned to a frequency input, and any other number is
      kept as a frequency. `None` gives 0 Hz, not the rescaled 0. */
  lemma ConstFrequencyValue(x: real, env: Node -> real)
    ensures var v := Eval(AsInput(Num(x), Some(FrequencyType), ConstFrequencyOf).node, env);
      v == if -1.0 <= x <= 1.0 then P2F(x) else x
    ensures -1.0 <= x <= 1.0 ==>
      Eval(AsInput(Num(x), Some(FrequencyType), ConstFrequencyOf).node, env)
      == Eval(AsInput(Num(x), Some(FrequencyType), ConstOf).node, env)
    ensures Eval(AsInput(NoArg, Some(FrequencyType), ConstFrequencyOf).node, env) == 0.0
  {
  }

  /** `FrequencySequence` is a frequency signal, so an oscillator driven by
      it takes its step values as hertz, unscaled. */
  lemma SequenceFeedsHertz(id: nat)
    ensures var s := Sig(Source(FrequencySequenceClass, id));
      AsInput(s, Some(FrequencyType), RawConst) == s
  {
  }

  /** `Amp(r, input)` for a number `r` scales by `(r + 1) / 2`, not by `r`:
      the constant goes through `PositiveSignal`. An envelope is already a
      positive signal and scales by its own sample. */
  lemma AmpRatio(r: real, input: Arg, env: Node -> real)
    ensures Eval(MakeAmp(Num(r), input), env) == (r + 1.0) / 2.0 * Eval(Plain(input), env)
    ensures forall id: nat {:trigger Source(EnvelopeClass, id)} ::
      var e := Source(EnvelopeClass, id);
      Eval(MakeAmp(Sig(e), input), env) == env(e) * Eval(Plain(input), env)
  {
    assert !IsA(Const(r), PositiveClass);
    assert MakeAmp(Num(r), input) == Amp(Wrap(PositiveType, Const(r)), Plain(input));
    assert Eval(Wrap(PositiveType, Const(r)), env) == (r + 1.0) / 2.0;
  }

  /** `Mult` and `Bias` take on the kind of their carrier: the result is an
      instance of exactly the classes the carrier is an instance of, so a
      product with a frequency signal is still a frequency signal and is not
      rescaled again when it drives an oscillator. */
  lemma ModKeepsKind(op: Op, mod: Arg, carrier: Node, env: Node -> real)
    ensures MakeMod(op, mod, Sig(carrier)).Ok?
    ensures var m := MakeMod(op, mod, Sig(carrier)).value;
      && (forall c :: IsA(m, c) <==> IsA(carrier, c))
      && Eval(m, env) == (if op == Mul then Eval(Plain(mod), env) * Eval(carrier, env)
                          else Eval(Plain(mod), env) + Eval(carrier, env))
    ensures IsA(carrier, FrequencyClass) ==>
      var m := Sig(MakeMod(op, mod, Sig(carrier)).value);
      AsInput(m, Some(FrequencyType), RawConst) == m
  {
  }

  /** `OldBias(offset, input)` adds its offset to its input but, unlike
      `Bias`, is a plain signal whatever its input is: fed to a frequency
      input it is rescaled by `p2f`. */
  lemma OldBiasAdds(offset: Arg, input: Arg, env: Node -> real)
    ensures Eval(MakeOldBias(offset, input), env) == Eval(Plain(offset), env) + Eval(Plain(input), env)
    ensures !IsA(MakeOldBias(offset, input), FrequencyClass)
    ensures var b := MakeOldBias(offset, input);
      Eval(AsInput(Sig(b), Some(FrequencyType), RawConst).node, env) == P2F(Eval(b, env))
  {
  }

  lemma {:induction false} SumBounds(xs: seq<real>, lo: real, hi: real)
    requires forall i :: 0 <= i < |xs| ==> lo <= xs[i] <= hi
    ensures |xs| as real * lo <= Sum(xs) <= |xs| as real * hi
  {
    if xs != [] {
      SumBounds(xs[..|xs| - 1], lo, hi);
    }
  }

  /** The mix of samples that all lie in [lo, hi] lies in [lo, hi]; in
      particular the mix of equal samples is that sample. */
  lemma MixBounds(samples: seq<real>, lo: real, hi: real)
    requires samples != []
    requires forall i :: 0 <= i < |samples| ==> lo <= samples[i] <= hi
    ensures lo <= Mix(samples).value <= hi
  {
    SumBounds(samples, lo, hi);
    var n := |samples| as real;
    assert Sum(samples) / n >= lo by {
      assert Sum(samples) >= n * lo;
    }
    assert Sum(samples) / n <= hi by {
      assert Sum(samples) <= n * hi;
    }
  }
}

/** `Sampler` from `device.py`: reads a signal at the ticks of a sample
    clock, starting at time 0, until the next tick would be past the
    duration. */
module Sampling {
  /** The time of tick `k` of a clock at `rate` ticks per second. */
  function Tick(k: int, rate: real): real
    requires rate > 0.0
  {
    (k as real) / rate
  }

  /** The samples of `input` at times `k / rate` for `k = 0, 1, ...`, stopping
      before the first tick after `dur`. The first sample is always taken,
      whatever `dur` is. For `dur >= 0` there are `floor(dur * rate) + 1`
      samples. */
  method Sampler(input: real -> real, rate: real, dur: real) returns (samples: seq<real>)
    requires rate > 0.0 && dur != 0.0
    ensures |samples| >= 1
    ensures forall k :: 0 <= k < |samples| ==> samples[k] == input(Tick(k, rate))
    ensures forall k :: 1 <= k < |samples| ==> Tick(k, rate) <= dur
    ensures Tick(|samples|, rate) > dur
    ensures dur >= 0.0 ==> |samples| == (dur * rate).Floor + 1
  {
    samples := [input(Tick(0, rate))];
    var k := 1;
    while Tick(k, rate) <= dur
      invariant k == |samples| >= 1
      invariant forall j :: 0 <= j < k ==> samples[j] == input(Tick(j, rate))
      invariant forall j :: 1 <= j < k ==> Tick(j, rate) <= dur
      invariant dur >= 0.0 ==> k - 1 <= (dur * rate).Floor
      decreases (dur * rate).Floor + 1 - k
    {
      TickBound(k, rate, dur);
      samples := samples + [input(Tick(k, rate))];
      k := k + 1;
    }
    if dur >= 0.0 {
      CountOfTicks(k, rate, dur);
    }
  }

  /** A tick at or before `dur` has an index of at most `floor(dur * rate)`. */
  lemma TickBound(k: int, rate: real, dur: real)
    requires rate > 0.0 && Tick(k, rate) <= dur
    ensures k <= (dur * rate).Floor
  {
    assert (k as real) <= dur * rate by {
      assert (k as real) / rate * rate == k as real;
      MulMono((k as real) / rate, dur, rate);
    }
  }

  lemma MulMono(x: real, y: real, r: real)
    requires x <= y && r > 0.0
    ensures x * r <= y * r
  {
    assert (y - x) * r >= 0.0;
  }

  /** The first tick after `dur`, with the one before it at or before `dur`,
      is tick `floor(dur * rate) + 1`. */
  lemma CountOfTicks(k: int, rate: real, dur: real)
    requires rate > 0.0 && dur >= 0.0 && k >= 1
    requires Tick(k, rate) > dur
    requires k - 1 <= (dur * rate).Floor
    ensures k == (dur * rate).Floor + 1
  {
    assert (k as real) > dur * rate by {
      assert (k as real) / rate * rate == k as real;
      MulStrict(dur, (k as real) / rate, rate);
    }
  }

  lemma MulStrict(x: real, y: real, r: real)
    requires x < y && r > 0.0
    ensures x * r < y * r
  {
    assert (y - x) * r > 0.0;
  }
}

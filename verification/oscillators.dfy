/** The oscillators of `device.py`: `PhasedSignal`, a 24-bit phase
    accumulator that indexes a wave table of 1024 entries, and the `Saw`,
    `Square` and `Triangle` tables. */
module Oscillators {
  /** The accumulator keeps 24 bits: `pa & 0xFFFFFF`. */
  const PhaseModulus: int := 0x100_0000

  /** `pa >> 14` keeps the top 10 of the 24 bits. */
  const IndexDivisor: int := 0x4000

  const TableSize: int := 1024

  // ---------------------------------------------------------------------
  // PhasedSignal
  // ---------------------------------------------------------------------

  /** `floor(dt * f * 2.0**24)`: how far the phase moves in `dt` seconds
      at `f` hertz, in 24-bit steps. */
  function Increment(dt: real, f: real): int {
    (dt * f * 16777216.0).Floor
  }

  /** `(pa + df) & 0xFFFFFF`. Python's `&` treats a negative sum as an
      infinite two's-complement number, so the result is the sum modulo
      2^24 for every integer `df`. */
  function Advance(pa: int, df: int): (pa': int)
    ensures 0 <= pa' < PhaseModulus
    ensures (pa' - (pa + df)) % PhaseModulus == 0
  {
    (pa + df) % PhaseModulus
  }

  /** `pa >> 14`: the table entry for the phase. */
  function Index(pa: int): (i: int)
    requires 0 <= pa < PhaseModulus
    ensures 0 <= i < TableSize
    ensures i * IndexDivisor <= pa < (i + 1) * IndexDivisor
  {
    pa / IndexDivisor
  }

  function Sum(dfs: seq<int>): int {
    if dfs == [] then 0 else dfs[0] + Sum(dfs[1..])
  }

  /** The phase after the increments `dfs`, one call at a time. */
  function AdvanceAll(pa: int, dfs: seq<int>): int
    decreases |dfs|
  {
    if dfs == [] then pa else AdvanceAll(Advance(pa, dfs[0]), dfs[1..])
  }

  lemma ModOfMod(x: int, y: int)
    ensures (x % PhaseModulus + y) % PhaseModulus == (x + y) % PhaseModulus
  {
    var q := x / PhaseModulus;
    assert x == q * PhaseModulus + x % PhaseModulus;
    ModShift(x % PhaseModulus + y, q);
  }

  lemma ModShift(z: int, q: int)
    ensures (z + q * PhaseModulus) % PhaseModulus == z % PhaseModulus
  {
  }

  /** Stepping one call at a time lands where stepping once by the sum of
      the increments does: after any number of calls from 0 the phase is
      the sum of the increments modulo 2^24. */
  lemma {:induction false} AdvanceAllIsSum(pa: int, dfs: seq<int>)
    requires 0 <= pa < PhaseModulus
    ensures AdvanceAll(pa, dfs) == (pa + Sum(dfs)) % PhaseModulus
    decreases |dfs|
  {
    if dfs != [] {
      var pa' := Advance(pa, dfs[0]);
      AdvanceAllIsSum(pa', dfs[1..]);
      ModOfMod(pa + dfs[0], Sum(dfs[1..]));
    }
  }

  class PhasedSignal {
    const table: seq<real>
    var pa: int
    var lastT: real

    ghost predicate Valid()
      reads this
    {
      |table| == TableSize && 0 <= pa < PhaseModulus
    }

    constructor (table: seq<real>)
      requires |table| == TableSize
      ensures Valid() && this.table == table && pa == 0 && lastT == 0.0
    {
      this.table := table;
      pa := 0;
      lastT := 0.0;
    }

    /** `__call__(t)`, given the frequency `f` at `t` (a constant frequency
        is used as it is). */
    method Call(t: real, f: real) returns (out: real)
      requires Valid()
      modifies this
      ensures Valid() && lastT == t
      ensures pa == Advance(old(pa), Increment(t - old(lastT), f))
      ensures out == table[Index(pa)]
    {
      var dt := t - lastT;
      lastT := t;
      var df := Increment(dt, f);
      pa := Advance(pa, df);
      return table[pa / IndexDivisor];
    }
  }

  /** The first call of a new oscillator, at time 0, reads the first entry of
      its table whatever the frequency. */
  lemma FirstCallReadsFirstEntry(f: real)
    ensures Advance(0, Increment(0.0 - 0.0, f)) == 0
    ensures Index(Advance(0, Increment(0.0 - 0.0, f))) == 0
  {
    assert 0.0 * f * 16777216.0 == 0.0;
  }

  // ---------------------------------------------------------------------
  // Wave tables
  // ---------------------------------------------------------------------

  function RealAbs(x: real): real {
    if x < 0.0 then -x else x
  }

  /** `Saw._phase`: `1 - 2*p/1024`. */
  function Saw(): (table: seq<real>)
    ensures |table| == TableSize
  {
    seq(1024, p => 1.0 - 2.0 * (p as real) / 1024.0)
  }

  /** `Square._phase`: 1 in the first half of the cycle, -1 in the second. */
  function Square(): (table: seq<real>)
    ensures |table| == TableSize
  {
    seq(1024, p => if (p as real) / 1024.0 < 1.0 / 2.0 then 1.0 else -1.0)
  }

  /** `Triangle._phase`: `2*abs(Saw._phase[(p - 256) % 1024]) - 1`. */
  function Triangle(): (table: seq<real>)
    ensures |table| == TableSize
  {
    seq(1024, p requires 0 <= p < 1024 => 2.0 * RealAbs(Saw()[(p - 256) % 1024]) - 1.0)
  }

  /** The saw falls from 1 by 1/512 per entry, stays within (-1, 1], crosses
      0 at the middle and is odd about it. */
  lemma SawShape(p: int)
    requires 0 <= p < TableSize
    ensures Saw()[0] == 1.0 && Saw()[512] == 0.0
    ensures -1.0 < Saw()[p] <= 1.0
    ensures p + 1 < TableSize ==> Saw()[p + 1] == Saw()[p] - 1.0 / 512.0
    ensures 0 < p ==> Saw()[TableSize - p] == -Saw()[p]
  {
  }

  /** The square is 1 exactly on the first 512 entries and -1 on the rest,
      so its second half is the first one negated. */
  lemma SquareShape(p: int)
    requires 0 <= p < TableSize
    ensures Square()[p] == 1.0 <==> p < 512
    ensures Square()[p] == 1.0 || Square()[p] == -1.0
    ensures p < 512 ==> Square()[p + 512] == -Square()[p]
  {
  }

  /** The triangle rises from 0 to 1 over the first quarter, falls to -1
      over the next half and rises back towards 0: a closed form of the
      table, which stays within [-1, 1]. */
  lemma TriangleShape(p: int)
    requires 0 <= p < TableSize
    ensures Triangle()[p] == (if p < 256 then (p as real) / 256.0
                              else if p < 768 then 2.0 - (p as real) / 256.0
                              else (p as real) / 256.0 - 4.0)
    ensures -1.0 <= Triangle()[p] <= 1.0
    ensures Triangle()[0] == 0.0 && Triangle()[256] == 1.0 && Triangle()[768] == -1.0
  {
    if p < 256 {
      assert (p - 256) % 1024 == p + 768;
    } else {
      assert (p - 256) % 1024 == p - 256;
    }
    assert (0 - 256) % 1024 == 768;
  }
}

/** The score language of `music.py`: pitch spelling and transposition,
    dotted note lengths as exact fractions, and the piano-roll compiler that
    turns a text score into (pitch-or-rest, seconds) events. */
module Music {
  import opened Python
  import opened Text

  // ---------------------------------------------------------------------
  // Tables
  // ---------------------------------------------------------------------

  predicate IsScale(c: char) {
    c in "ABCDEFG;"
  }

  /** `_dist_A`: half-steps from A up to each letter in the same octave
      (octaves are counted from A, so C4 lies three half-steps above A4);
      the rest sign `;` has no pitch. */
  function DistA(scale: char): Option<int>
    requires IsScale(scale)
  {
    if scale == 'A' then Some(0)
    else if scale == 'B' then Some(2)
    else if scale == 'C' then Some(3)
    else if scale == 'D' then Some(5)
    else if scale == 'E' then Some(7)
    else if scale == 'F' then Some(8)
    else if scale == 'G' then Some(10)
    else None
  }

  /** `_semitones`: the name used for each half-step above A. */
  const Semitones: seq<string> :=
    ["A", "Bb", "B", "C", "C#", "D", "Eb", "E", "F", "F#", "G", "G#"]

  predicate IsDot(c: char) {
    c == '.' || c == ':' || c == '!'
  }

  predicate AllDots(s: string) {
    forall i :: 0 <= i < |s| ==> IsDot(s[i])
  }

  /** `_dotval`: the factor by which each dot mark shrinks the next added part. */
  function DotVal(c: char): Option<Pos> {
    if c == '.' then Some(2) else if c == ':' then Some(4) else if c == '!' then Some(8) else None
  }

  // ---------------------------------------------------------------------
  // Pitch spelling: `_pitch_re`, `_parts`, `freq`
  // ---------------------------------------------------------------------

  /** The groups of `_pitch_re` = `^([ABCDEFG;])(#*|b*)(\d+)?$`. */
  datatype PitchMatch = PitchMatch(scale: char, accidental: string, octave: Option<string>)

  predicate Repeats(s: string, c: char) {
    forall i :: 0 <= i < |s| ==> s[i] == c
  }

  /** What `_pitch_re` can match: a scale sign, only sharps or only flats,
      and a non-empty octave number if any. */
  predicate Spellable(m: PitchMatch) {
    && IsScale(m.scale)
    && (Repeats(m.accidental, '#') || Repeats(m.accidental, 'b'))
    && (m.octave.Some? ==> m.octave.value != [] && AllDigits(m.octave.value))
  }

  /** The text a match was read from. */
  function Spell(m: PitchMatch): string {
    [m.scale] + m.accidental + (if m.octave.Some? then m.octave.value else "")
  }

  /** Length of the run of `c` that starts `s`. */
  function RunLength(c: char, s: string): (n: nat)
    ensures n <= |s|
    ensures Repeats(s[..n], c)
    ensures n < |s| ==> s[n] != c
  {
    if s == [] || s[0] != c then 0 else 1 + RunLength(c, s[1..])
  }

  /** How much of `s` the alternation `(#*|b*)` takes when the rest of the
      pattern must still match: a run of sharps if `s` starts with one, else
      a run of flats. */
  function AccidentalLength(s: string): (n: nat)
    ensures n <= |s|
    ensures Repeats(s[..n], '#') || Repeats(s[..n], 'b')
  {
    if s != [] && s[0] == '#' then RunLength('#', s) else RunLength('b', s)
  }

  /** `_pitch_re` matched against the whole of `body`. */
  function MatchWhole(body: string): Option<PitchMatch> {
    if body == [] || !IsScale(body[0]) then None
    else
      var rest := body[1..];
      var n := AccidentalLength(rest);
      var digits := rest[n..];
      if !AllDigits(digits) then None
      else Some(PitchMatch(body[0], rest[..n], if digits == [] then None else Some(digits)))
  }

  lemma MatchWholeSpells(body: string)
    requires MatchWhole(body).Some?
    ensures Spellable(MatchWhole(body).value) && Spell(MatchWhole(body).value) == body
  {
    var rest := body[1..];
    var n := AccidentalLength(rest);
    assert body == [body[0]] + rest[..n] + rest[n..];
  }

  /** `_pitch_re.match(s)`. Python's `$` also matches before one final newline. */
  function MatchPitch(s: string): Option<PitchMatch> {
    if s != [] && s[|s| - 1] == '\n' then MatchWhole(s[..|s| - 1]) else MatchWhole(s)
  }

  /** The pattern accepts only spellings: a match is the text it was read
      from, with at most a newline after it. */
  lemma MatchThenSpell(s: string, m: PitchMatch)
    requires MatchPitch(s) == Some(m)
    ensures Spellable(m)
    ensures s == Spell(m) || s == Spell(m) + "\n"
  {
    if s != [] && s[|s| - 1] == '\n' {
      MatchWholeSpells(s[..|s| - 1]);
      assert s == s[..|s| - 1] + "\n";
    } else {
      MatchWholeSpells(s);
    }
  }

  /** A spelling ends in its scale sign, an accidental or a digit. */
  lemma SpellEnd(m: PitchMatch)
    requires Spellable(m)
    ensures var s := Spell(m); s != [] && !IsDot(s[|s| - 1]) && s[|s| - 1] != '\n'
  {
    var s := Spell(m);
    var digits := if m.octave.Some? then m.octave.value else "";
    assert s == [m.scale] + m.accidental + digits;
    if digits != [] {
      assert s[|s| - 1] == digits[|digits| - 1];
    } else if m.accidental != [] {
      assert s[|s| - 1] == m.accidental[|m.accidental| - 1];
    }
  }

  /** No text ending in a dot mark is a pitch. */
  lemma DotEndUnmatched(s: string)
    requires s != [] && IsDot(s[|s| - 1])
    ensures MatchPitch(s).None?
  {
    if MatchPitch(s).Some? {
      var m := MatchPitch(s).value;
      MatchThenSpell(s, m);
      SpellEnd(m);
      assert false;
    }
  }

  lemma {:induction false} RunOfRepeats(c: char, r: string, t: string)
    requires Repeats(r, c) && (t == [] || t[0] != c)
    ensures RunLength(c, r + t) == |r|
  {
    if r != [] {
      assert (r + t)[1..] == r[1..] + t;
      RunOfRepeats(c, r[1..], t);
    }
  }

  /** Every spelling is accepted and read back as itself. */
  lemma SpellThenMatch(m: PitchMatch)
    requires Spellable(m)
    ensures MatchPitch(Spell(m)) == Some(m)
  {
    SpellEnd(m);
    WholeSpelling(m);
  }

  lemma WholeSpelling(m: PitchMatch)
    requires Spellable(m)
    ensures MatchWhole(Spell(m)) == Some(m)
  {
    var s := Spell(m);
    var digits := if m.octave.Some? then m.octave.value else "";
    assert s == [m.scale] + (m.accidental + digits);
    var rest := s[1..];
    assert rest == m.accidental + digits;
    AccidentalRun(m.accidental, digits);
    assert rest[..|m.accidental|] == m.accidental;
    assert rest[|m.accidental|..] == digits;
  }

  /** The accidentals of a spelling end where its octave digits begin. */
  lemma AccidentalRun(accidental: string, digits: string)
    requires Repeats(accidental, '#') || Repeats(accidental, 'b')
    requires digits == [] || IsDigit(digits[0])
    ensures AccidentalLength(accidental + digits) == |accidental|
  {
    if accidental != [] && accidental[0] == '#' {
      RunOfRepeats('#', accidental, digits);
    } else if accidental != [] {
      assert Repeats(accidental, 'b');
      RunOfRepeats('b', accidental, digits);
    } else {
      RunOfRepeats('b', accidental, digits);
    }
  }

  /** `_parts(pitch)`: scale sign, accidentals and octave (4 when none is written). */
  datatype Parts = Parts(scale: char, accidental: string, octave: int)

  function PartsOf(pitch: string): (r: Result<Parts>)
    ensures r.Raise? ==> r.exc == AttributeError
    ensures r.Ok? ==> IsScale(r.value.scale)
  {
    match MatchPitch(pitch)
    case None => Raise(AttributeError)
    case Some(m) =>
      Ok(Parts(m.scale, m.accidental, if m.octave.None? then 4 else Int(m.octave.value)))
  }

  /** The octave a spelling names. */
  function Octave(m: PitchMatch): int
    requires Spellable(m)
  {
    if m.octave.Some? then Int(m.octave.value) else 4
  }

  /** `_parts` of a written pitch returns what was written, the octave read as
      a number and 4 when no octave is written. */
  lemma PartsOfSpelling(m: PitchMatch)
    requires Spellable(m)
    ensures PartsOf(Spell(m)) == Ok(Parts(m.scale, m.accidental, Octave(m)))
  {
    SpellThenMatch(m);
  }

  /** `dir * len(acc)`: plus one per sharp, minus one per flat. */
  function AccidentalOffset(accidental: string): int {
    if accidental != [] && accidental[0] == 'b' then -|accidental| else |accidental|
  }

  /** The pitch a `_parts` tuple names, as `freq` computes it: half-steps above
      A4, `None` for a rest. */
  function PartsPitch(p: Parts): Option<int>
    requires IsScale(p.scale)
  {
    if p.scale == ';' then None
    else Some(DistA(p.scale).value + (p.octave - 4) * 12 + AccidentalOffset(p.accidental))
  }

  /** The pitch a text names: the count `halfs` of half-steps above A4 that
      `freq` computes, `None` for a rest (whose `_dist_A` entry is `None`). */
  function HalfSteps(pitch: string): (r: Result<Option<int>>)
    ensures r.Raise? ==> r.exc == AttributeError
  {
    match PartsOf(pitch)
    case Raise(e) => Raise(e)
    case Ok(p) => Ok(PartsPitch(p))
  }

  /** `2**(h/12)` is too large for a float, and raises `OverflowError`, from
      `h/12 == 1024` on: the largest double lies just below `2^1024`. */
  const OverflowHalfSteps: int := 12288

  /** `freq(pitch)`: the pitch `h` a text names, which stands for the
      frequency `440 * 2**(h/12)`, or `None` for a rest. Text that is not a
      pitch raises `AttributeError`, and a pitch whose power of two overflows
      raises `OverflowError`; `freq` catches only `TypeError`. */
  function Freq(pitch: string): (r: Result<Option<int>>)
    ensures r.Raise? ==> r.exc == AttributeError || r.exc == OverflowError
    ensures r.Ok? && r.value.Some? ==> r.value.value < OverflowHalfSteps
  {
    match HalfSteps(pitch)
    case Raise(e) => Raise(e)
    case Ok(None) => Ok(None)
    case Ok(Some(h)) => if h >= OverflowHalfSteps then Raise(OverflowError) else Ok(Some(h))
  }

  /** The pitch of a written note. */
  lemma HalfStepsOfSpelling(m: PitchMatch)
    requires Spellable(m) && m.scale != ';'
    ensures HalfSteps(Spell(m))
         == Ok(Some(DistA(m.scale).value + (Octave(m) - 4) * 12 + AccidentalOffset(m.accidental)))
  {
    PartsOfSpelling(m);
  }

  /** The pitch of any text `_pitch_re` accepts as the letter match `m`. */
  lemma HalfStepsOfMatch(pitch: string, m: PitchMatch)
    requires MatchPitch(pitch) == Some(m) && m.scale != ';'
    ensures Spellable(m)
    ensures HalfSteps(pitch)
         == Ok(Some(DistA(m.scale).value + (Octave(m) - 4) * 12 + AccidentalOffset(m.accidental)))
  {
    MatchThenSpell(pitch, m);
  }

  /** What `freq` makes of a pitch `h`: the pitch itself below 12288
      half-steps above A4, `OverflowError` from there on. */
  lemma FreqOf(pitch: string, h: int)
    requires HalfSteps(pitch) == Ok(Some(h))
    ensures Freq(pitch) == if h < OverflowHalfSteps then Ok(Some(h)) else Raise(OverflowError)
  {
  }

  /** `freq` of any text `_pitch_re` accepts as the letter match `m`. */
  lemma FreqOfMatch(pitch: string, m: PitchMatch)
    requires MatchPitch(pitch) == Some(m) && m.scale != ';'
    ensures Spellable(m)
    ensures var h := DistA(m.scale).value + (Octave(m) - 4) * 12 + AccidentalOffset(m.accidental);
      Freq(pitch) == if h < OverflowHalfSteps then Ok(Some(h)) else Raise(OverflowError)
  {
    HalfStepsOfMatch(pitch, m);
    FreqOf(pitch, DistA(m.scale).value + (Octave(m) - 4) * 12 + AccidentalOffset(m.accidental));
  }

  /** `G#1027`, 12287 half-steps above A4, is the highest pitch `freq`
      accepts. */
  lemma HighestPitch()
    ensures Freq("G#1027") == Ok(Some(12287))
  {
    ReadHigh(PitchMatch('G', "#", Some("1027")), "G#1027", 12287);
    FreqOf("G#1027", 12287);
  }

  /** One half-step higher, `A1028`, overflows. */
  lemma OverflowPitch()
    ensures Freq("A1028") == Raise(OverflowError)
  {
    ReadHigh(PitchMatch('A', "", Some("1028")), "A1028", 12288);
    FreqOf("A1028", 12288);
  }

  lemma ReadHigh(m: PitchMatch, pitch: string, h: int)
    requires m.octave.Some? && |m.octave.value| == 4 && m.octave.value[..3] == "102"
    requires Spellable(m) && m.scale != ';' && Spell(m) == pitch
    requires h == DistA(m.scale).value + 12 * 1020 + 12 * Int(m.octave.value[3..]) - 48 + AccidentalOffset(m.accidental)
    ensures HalfSteps(pitch) == Ok(Some(h))
  {
    var o := m.octave.value;
    assert o == o[..3] + o[3..];
    ReadOctave(o);
    HalfStepsOfSpelling(m);
  }

  lemma ReadOctave(o: string)
    requires |o| == 4 && AllDigits(o) && o[..3] == "102"
    ensures Int(o) == 1020 + Int(o[3..])
  {
    assert "102"[..2] == "10" && "10"[..1] == "1" && "1"[..0] == "";
    assert Int("102") == 102;
  }

  /** Two pitches of the same letter in the same octave differ by the
      difference of their accidentals: one half-step per `#`, minus one per
      `b`. */
  lemma AccidentalsShift(pitch: string, pitch': string, m: PitchMatch, m': PitchMatch)
    requires MatchPitch(pitch) == Some(m) && MatchPitch(pitch') == Some(m')
    requires m.scale == m'.scale != ';' && m.octave == m'.octave
    ensures HalfSteps(pitch).Ok? && HalfSteps(pitch').Ok?
    ensures HalfSteps(pitch').value.value
         == HalfSteps(pitch).value.value + AccidentalOffset(m'.accidental) - AccidentalOffset(m.accidental)
  {
    HalfStepsOfMatch(pitch, m);
    HalfStepsOfMatch(pitch', m');
  }

  /** Two pitches that differ only in their octave differ by twelve
      half-steps per octave, a missing octave counting as 4. */
  lemma OctavesShift(pitch: string, pitch': string, m: PitchMatch, m': PitchMatch)
    requires MatchPitch(pitch) == Some(m) && MatchPitch(pitch') == Some(m')
    requires m.scale == m'.scale != ';' && m.accidental == m'.accidental
    ensures Spellable(m) && Spellable(m')
    ensures HalfSteps(pitch).Ok? && HalfSteps(pitch').Ok?
    ensures HalfSteps(pitch').value.value == HalfSteps(pitch).value.value + 12 * (Octave(m') - Octave(m))
  {
    HalfStepsOfMatch(pitch, m);
    HalfStepsOfMatch(pitch', m');
  }

  // ---------------------------------------------------------------------
  // Transposition: `offset`
  // ---------------------------------------------------------------------

  /** `offset(pitch, halfs)`: the pitch `halfs` half-steps higher, respelled
      from `_semitones` with octave `octave + h // 12`. A rest raises
      `TypeError` (its `_dist_A` entry is `None`). */
  function Offset(pitch: string, halfs: int): (r: Result<string>)
    ensures r.Raise? ==> r.exc == AttributeError || r.exc == TypeError
  {
    match PartsOf(pitch)
    case Raise(e) => Raise(e)
    case Ok(p) => Transpose(p, halfs)
  }

  /** The part of `offset` after `_parts`. */
  function Transpose(p: Parts, halfs: int): (r: Result<string>)
    requires IsScale(p.scale)
    ensures r.Raise? ==> r.exc == TypeError
  {
    if p.scale == ';' then Raise(TypeError)
    else Ok(NameAt(halfs + AccidentalOffset(p.accidental) + DistA(p.scale).value, p.octave))
  }

  /** `freq` and `offset` raise `AttributeError` exactly for text that is not a
      pitch; `freq` returns `None` exactly for a rest, on which `offset`
      raises `TypeError`. */
  lemma PitchErrors(pitch: string, halfs: int)
    ensures HalfSteps(pitch).Raise? <==> MatchPitch(pitch).None?
    ensures Freq(pitch) == Raise(AttributeError) <==> MatchPitch(pitch).None?
    ensures Offset(pitch, halfs).Raise? && Offset(pitch, halfs).exc == AttributeError
        <==> MatchPitch(pitch).None?
    ensures Freq(pitch) == Ok(None) <==> MatchPitch(pitch).Some? && pitch[0] == ';'
    ensures Offset(pitch, halfs) == Raise(TypeError) <==> MatchPitch(pitch).Some? && pitch[0] == ';'
  {
    if MatchPitch(pitch).Some? {
      MatchThenSpell(pitch, MatchPitch(pitch).value);
    }
  }

  /** How `offset` writes the pitch `h` half-steps above A in `octave`: the
      `_semitones` name of `h % 12` and the octave moved by `h // 12`. */
  function NameAt(h: int, octave: int): string {
    Semitones[h % 12] + Str(octave + h / 12)
  }

  /** The name `offset` gives to the pitch `h` half-steps above A4. */
  function NameOf(h: int): string {
    NameAt(h, 4)
  }

  /** Moving a pitch by whole octaves while moving the octave the other way
      leaves its name unchanged. */
  lemma NameAtOctaves(x: int, octave: int, y: int)
    requires y == x + 12 * (octave - 4)
    ensures NameOf(y) == NameAt(x, octave)
  {
    assert y % 12 == x % 12 && 4 + y / 12 == octave + x / 12;
  }

  /** `offset` depends only on the absolute pitch: it names the pitch that
      lies `halfs` half-steps above the given one. */
  lemma OffsetNamesPitch(pitch: string, h: int, halfs: int, y: int)
    requires HalfSteps(pitch) == Ok(Some(h)) && y == h + halfs
    ensures Offset(pitch, halfs) == Ok(NameOf(y))
  {
    TransposeNote(PartsOf(pitch).value, halfs, y);
  }

  lemma TransposeNote(p: Parts, halfs: int, y: int)
    requires IsScale(p.scale) && p.scale != ';'
    requires y == halfs + AccidentalOffset(p.accidental) + DistA(p.scale).value + 12 * (p.octave - 4)
    ensures Transpose(p, halfs) == Ok(NameOf(y))
  {
    var x := halfs + AccidentalOffset(p.accidental) + DistA(p.scale).value;
    assert Transpose(p, halfs) == Ok(NameAt(x, p.octave));
    NameAtOctaves(x, p.octave, y);
  }

  /** Each `_semitones` entry is a letter followed by at most one accidental,
      and it lies exactly as many half-steps above A as its index. */
  lemma SemitoneSpelling(i: nat)
    requires i < 12
    ensures |Semitones[i]| >= 1
    ensures var name := Semitones[i];
      && name[0] in "ABCDEFG"
      && (name[1..] == "" || name[1..] == "#" || name[1..] == "b")
      && DistA(name[0]).value + AccidentalOffset(name[1..]) == i
  {
  }

  /** Reading back a name written by `offset` gives its pitch, as long as the
      octave is not negative (a minus sign is not part of the pitch syntax). */
  lemma NameOfRoundTrip(h: int)
    requires 4 + h / 12 >= 0
    ensures HalfSteps(NameOf(h)) == Ok(Some(h))
  {
    var i, o := h % 12, 4 + h / 12;
    SemitoneSpelling(i);
    NameReads(Semitones[i], i, o, h);
  }

  /** A `_semitones` name followed by the digits of an octave reads back as
      the pitch it names. */
  lemma NameReads(name: string, i: int, o: nat, h: int)
    requires |name| >= 1 && name[0] in "ABCDEFG"
    requires name[1..] == "" || name[1..] == "#" || name[1..] == "b"
    requires DistA(name[0]).value + AccidentalOffset(name[1..]) == i
    requires h == i + 12 * (o - 4)
    ensures HalfSteps(name + Decimal(o)) == Ok(Some(h))
  {
    var m := PitchMatch(name[0], name[1..], Some(Decimal(o)));
    NameSpelling(name, Decimal(o));
    IntOfDecimal(o);
    HalfStepsOfSpelling(m);
  }

  lemma NameSpelling(name: string, digits: string)
    requires |name| >= 1
    ensures Spell(PitchMatch(name[0], name[1..], Some(digits))) == name + digits
  {
    assert name == [name[0]] + name[1..];
  }

  /** A name with a negative octave cannot be read back. */
  lemma NegativeOctaveUnreadable(h: int)
    requires 4 + h / 12 < 0
    ensures HalfSteps(NameOf(h)).Raise?
  {
    var k := NegativeSign(h);
    MinusUnmatched(NameOf(h), k);
  }

  /** Where the minus sign of a negative octave stands in a name. */
  lemma NegativeSign(h: int) returns (k: nat)
    requires 4 + h / 12 < 0
    ensures k < |NameOf(h)| && NameOf(h)[k] == '-'
  {
    var name := Semitones[h % 12];
    assert NameOf(h) == name + ("-" + Decimal(-(4 + h / 12)));
    k := |name|;
  }

  /** No text holding a minus sign is a pitch. */
  lemma MinusUnmatched(s: string, k: nat)
    requires k < |s| && s[k] == '-'
    ensures MatchPitch(s).None?
  {
    if MatchPitch(s).Some? {
      var m := MatchPitch(s).value;
      MatchThenSpell(s, m);
      SpellNoMinus(m);
      assert false;
    }
  }

  /** A spelling holds no minus sign. */
  lemma SpellNoMinus(m: PitchMatch)
    requires Spellable(m)
    ensures forall i :: 0 <= i < |Spell(m)| ==> Spell(m)[i] != '-'
  {
    var s := Spell(m);
    var digits := if m.octave.Some? then m.octave.value else "";
    assert s == [m.scale] + m.accidental + digits;
    forall i | 0 <= i < |s|
      ensures s[i] != '-'
    {
      if i == 0 {
      } else if i <= |m.accidental| {
        assert s[i] == m.accidental[i - 1];
      } else {
        assert s[i] == digits[i - 1 - |m.accidental|];
      }
    }
  }

  /** Transposition preserves distance: the pitch named by `offset(p, k)` is
      `y`, the pitch `k` half-steps above `p`. */
  lemma OffsetPreservesDistance(pitch: string, h: int, halfs: int, y: int)
    requires HalfSteps(pitch) == Ok(Some(h))
    requires y == h + halfs && 4 + y / 12 >= 0
    ensures Offset(pitch, halfs).Ok?
    ensures HalfSteps(Offset(pitch, halfs).value) == Ok(Some(y))
  {
    TransposeNote(PartsOf(pitch).value, halfs, y);
    NameOfRoundTrip(y);
  }

  /** `offset(p, 0)` respells a pitch in the `_semitones` names, and doing it a
      second time changes nothing. */
  lemma OffsetZeroIdempotent(pitch: string, h: int)
    requires HalfSteps(pitch) == Ok(Some(h))
    requires 4 + h / 12 >= 0
    ensures Offset(pitch, 0).Ok?
    ensures Offset(Offset(pitch, 0).value, 0) == Offset(pitch, 0)
  {
    RespellNames(pitch, h);
    NameOfRoundTrip(h);
    RespellNames(NameOf(h), h);
  }

  /** `offset(p, 0)` writes the pitch of `p` by its `_semitones` name. */
  lemma RespellNames(pitch: string, h: int)
    requires HalfSteps(pitch) == Ok(Some(h))
    ensures Offset(pitch, 0) == Ok(NameOf(h))
  {
    var p := PartsOf(pitch).value;
    TransposeNote(p, 0, h);
  }

  lemma ReadDb4()
    ensures HalfSteps("Db4") == Ok(Some(4))
  {
    var m := PitchMatch('D', "b", Some("4"));
    assert Spell(m) == "Db4";
    HalfStepsOfSpelling(m);
  }

  /** Enharmonic respelling: `offset("Db4", 0) == "C#4"`. */
  lemma RespellExample()
    ensures Offset("Db4", 0) == Ok("C#4")
  {
    ReadDb4();
    RespellNames("Db4", 4);
    NameOfFour();
  }

  lemma NameOfFour()
    ensures NameOf(4) == "C#4"
  {
    assert Semitones[4] == "C#";
    assert Str(4) == "4";
  }

  lemma ReadAb0()
    ensures HalfSteps("Ab0") == Ok(Some(-49))
  {
    var m := PitchMatch('A', "b", Some("0"));
    assert Spell(m) == "Ab0";
    HalfStepsOfSpelling(m);
  }

  /** `offset("Ab0", 0)` writes the octave as `-1`, which `_parts` cannot read. */
  lemma NegativeOctaveExample()
    ensures Offset("Ab0", 0) == Ok("G#-1")
    ensures HalfSteps("G#-1").Raise?
  {
    ReadAb0();
    RespellNames("Ab0", -49);
    assert NameOf(-49) == "G#-1";
    NegativeOctaveUnreadable(-49);
  }

  // ---------------------------------------------------------------------
  // Dotted lengths: `to_dur` and `to_dotted`
  // ---------------------------------------------------------------------

  /** The loop of `to_dur`: for each mark, multiply the running denominator
      by its `_dotval` and add one over it. An unknown mark raises `KeyError`. */
  function DurLoop(size: Frac, den: Pos, dots: string): (r: Result<Frac>)
    ensures r.Ok? <==> AllDots(dots)
    ensures r.Raise? ==> r.exc == KeyError
    decreases |dots|
  {
    if dots == [] then Ok(size)
    else match DotVal(dots[0])
      case None => Raise(KeyError)
      case Some(v) =>
        var den' := den * v;
        var r := DurLoop(Normalize(size.num * den' + size.den, size.den * den'), den', dots[1..]);
        assert AllDots(dots) <==> AllDots(dots[1..]) by {
          assert forall i :: 0 < i < |dots| ==> dots[i] == dots[1..][i - 1];
        }
        r
  }

  /** `to_dur(size, dots)`. */
  method ToDur(size: Frac, dots: string) returns (r: Result<Frac>)
    ensures r == DurLoop(size, size.den, dots)
  {
    var den: Pos := size.den;
    var cur := size;
    var i := 0;
    while i < |dots|
      invariant 0 <= i <= |dots|
      invariant DurLoop(cur, den, dots[i..]) == DurLoop(size, size.den, dots)
    {
      assert dots[i..][1..] == dots[i + 1..];
      var v := DotVal(dots[i]);
      if v.None? {
        return Raise(KeyError);
      }
      den := den * v.value;
      cur := Normalize(cur.num * den + cur.den, cur.den * den);
      i := i + 1;
    }
    return Ok(cur);
  }

  lemma AllDotsTail(dots: string)
    requires dots != [] && AllDots(dots)
    ensures IsDot(dots[0]) && AllDots(dots[1..])
  {
    assert forall i :: 0 <= i < |dots| - 1 ==> dots[1..][i] == dots[i + 1];
  }

  /** What the dot marks add, from running denominator `den`: each mark adds
      one over the denominator after multiplying it by the mark's factor. */
  function DotTail(den: Pos, dots: string): real
    requires AllDots(dots)
    decreases |dots|
  {
    if dots == [] then 0.0
    else
      AllDotsTail(dots);
      var den' := den * DotVal(dots[0]).value;
      1.0 / den' as real + DotTail(den', dots[1..])
  }

  /** One step of `to_dur` adds one over the new running denominator. */
  lemma AddUnit(size: Frac, den: Pos)
    ensures Normalize(size.num * den + size.den, size.den * den).Value()
         == size.Value() + 1.0 / den as real
  {
    RealFraction(size.num, size.den, den);
  }

  /** `to_dur` adds exactly one term per mark. */
  lemma {:induction false} DurLoopValue(size: Frac, den: Pos, dots: string)
    requires AllDots(dots)
    ensures DurLoop(size, den, dots).value.Value() == size.Value() + DotTail(den, dots)
    decreases |dots|
  {
    if dots != [] {
      AllDotsTail(dots);
      var den' := den * DotVal(dots[0]).value;
      var next := Normalize(size.num * den' + size.den, size.den * den');
      AddUnit(size, den');
      DurLoopValue(next, den', dots[1..]);
    }
  }

  lemma HalfStep(den: Pos, v: Pos)
    requires v >= 2
    ensures 1.0 / (den * v) as real + 1.0 / (den * v) as real <= 1.0 / den as real
  {
    MulAtLeast(den, v - 1);
    assert den * v == den * (v - 1) + den;
    assert (den * v) as real >= 2.0 * den as real;
  }

  /** The marks together add less than one over the starting denominator,
      so a dotted note is always shorter than twice its base length. */
  lemma {:induction false} DotTailBounds(den: Pos, dots: string)
    requires AllDots(dots)
    ensures 0.0 <= DotTail(den, dots) < 1.0 / den as real
    ensures dots != [] ==> DotTail(den, dots) > 0.0
    decreases |dots|
  {
    if dots != [] {
      AllDotsTail(dots);
      var v := DotVal(dots[0]).value;
      DotTailBounds(den * v, dots[1..]);
      HalfStep(den, v);
    }
  }

  function Dots(k: nat): (s: string)
    ensures |s| == k && AllDots(s)
  {
    if k == 0 then "" else "." + Dots(k - 1)
  }

  /** Classical dotting: `k` dots after a note of length `1/den` add
      `1/2 + 1/4 + ... + 1/2^k` of it. */
  lemma {:induction false} DotsAddHalves(den: Pos, k: nat)
    ensures DotTail(den, Dots(k)) == (1.0 - 1.0 / Pow2(k) as real) / den as real
    decreases k
  {
    if k > 0 {
      DotsAddHalves(den * 2, k - 1);
      assert Dots(k)[1..] == Dots(k - 1);
      var p := Pow2(k - 1) as real;
      var d := den as real;
      assert DotTail(den, Dots(k)) == 1.0 / (2.0 * d) + (1.0 - 1.0 / p) / (2.0 * d);
      assert Pow2(k) as real == 2.0 * p;
    }
  }

  /** The marks multiply the denominator by a power of two. */
  lemma DotValPow2(d: Pos, c: char)
    requires IsPow2(d) && IsDot(c)
    ensures DotVal(c).value % 2 == 0 && IsPow2(d * DotVal(c).value)
  {
    Pow2Double(d);
    if c != '.' {
      Pow2Double(2 * d);
      if c == '!' {
        Pow2Double(4 * d);
      }
    }
  }

  /** On an odd numerator over a power of two, one `to_dur` step is exact:
      `n/d` plus one over `d*v` is `(n*v + 1)/(d*v)`, already in lowest terms. */
  lemma DurStep(n: nat, d: Pos, dots: string)
    requires n % 2 == 1 && IsPow2(d) && dots != [] && IsDot(dots[0])
    ensures var v := DotVal(dots[0]).value;
      && DurLoop(Frac(n, d), d, dots) == DurLoop(Frac(n * v + 1, d * v), d * v, dots[1..])
      && (n * v + 1) % 2 == 1 && IsPow2(d * v)
  {
    DurStepSum(n, d, dots[0]);
    DurLoopHead(Frac(n, d), d, dots);
  }

  /** The sum one `to_dur` step with mark `c` computes from `n/d`. */
  lemma DurStepSum(n: nat, d: Pos, c: char)
    requires n % 2 == 1 && IsPow2(d) && IsDot(c)
    ensures var v := DotVal(c).value;
      && (n * v + 1) % 2 == 1 && IsPow2(d * v)
      && Normalize(n * (d * v) + d, d * (d * v)) == Frac(n * v + 1, d * v)
  {
    var v := DotVal(c).value;
    DotValPow2(d, c);
    EvenProduct(n, v);
    Distribute(n, d, v);
    MulAtLeast(d, v);
    ExactSum(n, d, n * v + 1, d * v);
  }

  /** The first turn of the `to_dur` loop. */
  lemma DurLoopHead(size: Frac, den: Pos, dots: string)
    requires dots != [] && IsDot(dots[0])
    ensures var den' := den * DotVal(dots[0]).value;
      DurLoop(size, den, dots)
      == DurLoop(Normalize(size.num * den' + size.den, size.den * den'), den', dots[1..])
  {
  }

  lemma ExactSum(n: nat, d: Pos, x: nat, e: Pos)
    requires x % 2 == 1 && IsPow2(e) && n * e + d == d * x
    ensures Normalize(n * e + d, d * e) == Frac(x, e)
  {
    MulAtLeast(d, e);
    OddOverPow2(x, e);
    CancelFactor(d, x, e);
    NormalizeUnique(n * e + d, d * e, Frac(x, e));
  }

  /** The same step backwards: taking one over `d*v` away from
      `(n*v + 1)/(d*v)` leaves `n/d`. */
  lemma UndotStep(n: nat, d: Pos, v: Pos)
    requires n % 2 == 1 && IsPow2(d)
    ensures Normalize(n * v, d * v) == Frac(n, d)
  {
    OddOverPow2(n, d);
    CancelRight(n, d, v);
    NormalizeUnique(n * v, d * v, Frac(n, d));
  }

  /** One turn of the `to_dotted` loop on what a `to_dur` step produced names
      that step's mark. */
  lemma PeelStep(n: nat, d: Pos, dots: string, t: string)
    requires n % 2 == 1 && IsPow2(d) && dots != [] && IsDot(dots[0])
    ensures var v := DotVal(dots[0]).value;
      Peel(Frac(n * v + 1, d * v), dots[1..] + t) == Peel(Frac(n, d), dots + t)
  {
    var c := dots[0];
    var v := DotVal(c).value;
    ConsTail(dots, t);
    var f := DottedStep(n, d, c);
    PeelOnce(f, Frac(n, d), c, dots[1..] + t);
  }

  /** The fraction one `to_dur` step with mark `c` makes of `n/d`, and the
      facts a `to_dotted` turn needs to take that step back. */
  lemma DottedStep(n: nat, d: Pos, c: char) returns (f: Frac)
    requires n % 2 == 1 && IsPow2(d) && IsDot(c)
    ensures var v := DotVal(c).value; f == Frac(n * v + 1, d * v)
    ensures f.num > 1 && f.num % 2 == 1
    ensures Normalize(f.num - 1, f.den) == Frac(n, d) && d * DotVal(c).value == f.den
  {
    var v := DotVal(c).value;
    DotValPow2(d, c);
    EvenProduct(n, v);
    MulAtLeast(n, v);
    UndotStep(n, d, v);
    f := Frac(n * v + 1, d * v);
    assert f.num - 1 == n * v;
  }

  lemma ConsTail(dots: string, t: string)
    requires dots != []
    ensures [dots[0]] + (dots[1..] + t) == dots + t
  {
  }

  /** A turn of the `to_dotted` loop whose denominator shrank by the factor
      of mark `c` puts `c` in front of the marks. */
  lemma PeelOnce(f: Frac, rest: Frac, c: char, t: string)
    requires f.num > 1 && f.num % 2 == 1 && IsDot(c)
    requires Normalize(f.num - 1, f.den) == rest && rest.den * DotVal(c).value == f.den
    ensures Peel(f, t) == Peel(rest, [c] + t)
  {
    assert rest.den * 2 < rest.den * 4 < rest.den * 8;
  }

  /** `to_dotted` undoes what `to_dur` adds, mark by mark, from any odd
      numerator over a power of two. */
  lemma {:induction false} DurThenPeel(n: nat, d: Pos, dots: string, t: string)
    requires n % 2 == 1 && IsPow2(d) && AllDots(dots)
    ensures Peel(DurLoop(Frac(n, d), d, dots).value, t) == Peel(Frac(n, d), dots + t)
    decreases |dots|
  {
    if dots == [] {
      assert dots + t == t;
    } else {
      AllDotsTail(dots);
      var v := DotVal(dots[0]).value;
      DurStep(n, d, dots);
      DurThenPeel(n * v + 1, d * v, dots[1..], t);
      PeelStep(n, d, dots, t);
    }
  }

  /** The loop of `to_dotted`: while the numerator is odd and above one, take
      away one over the denominator and name the step by how much the reduced
      denominator shrank (`.` by 2, `:` by 4, `!` by 8); any other shrink
      raises `ValueError`. Yields the fraction left and the marks. */
  function Peel(frac: Frac, suffix: string): Result<(Frac, string)>
    decreases if frac.num > 0 then frac.num else 0
  {
    if frac.num > 1 && frac.num % 2 == 1 then
      var rest := Normalize(frac.num - 1, frac.den);
      if rest.den * 2 == frac.den then Peel(rest, "." + suffix)
      else if rest.den * 4 == frac.den then Peel(rest, ":" + suffix)
      else if rest.den * 8 == frac.den then Peel(rest, "!" + suffix)
      else Raise(ValueError)
    else Ok((frac, suffix))
  }

  /** The text `to_dotted` returns: the denominator left, then the marks. */
  function DottedText(frac: Frac): Result<string> {
    match Peel(frac, "")
    case Raise(e) => Raise(e)
    case Ok((rest, suffix)) => Ok(Decimal(rest.den) + suffix)
  }

  /** `to_dotted(frac)`. */
  method ToDotted(frac: Frac) returns (r: Result<string>)
    ensures r == DottedText(frac)
  {
    var f := frac;
    var suffix := "";
    while f.num > 1 && f.num % 2 == 1
      invariant Peel(f, suffix) == Peel(frac, "")
      decreases f.num
    {
      var subnote := f.den;
      f := Normalize(f.num - 1, f.den);
      if f.den * 2 == subnote {
        suffix := "." + suffix;
      } else if f.den * 4 == subnote {
        suffix := ":" + suffix;
      } else if f.den * 8 == subnote {
        suffix := "!" + suffix;
      } else {
        return Raise(ValueError);
      }
    }
    return Ok(Decimal(f.den) + suffix);
  }

  /** `to_dotted(to_dur(Fraction(1, d), dots)) == str(d) + dots` for every
      power of two `d` and every string of marks: the text of a dotted note is
      recovered from its length. */
  lemma DottedInvertsDur(d: Pos, dots: string)
    requires IsPow2(d) && AllDots(dots)
    ensures DottedText(DurLoop(Frac(1, d), d, dots).value) == Ok(Decimal(d) + dots)
  {
    DurThenPeel(1, d, dots, "");
    assert dots + "" == dots;
  }

  lemma PeelValueStep(frac: Frac, c: char, suffix: string)
    requires IsDot(c) && AllDots(suffix)
    requires Normalize(frac.num - 1, frac.den).den * DotVal(c).value == frac.den
    ensures AllDots([c] + suffix)
    ensures var rest := Normalize(frac.num - 1, frac.den);
      rest.Value() + DotTail(rest.den, [c] + suffix) == frac.Value() + DotTail(frac.den, suffix)
  {
    var s := [c] + suffix;
    assert s[0] == c && s[1..] == suffix;
    assert DotTail(Normalize(frac.num - 1, frac.den).den, s) == 1.0 / frac.den as real + DotTail(frac.den, suffix);
    LessUnit(frac.num, frac.den);
  }

  /** Every turn of the `to_dotted` loop keeps the length named so far: the
      fraction left plus what the marks add is the fraction it started from. */
  lemma {:induction false} PeelValue(frac: Frac, suffix: string)
    requires AllDots(suffix) && Peel(frac, suffix).Ok?
    ensures var (rest, s) := Peel(frac, suffix).value;
      && AllDots(s)
      && (rest.num <= 1 || rest.num % 2 == 0)
      && rest.Value() + DotTail(rest.den, s) == frac.Value() + DotTail(frac.den, suffix)
    decreases if frac.num > 0 then frac.num else 0
  {
    if frac.num > 1 && frac.num % 2 == 1 {
      var rest := Normalize(frac.num - 1, frac.den);
      var c := if rest.den * 2 == frac.den then '.' else if rest.den * 4 == frac.den then ':' else '!';
      PeelValueStep(frac, c, suffix);
      PeelValue(rest, [c] + suffix);
    }
  }

  /** When the `to_dotted` loop stops at numerator one, the text it returns
      is a base length `1/d` and marks that `to_dur` turns back into exactly
      the fraction it was given. */
  lemma DottedRoundTrip(frac: Frac, d: Pos, s: string)
    requires frac.Reduced() && Peel(frac, "") == Ok((Frac(1, d), s))
    ensures DottedText(frac) == Ok(Decimal(d) + s)
    ensures AllDots(s) && DurLoop(Frac(1, d), d, s) == Ok(frac)
  {
    PeelValue(frac, "");
    DurLoopExact(d, s, frac);
  }

  /** `to_dur(Fraction(1, d), s)` is the fraction in lowest terms whose value
      is `1/d` plus what the marks add. */
  lemma DurLoopExact(d: Pos, s: string, frac: Frac)
    requires AllDots(s) && frac.Reduced()
    requires frac.Value() == 1.0 / d as real + DotTail(d, s)
    ensures DurLoop(Frac(1, d), d, s) == Ok(frac)
  {
    DurLoopValue(Frac(1, d), d, s);
    UnitReduced(d);
    DurLoopReduced(Frac(1, d), d, s);
    ReducedUnique(DurLoop(Frac(1, d), d, s).value, frac);
  }

  /** Every `to_dur` result is in lowest terms. */
  lemma {:induction false} DurLoopReduced(size: Frac, den: Pos, dots: string)
    requires size.Reduced() && AllDots(dots)
    ensures DurLoop(size, den, dots).value.Reduced()
    decreases |dots|
  {
    if dots != [] {
      AllDotsTail(dots);
      var den' := den * DotVal(dots[0]).value;
      DurLoopReduced(Normalize(size.num * den' + size.den, size.den * den'), den', dots[1..]);
    }
  }

  /** A fraction with numerator one is written as just its denominator. */
  lemma DottedUnit(d: Pos)
    ensures DottedText(Frac(1, d)) == Ok(Decimal(d))
  {
    assert Decimal(d) + "" == Decimal(d);
  }

  lemma FourIsPow2()
    ensures IsPow2(4)
  {
    Pow2Double(1);
    Pow2Double(2);
  }

  /** `to_dur(1/4, ".") == 3/8`. */
  lemma DottedQuarter()
    ensures DurLoop(Frac(1, 4), 4, ".") == Ok(Frac(3, 8))
  {
    FourIsPow2();
    DurStep(1, 4, ".");
  }

  /** `to_dur(1/4, "..") == 7/16`. */
  lemma DoubleDottedQuarter()
    ensures DurLoop(Frac(1, 4), 4, "..") == Ok(Frac(7, 16))
  {
    FourIsPow2();
    DurStep(1, 4, "..");
    assert ".."[1..] == ".";
    DurStep(3, 8, ".");
  }

  /** `to_dur(1/4, ":") == 5/16`: a colon adds a quarter of the base length. */
  lemma ColonQuarter()
    ensures DurLoop(Frac(1, 4), 4, ":") == Ok(Frac(5, 16))
  {
    FourIsPow2();
    DurStep(1, 4, ":");
  }

  /** What `to_dur` makes of a quarter note and its marks, `to_dotted`
      writes back as "4" and those marks. */
  lemma QuarterNamed(f: Frac, dots: string)
    requires AllDots(dots) && DurLoop(Frac(1, 4), 4, dots) == Ok(f)
    ensures DottedText(f) == Ok("4" + dots)
  {
    FourIsPow2();
    DottedInvertsDur(4, dots);
    assert Decimal(4) == "4";
  }

  /** `to_dotted(3/8) == "4."`. */
  lemma DottedQuarterText()
    ensures DottedText(Frac(3, 8)) == Ok("4.")
  {
    DottedQuarter();
    QuarterNamed(Frac(3, 8), ".");
    assert "4" + "." == "4.";
  }

  /** `to_dotted(7/16) == "4.."`. */
  lemma DoubleDottedQuarterText()
    ensures DottedText(Frac(7, 16)) == Ok("4..")
  {
    DoubleDottedQuarter();
    QuarterNamed(Frac(7, 16), "..");
    assert "4" + ".." == "4..";
  }

  /** `to_dotted(5/16) == "4:"`. */
  lemma ColonQuarterText()
    ensures DottedText(Frac(5, 16)) == Ok("4:")
  {
    ColonQuarter();
    QuarterNamed(Frac(5, 16), ":");
    assert "4" + ":" == "4:";
  }

  /** `to_dotted(17/32)` raises `ValueError`: taking 1/32 away leaves 1/2,
      whose denominator shrank by 16, which no mark names. */
  lemma DottedTooFine()
    ensures DottedText(Frac(17, 32)) == Raise(ValueError)
  {
    UnitReduced(2);
    NormalizeUnique(16, 32, Frac(1, 2));
  }
}

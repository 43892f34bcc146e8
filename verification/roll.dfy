/** `PianoRoll` of `music.py`: the compiler from a text score to a stream of
    (pitch-or-rest, seconds) events. Each whitespace-separated token is read
    with `_note_re` as a pitch, an optional `/N` note size and optional dot
    marks; a token with only a size changes the default size of later notes. */
module Roll {
  import opened Python
  import opened Text
  import opened Music

  // ---------------------------------------------------------------------
  // `_note_re` = `^([^/]*)(?:/(\d+))?([.:!]*)$`
  // ---------------------------------------------------------------------

  /** The groups of `_note_re`: pitch text, size digits, dot marks. */
  datatype NoteMatch = NoteMatch(pitch: string, size: Option<string>, dots: string)

  predicate NoSlash(s: string) {
    forall i :: 0 <= i < |s| ==> s[i] != '/'
  }

  /** Index of the first `/` in `s`, or `|s|` when there is none. */
  function SlashIndex(s: string): (k: nat)
    ensures k <= |s| && NoSlash(s[..k])
    ensures k < |s| ==> s[k] == '/'
  {
    if s == [] || s[0] == '/' then 0 else 1 + SlashIndex(s[1..])
  }

  /** Length of the run of digits that starts `s`. */
  function DigitLength(s: string): (n: nat)
    ensures n <= |s| && AllDigits(s[..n])
    ensures n < |s| ==> !IsDigit(s[n])
  {
    if s == [] || !IsDigit(s[0]) then 0 else 1 + DigitLength(s[1..])
  }

  /** `_note_re.match(token)`. The greedy `[^/]*` takes everything up to the
      first `/`; what follows must then be `/`, digits and marks. Backing off
      to a shorter first group cannot help: the rest would start with a
      character other than `/` and still hold the `/`, which neither of the
      later groups accepts. */
  function MatchNote(token: string): (r: Option<NoteMatch>)
    ensures r.Some? ==> AllDots(r.value.dots)
    ensures r.Some? && r.value.size.Some? ==> r.value.size.value != [] && AllDigits(r.value.size.value)
  {
    var k := SlashIndex(token);
    if k == |token| then Some(NoteMatch(token, None, ""))
    else MatchSized(token[..k], token[k + 1..])
  }

  /** The rest of `_note_re` after the pitch `pitch` and a `/`: one or more
      digits, then marks up to the end, where `$` also matches before one
      final newline. */
  function MatchSized(pitch: string, rest: string): (r: Option<NoteMatch>)
    ensures r.Some? ==> AllDots(r.value.dots)
    ensures r.Some? ==> r.value.size.Some? && r.value.size.value != [] && AllDigits(r.value.size.value)
  {
    var n := DigitLength(rest);
    var marks := LineEnd(rest[n..]);
    if n > 0 && AllDots(marks) then Some(NoteMatch(pitch, Some(rest[..n]), marks)) else None
  }

  /** `s` without one final newline, if it ends in one. */
  function LineEnd(s: string): (t: string)
    ensures s == t || s == t + "\n"
  {
    if s != [] && s[|s| - 1] == '\n' then s[..|s| - 1] else s
  }

  /** The text a match is read from. */
  function NoteText(m: NoteMatch): string {
    m.pitch + (if m.size.Some? then "/" + m.size.value else "") + m.dots
  }

  /** What `_note_re` can match: a pitch without `/`, and either a size of
      one or more digits followed by marks, or no size and no marks. */
  predicate Writable(m: NoteMatch) {
    && NoSlash(m.pitch)
    && (m.size.Some? ==> m.size.value != [] && AllDigits(m.size.value) && AllDots(m.dots))
    && (m.size.None? ==> m.dots == [])
  }

  lemma {:induction false} SlashAfter(p: string, t: string)
    requires NoSlash(p) && t != [] && t[0] == '/'
    ensures SlashIndex(p + t) == |p|
  {
    if p != [] {
      assert (p + t)[1..] == p[1..] + t;
      SlashAfter(p[1..], t);
    }
  }

  lemma {:induction false} NoSlashAll(p: string)
    requires NoSlash(p)
    ensures SlashIndex(p) == |p|
  {
    if p != [] {
      NoSlashAll(p[1..]);
    }
  }

  lemma {:induction false} DigitsBefore(d: string, t: string)
    requires AllDigits(d) && (t == [] || !IsDigit(t[0]))
    ensures DigitLength(d + t) == |d|
  {
    if d != [] {
      assert (d + t)[1..] == d[1..] + t;
      DigitsBefore(d[1..], t);
    }
  }

  /** Every writable match is accepted and read back as itself. */
  lemma NoteTextMatches(m: NoteMatch)
    requires Writable(m)
    ensures MatchNote(NoteText(m)) == Some(m)
  {
    if m.size.None? {
      assert NoteText(m) == m.pitch;
      NoSlashAll(m.pitch);
    } else {
      var d := m.size.value;
      SizedNoteText(m.pitch, d, m.dots);
      var rest := d + m.dots;
      SlashAfter(m.pitch, "/" + rest);
      Cut(m.pitch, rest);
      SizedMatches(m.pitch, d, m.dots);
    }
  }

  lemma Cut(pitch: string, rest: string)
    ensures var s := pitch + ("/" + rest);
      |pitch| < |s| && s[..|pitch|] == pitch && s[|pitch| + 1..] == rest
  {
  }

  lemma SizedMatches(pitch: string, digits: string, marks: string)
    requires digits != [] && AllDigits(digits) && AllDots(marks)
    ensures MatchSized(pitch, digits + marks) == Some(NoteMatch(pitch, Some(digits), marks))
  {
    var rest := digits + marks;
    assert marks == [] || !IsDigit(marks[0]);
    DigitsBefore(digits, marks);
    assert rest[..|digits|] == digits && rest[|digits|..] == marks;
    assert marks == [] || marks[|marks| - 1] != '\n';
  }

  /** The pattern accepts only writable matches: a match is the text it was
      read from, with at most a newline after it. */
  lemma MatchedNoteText(token: string, m: NoteMatch)
    requires MatchNote(token) == Some(m)
    ensures Writable(m)
    ensures token == NoteText(m) || token == NoteText(m) + "\n"
  {
    var k := SlashIndex(token);
    if k == |token| {
      assert token[..k] == token;
    } else {
      SlashSplit(token, k);
      SizedText(token[..k], token[k + 1..], m);
    }
  }

  lemma SlashSplit(s: string, k: nat)
    requires k < |s| && s[k] == '/'
    ensures s == s[..k] + ("/" + s[k + 1..])
  {
    assert s == s[..k] + s[k..];
    assert s[k..] == "/" + s[k + 1..];
  }

  lemma SizedText(pitch: string, rest: string, m: NoteMatch)
    requires MatchSized(pitch, rest) == Some(m)
    ensures m.pitch == pitch && m.size.Some? && m.size.value != [] && AllDigits(m.size.value)
    ensures AllDots(m.dots)
    ensures var text := pitch + ("/" + rest);
      text == NoteText(m) || text == NoteText(m) + "\n"
  {
    var n := DigitLength(rest);
    var head, tail := rest[..n], rest[n..];
    assert rest == head + tail;
    SizedNoteText(pitch, head, m.dots);
    if tail != m.dots {
      assert tail == m.dots + "\n";
      NewlineAfter(pitch, head, m.dots);
    }
  }

  lemma SizedNoteText(pitch: string, digits: string, marks: string)
    ensures NoteText(NoteMatch(pitch, Some(digits), marks)) == pitch + ("/" + (digits + marks))
  {
  }

  lemma NewlineAfter(pitch: string, digits: string, marks: string)
    ensures pitch + ("/" + (digits + (marks + "\n"))) == pitch + ("/" + (digits + marks)) + "\n"
  {
  }

  // ---------------------------------------------------------------------
  // One token: the body of the loop in `PianoRoll`
  // ---------------------------------------------------------------------

  /** A note the score plays: half-steps above A4 (`None` for a rest) and
      its length in bars, as an exact fraction. */
  datatype Note = Note(pitch: Option<int>, length: Frac)

  /** `Fraction(1/int(size))` for the digits of a `/N` group: `/0` raises
      `ZeroDivisionError`; any other size gives the double nearest to `1/N`,
      which `Fraction` reads back exactly. */
  function SizeOf(digits: string): (r: Result<Frac>)
    requires AllDigits(digits)
    ensures r.Raise? <==> Int(digits) == 0
    ensures r.Raise? ==> r.exc == ZeroDivisionError
    ensures r.Ok? ==> r.value.Reduced() && r.value.num >= 0
  {
    var n := Int(digits);
    if n == 0 then Raise(ZeroDivisionError) else Ok(FloatReciprocal(n))
  }

  /** A size `/N` is read as exactly `1/N` when `N` is a power of two up to
      `2^1074`, and only then; from `2^1075` on it is a zero `Fraction`. */
  lemma SizeOfExact(digits: string)
    requires AllDigits(digits) && Int(digits) > 0
    ensures var n := Int(digits);
      && (SizeOf(digits) == Ok(Frac(1, n)) <==> IsPow2(n) && n <= Pow2(1074))
      && (SizeOf(digits) == Ok(Frac(0, 1)) <==> n >= Pow2(1075))
  {
    var n := Int(digits);
    FloatReciprocalExact(n);
    FloatReciprocalZero(n);
    var f := FloatReciprocal(n);
    if f.num == 0 {
      assert Gcd(0, f.den) == f.den;
    }
  }

  /** `/3` is read as the double nearest to `1/3`, not as `1/3`. */
  lemma ThirdSize()
    ensures SizeOf("3") == Ok(Frac(6004799503160661, 18014398509481984))
  {
    assert Int("3") == 3 by {
      assert "3"[..0] == "";
    }
    ReciprocalOfThree();
  }

  /** The size a `/N` group leaves for a note or for the default: its
      `Fraction` when that is non-zero, `fallback` when it is zero, because
      `if not size` and `if size` take a zero `Fraction` as false. */
  function SizeOr(digits: string, fallback: Frac): Frac
    requires AllDigits(digits) && Int(digits) > 0
  {
    var size := SizeOf(digits).value;
    if size.num != 0 then size else fallback
  }

  /** A size that is a power of two is read as `1/N` or, from `2^1075` on,
      passed over. */
  lemma PowerSize(digits: string, fallback: Frac)
    requires AllDigits(digits) && Int(digits) > 0 && IsPow2(Int(digits))
    ensures SizeOr(digits, fallback) == Frac(1, Int(digits)) || SizeOr(digits, fallback) == fallback
  {
    var n := Int(digits);
    SizeOfExact(digits);
    if n > Pow2(1074) {
      var k := Log2(n);
      if k <= 1074 {
        Pow2Monotone(k, 1074);
      }
      Pow2Monotone(1075, k);
    }
  }

  /** One pass of the loop body over `token`, given the current default
      size: the note it yields, if any, and the default size for the next
      token. `AttributeError` (a token `_note_re` or `_pitch_re` rejects) is
      caught and the token skipped; any other exception escapes. */
  function NoteStep(token: string, default: Frac): Result<(Option<Note>, Frac)> {
    match MatchNote(token)
    case None => Ok((None, default))
    case Some(m) => MatchStep(m, default)
  }

  /** The loop body once `_note_re` has matched `m`. */
  function MatchStep(m: NoteMatch, default: Frac): Result<(Option<Note>, Frac)>
    requires m.size.Some? ==> AllDigits(m.size.value)
  {
    var size := if m.size.Some? then Some(SizeOf(m.size.value)) else None;
    if size.Some? && size.value.Raise? then Raise(size.value.exc)
    else
      // `if not size` and `if size`: a missing size and a zero one are false
      var given := if size.Some? && size.value.value.num != 0 then Some(size.value.value) else None;
      if m.pitch != [] then
        match Freq(m.pitch)
        case Raise(e) => if e == AttributeError then Ok((None, default)) else Raise(e)
        case Ok(h) =>
          var base := if given.Some? then given.value else default;
          if m.dots != [] then
            match DurLoop(base, base.den, m.dots)
            case Raise(e) => Raise(e)
            case Ok(length) => Ok((Some(Note(h, length)), default))
          else Ok((Some(Note(h, base)), default))
      else if given.Some? then Ok((None, given.value))
      else Ok((None, default))
  }

  /** Whether `token` carries the size `/0`. */
  predicate ZeroSize(token: string) {
    var m := MatchNote(token);
    m.Some? && m.value.size.Some? && Int(m.value.size.value) == 0
  }

  /** Whether `token` holds a pitch too high for `freq`. */
  predicate TooHigh(token: string) {
    var m := MatchNote(token);
    m.Some? && m.value.pitch != [] && Freq(m.value.pitch) == Raise(OverflowError)
  }

  /** Two exceptions escape a token: the `ZeroDivisionError` of a `/0` size,
      whatever the rest of the token is, and otherwise the `OverflowError` of
      a pitch too high for `freq`. Every other token either yields a note or
      is passed over. */
  lemma StepErrors(token: string, default: Frac)
    ensures NoteStep(token, default).Raise? <==> ZeroSize(token) || TooHigh(token)
    ensures ZeroSize(token) ==> NoteStep(token, default) == Raise(ZeroDivisionError)
    ensures !ZeroSize(token) && TooHigh(token) ==> NoteStep(token, default) == Raise(OverflowError)
  {
    var m := MatchNote(token);
    if m.Some? && !ZeroSize(token) && m.value.pitch != [] && Freq(m.value.pitch).Ok? {
      var size := if m.value.size.Some? then Some(SizeOf(m.value.size.value)) else None;
      var base := if size.Some? && size.value.value.num != 0 then size.value.value else default;
      if m.value.dots != [] {
        assert DurLoop(base, base.den, m.value.dots).Ok?;
      }
    }
  }

  /** A token `_note_re` rejects yields nothing and leaves the default. */
  lemma UnmatchedSkipped(token: string, default: Frac)
    requires MatchNote(token).None?
    ensures NoteStep(token, default) == Ok((None, default))
  {
  }

  /** A token whose pitch `_pitch_re` rejects yields nothing and leaves the
      default, unless its size is `/0`. */
  lemma BadPitchSkipped(token: string, default: Frac)
    requires MatchNote(token).Some? && MatchNote(token).value.pitch != []
    requires HalfSteps(MatchNote(token).value.pitch).Raise? && !ZeroSize(token)
    ensures NoteStep(token, default) == Ok((None, default))
  {
  }

  /** A pitch cannot end in a dot mark. */
  lemma MarkEndsNoPitch(s: string)
    requires s != [] && IsDot(s[|s| - 1])
    ensures HalfSteps(s).Raise?
  {
    DotEndUnmatched(s);
  }

  /** Marks after a pitch without a `/N` size are swallowed by the greedy
      first group and spoil the pitch: `A4.` is skipped. */
  lemma MarksNeedSize(p: string, marks: string, default: Frac)
    requires NoSlash(p) && marks != [] && AllDots(marks)
    ensures NoteStep(p + marks, default) == Ok((None, default))
  {
    var s := p + marks;
    NoSlashAll(s);
    assert MatchNote(s) == Some(NoteMatch(s, None, ""));
    MarkEndsNoPitch(s);
  }

  /** A token with a size and no pitch yields nothing and makes its size the
      default, unless that size is zero; its marks are ignored. */
  lemma SizeSetsDefault(digits: string, marks: string, default: Frac)
    requires digits != [] && AllDigits(digits) && Int(digits) > 0 && AllDots(marks)
    ensures NoteStep("/" + digits + marks, default) == Ok((None, SizeOr(digits, default)))
  {
    SizeOnlyMatch(digits, marks);
  }

  lemma SizeOnlyMatch(digits: string, marks: string)
    requires digits != [] && AllDigits(digits) && AllDots(marks)
    ensures MatchNote("/" + digits + marks) == Some(NoteMatch("", Some(digits), marks))
  {
    var m := NoteMatch("", Some(digits), marks);
    NoteTextMatches(m);
    SizeOnlyText(digits, marks);
  }

  lemma SizeOnlyText(digits: string, marks: string)
    ensures NoteText(NoteMatch("", Some(digits), marks)) == "/" + digits + marks
  {
  }

  /** `p/N` followed by marks is read as those three groups. */
  lemma SizedMatch(p: string, digits: string, marks: string)
    requires NoSlash(p) && digits != [] && AllDigits(digits) && AllDots(marks)
    ensures MatchNote(p + "/" + digits + marks) == Some(NoteMatch(p, Some(digits), marks))
  {
    var m := NoteMatch(p, Some(digits), marks);
    NoteTextMatches(m);
    SizedTokenText(p, digits, marks);
  }

  lemma SizedTokenText(p: string, digits: string, marks: string)
    ensures NoteText(NoteMatch(p, Some(digits), marks)) == p + "/" + digits + marks
  {
  }

  /** A pitch without a size is played for the current default size. */
  lemma NoteUsesDefault(p: string, h: Option<int>, default: Frac)
    requires p != [] && NoSlash(p) && Freq(p) == Ok(h)
    ensures NoteStep(p, default) == Ok((Some(Note(h, default)), default))
  {
    NoSlashAll(p);
  }

  /** A pitch with a size `/N` and marks is played for `to_dur` of that size
      (of the default, if the size is zero) and the marks, and the default is
      left alone. */
  lemma SizedNote(p: string, digits: string, marks: string, h: Option<int>, default: Frac)
    requires p != [] && NoSlash(p) && Freq(p) == Ok(h)
    requires digits != [] && AllDigits(digits) && Int(digits) > 0 && AllDots(marks)
    ensures var base := SizeOr(digits, default);
      NoteStep(p + "/" + digits + marks, default)
        == Ok((Some(Note(h, DurLoop(base, base.den, marks).value)), default))
  {
    SizedMatch(p, digits, marks);
  }

  /** `/0` raises `ZeroDivisionError` before the pitch is looked at. */
  lemma ZeroSizeRaises(p: string, digits: string, marks: string, default: Frac)
    requires NoSlash(p) && digits != [] && AllDigits(digits) && Int(digits) == 0 && AllDots(marks)
    ensures NoteStep(p + "/" + digits + marks, default) == Raise(ZeroDivisionError)
  {
    SizedMatch(p, digits, marks);
  }

  // ---------------------------------------------------------------------
  // Sizes that `Fraction(1/int(size))` reads exactly
  // ---------------------------------------------------------------------

  /** `1/int(size)` goes through a float, which holds `1/N` exactly when `N`
      is a power of two up to `2^1074` and is zero for larger powers of two,
      a size the loop passes over. A token whose size is `/0` or a power of
      two keeps every size a unit fraction; so does every token without a
      size. */
  predicate ExactSize(token: string) {
    var m := MatchNote(token);
    m.Some? && m.value.size.Some? ==>
      var n := Int(m.value.size.value);
      n == 0 || IsPow2(n)
  }

  predicate ExactSizes(tokens: seq<string>) {
    forall i :: 0 <= i < |tokens| ==> ExactSize(tokens[i])
  }

  /** A unit fraction over a power of two, such as the default size. */
  predicate UnitSize(f: Frac) {
    f.num == 1 && IsPow2(f.den)
  }

  /** Every step keeps the default a unit fraction over a power of two, and
      every note it yields is longer than zero, with a length that
      `to_dotted` can write: the text of the note's base size and marks. */
  lemma StepKeepsUnitSize(token: string, default: Frac, note: Option<Note>, default': Frac)
    requires UnitSize(default) && ExactSize(token)
    requires NoteStep(token, default) == Ok((note, default'))
    ensures UnitSize(default')
    ensures note.Some? ==> note.value.length.Value() > 0.0
    ensures note.Some? ==> exists base: Pos, marks: string ::
      IsPow2(base) && AllDots(marks) && DottedText(note.value.length) == Ok(Decimal(base) + marks)
  {
    var r := MatchNote(token);
    if r.Some? {
      MatchKeepsUnitSize(r.value, default, note, default');
    }
  }

  lemma MatchKeepsUnitSize(m: NoteMatch, default: Frac, note: Option<Note>, default': Frac)
    requires UnitSize(default) && AllDots(m.dots)
    requires m.size.Some? ==> AllDigits(m.size.value)
    requires m.size.Some? ==> var n := Int(m.size.value); n == 0 || IsPow2(n)
    requires MatchStep(m, default) == Ok((note, default'))
    ensures UnitSize(default')
    ensures note.Some? ==> note.value.length.Value() > 0.0
    ensures note.Some? ==> exists base: Pos, marks: string ::
      IsPow2(base) && AllDots(marks) && DottedText(note.value.length) == Ok(Decimal(base) + marks)
  {
    var base := if m.size.Some? && Int(m.size.value) > 0 then SizeOr(m.size.value, default) else default;
    if m.size.Some? && Int(m.size.value) > 0 {
      UnitSizeOr(m.size.value, default);
    }
    assert UnitSize(base);
    if note.Some? {
      NoteLength(base, m.dots, note.value.length);
      assert IsPow2(base.den) && DottedText(note.value.length) == Ok(Decimal(base.den) + m.dots);
    }
  }

  lemma UnitSizeOr(digits: string, fallback: Frac)
    requires AllDigits(digits) && Int(digits) > 0 && IsPow2(Int(digits)) && UnitSize(fallback)
    ensures UnitSize(SizeOr(digits, fallback))
  {
    PowerSize(digits, fallback);
  }

  /** A unit base size with marks gives a positive length that `to_dotted`
      writes back as the base and the marks. */
  lemma NoteLength(base: Frac, marks: string, length: Frac)
    requires UnitSize(base) && AllDots(marks)
    requires (marks == [] && length == base) || DurLoop(base, base.den, marks) == Ok(length)
    ensures length.Value() > 0.0
    ensures DottedText(length) == Ok(Decimal(base.den) + marks)
  {
    DurLoopValue(base, base.den, marks);
    DotTailBounds(base.den, marks);
    DottedInvertsDur(base.den, marks);
  }

  // ---------------------------------------------------------------------
  // The whole score
  // ---------------------------------------------------------------------

  /** The notes the tokens yield in order, and the exception that ends the
      generator early, if any. */
  datatype Score = Score(notes: seq<Note>, error: Option<Exc>)

  /** Running the loop body over `tokens` from the default size `default`. */
  function Compile(tokens: seq<string>, default: Frac): Score
    decreases |tokens|
  {
    if tokens == [] then Score([], None)
    else match NoteStep(tokens[0], default)
      case Raise(e) => Score([], Some(e))
      case Ok((note, default')) =>
        var rest := Compile(tokens[1..], default');
        Score((if note.Some? then [note.value] else []) + rest.notes, rest.error)
  }

  /** An event `PianoRoll` yields: the pitch (`None` for a rest) and the
      seconds it lasts. The pitch is kept as half-steps above A4; the
      generator yields `440 * 2**(h/12)` of it. */
  datatype Event = Event(pitch: Option<int>, seconds: real)

  /** `yield pitch, size*beat` for each note. */
  function Timed(notes: seq<Note>, beat: real): (events: seq<Event>)
    ensures |events| == |notes|
  {
    seq(|notes|, i requires 0 <= i < |notes| => Event(notes[i].pitch, notes[i].length.Value() * beat))
  }

  /** What the generator `PianoRoll(tempo, notes)` yields before it stops,
      and the exception it stops with, if any. `60/tempo` is computed on
      the first step, so a zero tempo raises before any event. */
  datatype Played = Played(events: seq<Event>, error: Option<Exc>)

  function PianoRollOf(tempo: real, notes: string): Played {
    if tempo == 0.0 then Played([], Some(ZeroDivisionError))
    else
      var score := Compile(Split(notes), Frac(1, 4));
      Played(Timed(score.notes, 60.0 / tempo), score.error)
  }

  /** `PianoRoll(tempo, notes)`, run to the end. */
  method PianoRoll(tempo: real, notes: string) returns (events: seq<Event>, error: Option<Exc>)
    ensures Played(events, error) == PianoRollOf(tempo, notes)
  {
    if tempo == 0.0 {
      return [], Some(ZeroDivisionError);
    }
    var beat := 60.0 / tempo;
    var tokens := Split(notes);
    var default := Frac(1, 4);
    events, error := [], None;
    ghost var played: seq<Note> := [];
    var i := 0;
    while i < |tokens|
      invariant 0 <= i <= |tokens|
      invariant events == Timed(played, beat)
      invariant Compile(tokens, Frac(1, 4)) == Then(played, Compile(tokens[i..], default))
    {
      assert tokens[i..][1..] == tokens[i + 1..];
      match NoteStep(tokens[i], default)
      case Raise(e) =>
        StopAt(Compile(tokens, Frac(1, 4)), played, tokens[i..], default, e);
        error := Some(e);
        return;
      case Ok((note, default')) =>
        CompileCons(tokens[i..], default, note, default');
        Advance(played, if note.Some? then [note.value] else [], Compile(tokens[i + 1..], default'));
        if note.Some? {
          var n := note.value;
          TimedSnoc(played, n, beat);
          events := events + [Event(n.pitch, n.length.Value() * beat)];
          played := played + [n];
        } else {
          assert played + [] == played;
        }
        default := default';
      i := i + 1;
    }
    assert tokens[i..] == [];
    assert played + [] == played;
  }

  /** One more token read: the note it yields joins the notes played. */
  lemma Advance(played: seq<Note>, front: seq<Note>, rest: Score)
    ensures Then(played, Then(front, rest)) == Then(played + front, rest)
  {
    assert played + (front + rest.notes) == (played + front) + rest.notes;
  }

  /** A token that raises ends the score after the notes played. */
  lemma StopAt(whole: Score, played: seq<Note>, tokens: seq<string>, default: Frac, e: Exc)
    requires whole == Then(played, Compile(tokens, default))
    requires tokens != [] && NoteStep(tokens[0], default) == Raise(e)
    ensures whole == Score(played, Some(e))
  {
    CompileRaise(tokens, default, e);
    ThenNothing(played, e);
  }

  lemma TimedSnoc(notes: seq<Note>, n: Note, beat: real)
    ensures Timed(notes + [n], beat) == Timed(notes, beat) + [Event(n.pitch, n.length.Value() * beat)]
  {
    var a, b := Timed(notes + [n], beat), Timed(notes, beat) + [Event(n.pitch, n.length.Value() * beat)];
    assert forall i :: 0 <= i < |a| ==> a[i] == b[i];
  }

  /** A token that yields `note` and leaves `default'` adds the note in
      front of what the remaining tokens play. */
  lemma CompileCons(tokens: seq<string>, default: Frac, note: Option<Note>, default': Frac)
    requires tokens != [] && NoteStep(tokens[0], default) == Ok((note, default'))
    ensures Compile(tokens, default)
         == Then(if note.Some? then [note.value] else [], Compile(tokens[1..], default'))
  {
  }

  /** A token that raises ends the score with its exception. */
  lemma CompileRaise(tokens: seq<string>, default: Frac, e: Exc)
    requires tokens != [] && NoteStep(tokens[0], default) == Raise(e)
    ensures Compile(tokens, default) == Score([], Some(e))
  {
  }

  /** The notes `played` followed by what `rest` plays. */
  function Then(played: seq<Note>, rest: Score): Score {
    Score(played + rest.notes, rest.error)
  }

  lemma ThenEmpty(rest: Score)
    ensures Then([], rest) == rest
  {
    assert [] + rest.notes == rest.notes;
  }

  lemma ThenNothing(played: seq<Note>, e: Exc)
    ensures Then(played, Score([], Some(e))) == Score(played, Some(e))
  {
    assert played + [] == played;
  }

  // ---------------------------------------------------------------------
  // Properties of whole scores
  // ---------------------------------------------------------------------

  /** When every size is a power of two, every note of the score has a
      length `to_dotted` can write. */
  lemma {:induction false} CompileLengths(tokens: seq<string>, default: Frac)
    requires UnitSize(default) && ExactSizes(tokens)
    ensures forall n :: n in Compile(tokens, default).notes ==>
      n.length.Value() > 0.0 && DottedText(n.length).Ok?
    decreases |tokens|
  {
    if tokens != [] {
      var step := NoteStep(tokens[0], default);
      if step.Ok? {
        var (note, default') := step.value;
        StepKeepsUnitSize(tokens[0], default, note, default');
        assert ExactSizes(tokens[1..]) by {
          assert forall i :: 0 <= i < |tokens| - 1 ==> tokens[1..][i] == tokens[i + 1];
        }
        CompileLengths(tokens[1..], default');
        CompileCons(tokens, default, note, default');
      }
    }
  }

  /** A non-zero size `/N` and a positive fallback leave a positive size. */
  lemma SizePositive(digits: string, fallback: Frac)
    requires AllDigits(digits) && Int(digits) > 0 && fallback.Value() > 0.0
    ensures SizeOr(digits, fallback).Value() > 0.0
  {
    var size := SizeOf(digits).value;
    if size.num != 0 {
      assert size.num as real > 0.0 && size.den as real > 0.0;
    }
  }

  /** From a positive default, a step keeps the default positive and yields
      a note that lasts longer than zero, whatever its size. */
  lemma MatchPositive(m: NoteMatch, default: Frac, note: Option<Note>, default': Frac)
    requires default.Value() > 0.0 && AllDots(m.dots)
    requires m.size.Some? ==> AllDigits(m.size.value)
    requires MatchStep(m, default) == Ok((note, default'))
    ensures default'.Value() > 0.0
    ensures note.Some? ==> note.value.length.Value() > 0.0
  {
    if m.size.Some? && Int(m.size.value) > 0 {
      SizePositive(m.size.value, default);
    }
    if note.Some? {
      var base := if m.size.Some? then SizeOr(m.size.value, default) else default;
      DurLoopValue(base, base.den, m.dots);
      DotTailBounds(base.den, m.dots);
    }
  }

  /** Every note of a score compiled from a positive default lasts longer
      than zero. */
  lemma {:induction false} CompilePositive(tokens: seq<string>, default: Frac)
    requires default.Value() > 0.0
    ensures forall n :: n in Compile(tokens, default).notes ==> n.length.Value() > 0.0
    decreases |tokens|
  {
    if tokens != [] {
      var step := NoteStep(tokens[0], default);
      if step.Ok? {
        var (note, default') := step.value;
        var r := MatchNote(tokens[0]);
        if r.Some? {
          MatchPositive(r.value, default, note, default');
        }
        CompilePositive(tokens[1..], default');
        CompileCons(tokens, default, note, default');
      }
    }
  }

  /** At a positive tempo every event `PianoRoll` yields lasts a positive
      number of seconds. */
  lemma EventsLast(tempo: real, notes: string)
    requires tempo > 0.0
    ensures forall e :: e in PianoRollOf(tempo, notes).events ==> e.seconds > 0.0
  {
    CompilePositive(Split(notes), Frac(1, 4));
    TimedPositive(Compile(Split(notes), Frac(1, 4)).notes, 60.0 / tempo);
  }

  lemma TimedPositive(notes: seq<Note>, beat: real)
    requires beat > 0.0 && forall n :: n in notes ==> n.length.Value() > 0.0
    ensures forall e :: e in Timed(notes, beat) ==> e.seconds > 0.0
  {
    var events := Timed(notes, beat);
    forall e | e in events
      ensures e.seconds > 0.0
    {
      var i :| 0 <= i < |events| && events[i] == e;
      assert notes[i] in notes;
      Positive(notes[i].length.Value(), beat);
    }
  }

  lemma Positive(a: real, b: real)
    requires a > 0.0 && b > 0.0
    ensures a * b > 0.0
  {
  }

  /** A token that is passed over leaves the rest of the score as it was. */
  lemma SkippedToken(token: string, rest: seq<string>, default: Frac)
    requires NoteStep(token, default) == Ok((None, default))
    ensures Compile([token] + rest, default) == Compile(rest, default)
  {
    assert ([token] + rest)[1..] == rest;
    CompileCons([token] + rest, default, None, default);
    ThenEmpty(Compile(rest, default));
  }

  /** The default size starts at a quarter bar: the first note of a score,
      written without a size, is a quarter note. */
  lemma FirstNoteQuarter(p: string, rest: string, h: Option<int>)
    requires p != [] && NoSpace(p) && NoSlash(p) && Freq(p) == Ok(h)
    ensures var score := Compile(Split(p + " " + rest), Frac(1, 4));
      |score.notes| >= 1 && score.notes[0] == Note(h, Frac(1, 4))
  {
    SplitCons(p, rest);
    var tokens := [p] + Split(rest);
    assert tokens[0] == p && tokens[1..] == Split(rest);
    NoteUsesDefault(p, h, Frac(1, 4));
    CompileCons(tokens, Frac(1, 4), Some(Note(h, Frac(1, 4))), Frac(1, 4));
  }

  /** A size token changes the length of the notes after it: `/N` then a
      pitch without a size plays that pitch for the size of `/N`, which stays
      the default for the rest of the score (a zero size changes nothing). */
  lemma SizeThenNote(digits: string, p: string, rest: seq<string>, h: Option<int>, default: Frac)
    requires digits != [] && AllDigits(digits) && Int(digits) > 0
    requires p != [] && NoSlash(p) && Freq(p) == Ok(h)
    ensures var size := SizeOr(digits, default);
      Compile(["/" + digits, p] + rest, default) == Then([Note(h, size)], Compile(rest, size))
  {
    var size := SizeOr(digits, default);
    SizeSetsDefault(digits, "", default);
    assert "/" + digits + "" == "/" + digits;
    var tokens := ["/" + digits, p] + rest;
    assert tokens[1..] == [p] + rest;
    SkippedStep(tokens, default, size);
    NoteUsesDefault(p, h, size);
    assert ([p] + rest)[1..] == rest;
    CompileCons([p] + rest, size, Some(Note(h, size)), size);
  }

  lemma SkippedStep(tokens: seq<string>, default: Frac, default': Frac)
    requires tokens != [] && NoteStep(tokens[0], default) == Ok((None, default'))
    ensures Compile(tokens, default) == Compile(tokens[1..], default')
  {
    CompileCons(tokens, default, None, default');
    ThenEmpty(Compile(tokens[1..], default'));
  }

  /** `A4.` is passed over: without a `/N` the marks become part of the pitch. */
  lemma DottedPitchSkipped(default: Frac)
    ensures NoteStep("A4.", default) == Ok((None, default))
  {
    assert "A4" + "." == "A4.";
    MarksNeedSize("A4", ".", default);
  }
}

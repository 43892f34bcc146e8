/** String helpers the modelled code takes from Python: `int()` of a string
    of decimal digits, `"{}".format()` of an integer, and `str.split()` with
    no argument (split at runs of whitespace, no empty pieces). */
module Text {

  predicate IsDigit(c: char) {
    '0' <= c <= '9'
  }

  predicate AllDigits(s: string) {
    forall i :: 0 <= i < |s| ==> IsDigit(s[i])
  }

  function DigitChar(d: nat): (c: char)
    requires d < 10
    ensures IsDigit(c) && DigitValue(c) == d
  {
    (d + '0' as int) as char
  }

  function DigitValue(c: char): nat
    requires IsDigit(c)
  {
    c as int - '0' as int
  }

  /** `int(s)` for a string of ASCII digits (leading zeros allowed). */
  function Int(s: string): nat
    requires AllDigits(s)
  {
    if s == [] then 0 else 10 * Int(s[..|s| - 1]) + DigitValue(s[|s| - 1])
  }

  /** `"{}".format(n)` for a natural number: its decimal digits, no leading zero. */
  function Decimal(n: nat): (s: string)
    ensures s != [] && AllDigits(s)
  {
    if n < 10 then [DigitChar(n)] else Decimal(n / 10) + [DigitChar(n % 10)]
  }

  /** Reading back what `Decimal` wrote gives the number: `int(str(n)) == n`. */
  lemma {:induction false} IntOfDecimal(n: nat)
    ensures Int(Decimal(n)) == n
  {
    var s := Decimal(n);
    if n >= 10 {
      IntOfDecimal(n / 10);
      assert s[..|s| - 1] == Decimal(n / 10);
    }
  }

  /** `"{}".format(i)` for any integer: a minus sign before a negative one. */
  function Str(i: int): string {
    if i < 0 then "-" + Decimal(-i) else Decimal(i)
  }

  // ---------------------------------------------------------------------
  // str.split()
  // ---------------------------------------------------------------------

  /** The characters Python's `str.split()` treats as whitespace. */
  predicate IsSpace(c: char) {
    var k := c as int;
    || 0x09 <= k <= 0x0D || 0x1C <= k <= 0x20 || k == 0x85 || k == 0xA0
    || k == 0x1680 || 0x2000 <= k <= 0x200A || k == 0x2028 || k == 0x2029
    || k == 0x202F || k == 0x205F || k == 0x3000
  }

  predicate NoSpace(s: string) {
    forall i :: 0 <= i < |s| ==> !IsSpace(s[i])
  }

  /** Length of the longest prefix of `s` without whitespace. */
  function WordLength(s: string): (n: nat)
    ensures n <= |s|
    ensures NoSpace(s[..n])
    ensures n < |s| ==> IsSpace(s[n])
  {
    if s == [] || IsSpace(s[0]) then 0 else 1 + WordLength(s[1..])
  }

  /** `s.split()`. */
  function Split(s: string): (words: seq<string>)
    ensures forall w :: w in words ==> w != [] && NoSpace(w)
    decreases |s|
  {
    if s == [] then []
    else if IsSpace(s[0]) then Split(s[1..])
    else
      var n := WordLength(s);
      [s[..n]] + Split(s[n..])
  }

  function Concat(words: seq<string>): string {
    if words == [] then [] else words[0] + Concat(words[1..])
  }

  /** The characters of `s` that are not whitespace, in order. */
  function Squeeze(s: string): string {
    if s == [] then [] else (if IsSpace(s[0]) then [] else [s[0]]) + Squeeze(s[1..])
  }

  lemma {:induction false} SqueezeAppend(a: string, b: string)
    ensures Squeeze(a + b) == Squeeze(a) + Squeeze(b)
  {
    if a != [] {
      var h := if IsSpace(a[0]) then [] else [a[0]];
      assert (a + b)[0] == a[0];
      assert (a + b)[1..] == a[1..] + b;
      SqueezeAppend(a[1..], b);
      calc {
        Squeeze(a + b);
        h + Squeeze(a[1..] + b);
        h + (Squeeze(a[1..]) + Squeeze(b));
        (h + Squeeze(a[1..])) + Squeeze(b);
      }
    } else {
      assert a + b == b;
    }
  }

  lemma {:induction false} SqueezeWord(w: string)
    requires NoSpace(w)
    ensures Squeeze(w) == w
  {
    if w != [] {
      SqueezeWord(w[1..]);
    }
  }

  /** Splitting loses only the whitespace: joining the pieces gives back every
      other character of the input, in order. */
  lemma {:induction false} SplitKeepsText(s: string)
    ensures Concat(Split(s)) == Squeeze(s)
    decreases |s|
  {
    if s != [] {
      if IsSpace(s[0]) {
        SplitKeepsText(s[1..]);
      } else {
        var n := WordLength(s);
        var words := Split(s);
        assert words == [s[..n]] + Split(s[n..]);
        assert words[1..] == Split(s[n..]);
        SplitKeepsText(s[n..]);
        assert s == s[..n] + s[n..];
        SqueezeAppend(s[..n], s[n..]);
        SqueezeWord(s[..n]);
      }
    }
  }

  /** A string with no whitespace splits into itself alone. */
  lemma SplitWord(w: string)
    requires w != [] && NoSpace(w)
    ensures Split(w) == [w]
  {
    WordLengthAll(w);
    assert w[..|w|] == w;
    assert w[|w|..] == [];
    assert Split(w) == [w] + Split([]);
  }

  lemma {:induction false} WordLengthAll(w: string)
    requires NoSpace(w)
    ensures WordLength(w) == |w|
  {
    if w != [] {
      WordLengthAll(w[1..]);
    }
  }

  /** Splitting `w + " " + rest` gives `w` followed by the words of `rest`. */
  lemma SplitCons(w: string, rest: string)
    requires w != [] && NoSpace(w)
    ensures Split(w + " " + rest) == [w] + Split(rest)
  {
    var t := " " + rest;
    assert w + " " + rest == w + t;
    WordPrefix(w, t);
    SplitFirst(w, t);
    SplitSpace(rest);
  }

  lemma SplitFirst(w: string, t: string)
    requires w != [] && !IsSpace(w[0]) && WordLength(w + t) == |w|
    ensures Split(w + t) == [w] + Split(t)
  {
    var s := w + t;
    assert s[0] == w[0];
    assert s[..|w|] == w;
    assert s[|w|..] == t;
  }

  lemma SplitSpace(rest: string)
    ensures Split(" " + rest) == Split(rest)
  {
    assert (" " + rest)[1..] == rest;
  }

  lemma {:induction false} WordPrefix(w: string, t: string)
    requires NoSpace(w) && t != [] && IsSpace(t[0])
    ensures WordLength(w + t) == |w|
  {
    if w != [] {
      assert (w + t)[1..] == w[1..] + t;
      WordPrefix(w[1..], t);
    }
  }
}

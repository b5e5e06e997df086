/**
 * Which strings Python's `float()` accepts, for ASCII text: surrounding whitespace,
 * an optional sign, then `inf`, `infinity` or `nan` in any case, or a decimal
 * literal with optional fraction and exponent, digits grouped by single underscores.
 * The value itself is not modelled: a parsed number is kept as its text.
 */
module PyFloat {
  import opened PyStr

  /** A run of digits where single underscores may separate digits: `1_000`. */
  predicate IsDigitPart(s: string)
    decreases |s|
  {
    |s| > 0 && IsDigit(s[0]) &&
    (|s| == 1 || (if s[1] == '_' then |s| > 2 && IsDigitPart(s[2..]) else IsDigitPart(s[1..])))
  }

  /** Index of the first `c` in `s`, or `|s|` when there is none. */
  function IndexOf(s: string, c: char): (k: nat)
    ensures k <= |s| && c !in s[..k]
    ensures k < |s| ==> s[k] == c
  {
    if s == [] then 0
    else if s[0] == c then 0
    else
      var k := IndexOf(s[1..], c) + 1;
      assert s[..k] == [s[0]] + s[1..][..k - 1];
      k
  }

  /** Digits with an optional decimal point: `12`, `12.`, `12.5`, `.5`. */
  predicate IsMantissa(m: string) {
    var k := IndexOf(m, '.');
    if k == |m| then IsDigitPart(m)
    else if k == 0 then IsDigitPart(m[1..])
    else IsDigitPart(m[..k]) && (k + 1 == |m| || IsDigitPart(m[k + 1..]))
  }

  /** The part after `e`: an optional sign, then digits. */
  predicate IsExponent(e: string) {
    if |e| > 0 && (e[0] == '+' || e[0] == '-') then IsDigitPart(e[1..]) else IsDigitPart(e)
  }

  /** A lower-cased unsigned decimal literal: a mantissa with an optional exponent. */
  predicate IsDecimal(l: string) {
    var k := IndexOf(l, 'e');
    if k == |l| then IsMantissa(l) else IsMantissa(l[..k]) && IsExponent(l[k + 1..])
  }

  /** The literal without surrounding whitespace and without its sign, lower-cased. */
  function Unsigned(s: string): string {
    var t := Strip(s);
    var body := if |t| > 0 && (t[0] == '+' || t[0] == '-') then t[1..] else t;
    Lower(body)
  }

  /** `float(s)` returns instead of raising `ValueError`. */
  predicate IsFloatLiteral(s: string) {
    var l := Unsigned(s);
    l == "inf" || l == "infinity" || l == "nan" || IsDecimal(l)
  }

  /** A digit part holds no `p`. */
  lemma {:induction false} DigitPartLacksP(s: string)
    requires IsDigitPart(s)
    ensures 'p' !in s
    decreases |s|
  {
    if |s| > 1 {
      if s[1] == '_' {
        DigitPartLacksP(s[2..]);
        assert s == s[..2] + s[2..];
      } else {
        DigitPartLacksP(s[1..]);
        assert s == [s[0]] + s[1..];
      }
    }
  }

  /** A mantissa holds no `p`. */
  lemma MantissaLacksP(m: string)
    requires IsMantissa(m)
    ensures 'p' !in m
  {
    var k := IndexOf(m, '.');
    if k == |m| {
      DigitPartLacksP(m);
    } else if k == 0 {
      DigitPartLacksP(m[1..]);
      assert m == [m[0]] + m[1..];
    } else {
      DigitPartLacksP(m[..k]);
      if k + 1 < |m| {
        DigitPartLacksP(m[k + 1..]);
      }
      assert m == m[..k] + [m[k]] + m[k + 1..];
    }
  }

  /** An exponent holds no `p`. */
  lemma ExponentLacksP(e: string)
    requires IsExponent(e)
    ensures 'p' !in e
  {
    if |e| > 0 && (e[0] == '+' || e[0] == '-') {
      DigitPartLacksP(e[1..]);
      assert e == [e[0]] + e[1..];
    } else {
      DigitPartLacksP(e);
    }
  }

  /** A decimal literal holds no `p`. */
  lemma DecimalLacksP(l: string)
    requires IsDecimal(l)
    ensures 'p' !in l
  {
    var k := IndexOf(l, 'e');
    if k == |l| {
      MantissaLacksP(l);
    } else {
      MantissaLacksP(l[..k]);
      ExponentLacksP(l[k + 1..]);
      assert l == l[..k] + [l[k]] + l[k + 1..];
    }
  }

  /** Text `float()` accepts holds no capital `P` once stripped. */
  lemma LiteralLacksP(s: string)
    requires IsFloatLiteral(s)
    ensures 'P' !in Strip(s)
  {
    var t := Strip(s);
    var body := if |t| > 0 && (t[0] == '+' || t[0] == '-') then t[1..] else t;
    var l := Lower(body);
    if !(l == "inf" || l == "infinity" || l == "nan") {
      DecimalLacksP(l);
    }
    assert 'p' !in l;
    forall j | 0 <= j < |body| ensures body[j] != 'P' {
      assert l[j] == LowerChar(body[j]) && l[j] in l;
    }
    if body != t {
      assert t == [t[0]] + body;
    }
  }

  /** A field that `float()` accepts once stripped holds no capital `P`. */
  lemma FieldLacksP(x: string)
    requires IsFloatLiteral(Strip(x))
    ensures 'P' !in x
  {
    var t := Strip(x);
    StripEnds(x);
    if t != [] {
      StripNothing(t);
    }
    LiteralLacksP(t);
    StrippedChars(x, 'P');
  }

  /** `float(s)` is NaN, the value pandas counts as missing. */
  predicate IsNaN(s: string) {
    Unsigned(s) == "nan"
  }

  /** Text that `strip()`, the sign test and `lower()` all leave alone. */
  predicate IsPlain(t: string) {
    t != [] && !IsSpace(t[0]) && !IsSpace(t[|t| - 1]) && t[0] != '+' && t[0] != '-'
    && forall i :: 0 <= i < |t| ==> !IsUpperLetter(t[i])
  }

  /** Plain text is its own unsigned form. */
  lemma UnsignedPlain(t: string)
    requires IsPlain(t)
    ensures Unsigned(t) == t
  {
    StripNothing(t);
    LowerNoCapitals(t);
  }

  /** A minus sign before plain text is dropped. */
  lemma UnsignedNegated(t: string)
    requires IsPlain(t)
    ensures Unsigned("-" + t) == t
  {
    StripLeading([], "-" + t);
    assert [] + ("-" + t) == "-" + t;
    assert ("-" + t)[1..] == t;
    LowerNoCapitals(t);
  }
}

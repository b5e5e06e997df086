/**
 * The Python string built-ins the cleaning script relies on (`str.strip`, `str.lower`,
 * `str.title`, `str.split`, the `in` substring test, `str(int)`), restricted to the
 * ASCII range: outside it a character is treated as uncased and not whitespace.
 */
module PyStr {

  /** ASCII characters for which `str.isspace()` holds: what `\s` matches and `strip()` removes. */
  predicate IsSpace(c: char) {
    c == ' ' || c == '\t' || c == '\n' || c == '\r' || c == '\U{0B}' || c == '\U{0C}' ||
    ('\U{1C}' <= c <= '\U{1F}')
  }

  predicate AllSpace(s: string) {
    forall i :: 0 <= i < |s| ==> IsSpace(s[i])
  }

  predicate IsDigit(c: char) {
    '0' <= c <= '9'
  }

  predicate AllDigits(s: string) {
    forall i :: 0 <= i < |s| ==> IsDigit(s[i])
  }

  predicate IsUpperLetter(c: char) {
    'A' <= c <= 'Z'
  }

  predicate IsLowerLetter(c: char) {
    'a' <= c <= 'z'
  }

  /** A cased character in the sense of `str.title()`. */
  predicate IsLetter(c: char) {
    IsUpperLetter(c) || IsLowerLetter(c)
  }

  function LowerChar(c: char): char {
    if IsUpperLetter(c) then (c as int + 32) as char else c
  }

  function UpperChar(c: char): char {
    if IsLowerLetter(c) then (c as int - 32) as char else c
  }

  /** `s.lower()`. */
  function Lower(s: string): string {
    seq(|s|, i requires 0 <= i < |s| => LowerChar(s[i]))
  }

  lemma LowerIdempotent(s: string)
    ensures Lower(Lower(s)) == Lower(s)
  {
  }

  /** `sub` occurs in `s` starting at index `i`. */
  predicate OccursAt(s: string, sub: string, i: nat) {
    i + |sub| <= |s| && s[i..i + |sub|] == sub
  }

  /** Lower-casing text without capitals changes nothing. */
  lemma LowerNoCapitals(t: string)
    requires forall i :: 0 <= i < |t| ==> !IsUpperLetter(t[i])
    ensures Lower(t) == t
  {
  }

  /** `sub in s`: `sub` occurs in `s` as a contiguous block. */
  predicate Contains(s: string, sub: string) {
    exists i: nat :: i <= |s| && OccursAt(s, sub, i)
  }

  /** Length of the longest prefix of `s` made of whitespace. */
  function LeadingSpaces(s: string): (n: nat)
    ensures n <= |s| && AllSpace(s[..n])
    ensures n < |s| ==> !IsSpace(s[n])
  {
    if s != [] && IsSpace(s[0]) then
      var m := LeadingSpaces(s[1..]);
      assert s[..m + 1] == [s[0]] + s[1..][..m];
      m + 1
    else 0
  }

  /** The end of `s[..j]` once its trailing whitespace is removed. */
  function TrimmedEnd(s: string, j: nat): (k: nat)
    requires j <= |s|
    ensures k <= j && (forall i :: k <= i < j ==> IsSpace(s[i]))
    ensures k > 0 ==> !IsSpace(s[k - 1])
  {
    if j > 0 && IsSpace(s[j - 1]) then TrimmedEnd(s, j - 1) else j
  }

  /** Length of the longest suffix of `s` made of whitespace. */
  function TrailingSpaces(s: string): (n: nat)
    ensures n <= |s| && AllSpace(s[|s| - n..])
    ensures n < |s| ==> !IsSpace(s[|s| - n - 1])
  {
    var k := TrimmedEnd(s, |s|);
    assert forall i :: 0 <= i < |s| - k ==> s[k..][i] == s[k + i];
    |s| - k
  }

  /** `s.strip()`: `s` without its leading and trailing whitespace. */
  function Strip(s: string): string {
    var a := LeadingSpaces(s);
    if a == |s| then []
    else
      var b := TrailingSpaces(s);
      assert a < |s| - b by {
        assert !IsSpace(s[a]);
      }
      s[a..|s| - b]
  }

  /** Where the block `strip()` keeps starts: everything before and after it is whitespace. */
  lemma StripAt(s: string) returns (i: nat)
    ensures i + |Strip(s)| <= |s| && s[i..i + |Strip(s)|] == Strip(s)
    ensures AllSpace(s[..i]) && AllSpace(s[i + |Strip(s)|..])
  {
    var a := LeadingSpaces(s);
    if a == |s| {
      i := 0;
      assert s[0..0] == [] && s[0..] == s;
    } else {
      var b := TrailingSpaces(s);
      i := a;
      assert s[a + |Strip(s)|..] == s[|s| - b..];
    }
  }

  /** The block is empty exactly when `s` is all whitespace, and otherwise it neither starts nor ends with whitespace. */
  lemma StripEnds(s: string)
    ensures Strip(s) == [] <==> AllSpace(s)
    ensures Strip(s) != [] ==> !IsSpace(Strip(s)[0]) && !IsSpace(Strip(s)[|Strip(s)| - 1])
  {
    var a := LeadingSpaces(s);
    if a < |s| {
      assert !AllSpace(s) by {
        assert !IsSpace(s[a]);
      }
    }
  }

  /** Whitespace before text that neither starts nor ends with whitespace is all `strip()` removes. */
  lemma StripLeading(w: string, t: string)
    requires AllSpace(w) && t != [] && !IsSpace(t[0]) && !IsSpace(t[|t| - 1])
    ensures Strip(w + t) == t
  {
    LeadingOver(w, t);
    assert (w + t)[|w|..] == t;
  }

  /** A character that is not whitespace and is absent from the stripped text is absent from the text. */
  lemma StrippedChars(s: string, c: char)
    requires c !in Strip(s) && !IsSpace(c)
    ensures c !in s
  {
    var i := StripAt(s);
    var n := |Strip(s)|;
    forall j | 0 <= j < |s| ensures s[j] != c {
      if j < i {
        assert s[..i][j] == s[j];
      } else if j < i + n {
        assert s[i..i + n][j - i] == s[j];
      } else {
        assert s[i + n..][j - i - n] == s[j];
      }
    }
  }

  /** Text that neither starts nor ends with whitespace is what `strip()` returns for it. */
  lemma StripNothing(t: string)
    requires t != [] && !IsSpace(t[0]) && !IsSpace(t[|t| - 1])
    ensures Strip(t) == t
  {
    assert [] + t == t;
    StripLeading([], t);
  }

  /** `LeadingSpaces` measures a whitespace prefix followed by a non-space. */
  lemma {:induction false} LeadingOver(w: string, t: string)
    requires AllSpace(w) && t != [] && !IsSpace(t[0])
    ensures LeadingSpaces(w + t) == |w|
  {
    if w != [] {
      assert (w + t)[1..] == w[1..] + t;
      LeadingOver(w[1..], t);
    }
  }

  /** Number of occurrences of `c` in `s`. */
  function Count(s: string, c: char): nat {
    multiset(s)[c]
  }

  /** `sep.join(parts)`. */
  function Join(parts: seq<string>, sep: string): string {
    if |parts| == 0 then ""
    else if |parts| == 1 then parts[0]
    else parts[0] + sep + Join(parts[1..], sep)
  }

  /** `s.split(sep)` for a one-character separator: the pieces between the separators. */
  function Split(s: string, sep: char): (parts: seq<string>)
    ensures |parts| > 0
  {
    if s == [] then [[]]
    else
      var rest := Split(s[1..], sep);
      if s[0] == sep then [[]] + rest else [[s[0]] + rest[0]] + rest[1..]
  }

  /** There is one more piece than there are separators. */
  lemma {:induction false} SplitCount(s: string, sep: char)
    ensures |Split(s, sep)| == Count(s, sep) + 1
  {
    if s != [] {
      SplitCount(s[1..], sep);
      assert s == [s[0]] + s[1..];
      assert multiset(s) == multiset{s[0]} + multiset(s[1..]);
    }
  }

  /** No piece holds the separator. */
  lemma {:induction false} SplitPiecesLackSeparator(s: string, sep: char)
    ensures forall k :: 0 <= k < |Split(s, sep)| ==> sep !in Split(s, sep)[k]
  {
    if s != [] {
      var rest := Split(s[1..], sep);
      SplitPiecesLackSeparator(s[1..], sep);
      if s[0] != sep {
        var parts := [[s[0]] + rest[0]] + rest[1..];
        assert forall k :: 1 <= k < |parts| ==> parts[k] == rest[k];
        assert sep !in parts[0];
      }
    }
  }

  /** Joined back with the separator, the pieces give `s`. */
  lemma {:induction false} SplitJoin(s: string, sep: char)
    ensures Join(Split(s, sep), [sep]) == s
  {
    if s != [] {
      var rest := Split(s[1..], sep);
      SplitJoin(s[1..], sep);
      if s[0] != sep {
        var parts := [[s[0]] + rest[0]] + rest[1..];
        assert parts[1..] == rest[1..];
      }
    }
  }

  /**
   * `s.title()`: a letter is upper-cased when the character before it is not a
   * letter (or it comes first) and lower-cased otherwise; other characters stay.
   */
  function Title(s: string): (r: string)
    ensures |r| == |s|
    ensures forall i :: 0 <= i < |s| ==> r[i] == TitleChar(s, i)
  {
    TitleAfter(s, false)
  }

  /** The character that `s.title()` puts at index `i`. */
  function TitleChar(s: string, i: nat): char
    requires i < |s|
  {
    if i > 0 && IsLetter(s[i - 1]) then LowerChar(s[i]) else UpperChar(s[i])
  }

  /** The title-casing of `s` when the character before it was cased exactly if `prevCased`. */
  function TitleAfter(s: string, prevCased: bool): (r: string)
    ensures |r| == |s|
    ensures forall i :: 0 <= i < |s| ==>
      r[i] == if (if i == 0 then prevCased else IsLetter(s[i - 1])) then LowerChar(s[i]) else UpperChar(s[i])
  {
    if s == [] then []
    else
      var c := if prevCased then LowerChar(s[0]) else UpperChar(s[0]);
      var r := [c] + TitleAfter(s[1..], IsLetter(s[0]));
      assert forall i :: 1 <= i < |s| ==> r[i] == TitleAfter(s[1..], IsLetter(s[0]))[i - 1];
      r
  }

  /** Title-casing keeps the text apart from letter case. */
  lemma TitleKeepsLowerCase(s: string)
    ensures Lower(Title(s)) == Lower(s)
  {
    var t := Title(s);
    forall i | 0 <= i < |s|
      ensures Lower(t)[i] == Lower(s)[i]
    {
      assert LowerChar(UpperChar(s[i])) == LowerChar(s[i]);
      assert LowerChar(LowerChar(s[i])) == LowerChar(s[i]);
      assert Lower(t)[i] == LowerChar(t[i]);
    }
  }

  /** Title-casing ignores the case the text had before. */
  lemma TitleIgnoresCase(s: string)
    ensures Title(Lower(s)) == Title(s)
  {
    var l := Lower(s);
    forall i | 0 <= i < |s|
      ensures Title(l)[i] == Title(s)[i]
    {
      assert UpperChar(LowerChar(s[i])) == UpperChar(s[i]);
      assert LowerChar(LowerChar(s[i])) == LowerChar(s[i]);
      if i > 0 {
        assert IsLetter(l[i - 1]) == IsLetter(s[i - 1]);
      }
      assert Title(l)[i] == TitleChar(l, i);
    }
  }

  /** `str(n)` for a natural number: its decimal digits without leading zeros. */
  function NatToString(n: nat): (r: string)
    ensures |r| > 0 && AllDigits(r)
    ensures |r| > 1 ==> r[0] != '0'
  {
    var d := ['0' + (n % 10) as char];
    if n < 10 then d else NatToString(n / 10) + d
  }

  /** `str(n)` for an integer. */
  function IntToString(n: int): string {
    if n < 0 then "-" + NatToString(-n) else NatToString(n)
  }
}

/** `extract_coordinates` of process_new_data.py: X and Y from a `Coordinates` cell. */
module CoordinateExtraction {
  import opened Wrappers
  import opened PyStr
  import opened PyFloat
  import opened Frames

  /** The characters of the regex class `[0-9.-]`. */
  predicate IsTokenChar(c: char) {
    IsDigit(c) || c == '.' || c == '-'
  }


  /** The two character classes the POINT pattern repeats: `\s` and `[0-9.-]`. */
  datatype CharClass = Whitespace | NumberChar

  predicate InClass(c: char, cls: CharClass) {
    match cls
    case Whitespace => IsSpace(c)
    case NumberChar => IsTokenChar(c)
  }

  /** Every character of `t` is of class `cls`. */
  predicate AllInClass(t: string, cls: CharClass) {
    t == [] || (InClass(t[0], cls) && AllInClass(t[1..], cls))
  }

  /** A non-empty string over `[0-9.-]`, what `([0-9.-]+)` captures. */
  predicate IsToken(t: string) {
    |t| > 0 && AllInClass(t, NumberChar)
  }

  /** Length of the longest prefix of `t` made of characters of class `cls`. */
  function Run(t: string, cls: CharClass): (n: nat)
    ensures n <= |t| && AllInClass(t[..n], cls)
    ensures n < |t| ==> !InClass(t[n], cls)
  {
    if t != [] && InClass(t[0], cls) then
      var n := 1 + Run(t[1..], cls);
      assert t[..n] == [t[0]] + t[1..][..n - 1];
      n
    else 0
  }

  /** A run of class `cls` followed by a character outside it (or by nothing) is what `Run` measures. */
  lemma {:induction false} RunOver(x: string, y: string, cls: CharClass)
    requires AllInClass(x, cls)
    requires y != [] ==> !InClass(y[0], cls)
    ensures Run(x + y, cls) == |x|
  {
    if x != [] {
      assert (x + y)[1..] == x[1..] + y;
      RunOver(x[1..], y, cls);
    }
  }

  /** The two groups of a match of the POINT pattern. */
  datatype PointMatch = PointMatch(first: string, second: string)

  /**
   * The match of `POINT\s*\(([0-9.-]+)\s+([0-9.-]+)\)` at the start of `t`, if any.
   * Every repetition takes its longest run: a shorter run would leave a character
   * that the next part of the pattern rejects, so backtracking finds no other
   * match (`PointTextMatches` shows that any reading of the pattern gives these groups).
   */
  function MatchPoint(t: string): Option<PointMatch> {
    if |t| >= 5 && t[..5] == "POINT" then
      var u := t[5..];
      MatchParen(u[Run(u, Whitespace)..])
    else None
  }

  /** The rest of the match once `POINT\s*` is read. */
  function MatchParen(u: string): Option<PointMatch> {
    if u != [] && u[0] == '(' then MatchGroups(u[1..]) else None
  }

  /** The rest of the match once `POINT\s*\(` is read. */
  function MatchGroups(v: string): Option<PointMatch> {
    var n1 := Run(v, NumberChar);
    var r1 := v[n1..];
    var n2 := Run(r1, Whitespace);
    var r2 := r1[n2..];
    var n3 := Run(r2, NumberChar);
    var r3 := r2[n3..];
    if n1 > 0 && n2 > 0 && n3 > 0 && r3 != [] && r3[0] == ')' then
      Some(PointMatch(v[..n1], r2[..n3]))
    else None
  }

  /** The text `POINT<w1>(<a><w2><b>)`. */
  function PointText(w1: string, a: string, w2: string, b: string): string {
    "POINT" + w1 + "(" + a + w2 + b + ")"
  }

  /** `PointText(w1, a, w2, b)` is text the POINT pattern matches, with groups `a` and `b`. */
  predicate IsPointText(w1: string, a: string, w2: string, b: string) {
    AllInClass(w1, Whitespace) && |w2| > 0 && AllInClass(w2, Whitespace) && IsToken(a) && IsToken(b)
  }

  /** Cutting a concatenation where its parts meet. */
  lemma Cut(x: string, y: string)
    ensures (x + y)[..|x|] == x && (x + y)[|x|..] == y
  {
  }

  /** A string is the concatenation of its two sides of any cut. */
  lemma Uncut(x: string, n: nat)
    requires n <= |x|
    ensures x == x[..n] + x[n..]
  {
  }

  /** `MatchGroups` accepts three non-empty runs closed by `)`. */
  lemma GroupsFold(v: string, n1: nat, n2: nat, n3: nat)
    requires n1 <= |v| && n1 == Run(v, NumberChar) && n2 == Run(v[n1..], Whitespace)
    requires n3 == Run(v[n1..][n2..], NumberChar)
    requires 0 < n1 && 0 < n2 && 0 < n3 && n3 < |v[n1..][n2..]| && v[n1..][n2..][n3] == ')'
    ensures MatchGroups(v) == Some(PointMatch(v[..n1], v[n1..][n2..][..n3]))
  {
  }

  /** After `POINT\s*\(`, the groups are read off maximal runs. */
  lemma GroupsRead(a: string, w2: string, b: string, rest: string)
    requires IsToken(a) && |w2| > 0 && AllInClass(w2, Whitespace) && IsToken(b)
    ensures MatchGroups(a + (w2 + (b + (")" + rest)))) == Some(PointMatch(a, b))
  {
    var r2 := b + (")" + rest);
    var r1 := w2 + r2;
    var v := a + r1;
    RunOver(a, r1, NumberChar);
    Cut(a, r1);
    RunOver(w2, r2, Whitespace);
    Cut(w2, r2);
    RunOver(b, ")" + rest, NumberChar);
    Cut(b, ")" + rest);
    GroupsFold(v, |a|, |w2|, |b|);
  }

  /** `MatchPoint` accepts `POINT`, a whitespace run and `(`, then reads the groups. */
  lemma PrefixFold(t: string, n0: nat)
    requires |t| >= 5 && t[..5] == "POINT" && n0 == Run(t[5..], Whitespace)
    requires n0 < |t[5..]| && t[5..][n0] == '('
    ensures MatchPoint(t) == MatchGroups(t[5..][n0..][1..])
  {
  }

  /** `POINT\s*\(` is read whatever whitespace stands before the parenthesis. */
  lemma PrefixRead(w1: string, v: string)
    requires AllInClass(w1, Whitespace)
    ensures MatchPoint("POINT" + (w1 + ("(" + v))) == MatchGroups(v)
  {
    var u := w1 + ("(" + v);
    Cut("POINT", u);
    RunOver(w1, "(" + v, Whitespace);
    Cut(w1, "(" + v);
    Cut("(", v);
    PrefixFold("POINT" + u, |w1|);
  }

  /** The POINT text, regrouped to the right. */
  lemma PointTextNested(w1: string, a: string, w2: string, b: string, rest: string)
    ensures PointText(w1, a, w2, b) + rest == "POINT" + (w1 + ("(" + (a + (w2 + (b + (")" + rest))))))
  {
  }

  /** Wherever the POINT pattern occurs, the match reads exactly its two number tokens, whatever the whitespace. */
  lemma PointTextMatches(w1: string, a: string, w2: string, b: string, rest: string)
    requires IsPointText(w1, a, w2, b)
    ensures MatchPoint(PointText(w1, a, w2, b) + rest) == Some(PointMatch(a, b))
  {
    PointTextNested(w1, a, w2, b, rest);
    PrefixRead(w1, a + (w2 + (b + (")" + rest))));
    GroupsRead(a, w2, b, rest);
  }

  /** One unfolding of `MatchGroups` on a match: the three runs it reads. */
  lemma GroupsUnfold(v: string) returns (n1: nat, n2: nat, n3: nat)
    requires MatchGroups(v).Some?
    ensures n1 == Run(v, NumberChar) && n2 == Run(v[n1..], Whitespace) && n3 == Run(v[n1..][n2..], NumberChar)
    ensures 0 < n1 && 0 < n2 && 0 < n3 && n3 < |v[n1..][n2..]| && v[n1..][n2..][n3] == ')'
    ensures MatchGroups(v).value == PointMatch(v[..n1], v[n1..][n2..][..n3])
  {
    n1 := Run(v, NumberChar);
    n2 := Run(v[n1..], Whitespace);
    n3 := Run(v[n1..][n2..], NumberChar);
  }

  /** Four cuts of `v`, after `n1`, `n2`, `n3` and one more character. */
  lemma GroupsCuts(v: string, n1: nat, n2: nat, n3: nat)
    requires n1 <= |v| && n2 <= |v[n1..]| && n3 < |v[n1..][n2..]|
    ensures var r2 := v[n1..][n2..];
      v == v[..n1] + (v[n1..][..n2] + (r2[..n3] + ([r2[n3]] + r2[n3..][1..])))
  {
    var r2 := v[n1..][n2..];
    Uncut(r2[n3..], 1);
    Uncut(r2, n3);
    Uncut(v[n1..], n2);
    Uncut(v, n1);
  }

  /** A match of the groups stands on two tokens separated by whitespace and closed by `)`. */
  lemma GroupsShape(v: string) returns (w2: string, rest: string)
    requires MatchGroups(v).Some?
    ensures var m := MatchGroups(v).value;
      IsToken(m.first) && |w2| > 0 && AllInClass(w2, Whitespace) && IsToken(m.second)
      && v == m.first + (w2 + (m.second + (")" + rest)))
  {
    var n1, n2, n3 := GroupsUnfold(v);
    GroupsCuts(v, n1, n2, n3);
    w2 := v[n1..][..n2];
    rest := v[n1..][n2..][n3..][1..];
  }

  /** One unfolding of `MatchPoint` on a match. */
  lemma PrefixUnfold(t: string)
    requires MatchPoint(t).Some?
    ensures |t| >= 5 && t[..5] == "POINT"
    ensures Run(t[5..], Whitespace) < |t[5..]| && t[5..][Run(t[5..], Whitespace)] == '('
    ensures MatchGroups(t[5..][Run(t[5..], Whitespace)..][1..]) == MatchPoint(t)
  {
  }

  /** Three cuts of `t`: after five letters, after `n` more and after one more. */
  lemma PrefixCuts(t: string, n: nat)
    requires 5 + n < |t|
    ensures t == t[..5] + (t[5..][..n] + ([t[5..][n]] + t[5..][n..][1..]))
  {
    Uncut(t[5..][n..], 1);
    Uncut(t[5..], n);
    Uncut(t, 5);
  }

  /** A match starts with `POINT\s*\(`, followed by text whose groups are the match. */
  lemma PrefixShape(t: string) returns (w1: string, v: string)
    requires MatchPoint(t).Some?
    ensures AllInClass(w1, Whitespace) && t == "POINT" + (w1 + ("(" + v)) && MatchGroups(v) == MatchPoint(t)
  {
    PrefixUnfold(t);
    var n0 := Run(t[5..], Whitespace);
    w1 := t[5..][..n0];
    v := t[5..][n0..][1..];
    PrefixCuts(t, n0);
  }

  /** A match is an occurrence of the POINT pattern: the converse of `PointTextMatches`. */
  lemma MatchIsPointText(t: string) returns (w1: string, w2: string, rest: string)
    requires MatchPoint(t).Some?
    ensures var m := MatchPoint(t).value;
      IsPointText(w1, m.first, w2, m.second) && t == PointText(w1, m.first, w2, m.second) + rest
  {
    var v;
    w1, v := PrefixShape(t);
    w2, rest := GroupsShape(v);
    PointTextNested(w1, MatchPoint(t).value.first, w2, MatchPoint(t).value.second, rest);
  }

  /** A match starts with the word POINT. */
  lemma MatchStartsWithPoint(t: string)
    requires MatchPoint(t).Some?
    ensures |t| >= 5 && t[..5] == "POINT"
  {
  }

  /** The first letters of a suffix are a slice. */
  lemma SuffixPrefix(s: string, p: nat, n: nat)
    requires p + n <= |s|
    ensures s[p..][..n] == s[p..p + n]
  {
  }

  /** A match can only start where the word POINT occurs. */
  lemma MatchNeedsPoint(s: string, p: nat)
    requires p <= |s| && MatchPoint(s[p..]).Some?
    ensures OccursAt(s, "POINT", p)
  {
    MatchStartsWithPoint(s[p..]);
    SuffixPrefix(s, p, 5);
  }

  /** Whether a match starts at each position of `s`, from 0 to `|s|`. */
  function Hits(s: string): (h: seq<bool>)
    ensures |h| == |s| + 1
  {
    seq(|s| + 1, q requires 0 <= q <= |s| => MatchPoint(s[q..]).Some?)
  }

  /** The first index at or after `from` whose entry is true, or `|h|` when there is none. */
  function Leftmost(h: seq<bool>, from: nat): (q: nat)
    requires from <= |h|
    ensures from <= q <= |h| && (q < |h| ==> h[q])
    ensures forall i :: from <= i < q ==> !h[i]
    decreases |h| - from
  {
    if from == |h| || h[from] then from else Leftmost(h, from + 1)
  }

  /** `re.search(pattern, s)`: the leftmost match, if any. */
  function SearchPoint(s: string): Option<PointMatch> {
    var q := Leftmost(Hits(s), 0);
    if q <= |s| then MatchPoint(s[q..]) else None
  }

  /** The search starts at the first position the hits mark. */
  lemma LeftmostHit(s: string, p: nat)
    requires p <= |s| && Hits(s)[p]
    requires forall q :: 0 <= q < p ==> !Hits(s)[q]
    ensures Leftmost(Hits(s), 0) == p
  {
  }

  /** The search starts at the leftmost position where a match starts. */
  lemma SearchPosition(s: string, p: nat)
    requires p <= |s| && MatchPoint(s[p..]).Some?
    requires forall q :: 0 <= q < p ==> MatchPoint(s[q..]).None?
    ensures Leftmost(Hits(s), 0) == p
  {
    NoHitsBefore(s, p);
    HitAt(s, p);
    LeftmostHit(s, p);
  }

  /** The hits mark the positions where a match starts. */
  lemma HitAt(s: string, p: nat)
    requires p <= |s| && MatchPoint(s[p..]).Some?
    ensures Hits(s)[p]
  {
  }

  /** No hit is marked where no match starts. */
  lemma NoHitsBefore(s: string, p: nat)
    requires p <= |s| && forall q :: 0 <= q < p ==> MatchPoint(s[q..]).None?
    ensures forall q :: 0 <= q < p ==> !Hits(s)[q]
  {
  }

  /** The search returns the match at the leftmost position where one starts. */
  lemma SearchIsLeftmost(s: string, p: nat)
    requires p <= |s| && MatchPoint(s[p..]).Some?
    requires forall q :: 0 <= q < p ==> MatchPoint(s[q..]).None?
    ensures SearchPoint(s) == MatchPoint(s[p..])
  {
    SearchPosition(s, p);
  }

  /** The search fails exactly when the pattern matches nowhere. */
  lemma SearchFailsIffNoMatch(s: string)
    ensures SearchPoint(s).None? <==> forall q :: 0 <= q <= |s| ==> MatchPoint(s[q..]).None?
  {
    var h := Hits(s);
    var q := Leftmost(h, 0);
    if q <= |s| {
      assert h[q];
    } else {
      forall i | 0 <= i <= |s|
        ensures MatchPoint(s[i..]).None?
      {
        assert !h[i];
      }
    }
  }

  /** A successful search reads an occurrence of the POINT pattern in `s`. */
  lemma SearchFindsPointText(s: string) returns (p: nat, w1: string, w2: string, rest: string)
    requires SearchPoint(s).Some?
    ensures var m := SearchPoint(s).value;
      p <= |s| && IsPointText(w1, m.first, w2, m.second) && s[p..] == PointText(w1, m.first, w2, m.second) + rest
  {
    p := Leftmost(Hits(s), 0);
    w1, w2, rest := MatchIsPointText(s[p..]);
  }

  /** Text with no POINT word holds no match. */
  lemma NoPointNoMatch(s: string)
    requires !Contains(s, "POINT")
    ensures SearchPoint(s).None?
  {
    forall q | 0 <= q <= |s|
      ensures MatchPoint(s[q..]).None?
    {
      if MatchPoint(s[q..]).Some? {
        MatchNeedsPoint(s, q);
      }
    }
    SearchFailsIffNoMatch(s);
  }

  /** "POINT" overlaps no shifted copy of itself, so no occurrence ends inside the word. */
  lemma PointHasNoBorder(s: string, q: nat, p: nat)
    requires q < p < q + 5 && p + 5 <= |s| && s[p..p + 5] == "POINT"
    ensures !OccursAt(s, "POINT", q)
  {
    assert s[p] == 'P';
  }

  /** A slice inside the first part of a concatenation is a slice of that part. */
  lemma SliceOfPrefix(x: string, y: string, i: nat, j: nat)
    requires i <= j <= |x|
    ensures (x + y)[i..j] == x[i..j]
  {
  }

  /** The word POINT does not occur before `lit` when `pre` lacks it and `lit` starts with it. */
  lemma NoPointBefore(pre: string, lit: string, q: nat)
    requires !Contains(pre, "POINT") && |lit| >= 5 && lit[..5] == "POINT" && q < |pre|
    ensures !OccursAt(pre + lit, "POINT", q)
  {
    var s := pre + lit;
    if q + 5 <= |pre| {
      SliceOfPrefix(pre, lit, q, q + 5);
      assert !OccursAt(pre, "POINT", q);
    } else {
      Cut(pre, lit);
      SuffixPrefix(s, |pre|, 5);
      PointHasNoBorder(s, q, |pre|);
    }
  }

  /** No match starts inside text without the word POINT. */
  lemma NoMatchBefore(pre: string, lit: string)
    requires !Contains(pre, "POINT") && |lit| >= 5 && lit[..5] == "POINT"
    ensures forall q :: 0 <= q < |pre| ==> MatchPoint((pre + lit)[q..]).None?
  {
    forall q | 0 <= q < |pre|
      ensures MatchPoint((pre + lit)[q..]).None?
    {
      NoPointBefore(pre, lit, q);
      if MatchPoint((pre + lit)[q..]).Some? {
        MatchNeedsPoint(pre + lit, q);
      }
    }
  }

  /**
   * The POINT form is tried first: when an occurrence of the pattern comes
   * after text without the word POINT, the search reads its two tokens.
   */
  lemma PointFormFound(pre: string, w1: string, a: string, w2: string, b: string, post: string)
    requires IsPointText(w1, a, w2, b) && !Contains(pre, "POINT")
    ensures SearchPoint(pre + (PointText(w1, a, w2, b) + post)) == Some(PointMatch(a, b))
  {
    var lit := PointText(w1, a, w2, b) + post;
    Cut(pre, lit);
    PointTextMatches(w1, a, w2, b, post);
    MatchStartsWithPoint(lit);
    NoMatchBefore(pre, lit);
    SearchIsLeftmost(pre + lit, |pre|);
  }

  /** The X (longitude) and Y (latitude) a `Coordinates` cell yields; a number is kept as its text. */
  datatype Coords = Coords(x: Option<string>, y: Option<string>)

  /** `(None, None)`. */
  const NoCoords := Coords(None, None)

  /**
   * `extract_coordinates(coord_string)`: a missing cell gives no coordinates; a
   * match of the POINT pattern gives its two groups as X and Y, and `float()`
   * raises on a group it cannot parse (the call is outside the `try`); otherwise
   * text that splits at its only comma into two numbers gives X = second, Y = first.
   */
  function ExtractCoordinates(coord: Cell): (r: Result<Coords, Failure>)
    ensures coord.None? ==> r == Ok(NoCoords)
    ensures r.Err? ==>
      coord.Some? && SearchPoint(coord.value).Some? && r.error.ValueError? && !IsFloatLiteral(r.error.literal)
    ensures r.Ok? ==> (r.value.x.Some? <==> r.value.y.Some?)
    ensures r.Ok? && r.value.x.Some? ==> IsFloatLiteral(r.value.x.value) && IsFloatLiteral(r.value.y.value)
  {
    match coord
    case None => Ok(NoCoords)
    case Some(s) =>
      match SearchPoint(s)
      case Some(m) =>
        if !IsFloatLiteral(m.first) then Err(ValueError(m.first))
        else if !IsFloatLiteral(m.second) then Err(ValueError(m.second))
        else Ok(Coords(Some(m.first), Some(m.second)))
      case None => Ok(CommaForm(s))
  }

  /** The `"lat, lon"` branch: exactly two comma-separated fields that both parse, swapped. */
  function CommaForm(s: string): Coords {
    var parts := Split(s, ',');
    if |parts| == 2 && IsFloatLiteral(Strip(parts[0])) && IsFloatLiteral(Strip(parts[1])) then
      Coords(Some(Strip(parts[1])), Some(Strip(parts[0])))
    else NoCoords
  }

  /** Text without the separator does not split. */
  lemma {:induction false} SplitWithout(x: string, sep: char)
    requires sep !in x
    ensures Split(x, sep) == [x]
  {
    if x != [] {
      SplitWithout(x[1..], sep);
      assert [x[0]] + x[1..] == x;
    }
  }

  /** Text with one separator splits into the two sides of it. */
  lemma {:induction false} SplitAtOnly(x: string, y: string, sep: char)
    requires sep !in x && sep !in y
    ensures Split(x + [sep] + y, sep) == [x, y]
  {
    var s := x + [sep] + y;
    if x == [] {
      assert s[1..] == y;
      SplitWithout(y, sep);
    } else {
      assert s[1..] == x[1..] + [sep] + y;
      SplitAtOnly(x[1..], y, sep);
      assert [x[0]] + x[1..] == x;
    }
  }

  /** With a POINT match, the comma form is not tried. */
  lemma ExtractWithMatch(s: string)
    requires SearchPoint(s).Some?
    ensures var m := SearchPoint(s).value;
      ExtractCoordinates(Some(s)) ==
        if !IsFloatLiteral(m.first) then Err(ValueError(m.first))
        else if !IsFloatLiteral(m.second) then Err(ValueError(m.second))
        else Ok(Coords(Some(m.first), Some(m.second)))
  {
  }

  /** Without a POINT match, the comma form decides. */
  lemma ExtractWithoutMatch(s: string)
    requires SearchPoint(s).None?
    ensures ExtractCoordinates(Some(s)) == Ok(CommaForm(s))
  {
  }

  /** The POINT form wins over the comma form, and its groups come back unswapped. */
  lemma PointFormFirst(pre: string, w1: string, a: string, w2: string, b: string, post: string)
    requires IsPointText(w1, a, w2, b) && !Contains(pre, "POINT")
    requires IsFloatLiteral(a) && IsFloatLiteral(b)
    ensures ExtractCoordinates(Some(pre + (PointText(w1, a, w2, b) + post))) == Ok(Coords(Some(a), Some(b)))
  {
    PointFormFound(pre, w1, a, w2, b, post);
    ExtractWithMatch(pre + (PointText(w1, a, w2, b) + post));
  }

  /** A POINT group that `float()` rejects raises `ValueError`, the first group before the second. */
  lemma PointFormRaises(pre: string, w1: string, a: string, w2: string, b: string, post: string)
    requires IsPointText(w1, a, w2, b) && !Contains(pre, "POINT")
    requires !IsFloatLiteral(a) || !IsFloatLiteral(b)
    ensures ExtractCoordinates(Some(pre + (PointText(w1, a, w2, b) + post)))
      == Err(ValueError(if !IsFloatLiteral(a) then a else b))
  {
    PointFormFound(pre, w1, a, w2, b, post);
    ExtractWithMatch(pre + (PointText(w1, a, w2, b) + post));
  }

  /** The comma form of `lat,lon` with one comma and two parsable fields. */
  lemma CommaFormOf(lat: string, lon: string)
    requires ',' !in lat && ',' !in lon
    requires IsFloatLiteral(Strip(lat)) && IsFloatLiteral(Strip(lon))
    ensures CommaForm(lat + [','] + lon) == Coords(Some(Strip(lon)), Some(Strip(lat)))
  {
    SplitAtOnly(lat, lon, ',');
  }

  /** `"lat, lon"` gives X = lon and Y = lat, each stripped. */
  lemma CommaFormSwaps(lat: string, lon: string)
    requires ',' !in lat && ',' !in lon
    requires IsFloatLiteral(Strip(lat)) && IsFloatLiteral(Strip(lon))
    ensures ExtractCoordinates(Some(lat + [','] + lon)) == Ok(Coords(Some(Strip(lon)), Some(Strip(lat))))
  {
    FieldLacksP(lat);
    FieldLacksP(lon);
    NoPointWithoutP(lat + [','] + lon);
    NoPointNoMatch(lat + [','] + lon);
    ExtractWithoutMatch(lat + [','] + lon);
    CommaFormOf(lat, lon);
  }

  /** Without a POINT match, text that is not exactly two parsable comma-separated fields gives no coordinates. */
  lemma CommaFormRejects(s: string)
    requires SearchPoint(s).None?
    requires Count(s, ',') != 1 || !IsFloatLiteral(Strip(Split(s, ',')[0])) || !IsFloatLiteral(Strip(Split(s, ',')[|Split(s, ',')| - 1]))
    ensures ExtractCoordinates(Some(s)) == Ok(NoCoords)
  {
    SplitCount(s, ',');
    ExtractWithoutMatch(s);
  }

  /** Two parts joined by a separator. */
  lemma JoinTwo(x: string, y: string, sep: string)
    ensures Join([x, y], sep) == x + sep + y
  {
    assert [x, y][1..] == [y];
  }

  /** Conversely, comma-form coordinates come from the two sides of the only comma, swapped. */
  lemma CommaFormShape(s: string) returns (lat: string, lon: string)
    requires CommaForm(s) != NoCoords
    ensures ',' !in lat && ',' !in lon && s == lat + [','] + lon
    ensures CommaForm(s) == Coords(Some(Strip(lon)), Some(Strip(lat)))
  {
    var parts := Split(s, ',');
    lat, lon := parts[0], parts[1];
    assert parts == [lat, lon];
    SplitPiecesLackSeparator(s, ',');
    SplitJoin(s, ',');
    JoinTwo(lat, lon, [',']);
  }

  /** The number texts of the examples are left alone by `strip()`, the sign test and `lower()`. */
  lemma ExampleTextsArePlain()
    ensures IsPlain("35.2") && IsPlain("10.5") && IsPlain("1.2.3")
  {
  }

  /** `35.2` is a decimal literal. */
  lemma ExampleDecimalA()
    ensures IsDecimal("35.2")
  {
  }

  /** `10.5` is a decimal literal. */
  lemma ExampleDecimalB()
    ensures IsDecimal("10.5")
  {
  }

  /** `1.2.3` is not: it has two decimal points. */
  lemma ExampleNotDecimal()
    ensures !IsDecimal("1.2.3")
  {
  }

  /** `35.2` parses. */
  lemma ExampleLiteralA()
    ensures IsFloatLiteral("35.2")
  {
    ExampleTextsArePlain();
    ExampleDecimalA();
    UnsignedPlain("35.2");
  }

  /** `-10.5` parses. */
  lemma ExampleLiteralB()
    ensures IsFloatLiteral("-10.5")
  {
    ExampleTextsArePlain();
    ExampleDecimalB();
    assert "-10.5" == "-" + "10.5";
    UnsignedNegated("10.5");
  }

  /** `1.2.3` does not parse. */
  lemma ExampleNotLiteral()
    ensures !IsFloatLiteral("1.2.3")
  {
    ExampleTextsArePlain();
    ExampleNotDecimal();
    UnsignedPlain("1.2.3");
  }

  /** Text without a capital P does not hold the word POINT. */
  lemma NoPointWithoutP(s: string)
    requires 'P' !in s
    ensures !Contains(s, "POINT")
  {
    forall i: nat | i <= |s|
      ensures !OccursAt(s, "POINT", i)
    {
      if i + 5 <= |s| {
        assert s[i..i + 5][0] == s[i];
      }
    }
  }

  /** A POINT literal with well-formed numbers. */
  lemma ExamplePoint()
    ensures ExtractCoordinates(Some("POINT (-10.5 35.2)")) == Ok(Coords(Some("-10.5"), Some("35.2")))
  {
    assert "POINT (-10.5 35.2)" == [] + (PointText(" ", "-10.5", " ", "35.2") + []);
    assert IsPointText(" ", "-10.5", " ", "35.2");
    ExampleLiteralA();
    ExampleLiteralB();
    PointFormFirst([], " ", "-10.5", " ", "35.2", []);
  }

  /** A POINT group with two decimal points is matched by the pattern but rejected by `float()`. */
  lemma ExampleBadPoint()
    ensures ExtractCoordinates(Some("POINT (1.2.3 4)")) == Err(ValueError("1.2.3"))
  {
    assert "POINT (1.2.3 4)" == [] + (PointText(" ", "1.2.3", " ", "4") + []);
    assert IsPointText(" ", "1.2.3", " ", "4");
    ExampleNotLiteral();
    PointFormRaises([], " ", "1.2.3", " ", "4", []);
  }

  /** The fields of the `"lat, lon"` example. */
  lemma ExampleFields()
    ensures "35.2, -10.5" == "35.2" + [','] + " -10.5"
    ensures ',' !in "35.2" && ',' !in " -10.5" && 'P' !in "35.2, -10.5"
  {
  }

  /** `strip()` of the example fields. */
  lemma ExampleStrips()
    ensures Strip("35.2") == "35.2" && Strip(" -10.5") == "-10.5"
  {
    StripLeading(" ", "-10.5");
    assert " " + "-10.5" == " -10.5";
    StripLeading([], "35.2");
    assert [] + "35.2" == "35.2";
  }

  /** The new `"lat, lon"` format, swapped. */
  lemma ExampleLatLon()
    ensures ExtractCoordinates(Some("35.2, -10.5")) == Ok(Coords(Some("-10.5"), Some("35.2")))
  {
    ExampleFields();
    ExampleStrips();
    ExampleLiteralA();
    ExampleLiteralB();
    NoPointWithoutP("35.2, -10.5");
    CommaFormSwaps("35.2", " -10.5");
  }
}

/**
 * The Python string built-ins the crawler relies on, over `seq<char>`:
 * `str.isspace`, `str.strip`, `str.split(sep)`, `sep.join(parts)`,
 * `str(n)` for a non-negative integer and `str.replace(old, new)` for
 * single characters.
 */
module Text {
  import opened Wrappers

  /** Python's `str.isspace` for one character. */
  predicate IsSpace(c: char) {
    ('\t' <= c <= '\r') || ('\U{1C}' <= c <= '\U{1F}') || c == ' ' || c == '\U{85}' || c == '\U{A0}'
    || c == '\U{1680}' || ('\U{2000}' <= c <= '\U{200A}') || c == '\U{2028}' || c == '\U{2029}'
    || c == '\U{202F}' || c == '\U{205F}' || c == '\U{3000}'
  }

  predicate AllSpace(s: string) {
    forall k :: 0 <= k < |s| ==> IsSpace(s[k])
  }

  /** Neither starts nor ends with whitespace. */
  predicate IsStripped(s: string) {
    s == [] || (!IsSpace(s[0]) && !IsSpace(s[|s| - 1]))
  }

  /** `r` is what remains of `s` once its leading and trailing whitespace is cut away. */
  ghost predicate StripOf(s: string, r: string) {
    exists i, j :: 0 <= i <= j <= |s| && r == s[i..j] && AllSpace(s[..i]) && AllSpace(s[j..]) && IsStripped(r)
  }

  function LeadingSpaces(s: string): (n: nat)
    ensures n <= |s|
    ensures AllSpace(s[..n])
    ensures n < |s| ==> !IsSpace(s[n])
  {
    if s == [] || !IsSpace(s[0]) then 0
    else
      var n := 1 + LeadingSpaces(s[1..]);
      assert forall k :: 1 <= k < n ==> s[k] == s[1..][k - 1];
      n
  }

  function TrailingSpaces(s: string): (n: nat)
    ensures n <= |s|
    ensures AllSpace(s[|s| - n..])
    ensures n < |s| ==> !IsSpace(s[|s| - 1 - n])
  {
    if s == [] || !IsSpace(s[|s| - 1]) then 0
    else
      var n := 1 + TrailingSpaces(s[..|s| - 1]);
      assert forall k :: |s| - n <= k < |s| - 1 ==> s[k] == s[..|s| - 1][k];
      n
  }

  /** Python's `s.strip()`. */
  function Strip(s: string): (r: string)
    ensures StripOf(s, r)
    ensures |r| <= |s|
  {
    var i := LeadingSpaces(s);
    var t := s[i..];
    var n := TrailingSpaces(t);
    var r := t[..|t| - n];
    assert r == s[i..|s| - n];
    assert s[|s| - n..] == t[|t| - n..];
    assert IsStripped(r);
    r
  }

  /** Where a non-empty stripped slice must start and end. */
  lemma StripBounds(s: string, i: nat, j: nat)
    requires i < j <= |s| && AllSpace(s[..i]) && AllSpace(s[j..]) && IsStripped(s[i..j])
    ensures i == LeadingSpaces(s) && j == |s| - TrailingSpaces(s)
  {
    forall k | 0 <= k < i ensures IsSpace(s[k]) { assert s[k] == s[..i][k]; }
    forall k | j <= k < |s| ensures IsSpace(s[k]) { assert s[k] == s[j..][k - j]; }
    assert s[i] == s[i..j][0] && s[j - 1] == s[i..j][j - 1 - i];
    var n := LeadingSpaces(s);
    forall k | 0 <= k < n ensures IsSpace(s[k]) { assert s[k] == s[..n][k]; }
    var m := TrailingSpaces(s);
    forall k | |s| - m <= k < |s| ensures IsSpace(s[k]) { assert s[k] == s[|s| - m..][k - (|s| - m)]; }
  }

  /** A slice that strips to nothing leaves only whitespace around it. */
  lemma StripEmpty(s: string, i: nat)
    requires i <= |s| && AllSpace(s[..i]) && AllSpace(s[i..])
    ensures AllSpace(s)
  {
    forall k | 0 <= k < |s| ensures IsSpace(s[k]) {
      if k < i { assert s[k] == s[..i][k]; } else { assert s[k] == s[i..][k - i]; }
    }
  }

  /** Stripping has exactly one possible outcome: `StripOf` determines it. */
  lemma StripOfUnique(s: string, r1: string, r2: string)
    requires StripOf(s, r1) && StripOf(s, r2)
    ensures r1 == r2
  {
    var i1, j1 :| 0 <= i1 <= j1 <= |s| && r1 == s[i1..j1] && AllSpace(s[..i1]) && AllSpace(s[j1..]) && IsStripped(r1);
    var i2, j2 :| 0 <= i2 <= j2 <= |s| && r2 == s[i2..j2] && AllSpace(s[..i2]) && AllSpace(s[j2..]) && IsStripped(r2);
    if i1 < j1 && i2 < j2 {
      StripBounds(s, i1, j1);
      StripBounds(s, i2, j2);
      assert i1 == i2 && j1 == j2;
    } else if i1 < j1 {
      StripEmpty(s, i2);
      assert false;
    } else if i2 < j2 {
      StripEmpty(s, i1);
      assert false;
    }
  }

  /** Stripping twice is stripping once. */
  lemma StripIdempotent(s: string)
    ensures Strip(Strip(s)) == Strip(s)
  {
    var r := Strip(s);
    assert r[..0] == [] && r[|r|..] == [];
    var i1, j1 :| 0 <= i1 <= j1 <= |s| && r == s[i1..j1] && AllSpace(s[..i1]) && AllSpace(s[j1..]) && IsStripped(r);
    assert r[0..|r|] == r;
    assert StripOf(r, r);
    StripOfUnique(r, Strip(r), r);
  }

  /** Python's `s.split(c)` for a one-character separator: never empty, `c` never inside a piece. */
  function SplitOn(s: string, c: char): (r: seq<string>)
    ensures |r| >= 1
    ensures forall k :: 0 <= k < |r| ==> c !in r[k]
  {
    if s == [] then [[]]
    else if s[0] == c then [[]] + SplitOn(s[1..], c)
    else
      var rest := SplitOn(s[1..], c);
      [[s[0]] + rest[0]] + rest[1..]
  }

  /** Python's `[c].join(parts)`. */
  function Join(parts: seq<string>, c: char): string
  {
    if |parts| == 0 then []
    else if |parts| == 1 then parts[0]
    else parts[0] + [c] + Join(parts[1..], c)
  }

  /** Joining the pieces of a split gives the string back. */
  lemma {:induction false} JoinSplit(s: string, c: char)
    ensures Join(SplitOn(s, c), c) == s
  {
    if s == [] {
    } else if s[0] == c {
      JoinSplit(s[1..], c);
      var rest := SplitOn(s[1..], c);
      assert SplitOn(s, c) == [[]] + rest;
      assert ([[]] + rest)[1..] == rest;
    } else {
      JoinSplit(s[1..], c);
      var rest := SplitOn(s[1..], c);
      var r := [[s[0]] + rest[0]] + rest[1..];
      if |rest| == 1 {
        assert Join(r, c) == [s[0]] + rest[0];
      } else {
        assert r[1..] == rest[1..];
        assert Join(rest, c) == rest[0] + [c] + Join(rest[1..], c);
        assert Join(r, c) == [s[0]] + rest[0] + [c] + Join(rest[1..], c);
      }
      assert [s[0]] + s[1..] == s;
    }
  }

  /** A piece free of the separator, then the separator: splitting peels that piece off. */
  lemma {:induction false} SplitAfterPiece(p: string, c: char, rest: string)
    requires c !in p
    ensures SplitOn(p + [c] + rest, c) == [p] + SplitOn(rest, c)
  {
    var s := p + [c] + rest;
    if p == [] {
      assert s[0] == c && s[1..] == rest;
    } else {
      assert s[0] == p[0] && s[1..] == p[1..] + [c] + rest;
      SplitAfterPiece(p[1..], c, rest);
      assert [p[0]] + p[1..] == p;
    }
  }

  /** A string free of the separator splits into itself alone. */
  lemma {:induction false} SplitNoSeparator(p: string, c: char)
    requires c !in p
    ensures SplitOn(p, c) == [p]
  {
    if p != [] {
      SplitNoSeparator(p[1..], c);
      assert [p[0]] + p[1..] == p;
    }
  }

  /** Splitting a join of separator-free pieces gives the pieces back. */
  lemma {:induction false} SplitJoin(parts: seq<string>, c: char)
    requires |parts| >= 1
    requires forall k :: 0 <= k < |parts| ==> c !in parts[k]
    ensures SplitOn(Join(parts, c), c) == parts
  {
    if |parts| == 1 {
      SplitNoSeparator(parts[0], c);
    } else {
      SplitJoin(parts[1..], c);
      SplitAfterPiece(parts[0], c, Join(parts[1..], c));
      assert [parts[0]] + parts[1..] == parts;
    }
  }

  /** `s` ends with `r`. */
  predicate IsSuffix(r: string, s: string) {
    |r| <= |s| && s[|s| - |r|..] == r
  }

  /** `r` is the text of `s` after its last `c`, or all of `s` when it has none. */
  predicate IsLastPiece(r: string, s: string, c: char) {
    && IsSuffix(r, s)
    && (c !in s ==> r == s)
    && (c in s ==> |r| < |s| && s[|s| - |r| - 1] == c)
  }

  /** The last piece of a split: the text after the last separator, or all of `s`. */
  lemma {:induction false} LastPiece(s: string, c: char)
    ensures IsLastPiece(SplitOn(s, c)[|SplitOn(s, c)| - 1], s, c)
  {
    if s != [] {
      LastPiece(s[1..], c);
      if s[0] == c {
        LastPieceAfterSeparator(s, c);
      } else {
        LastPieceAfterChar(s, c);
      }
    }
  }

  lemma LastPieceAfterSeparator(s: string, c: char)
    requires s != [] && s[0] == c
    requires IsLastPiece(SplitOn(s[1..], c)[|SplitOn(s[1..], c)| - 1], s[1..], c)
    ensures IsLastPiece(SplitOn(s, c)[|SplitOn(s, c)| - 1], s, c)
  {
    var pieces, rest := SplitOn(s, c), SplitOn(s[1..], c);
    var r := pieces[|pieces| - 1];
    assert pieces == [[]] + rest;
    assert r == rest[|rest| - 1];
    assert s[|s| - |r|..] == s[1..][|s[1..]| - |r|..];
    if c in s[1..] {
      assert s[|s| - |r| - 1] == s[1..][|s[1..]| - |r| - 1];
    } else {
      assert r == s[1..];
    }
  }

  lemma LastPieceAfterChar(s: string, c: char)
    requires s != [] && s[0] != c
    requires IsLastPiece(SplitOn(s[1..], c)[|SplitOn(s[1..], c)| - 1], s[1..], c)
    ensures IsLastPiece(SplitOn(s, c)[|SplitOn(s, c)| - 1], s, c)
  {
    if |SplitOn(s[1..], c)| == 1 {
      LastPieceWhole(s, c);
    } else {
      LastPieceLater(s, c);
    }
  }

  lemma LastPieceWhole(s: string, c: char)
    requires s != [] && s[0] != c && |SplitOn(s[1..], c)| == 1
    ensures SplitOn(s, c) == [s] && c !in s
  {
    var rest := SplitOn(s[1..], c);
    JoinSplit(s[1..], c);
    assert rest[0] == s[1..];
    assert SplitOn(s, c) == [[s[0]] + rest[0]];
    assert [s[0]] + s[1..] == s;
  }

  lemma LastPieceLater(s: string, c: char)
    requires s != [] && s[0] != c && |SplitOn(s[1..], c)| > 1
    requires IsLastPiece(SplitOn(s[1..], c)[|SplitOn(s[1..], c)| - 1], s[1..], c)
    ensures IsLastPiece(SplitOn(s, c)[|SplitOn(s, c)| - 1], s, c)
  {
    var pieces, rest := SplitOn(s, c), SplitOn(s[1..], c);
    var r := rest[|rest| - 1];
    assert pieces == [[s[0]] + rest[0]] + rest[1..];
    assert pieces[|pieces| - 1] == r;
    assert c in s[1..] by {
      if c !in s[1..] { SplitNoSeparator(s[1..], c); }
    }
    assert s[|s| - |r|..] == s[1..][|s[1..]| - |r|..];
    assert s[|s| - |r| - 1] == s[1..][|s[1..]| - |r| - 1];
  }

  /** Python's `s.split(c)[-1]`. */
  function AfterLast(s: string, c: char): string {
    var pieces := SplitOn(s, c);
    pieces[|pieces| - 1]
  }

  /** The last piece is the tail of `s` after its last `c`, or all of `s` when there is no `c`. */
  lemma AfterLastShape(s: string, c: char)
    ensures IsLastPiece(AfterLast(s, c), s, c) && c !in AfterLast(s, c)
  {
    LastPiece(s, c);
  }

  predicate IsDigit(c: char) {
    '0' <= c <= '9'
  }

  predicate AllDigits(s: string) {
    forall k :: 0 <= k < |s| ==> IsDigit(s[k])
  }

  /** Canonical decimal text: digits, no leading zero except "0" itself. */
  predicate IsCanonicalDecimal(s: string) {
    |s| >= 1 && AllDigits(s) && (s[0] == '0' ==> s == "0")
  }

  function DigitChar(d: nat): (c: char)
    requires d < 10
    ensures IsDigit(c)
  {
    (('0' as int) + d) as char
  }

  function DigitValue(c: char): (d: nat)
    requires IsDigit(c)
    ensures d < 10
  {
    (c as int) - ('0' as int)
  }

  /** Python's `str(n)` for `n >= 0`. */
  function Decimal(n: nat): (r: string)
    ensures IsCanonicalDecimal(r)
  {
    if n < 10 then [DigitChar(n)]
    else
      var r := Decimal(n / 10) + [DigitChar(n % 10)];
      assert r[0] == Decimal(n / 10)[0];
      r
  }

  /** The number a string of digits denotes, most significant digit first. */
  function DigitsValue(s: string): nat
    requires AllDigits(s)
  {
    if s == [] then 0 else 10 * DigitsValue(s[..|s| - 1]) + DigitValue(s[|s| - 1])
  }

  /** Reads canonical decimal text; anything else is not a page offset. */
  function ParseDecimal(s: string): Option<nat>
  {
    if IsCanonicalDecimal(s) then Some(DigitsValue(s)) else None
  }

  lemma {:induction false} DecimalValue(n: nat)
    ensures DigitsValue(Decimal(n)) == n
  {
    if n >= 10 {
      DecimalValue(n / 10);
      var s := Decimal(n);
      assert s[..|s| - 1] == Decimal(n / 10);
    }
  }

  /** Printing a number and reading it back gives the number. */
  lemma DecimalRoundTrip(n: nat)
    ensures ParseDecimal(Decimal(n)) == Some(n)
  {
    DecimalValue(n);
  }

  lemma {:induction false} LeadingNonZero(s: string)
    requires |s| >= 1 && AllDigits(s) && s[0] != '0'
    ensures DigitsValue(s) >= 1
    ensures |s| >= 2 ==> DigitsValue(s) >= 10
  {
    if |s| >= 2 {
      LeadingNonZero(s[..|s| - 1]);
    } else {
      assert s[..0] == [];
    }
  }

  /** Reading canonical decimal text and printing the number gives the text back. */
  lemma {:induction false} ParseDecimalRoundTrip(s: string)
    requires ParseDecimal(s).Some?
    ensures Decimal(ParseDecimal(s).value) == s
  {
    var v := DigitsValue(s);
    if |s| == 1 {
      assert s[..0] == [] && s == [s[0]];
      assert DigitsValue(s) == DigitValue(s[0]);
      assert DigitChar(DigitValue(s[0])) == s[0];
    } else {
      var p := s[..|s| - 1];
      assert p[0] == s[0] != '0';
      LeadingNonZero(s);
      ParseDecimalRoundTrip(p);
      assert v / 10 == DigitsValue(p) && v % 10 == DigitValue(s[|s| - 1]);
      assert p + [s[|s| - 1]] == s;
    }
  }

  /** Python's `s.replace(a, b)` for single characters. */
  function ReplaceChar(s: string, a: char, b: char): (r: string)
    ensures |r| == |s|
    ensures forall k :: 0 <= k < |s| ==> r[k] == (if s[k] == a then b else s[k])
  {
    if s == [] then [] else [if s[0] == a then b else s[0]] + ReplaceChar(s[1..], a, b)
  }
}

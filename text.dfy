/**
 * Text helpers of the crosswalk: `sanitize` (drop non-printable characters,
 * then trim), single-character `split` and `replace`, and `str(int)`.
 *
 * Python's Unicode character classes are approximated: `IsWhitespace` is the
 * exact set of characters `str.isspace` accepts, `IsPrintable` is exact on
 * ASCII and Latin-1 and treats every character above U+00FF as printable
 * except the separators, and `IsDigit` is ASCII `0`..`9`.
 */
module Text {
  import opened Wrappers

  /** Python's `str.isspace`. */
  predicate IsWhitespace(c: char) {
    c == ' ' || ('\t' <= c <= '\r') || ('\U{1c}' <= c <= '\U{1f}')
    || c == '\U{85}' || c == '\U{a0}' || c == '\U{1680}'
    || ('\U{2000}' <= c <= '\U{200a}') || c == '\U{2028}' || c == '\U{2029}'
    || c == '\U{202f}' || c == '\U{205f}' || c == '\U{3000}'
  }

  /** Python's `str.isprintable` on one character (see the module comment). */
  predicate IsPrintable(c: char) {
    if c <= '\U{ff}' then
      (' ' <= c <= '~') || ('\U{a1}' <= c && c != '\U{ad}')
    else
      c == ' ' || !IsWhitespace(c)
  }

  /** Python's `str.isdigit`, restricted to ASCII. */
  predicate IsDigit(c: char) {
    '0' <= c <= '9'
  }

  /** The characters `sanitize` keeps: printable ones, newline and carriage return. */
  predicate Kept(c: char) {
    IsPrintable(c) || c == '\n' || c == '\r'
  }

  /** Neither the first nor the last character is whitespace. */
  predicate Trimmed(s: string) {
    s == [] || (!IsWhitespace(s[0]) && !IsWhitespace(s[|s| - 1]))
  }

  /** The characters of `s` that `sanitize` keeps, in order. */
  function Filter(s: string): string {
    if s == [] then []
    else (if Kept(s[0]) then [s[0]] else []) + Filter(s[1..])
  }

  /** `Filter` keeps only kept characters. */
  lemma {:induction false} FilterKept(s: string)
    ensures |Filter(s)| <= |s| && forall i :: 0 <= i < |Filter(s)| ==> Kept(Filter(s)[i])
  {
    if s != [] {
      FilterKept(s[1..]);
    }
  }

  /** `Filter` keeps every kept character of `s` and no other. */
  lemma {:induction false} FilterMember(s: string, c: char)
    ensures c in Filter(s) <==> c in s && Kept(c)
  {
    if s != [] {
      FilterMember(s[1..], c);
      assert s == [s[0]] + s[1..];
    }
  }

  /** `Filter` leaves a text made of kept characters alone. */
  lemma {:induction false} FilterAllKept(s: string)
    requires forall i :: 0 <= i < |s| ==> Kept(s[i])
    ensures Filter(s) == s
  {
    if s != [] {
      assert forall i :: 0 <= i < |s| - 1 ==> s[1..][i] == s[i + 1];
      FilterAllKept(s[1..]);
    }
  }

  /** `s` without its leading whitespace. */
  function TrimLeft(s: string): string {
    if s != [] && IsWhitespace(s[0]) then TrimLeft(s[1..]) else s
  }

  /** What `TrimLeft` removes is whitespace, and what it keeps is a suffix that does
      not start with whitespace. */
  lemma {:induction false} TrimLeftShape(s: string)
    ensures var r := TrimLeft(s);
      |r| <= |s| && r == s[|s| - |r|..]
      && (forall i :: 0 <= i < |s| - |r| ==> IsWhitespace(s[i]))
      && (r == [] || !IsWhitespace(r[0]))
  {
    if s != [] && IsWhitespace(s[0]) {
      TrimLeftShape(s[1..]);
      var r := TrimLeft(s);
      assert forall i :: 1 <= i < |s| - |r| ==> s[i] == s[1..][i - 1];
    }
  }

  /** `s` without its trailing whitespace. */
  function TrimRight(s: string): string {
    if s != [] && IsWhitespace(s[|s| - 1]) then TrimRight(s[..|s| - 1]) else s
  }

  /** What `TrimRight` removes is whitespace, and what it keeps is a prefix that does
      not end with whitespace. */
  lemma {:induction false} TrimRightShape(s: string)
    ensures var r := TrimRight(s);
      |r| <= |s| && r == s[..|r|]
      && (forall i :: |r| <= i < |s| ==> IsWhitespace(s[i]))
      && (r == [] || !IsWhitespace(r[|r| - 1]))
  {
    if s != [] && IsWhitespace(s[|s| - 1]) {
      TrimRightShape(s[..|s| - 1]);
    }
  }

  /** Python's `str.strip()`: the middle of `s` between its outer whitespace. */
  function Strip(s: string): string {
    TrimRight(TrimLeft(s))
  }

  /** `strip` leaves a trimmed text made of characters of `s`, and leaves a trimmed
      text alone. */
  lemma StripShape(s: string)
    ensures var r := Strip(s);
      Trimmed(r) && |r| <= |s| && (forall c :: c in r ==> c in s) && (Trimmed(s) ==> r == s)
  {
    TrimLeftShape(s);
    var l := TrimLeft(s);
    TrimRightShape(l);
    var r := TrimRight(l);
    assert forall c :: c in r ==> c in l;
    assert forall c :: c in l ==> c in s;
    if r != [] {
      assert l[0] == r[0];
    }
  }

  /** `sanitize`: "" for None; otherwise the kept characters, stripped. */
  function Sanitize(text: Option<string>): (r: string)
    ensures text.None? ==> r == ""
    ensures forall i :: 0 <= i < |r| ==> Kept(r[i])
    ensures Trimmed(r)
  {
    match text
    case None => ""
    case Some(s) =>
      FilterKept(s);
      StripShape(Filter(s));
      var r := Strip(Filter(s));
      assert forall i :: 0 <= i < |r| ==> r[i] in Filter(s);
      r
  }

  /** Sanitizing an already sanitized text changes nothing. */
  lemma SanitizeIdempotent(text: Option<string>)
    ensures Sanitize(Some(Sanitize(text))) == Sanitize(text)
  {
    var r := Sanitize(text);
    FilterAllKept(r);
    StripShape(r);
  }

  /** Every character of a sanitized text is printable, a newline or a carriage return,
      and whitespace survives only inside it. */
  lemma SanitizeKeepsOnlyKept(s: string, c: char)
    requires c in Sanitize(Some(s))
    ensures c in s && Kept(c)
  {
    StripShape(Filter(s));
    FilterMember(s, c);
  }

  /** The number of occurrences of `c` in `s`. */
  function Count(s: string, c: char): nat {
    if s == [] then 0 else (if s[0] == c then 1 else 0) + Count(s[1..], c)
  }

  lemma {:induction false} CountAppend(a: string, b: string, c: char)
    ensures Count(a + b, c) == Count(a, c) + Count(b, c)
  {
    if a == [] {
      assert a + b == b;
    } else {
      assert (a + b)[0] == a[0];
      assert (a + b)[1..] == a[1..] + b;
      CountAppend(a[1..], b, c);
    }
  }

  lemma {:induction false} CountZero(s: string, c: char)
    ensures Count(s, c) == 0 <==> c !in s
  {
    if s != [] {
      CountZero(s[1..], c);
    }
  }

  /** Removing outer whitespace does not change the count of a non-whitespace character. */
  lemma CountStrip(s: string, c: char)
    requires !IsWhitespace(c)
    ensures Count(Strip(s), c) == Count(s, c)
  {
    CountTrimLeft(s, c);
    CountTrimRight(TrimLeft(s), c);
  }

  lemma {:induction false} CountTrimLeft(s: string, c: char)
    requires !IsWhitespace(c)
    ensures Count(TrimLeft(s), c) == Count(s, c)
  {
    if s != [] && IsWhitespace(s[0]) {
      CountTrimLeft(s[1..], c);
    }
  }

  lemma CountTrimRight(s: string, c: char)
    requires !IsWhitespace(c)
    ensures Count(TrimRight(s), c) == Count(s, c)
  {
    TrimRightShape(s);
    var r := TrimRight(s);
    var t := s[|r|..];
    assert forall i :: 0 <= i < |t| ==> IsWhitespace(t[i]);
    CountWhitespacePrefix(t, |t|, c);
    assert t[..|t|] == t;
    assert s == r + t;
    CountAppend(r, t, c);
  }

  lemma {:induction false} CountWhitespacePrefix(s: string, n: nat, c: char)
    requires n <= |s|
    requires forall i :: 0 <= i < n ==> IsWhitespace(s[i])
    requires !IsWhitespace(c)
    ensures Count(s[..n], c) == 0
  {
    if n > 0 {
      assert s[..n][1..] == s[1..][..n - 1];
      CountWhitespacePrefix(s[1..], n - 1, c);
    }
  }

  /** Python's `s.replace(a, b)` for single characters. */
  function Replace(s: string, a: char, b: char): (r: string)
    ensures |r| == |s|
    ensures forall i :: 0 <= i < |s| ==> r[i] == if s[i] == a then b else s[i]
  {
    if s == [] then [] else [if s[0] == a then b else s[0]] + Replace(s[1..], a, b)
  }

  /** Replacing a character that does not occur changes nothing. */
  lemma ReplaceAbsent(s: string, a: char, b: char)
    requires a !in s
    ensures Replace(s, a, b) == s
  {
  }

  /** After replacing `a` by `b`, `b` occurs as often as `a` and `b` did together. */
  lemma {:induction false} CountReplace(s: string, a: char, b: char)
    requires a != b
    ensures Count(Replace(s, a, b), b) == Count(s, a) + Count(s, b)
    ensures Count(Replace(s, a, b), a) == 0
  {
    if s != [] {
      CountReplace(s[1..], a, b);
      assert Replace(s, a, b)[1..] == Replace(s[1..], a, b);
    }
  }

  /** The index of the first `c` in `s`. */
  function IndexOf(s: string, c: char): (k: nat)
    requires c in s
    ensures k < |s| && s[k] == c && c !in s[..k]
  {
    if s[0] == c then 0 else 1 + IndexOf(s[1..], c)
  }

  /** Python's `s.split(sep)` for a one-character separator. */
  function Split(s: string, sep: char): (r: seq<string>)
    ensures |r| == Count(s, sep) + 1
    ensures forall i :: 0 <= i < |r| ==> sep !in r[i]
    decreases |s|
  {
    if sep !in s then
      CountZero(s, sep);
      [s]
    else
      var k := IndexOf(s, sep);
      assert s == s[..k] + [sep] + s[k + 1..];
      CountAppend(s[..k] + [sep], s[k + 1..], sep);
      CountAppend(s[..k], [sep], sep);
      CountZero(s[..k], sep);
      [s[..k]] + Split(s[k + 1..], sep)
  }

  /** Python's `sep.join(pieces)`. */
  function Join(pieces: seq<string>, sep: char): string {
    if pieces == [] then []
    else if |pieces| == 1 then pieces[0]
    else pieces[0] + [sep] + Join(pieces[1..], sep)
  }

  /** Splitting and joining back on the same separator gives the text back. */
  lemma {:induction false} JoinSplit(s: string, sep: char)
    ensures Join(Split(s, sep), sep) == s
    decreases |s|
  {
    if sep in s {
      var k := IndexOf(s, sep);
      JoinSplit(s[k + 1..], sep);
      assert s == s[..k] + [sep] + s[k + 1..];
    }
  }

  /** Joining pieces free of the separator and splitting again gives the pieces back. */
  lemma {:induction false} SplitJoin(pieces: seq<string>, sep: char)
    requires |pieces| >= 1
    requires forall i :: 0 <= i < |pieces| ==> sep !in pieces[i]
    ensures Split(Join(pieces, sep), sep) == pieces
  {
    if |pieces| > 1 {
      var rest := Join(pieces[1..], sep);
      SplitJoin(pieces[1..], sep);
      SplitOnceLeft(pieces[0], rest, sep);
    }
  }

  /** Every character of a piece is a character of the text other than the separator. */
  lemma {:induction false} SplitPieceChars(s: string, sep: char, i: nat, c: char)
    requires i < |Split(s, sep)| && c in Split(s, sep)[i]
    ensures c in s && c != sep
    decreases |s|
  {
    if sep in s {
      var k := IndexOf(s, sep);
      if i > 0 {
        assert Split(s, sep)[i] == Split(s[k + 1..], sep)[i - 1];
        SplitPieceChars(s[k + 1..], sep, i - 1, c);
      }
    }
  }

  /** Text split at its first separator. */
  lemma SplitOnceLeft(a: string, b: string, sep: char)
    requires sep !in a
    ensures Split(a + [sep] + b, sep) == [a] + Split(b, sep)
  {
    var s := a + [sep] + b;
    var k := IndexOf(s, sep);
    assert s[|a|] == sep;
    assert s[..k] == a && s[k + 1..] == b;
  }

  /** Every character of a join is the separator or a character of some piece. */
  lemma {:induction false} JoinChars(pieces: seq<string>, sep: char, c: char)
    requires c in Join(pieces, sep)
    ensures c == sep || exists i :: 0 <= i < |pieces| && c in pieces[i]
  {
    if |pieces| > 1 && c != sep && c !in pieces[0] {
      JoinChars(pieces[1..], sep, c);
      var i :| 0 <= i < |pieces[1..]| && c in pieces[1..][i];
      assert pieces[1..][i] == pieces[i + 1];
    }
  }

  /** A join of non-empty pieces begins with the first piece and ends with the last. */
  lemma {:induction false} JoinEnds(pieces: seq<string>, sep: char)
    requires |pieces| >= 1
    requires forall i :: 0 <= i < |pieces| ==> pieces[i] != []
    ensures var j := Join(pieces, sep);
      |j| >= 1 && j[0] == pieces[0][0] && j[|j| - 1] == pieces[|pieces| - 1][|pieces[|pieces| - 1]| - 1]
  {
    if |pieces| > 1 {
      JoinEnds(pieces[1..], sep);
    }
  }

  /** A split into exactly two pieces happens iff the separator occurs once,
      and then the pieces are what lies before and after it. */
  lemma SplitInTwo(s: string, sep: char)
    ensures |Split(s, sep)| == 2 <==> Count(s, sep) == 1
    ensures Count(s, sep) == 1 ==>
      var k := IndexOf(s, sep);
      Split(s, sep) == [s[..k], s[k + 1..]]
  {
    if Count(s, sep) == 1 {
      var k := IndexOf(s, sep);
      assert s == s[..k] + [sep] + s[k + 1..];
      CountAppend(s[..k] + [sep], s[k + 1..], sep);
      CountAppend(s[..k], [sep], sep);
      CountZero(s[..k], sep);
      CountZero(s[k + 1..], sep);
    }
  }

  /** Text around a single separator splits into the two sides. */
  lemma SplitOnce(a: string, b: string, sep: char)
    requires sep !in a && sep !in b
    ensures Split(a + [sep] + b, sep) == [a, b]
  {
    var s := a + [sep] + b;
    var k := IndexOf(s, sep);
    assert s[|a|] == sep;
    assert s[..k] == a && s[k + 1..] == b;
  }

  /** The decimal digit for `d`. */
  function DigitChar(d: nat): char
    requires d < 10
  {
    ['0', '1', '2', '3', '4', '5', '6', '7', '8', '9'][d]
  }

  /** The value of a decimal digit character. */
  function DigitValue(c: char): nat
    requires IsDigit(c)
  {
    (c as int - '0' as int) as nat
  }

  /** Python's `str(n)` for a non-negative integer. */
  function NatToString(n: nat): (r: string)
    ensures |r| >= 1
    ensures forall i :: 0 <= i < |r| ==> IsDigit(r[i])
  {
    if n < 10 then [DigitChar(n)] else NatToString(n / 10) + [DigitChar(n % 10)]
  }

  /** Python's `str(n)`. */
  function IntToString(n: int): (r: string)
    ensures |r| >= 1
  {
    if n < 0 then "-" + NatToString(-n) else NatToString(n)
  }

  /** The value of a string of decimal digits (Python's `int(s)` on such a string). */
  function ParseDecimal(s: string): nat
    requires forall i :: 0 <= i < |s| ==> IsDigit(s[i])
  {
    if s == [] then 0 else ParseDecimal(s[..|s| - 1]) * 10 + DigitValue(s[|s| - 1])
  }

  lemma DigitRoundTrip(d: nat)
    requires d < 10
    ensures IsDigit(DigitChar(d)) && DigitValue(DigitChar(d)) == d
  {
  }

  /** `str` on a non-negative integer is undone by `int`. */
  lemma {:induction false} NatToStringRoundTrip(n: nat)
    ensures ParseDecimal(NatToString(n)) == n
  {
    if n < 10 {
      DigitRoundTrip(n);
    } else {
      var q, d := n / 10, n % 10;
      NatToStringRoundTrip(q);
      DigitRoundTrip(d);
      var s := NatToString(n);
      assert s == NatToString(q) + [DigitChar(d)];
      assert s[..|s| - 1] == NatToString(q);
      assert ParseDecimal(s) == q * 10 + d;
    }
  }

  /** Hence `str` is injective on non-negative integers. */
  lemma NatToStringInjective(m: nat, n: nat)
    requires NatToString(m) == NatToString(n)
    ensures m == n
  {
    NatToStringRoundTrip(m);
    NatToStringRoundTrip(n);
  }
}

/**
 * `get_start_and_end_page`: the page range of a host publication, split into
 * a start and an end page when it is made only of digits, hyphens, en-dashes
 * and spaces and holds exactly one dash.
 */
module Pages {
  import opened Wrappers
  import opened Text

  const EnDash: char := '\U{2013}'

  /** The characters a page range may consist of. */
  predicate IsPageChar(c: char) {
    IsDigit(c) || c == EnDash || c == '-' || c == ' '
  }

  predicate AllPageChars(s: string) {
    forall i :: 0 <= i < |s| ==> IsPageChar(s[i])
  }

  /** The number of dashes of either kind. */
  function DashCount(s: string): nat {
    Count(s, '-') + Count(s, EnDash)
  }

  /** `get_start_and_end_page`: sanitize, turn en-dashes into hyphens, split on the
      hyphen, and keep the two stripped pieces when there are exactly two. */
  function StartAndEndPage(sourcepages: string): (r: Option<(string, string)>)
    ensures r.Some? ==> AllPageChars(sourcepages)
    ensures r.Some? ==> Trimmed(r.value.0) && Trimmed(r.value.1)
    ensures r.Some? ==> '-' !in r.value.0 && '-' !in r.value.1
  {
    if !AllPageChars(sourcepages) then None
    else
      var pages := Split(Replace(Sanitize(Some(sourcepages)), EnDash, '-'), '-');
      if |pages| == 2 then
        StripShape(pages[0]);
        StripShape(pages[1]);
        Some((Strip(pages[0]), Strip(pages[1])))
      else None
  }

  /** On a page range, `sanitize` only strips the outer spaces. */
  lemma SanitizePageChars(s: string)
    requires AllPageChars(s)
    ensures Sanitize(Some(s)) == Strip(s)
  {
    forall i | 0 <= i < |s| ensures Kept(s[i]) {
      assert IsPageChar(s[i]);
    }
    FilterAllKept(s);
  }

  /** A page range parses exactly when it is made of page characters and holds one
      dash of either kind. */
  lemma StartAndEndPageParses(sourcepages: string)
    ensures StartAndEndPage(sourcepages).Some? <==> AllPageChars(sourcepages) && DashCount(sourcepages) == 1
  {
    if AllPageChars(sourcepages) {
      var s := sourcepages;
      SanitizePageChars(s);
      var t := Strip(s);
      assert !IsWhitespace('-') && !IsWhitespace(EnDash);
      CountStrip(s, '-');
      CountStrip(s, EnDash);
      CountReplace(t, EnDash, '-');
      SplitInTwo(Replace(t, EnDash, '-'), '-');
    }
  }

  /** The result of `get_start_and_end_page` when the normalized range splits in two. */
  lemma StartAndEndPageOfPieces(s: string, p0: string, p1: string)
    requires AllPageChars(s)
    requires Split(Replace(Strip(s), EnDash, '-'), '-') == [p0, p1]
    ensures StartAndEndPage(s) == Some((Strip(p0), Strip(p1)))
  {
    SanitizePageChars(s);
  }

  /** A trimmed range `a-b` of page characters with no other dash gives the two
      sides, each stripped of the spaces around the dash. */
  lemma StartAndEndPageOfRange(s: string, a: string, b: string)
    requires s == a + ['-'] + b
    requires AllPageChars(s) && Trimmed(s)
    requires '-' !in a && '-' !in b && EnDash !in s
    ensures StartAndEndPage(s) == Some((Strip(a), Strip(b)))
  {
    StripShape(s);
    ReplaceAbsent(s, EnDash, '-');
    SplitOnce(a, b, '-');
    StartAndEndPageOfPieces(s, a, b);
  }

  /** The range "123-145" parses to its two pages. */
  lemma ExampleHyphenRange(s: string, a: string, b: string)
    requires s == "123-145" && a == "123" && b == "145"
    ensures StartAndEndPage(s) == Some((a, b))
  {
    assert s == a + ['-'] + b;
    assert Trimmed(a) && Trimmed(b);
    StartAndEndPageOfRange(s, a, b);
  }

  /** The same with an en-dash in place of the hyphen. */
  lemma StartAndEndPageOfEnDashRange(s: string, a: string, b: string)
    requires s == a + [EnDash] + b
    requires AllPageChars(s) && Trimmed(s)
    requires '-' !in s && EnDash !in a && EnDash !in b
    ensures StartAndEndPage(s) == Some((Strip(a), Strip(b)))
  {
    StripShape(s);
    EnDashNormalized(s, a, b);
    SplitOnce(a, b, '-');
    StartAndEndPageOfPieces(s, a, b);
  }

  lemma EnDashNormalized(s: string, a: string, b: string)
    requires s == a + [EnDash] + b
    requires '-' !in s && EnDash !in a && EnDash !in b
    ensures Replace(s, EnDash, '-') == a + ['-'] + b
    ensures '-' !in a && '-' !in b
  {
    var t := Replace(s, EnDash, '-');
    forall i | 0 <= i < |t| ensures t[i] == (a + ['-'] + b)[i] {
      if i < |a| { assert s[i] == a[i]; }
      else if i > |a| { assert s[i] == b[i - |a| - 1]; }
    }
    forall i | 0 <= i < |a| ensures a[i] != '-' { assert s[i] == a[i]; }
    forall i | 0 <= i < |b| ensures b[i] != '-' { assert s[|a| + 1 + i] == b[i]; }
  }

  /** The range "12–30", with an en-dash, parses to its two pages. */
  lemma ExampleEnDashRange(s: string, a: string, b: string)
    requires s == "12\U{2013}30" && a == "12" && b == "30"
    ensures StartAndEndPage(s) == Some((a, b))
  {
    assert s == a + [EnDash] + b;
    assert Trimmed(a) && Trimmed(b);
    StartAndEndPageOfEnDashRange(s, a, b);
  }

  /** Empty pieces are not rejected: a lone dash gives two empty pages. */
  lemma ExampleLoneDash(s: string)
    requires s == "-"
    ensures StartAndEndPage(s) == Some(("", ""))
  {
    StartAndEndPageOfRange(s, "", "");
  }

  /** A single page does not parse. */
  lemma ExampleSinglePage(s: string)
    requires s == "123"
    ensures StartAndEndPage(s) == None
  {
    assert '-' !in s && EnDash !in s by {
      forall i | 0 <= i < |s| ensures IsDigit(s[i]) { }
    }
    CountZero(s, '-');
    CountZero(s, EnDash);
    StartAndEndPageParses(s);
  }

  /** Two dashes do not parse. */
  lemma ExampleTwoDashes(s: string)
    requires s == "1-2-3"
    ensures StartAndEndPage(s) == None
  {
    assert s == "1-2" + "-3";
    CountAppend("1-2", "-3", '-');
    assert Count("1-2", '-') >= 1 && Count("-3", '-') >= 1;
    StartAndEndPageParses(s);
  }

  /** Free text does not parse. */
  lemma ExampleFreeText(s: string)
    requires s == "see appendix"
    ensures StartAndEndPage(s) == None
  {
    assert !IsPageChar(s[0]);
  }
}

/**
 * `has_viewable_file`: whether some attached file is accepted and visible
 * today. A visibility date is `YYYY-MM-DD`; `strptime` of such a date is
 * compared with the current time, which for zero-padded dates is the
 * character-by-character order of the date against today's date.
 */
module Files {
  import opened Wrappers
  import opened Header
  import opened Publication

  /** `YYYY-MM-DD`: what `strptime(s, "%Y-%m-%d")` parses. */
  predicate IsDate(s: string) {
    |s| == 10 && DigitsAt(s, 0, 4) && s[4] == '-' && DigitsAt(s, 5, 2) && s[7] == '-' && DigitsAt(s, 8, 2)
  }

  /** `a` comes no later than `b`, character by character. */
  predicate NotAfter(a: string, b: string) {
    a == [] || (b != [] && (a[0] < b[0] || (a[0] == b[0] && NotAfter(a[1..], b[1..]))))
  }

  lemma {:induction false} NotAfterReflexive(a: string)
    ensures NotAfter(a, a)
  {
    if a != [] {
      NotAfterReflexive(a[1..]);
    }
  }

  lemma {:induction false} NotAfterTransitive(a: string, b: string, c: string)
    requires NotAfter(a, b) && NotAfter(b, c)
    ensures NotAfter(a, c)
  {
    if a != [] && b != [] && c != [] && a[0] == b[0] == c[0] {
      NotAfterTransitive(a[1..], b[1..], c[1..]);
    }
  }

  lemma {:induction false} NotAfterTotal(a: string, b: string)
    ensures NotAfter(a, b) || NotAfter(b, a)
  {
    if a != [] && b != [] && a[0] == b[0] {
      NotAfterTotal(a[1..], b[1..]);
    }
  }

  /** The condition of `has_viewable_file` on one file: accepted, and without a
      visibility date or visible from a day no later than `today`. */
  predicate IsViewable(file: File, today: string) {
    IsTrue(file.accepted)
    && (file.visibleAfter.None? || (IsDate(file.visibleAfter.value) && NotAfter(file.visibleAfter.value, today)))
  }

  /** `any` stops at the first viewable file: every visibility date it parses before
      that one must be a date, or `strptime` raises. */
  predicate ScanDefined(files: seq<File>, today: string) {
    files == []
    || ((IsTrue(files[0].accepted) && files[0].visibleAfter.Some? ==> IsDate(files[0].visibleAfter.value))
        && (IsViewable(files[0], today) || ScanDefined(files[1..], today)))
  }

  /** `has_viewable_file`. */
  function HasViewableFile(files: seq<File>, today: string): bool
    requires ScanDefined(files, today)
  {
    if files == [] then false
    else IsViewable(files[0], today) || HasViewableFile(files[1..], today)
  }

  /** `has_viewable_file` holds exactly when some file is viewable today. */
  lemma {:induction false} HasViewableFileSpec(files: seq<File>, today: string)
    requires ScanDefined(files, today)
    ensures HasViewableFile(files, today) <==> exists i :: 0 <= i < |files| && IsViewable(files[i], today)
  {
    if files != [] && !IsViewable(files[0], today) {
      HasViewableFileSpec(files[1..], today);
      assert forall i :: 1 <= i < |files| ==> files[i] == files[1..][i - 1];
    }
  }

  /** A file viewable today stays viewable on every later day. */
  lemma ViewableLater(file: File, today: string, later: string)
    requires IsViewable(file, today) && NotAfter(today, later)
    ensures IsViewable(file, later)
  {
    if file.visibleAfter.Some? {
      NotAfterTransitive(file.visibleAfter.value, today, later);
    }
  }

  /** A file accepted and visible from today is viewable today. */
  lemma ViewableFromToday(file: File, today: string)
    requires IsTrue(file.accepted) && file.visibleAfter == Some(today) && IsDate(today)
    ensures IsViewable(file, today)
  {
    NotAfterReflexive(today);
  }
}

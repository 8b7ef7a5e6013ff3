/** The export file name: Timesheet_WeekNN_YYYY.pdf in the target folder, or
    the first of Timesheet_WeekNN_YYYY-1.pdf, -2.pdf, ... that does not
    exist yet. The file system is the finite set of paths that exist. */
module FileName {

  function DigitChar(d: nat): (c: char)
    requires d < 10
  {
    "0123456789"[d]
  }

  function DigitValue(c: char): nat {
    if '0' <= c <= '9' then (c as int - '0' as int) as nat else 0
  }

  /** The decimal digits of n, as Python's str(n) writes them. */
  function Digits(n: nat): (s: string)
    ensures |s| > 0
    decreases n
  {
    if n < 10 then [DigitChar(n)] else Digits(n / 10) + [DigitChar(n % 10)]
  }

  function ParseDigits(s: string): nat
    decreases |s|
  {
    if s == [] then 0 else ParseDigits(s[..|s| - 1]) * 10 + DigitValue(s[|s| - 1])
  }

  /** Reading the digits back gives the number, so distinct numbers have
      distinct digit strings. */
  lemma {:induction false} DigitsRoundTrip(n: nat)
    ensures ParseDigits(Digits(n)) == n
    decreases n
  {
    if n >= 10 {
      var s := Digits(n);
      assert s[..|s| - 1] == Digits(n / 10);
      DigitsRoundTrip(n / 10);
      DigitValueOf(n % 10);
    } else {
      DigitValueOf(n);
    }
  }

  lemma DigitValueOf(d: nat)
    requires d < 10
    ensures DigitValue(DigitChar(d)) == d
  {
  }

  lemma DigitsInjective(i: nat, j: nat)
    requires Digits(i) == Digits(j)
    ensures i == j
  {
    DigitsRoundTrip(i);
    DigitsRoundTrip(j);
  }

  /** Python's {:02d}: at least two digits, padded with a leading zero. */
  function Pad2(n: nat): (s: string)
    ensures |s| >= 2
    ensures ParseDigits(s) == n
  {
    DigitsRoundTrip(n);
    if n < 10 then
      assert ParseDigits(['0', DigitChar(n)][..1]) == 0;
      ['0', DigitChar(n)]
    else
      assert |Digits(n)| >= 2 by { assert n / 10 > 0; }
      Digits(n)
  }

  /** POSIX os.path.join (posixpath.join) of a folder and a relative name. */
  function JoinPath(folder: string, name: string): string {
    if folder == [] || folder[|folder| - 1] == '/' then folder + name
    else folder + "/" + name
  }

  /** The file name without its extension or suffix: f"Timesheet_Week{week:02d}_{iso_year}". */
  function Prefix(week: nat, isoYear: nat): string {
    "Timesheet_Week" + Pad2(week) + "_" + Digits(isoYear)
  }

  function BasePath(folder: string, week: nat, isoYear: nat): string {
    JoinPath(folder, Prefix(week, isoYear) + ".pdf")
  }

  function SuffixedPath(folder: string, week: nat, isoYear: nat, i: nat): string {
    JoinPath(folder, Prefix(week, isoYear) + "-" + Digits(i) + ".pdf")
  }

  /** Joining a longer name only appends to the joined path. */
  lemma JoinAppend(folder: string, a: string, b: string)
    ensures JoinPath(folder, a + b) == JoinPath(folder, a) + b
  {
    if folder == [] || folder[|folder| - 1] == '/' {
      assert folder + (a + b) == (folder + a) + b;
    } else {
      assert folder + "/" + (a + b) == (folder + "/" + a) + b;
    }
  }

  /** Both kinds of candidate share the joined prefix and differ in what
      follows it. */
  lemma CandidatesShareStem(folder: string, week: nat, isoYear: nat, i: nat)
    ensures BasePath(folder, week, isoYear) == JoinPath(folder, Prefix(week, isoYear)) + ".pdf"
    ensures SuffixedPath(folder, week, isoYear, i) ==
            JoinPath(folder, Prefix(week, isoYear)) + ("-" + Digits(i) + ".pdf")
  {
    var p := Prefix(week, isoYear);
    JoinAppend(folder, p, ".pdf");
    assert p + "-" + Digits(i) + ".pdf" == p + ("-" + Digits(i) + ".pdf");
    JoinAppend(folder, p, "-" + Digits(i) + ".pdf");
  }

  /** The digits sit between the dash and the extension of a suffix. */
  lemma SuffixDigits(i: nat)
    ensures var t := "-" + Digits(i) + ".pdf"; |t| == |Digits(i)| + 5 && t[1..|t| - 4] == Digits(i)
  {
  }

  /** After a common stem, "-i.pdf" determines i and is never ".pdf". */
  lemma TailsDiffer(stem: string, i: nat, j: nat)
    ensures stem + ("-" + Digits(i) + ".pdf") == stem + ("-" + Digits(j) + ".pdf") ==> i == j
    ensures stem + ("-" + Digits(i) + ".pdf") != stem + ".pdf"
  {
    var ti, tj := "-" + Digits(i) + ".pdf", "-" + Digits(j) + ".pdf";
    if stem + ti == stem + tj {
      assert ti == (stem + ti)[|stem|..];
      assert tj == (stem + tj)[|stem|..];
      SuffixDigits(i);
      SuffixDigits(j);
      DigitsInjective(i, j);
    }
    assert |stem + ti| > |stem + ".pdf"|;
  }

  /** Different suffixes give different paths, and no suffixed path is the
      base path. */
  lemma SuffixedPathInjective(folder: string, week: nat, isoYear: nat, i: nat, j: nat)
    ensures SuffixedPath(folder, week, isoYear, i) == SuffixedPath(folder, week, isoYear, j) ==> i == j
    ensures SuffixedPath(folder, week, isoYear, i) != BasePath(folder, week, isoYear)
  {
    CandidatesShareStem(folder, week, isoYear, i);
    CandidatesShareStem(folder, week, isoYear, j);
    TailsDiffer(JoinPath(folder, Prefix(week, isoYear)), i, j);
  }

  /** Suffix i is free and every suffix before it is taken. */
  ghost predicate LeastFree(existing: set<string>, folder: string, week: nat, isoYear: nat, i: nat) {
    1 <= i && SuffixedPath(folder, week, isoYear, i) !in existing &&
    forall j: nat :: 1 <= j < i ==> SuffixedPath(folder, week, isoYear, j) in existing
  }

  /** What safe_pdf_filename promises: the base path when it is free, and
      otherwise the suffixed path with the least index i >= 1 that is free. */
  ghost predicate ChosenPath(existing: set<string>, folder: string, week: nat, isoYear: nat, path: string) {
    var base := BasePath(folder, week, isoYear);
    (base !in existing && path == base) ||
    (base in existing &&
     exists i: nat :: LeastFree(existing, folder, week, isoYear, i) && path == SuffixedPath(folder, week, isoYear, i))
  }

  /** If the first i suffixed paths all exist, at least i paths exist. */
  lemma {:induction false} SuffixesTaken(existing: set<string>, folder: string, week: nat, isoYear: nat, i: nat)
    requires forall j: nat :: 1 <= j <= i ==> SuffixedPath(folder, week, isoYear, j) in existing
    ensures i <= |existing|
    decreases i
  {
    if i > 0 {
      var last := SuffixedPath(folder, week, isoYear, i);
      var rest := existing - {last};
      forall j: nat | 1 <= j <= i - 1
        ensures SuffixedPath(folder, week, isoYear, j) in rest
      {
        SuffixedPathInjective(folder, week, isoYear, i, j);
      }
      SuffixesTaken(rest, folder, week, isoYear, i - 1);
    }
  }

  /** safe_pdf_filename: never an existing path, always the least free one. */
  method SafePdfFilename(week: nat, isoYear: nat, folder: string, existing: set<string>)
    returns (path: string)
    ensures path !in existing
    ensures ChosenPath(existing, folder, week, isoYear, path)
  {
    var base := BasePath(folder, week, isoYear);
    if base !in existing {
      return base;
    }
    var i: nat := 1;
    while true
      invariant 1 <= i <= |existing| + 1
      invariant forall j: nat :: 1 <= j < i ==> SuffixedPath(folder, week, isoYear, j) in existing
      decreases |existing| + 1 - i
    {
      var candidate := SuffixedPath(folder, week, isoYear, i);
      if candidate !in existing {
        return candidate;
      }
      SuffixesTaken(existing, folder, week, isoYear, i);
      i := i + 1;
    }
  }

  /** The chosen path is determined by the existing set. */
  lemma ChosenPathUnique(existing: set<string>, folder: string, week: nat, isoYear: nat, p: string, q: string)
    requires ChosenPath(existing, folder, week, isoYear, p)
    requires ChosenPath(existing, folder, week, isoYear, q)
    ensures p == q
  {
    if BasePath(folder, week, isoYear) in existing {
      var i: nat :| LeastFree(existing, folder, week, isoYear, i) && p == SuffixedPath(folder, week, isoYear, i);
      var k: nat :| LeastFree(existing, folder, week, isoYear, k) && q == SuffixedPath(folder, week, isoYear, k);
      LeastFreeUnique(existing, folder, week, isoYear, i, k);
    }
  }

  lemma LeastFreeUnique(existing: set<string>, folder: string, week: nat, isoYear: nat, i: nat, k: nat)
    requires LeastFree(existing, folder, week, isoYear, i)
    requires LeastFree(existing, folder, week, isoYear, k)
    ensures i == k
  {
    assert i < k ==> SuffixedPath(folder, week, isoYear, i) in existing;
    assert k < i ==> SuffixedPath(folder, week, isoYear, k) in existing;
  }

  /** Exporting the same week again after the file at suffix i was written
      picks suffix i + 1 when that one is free; after the base path was
      written it picks suffix 1. */
  lemma NextExportPath(existing: set<string>, folder: string, week: nat, isoYear: nat, i: nat)
    requires ChosenPath(existing, folder, week, isoYear, SuffixedPath(folder, week, isoYear, i))
    requires SuffixedPath(folder, week, isoYear, i + 1) !in existing
    ensures ChosenPath(existing + {SuffixedPath(folder, week, isoYear, i)}, folder, week, isoYear,
                       SuffixedPath(folder, week, isoYear, i + 1))
  {
    var added := existing + {SuffixedPath(folder, week, isoYear, i)};
    SuffixedPathInjective(folder, week, isoYear, i, 0);
    var k: nat :| LeastFree(existing, folder, week, isoYear, k) &&
      SuffixedPath(folder, week, isoYear, i) == SuffixedPath(folder, week, isoYear, k);
    SuffixedPathInjective(folder, week, isoYear, i, k);
    NextLeastFree(existing, folder, week, isoYear, i);
  }

  lemma NextLeastFree(existing: set<string>, folder: string, week: nat, isoYear: nat, i: nat)
    requires LeastFree(existing, folder, week, isoYear, i)
    requires SuffixedPath(folder, week, isoYear, i + 1) !in existing
    ensures LeastFree(existing + {SuffixedPath(folder, week, isoYear, i)}, folder, week, isoYear, i + 1)
  {
    SuffixedPathInjective(folder, week, isoYear, i + 1, i);
  }

  lemma SecondExportPath(existing: set<string>, folder: string, week: nat, isoYear: nat)
    requires BasePath(folder, week, isoYear) !in existing
    requires SuffixedPath(folder, week, isoYear, 1) !in existing
    ensures ChosenPath(existing + {BasePath(folder, week, isoYear)}, folder, week, isoYear,
                       SuffixedPath(folder, week, isoYear, 1))
  {
    SuffixedPathInjective(folder, week, isoYear, 1, 1);
    assert LeastFree(existing + {BasePath(folder, week, isoYear)}, folder, week, isoYear, 1);
  }
}

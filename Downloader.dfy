/**
 * The naming half of download_and_save_file: which extension a category gets, where the
 * file goes, and how a name that is already taken is replaced by `<stem>_1.<ext>`,
 * `<stem>_2.<ext>`, ... The output area is a finite set of existing paths; the fetch and the
 * write of the bytes are one boolean that says whether they succeeded.
 */
module Downloader {
  import opened Wrappers
  import Normalizer

  /** The extension a saved resource gets: `jpg` for the image category, `html` for the page
      snapshot, and the category itself (the book's file type, e.g. `pdf`) otherwise. */
  function Extension(fileType: string): (ext: string)
    ensures fileType == "image" ==> ext == "jpg"
    ensures fileType != "image" ==> ext == fileType
  {
    if fileType == "image" then "jpg"
    else if fileType == "html" then "html"
    else fileType
  }

  /** What posixpath.join(a, b) puts in front of `b`. */
  function JoinHead(a: string, b: string): string {
    if |b| > 0 && b[0] == '/' then ""
    else if a == [] || a[|a| - 1] == '/' then a
    else a + "/"
  }

  /** posixpath.join(a, b): an absolute `b` replaces `a`, otherwise a separator is put between
      them unless `a` is empty or already ends in one. */
  function JoinPath(a: string, b: string): (p: string)
    ensures |b| <= |p| && p[|p| - |b|..] == b
    ensures |b| > 0 && b[0] == '/' ==> p == b
    ensures !(|b| > 0 && b[0] == '/') ==> |a| <= |p| <= |a| + 1 + |b| && p[..|a|] == a
    ensures !(|b| > 0 && b[0] == '/') && a != [] ==> |b| + 1 <= |p| && p[|p| - |b| - 1] == '/'
    ensures !(|b| > 0 && b[0] == '/') ==>
      |p| == |a| + |b| + (if a == [] || a[|a| - 1] == '/' then 0 else 1)
  {
    JoinHead(a, b) + b
  }

  /** Whether every character of `s` is a decimal digit. */
  predicate AllDigits(s: string) {
    forall i :: 0 <= i < |s| ==> '0' <= s[i] <= '9'
  }

  /** The number a string of decimal digits denotes, most significant digit first. */
  function DigitsValue(s: string): nat
    requires AllDigits(s)
    decreases |s|
  {
    if s == [] then 0
    else DigitsValue(s[..|s| - 1]) * 10 + (s[|s| - 1] as int - '0' as int)
  }

  /** The decimal digit character for 0 <= d < 10. */
  function DigitChar(d: nat): (c: char)
    requires d < 10
    ensures '0' <= c <= '9' && c as int - '0' as int == d
  {
    ('0' as int + d) as char
  }

  /** Python's str(n) for a natural number: decimal digits, no leading zero. */
  function Decimal(n: nat): (r: string)
    ensures |r| >= 1 && AllDigits(r)
    ensures |r| == 1 <==> n < 10
    ensures n > 0 ==> r[0] != '0'
    decreases n
  {
    if n < 10 then [DigitChar(n)] else Decimal(n / 10) + [DigitChar(n % 10)]
  }

  /** The digits of str(n) spell n. */
  lemma {:induction false} DecimalValue(n: nat)
    ensures DigitsValue(Decimal(n)) == n
    decreases n
  {
    var r := Decimal(n);
    if n < 10 {
      assert r[..0] == [];
    } else {
      DecimalValue(n / 10);
      assert r[..|r| - 1] == Decimal(n / 10);
    }
  }

  /** Different numbers are written differently. */
  lemma DecimalInjective(m: nat, n: nat)
    requires Decimal(m) == Decimal(n)
    ensures m == n
  {
    DecimalValue(m);
    DecimalValue(n);
  }

  /** Where the files of one call go, and under which stem and extension. */
  datatype Target = Target(dir: string, stem: string, ext: string)

  /** The directory, stem and extension download_and_save_file derives from its arguments:
      `folder_path/folder_name`, the sanitized title and the category's extension. */
  function TargetOf(isAlnum: char -> bool, folderPath: string, folderName: string,
                    title: string, fileType: string): Target
  {
    Target(JoinPath(folderPath, folderName), Normalizer.Sanitize(isAlnum, title), Extension(fileType))
  }

  /** The suffix of the k-th candidate: none for the first, `_k` afterwards. */
  function Suffix(k: nat): (r: string)
    ensures k == 0 <==> r == []
  {
    if k == 0 then [] else "_" + Decimal(k)
  }

  lemma SuffixInjective(j: nat, k: nat)
    requires Suffix(j) == Suffix(k)
    ensures j == k
  {
    if j > 0 && k > 0 {
      assert Suffix(j)[1..] == Decimal(j);
      assert Suffix(k)[1..] == Decimal(k);
      DecimalInjective(j, k);
    }
  }

  /** The file name of the k-th candidate. */
  function FileName(t: Target, k: nat): string {
    t.stem + Suffix(k) + "." + t.ext
  }

  /** The k-th path tried: `<dir>/<stem>.<ext>` for k = 0, `<dir>/<stem>_k.<ext>` after. */
  function Candidate(t: Target, k: nat): string {
    JoinPath(t.dir, FileName(t, k))
  }

  /** Whether a candidate's name is absolute does not depend on k: it starts like the stem,
      or with '.' or '_' when the stem is empty. */
  lemma CandidateHead(t: Target, k: nat)
    ensures JoinHead(t.dir, FileName(t, k)) == JoinHead(t.dir, FileName(t, 0))
  {
    var a, b := FileName(t, k), FileName(t, 0);
    if t.stem != [] {
      assert a[0] == t.stem[0] && b[0] == t.stem[0];
    } else {
      assert b[0] == '.';
      assert a[0] == '.' || a[0] == '_';
    }
  }

  /** Every candidate is one fixed head, the stem, the suffix and the extension. */
  lemma CandidateShape(t: Target, k: nat)
    ensures Candidate(t, k) == (JoinHead(t.dir, FileName(t, 0)) + t.stem) + Suffix(k) + ("." + t.ext)
  {
    CandidateHead(t, k);
  }

  /** Distinct indices give distinct paths, so no candidate is tried twice. */
  lemma CandidateInjective(t: Target, j: nat, k: nat)
    ensures Candidate(t, j) == Candidate(t, k) ==> j == k
  {
    if Candidate(t, j) == Candidate(t, k) {
      CandidateShape(t, j);
      CandidateShape(t, k);
      MiddleEqual(JoinHead(t.dir, FileName(t, 0)) + t.stem, Suffix(j), Suffix(k), "." + t.ext);
      SuffixInjective(j, k);
    }
  }

  /** Two strings with the same prefix and the same suffix agree on what lies between. */
  lemma MiddleEqual(p: string, x: string, y: string, q: string)
    requires p + x + q == p + y + q
    ensures x == y
  {
    assert |x| == |y|;
    assert x == (p + x + q)[|p|..|p| + |x|];
    assert y == (p + y + q)[|p|..|p| + |y|];
  }

  /** The paths tried before the k-th: candidates 0 .. k-1. */
  function Tried(t: Target, k: nat): set<string> {
    if k == 0 then {} else Tried(t, k - 1) + {Candidate(t, k - 1)}
  }

  /** Candidate j was tried before the k-th exactly when j < k. */
  lemma TriedMembers(t: Target, k: nat)
    ensures forall j: nat :: Candidate(t, j) in Tried(t, k) <==> j < k
  {
    forall j: nat ensures Candidate(t, j) in Tried(t, k) <==> j < k {
      TriedHas(t, k, j);
    }
  }

  /** The same for one j, by induction on k. */
  lemma {:induction false} TriedHas(t: Target, k: nat, j: nat)
    ensures Candidate(t, j) in Tried(t, k) <==> j < k
  {
    if k > 0 {
      TriedHas(t, k - 1, j);
      assert Tried(t, k) == Tried(t, k - 1) + {Candidate(t, k - 1)};
      CandidateInjective(t, j, k - 1);
    }
  }

  /** Candidate j was tried before the k-th exactly when j < k, and k paths were tried. */
  lemma TriedContents(t: Target, k: nat)
    ensures forall j: nat :: Candidate(t, j) in Tried(t, k) <==> j < k
    ensures |Tried(t, k)| == k
  {
    TriedMembers(t, k);
    TriedCount(t, k);
  }

  /** k attempts try k different paths. */
  lemma {:induction false} TriedCount(t: Target, k: nat)
    ensures |Tried(t, k)| == k
  {
    if k > 0 {
      TriedCount(t, k - 1);
      TriedHas(t, k - 1, k - 1);
    }
  }

  /** A subset is no larger than its superset. */
  lemma {:induction false} SubsetCard<T>(a: set<T>, b: set<T>)
    requires a <= b
    ensures |a| <= |b|
    decreases |a|
  {
    if a != {} {
      var x :| x in a;
      SubsetCard(a - {x}, b - {x});
    }
  }

  /** The k-th candidate is the first free one: it does not exist and every earlier one does. */
  ghost predicate FirstFree(existing: set<string>, t: Target, k: nat) {
    Candidate(t, k) !in existing && Tried(t, k) <= existing
  }

  /** There is only one first free candidate. */
  lemma FirstFreeUnique(existing: set<string>, t: Target, j: nat, k: nat)
    requires FirstFree(existing, t, j) && FirstFree(existing, t, k)
    ensures j == k
  {
    TriedContents(t, j);
    TriedContents(t, k);
  }

  /** The collision loop of download_and_save_file: the base name if it is free, else the
      first free `_i` name, i >= 1. The chosen path never exists yet. */
  method ChooseFilePath(existing: set<string>, t: Target) returns (path: string)
    ensures path !in existing
    ensures exists k :: FirstFree(existing, t, k) && path == Candidate(t, k)
    ensures Candidate(t, 0) !in existing ==> path == Candidate(t, 0)
  {
    path := Candidate(t, 0);
    if path in existing {
      path := Candidate(t, 1);
      var i := 2;
      TriedContents(t, 1);
      while path in existing
        invariant 2 <= i
        invariant path == Candidate(t, i - 1)
        invariant Tried(t, i - 1) <= existing
        invariant i - 1 <= |existing|
        decreases |existing| - (i - 1)
      {
        TriedContents(t, i);
        SubsetCard(Tried(t, i), existing);
        path := Candidate(t, i);
        i := i + 1;
      }
      assert FirstFree(existing, t, i - 1);
    } else {
      assert FirstFree(existing, t, 0);
    }
  }

  /** Saving the same name again goes further down the list: with `<stem>.<ext>` taken the
      next save gets `_1`, with that taken too `_2`, and so on. */
  lemma {:induction false} NextSaveMovesOn(existing: set<string>, t: Target, j: nat, k: nat)
    requires FirstFree(existing, t, j)
    requires FirstFree(existing + {Candidate(t, j)}, t, k)
    ensures k == j + 1 <== FirstFree(existing + {Candidate(t, j)}, t, j + 1)
    ensures j < k
  {
    TriedContents(t, j);
    TriedContents(t, k);
    if FirstFree(existing + {Candidate(t, j)}, t, j + 1) {
      FirstFreeUnique(existing + {Candidate(t, j)}, t, j + 1, k);
    }
  }

  /** With only the base name taken, the first free candidate is `_1`; with `_1` taken too,
      `_2`. */
  lemma FirstSuffixes(t: Target)
    ensures FirstFree({Candidate(t, 0)}, t, 1)
    ensures FirstFree({Candidate(t, 0), Candidate(t, 1)}, t, 2)
    ensures Candidate(t, 1) == JoinPath(t.dir, t.stem + "_1." + t.ext)
    ensures Candidate(t, 2) == JoinPath(t.dir, t.stem + "_2." + t.ext)
  {
    FirstNames(t);
    TriedContents(t, 1);
    TriedContents(t, 2);
  }

  /** The first three names tried: `<stem>.<ext>`, `<stem>_1.<ext>`, `<stem>_2.<ext>`. */
  lemma FirstNames(t: Target)
    ensures FileName(t, 0) == t.stem + "." + t.ext
    ensures FileName(t, 1) == t.stem + "_1." + t.ext
    ensures FileName(t, 2) == t.stem + "_2." + t.ext
  {
    SuffixName(t, 1, '1');
    assert ['_', '1', '.'] == "_1.";
    SuffixName(t, 2, '2');
    assert ['_', '2', '.'] == "_2.";
  }

  /** The name of candidate d, for a one-digit d, is the stem, `_`, the digit, `.` and the
      extension. */
  lemma SuffixName(t: Target, d: nat, c: char)
    requires 1 <= d < 10 && c as int - '0' as int == d
    ensures FileName(t, d) == t.stem + ['_', c, '.'] + t.ext
  {
    assert Decimal(d) == [c];
    assert Suffix(d) + "." == ['_', c, '.'];
  }

  /** The output area of one run: the set of paths that exist in it. */
  class OutputArea {
    var files: set<string>

    constructor (existing: set<string>)
      ensures files == existing
    {
      files := existing;
    }

    /** download_and_save_file: pick the path, then fetch and write. `transferred` says whether
        the fetch and the write succeeded; on failure nothing is written and None comes back. */
    method DownloadAndSaveFile(isAlnum: char -> bool, folderPath: string, folderName: string,
                               title: string, fileType: string, transferred: bool)
      returns (r: Option<string>)
      modifies this
      ensures var t := TargetOf(isAlnum, folderPath, folderName, title, fileType);
        if transferred then
          r.Some? && r.value !in old(files) && files == old(files) + {r.value}
          && exists k :: FirstFree(old(files), t, k) && r.value == Candidate(t, k)
        else
          r == None && files == old(files)
    {
      var t := TargetOf(isAlnum, folderPath, folderName, title, fileType);
      var path := ChooseFilePath(files, t);
      if transferred {
        files := files + {path};
        r := Some(path);
      } else {
        r := None;
      }
    }
  }
}

/**
 * Upload-key disambiguation: the user's file name is split at its extension
 * the way Python's `os.path.splitext` splits it, and `_` plus a rendered
 * timestamp is inserted between the two halves.
 */
module UploadKey {
  import opened Wrappers
  import opened Timestamp

  const PathSep: char := '/'
  const ExtSep: char := '.'
  const Joiner: char := '_'

  /** Index of the last `c` in `s`, or -1 when there is none (`str.rfind`). */
  function LastIndex(s: string, c: char): (r: int)
    ensures -1 <= r < |s|
    ensures 0 <= r ==> s[r] == c
    ensures forall j :: r < j < |s| ==> s[j] != c
  {
    if |s| == 0 then -1
    else if s[|s| - 1] == c then |s| - 1
    else LastIndex(s[..|s| - 1], c)
  }

  /** The last occurrence is the only index with nothing but other characters after it. */
  lemma LastIndexIs(s: string, c: char, r: int)
    requires -1 <= r < |s|
    requires 0 <= r ==> s[r] == c
    requires forall j :: r < j < |s| ==> s[j] != c
    ensures LastIndex(s, c) == r
  {
  }

  /** Some character of `p` in `[lo, hi)` is not a dot. */
  predicate HasNonDot(p: string, lo: int, hi: int) {
    exists k :: lo <= k < hi && 0 <= k < |p| && p[k] != ExtSep
  }

  /** Every dot of the last path component of `p` lies in that component's leading run of dots. */
  predicate OnlyLeadingDots(p: string) {
    forall d, k :: LastIndex(p, PathSep) < k < d < |p| && p[d] == ExtSep ==> p[k] == ExtSep
  }

  /**
   * `posixpath.splitext`: the extension runs from the last dot of the final
   * path component, unless every character before that dot in the component
   * is itself a dot (a hidden file such as `.bashrc` has no extension). So
   * the extension is empty exactly when the component has only leading dots.
   */
  function SplitExt(p: string): (r: (string, string))
    ensures r.0 + r.1 == p
    ensures r.1 == [] || r.1[0] == ExtSep
    ensures forall j :: 0 < j < |r.1| ==> r.1[j] != ExtSep && r.1[j] != PathSep
    ensures r.1 == [] <==> OnlyLeadingDots(p)
  {
    var sepIndex := LastIndex(p, PathSep);
    var dotIndex := LastIndex(p, ExtSep);
    if sepIndex < dotIndex && HasNonDot(p, sepIndex + 1, dotIndex) then
      (p[..dotIndex], p[dotIndex..])
    else
      (p, [])
  }

  /** The object name the page uploads under: `root + "_" + stamp + ext`. */
  function UniqueName(name: string, stamp: string): (key: string)
    ensures var (root, ext) := SplitExt(name);
      && |key| == |name| + 1 + |stamp|
      && key[..|root|] == root
      && key[|key| - |ext|..] == ext
      && key[|root|] == Joiner
      && key[|root| + 1..|root| + 1 + |stamp|] == stamp
      && key[..|root|] + key[|root| + 1 + |stamp|..] == name
  {
    var (root, ext) := SplitExt(name);
    var key := root + [Joiner] + stamp + ext;
    assert key[..|root|] + key[|root| + 1 + |stamp|..] == root + ext;
    key
  }

  /**
   * Recovers the original name and the timestamp from a key: split the key at
   * its extension, then take the `_` and twenty digits off the end of its root.
   */
  function ParseKey(key: string): (r: Option<(string, string)>)
    ensures r.Some? ==> IsTimestamp(r.value.1) && |r.value.0| + 1 + Width == |key|
  {
    var (stem, ext) := SplitExt(key);
    if |stem| > Width && stem[|stem| - Width - 1] == Joiner && IsTimestamp(stem[|stem| - Width..]) then
      Some((stem[..|stem| - Width - 1] + ext, stem[|stem| - Width..]))
    else
      None
  }

  /** Appending characters other than `c` does not move the last `c`. */
  lemma LastIndexAppend(s: string, t: string, c: char)
    requires forall j :: 0 <= j < |t| ==> t[j] != c
    ensures LastIndex(s + t, c) == LastIndex(s, c)
  {
    var r := LastIndex(s, c);
    forall j | r < j < |s + t| ensures (s + t)[j] != c {
      if j >= |s| { assert (s + t)[j] == t[j - |s|]; }
    }
    LastIndexIs(s + t, c, r);
  }

  /** The inserted `_` and timestamp contain neither a dot nor a separator. */
  lemma InsertPlain(stamp: string)
    requires IsTimestamp(stamp)
    ensures forall j :: 0 <= j < |[Joiner] + stamp| ==>
      ([Joiner] + stamp)[j] != PathSep && ([Joiner] + stamp)[j] != ExtSep
  {
    var mid := [Joiner] + stamp;
    forall j | 0 <= j < |mid| ensures mid[j] != PathSep && mid[j] != ExtSep {
      if j > 0 { assert mid[j] == stamp[j - 1] && IsDigit(stamp[j - 1]); }
    }
  }

  /** A name without an extension keeps having none once `_` and the timestamp follow it. */
  lemma SplitExtNoExt(name: string, stamp: string)
    requires IsTimestamp(stamp)
    requires SplitExt(name).1 == []
    ensures SplitExt(name + [Joiner] + stamp) == (name + [Joiner] + stamp, [])
  {
    var mid := [Joiner] + stamp;
    var key := name + mid;
    assert name + [Joiner] + stamp == key;
    InsertPlain(stamp);
    LastIndexAppend(name, mid, PathSep);
    LastIndexAppend(name, mid, ExtSep);
  }

  /** A name with an extension keeps it, behind the inserted `_` and timestamp. */
  lemma SplitExtWithExt(name: string, stamp: string)
    requires IsTimestamp(stamp)
    requires SplitExt(name).1 != []
    ensures var (root, ext) := SplitExt(name);
      SplitExt(root + [Joiner] + stamp + ext) == (root + [Joiner] + stamp, ext)
  {
    var (root, ext) := SplitExt(name);
    var mid := [Joiner] + stamp;
    var stem := root + mid;
    var key := stem + ext;
    assert root + [Joiner] + stamp + ext == key;
    var s := LastIndex(name, PathSep);
    var d := LastIndex(name, ExtSep);
    assert root == name[..d] && ext == name[d..] && s < d;
    // the last dot of the key is the first character of the extension
    forall j | |stem| < j < |key| ensures key[j] != ExtSep {
      assert key[j] == ext[j - |stem|];
    }
    LastIndexIs(key, ExtSep, |stem|);
    // the last separator of the key is the last separator of the root
    InsertPlain(stamp);
    forall j | 0 <= j < |ext| ensures ext[j] != PathSep { }
    LastIndexAppend(root, mid, PathSep);
    LastIndexAppend(stem, ext, PathSep);
    LastIndexIs(root, PathSep, s);
    assert key[|root|] == Joiner;
    assert HasNonDot(key, s + 1, |stem|);
    assert key[..|stem|] == stem;
    assert key[|stem|..] == ext;
  }

  /** Splitting a key finds the same extension as splitting the original name. */
  lemma SplitExtOfUniqueName(name: string, stamp: string)
    requires IsTimestamp(stamp)
    ensures var (root, ext) := SplitExt(name);
      SplitExt(UniqueName(name, stamp)) == (root + [Joiner] + stamp, ext)
  {
    var (root, ext) := SplitExt(name);
    if ext == [] {
      assert root == name;
      SplitExtNoExt(name, stamp);
    } else {
      SplitExtWithExt(name, stamp);
    }
  }

  /** The original name and the timestamp can be read back from every key. */
  lemma ParseUniqueName(name: string, stamp: string)
    requires IsTimestamp(stamp)
    ensures ParseKey(UniqueName(name, stamp)) == Some((name, stamp))
  {
    var (root, ext) := SplitExt(name);
    var key := UniqueName(name, stamp);
    SplitExtOfUniqueName(name, stamp);
    var stem := root + [Joiner] + stamp;
    assert SplitExt(key) == (stem, ext);
    assert |stem| > Width;
    assert stem[|stem| - Width - 1] == Joiner;
    assert stem[|stem| - Width..] == stamp;
    assert stem[..|stem| - Width - 1] == root;
    assert root + ext == name;
    assert ParseKey(key) == Some((stem[..|stem| - Width - 1] + ext, stem[|stem| - Width..]));
  }

  /** Different (name, timestamp) pairs never share a key. */
  lemma UniqueNameInjective(name1: string, stamp1: string, name2: string, stamp2: string)
    requires IsTimestamp(stamp1) && IsTimestamp(stamp2)
    requires UniqueName(name1, stamp1) == UniqueName(name2, stamp2)
    ensures name1 == name2 && stamp1 == stamp2
  {
    ParseUniqueName(name1, stamp1);
    ParseUniqueName(name2, stamp2);
  }

  /** Two uploads of the same file at different clock readings get different keys. */
  lemma DistinctReadingsDistinctKeys(name: string, t1: DateTime, t2: DateTime)
    requires ValidDateTime(t1) && ValidDateTime(t2)
    requires t1 != t2
    ensures UniqueName(name, Format(t1)) != UniqueName(name, Format(t2))
  {
    FormatInjective(t1, t2);
    if UniqueName(name, Format(t1)) == UniqueName(name, Format(t2)) {
      UniqueNameInjective(name, Format(t1), name, Format(t2));
    }
  }

  /** A plain name with one extension: `report.pdf` keeps its extension last. */
  lemma ReportKey(stamp: string)
    requires IsTimestamp(stamp)
    ensures UniqueName("report.pdf", stamp) == "report_" + stamp + ".pdf"
  {
    var p := "report.pdf";
    LastIndexIs(p, ExtSep, 6);
    LastIndexIs(p, PathSep, -1);
    assert HasNonDot(p, 0, 6) by { assert p[0] != ExtSep; }
    assert p[..6] == "report" && p[6..] == ".pdf";
  }

  /** A hidden file has no extension, so its timestamp goes at the end. */
  lemma HiddenFileKey(stamp: string)
    requires IsTimestamp(stamp)
    ensures UniqueName(".pdf", stamp) == ".pdf_" + stamp
  {
    var p := ".pdf";
    LastIndexIs(p, ExtSep, 0);
    assert SplitExt(p) == (".pdf", []);
  }
}

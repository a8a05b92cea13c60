/**
 * The path handling of the ingestion script: `name.lower().endswith(".pdf")`,
 * `os.path.join(root, name)` and `os.path.basename(path)` (POSIX flavour),
 * and the `walk_pdfs` generator over a given directory walk.
 */
module Paths {
  import opened Text

  /** `str.lower()` on one code point, for the ASCII letters only. */
  function LowerCodePoint(c: CodePoint): (r: CodePoint)
  {
    if 0x41 <= c <= 0x5A then c + 0x20 else c
  }

  predicate IsAsciiUpper(c: int) { 0x41 <= c <= 0x5A }

  /**
   * `str.lower()` for ASCII case: no capital letter remains, each capital
   * becomes its small letter, and every other code point is kept.
   */
  function Lower(s: PyStr): (r: PyStr)
    ensures |r| == |s|
    ensures forall i :: 0 <= i < |r| ==> !IsAsciiUpper(r[i])
    ensures forall i :: 0 <= i < |s| ==> r[i] == s[i] || (IsAsciiUpper(s[i]) && r[i] == s[i] + 0x20)
  {
    seq(|s|, i requires 0 <= i < |s| => LowerCodePoint(s[i]))
  }

  /** Lower-casing twice is lower-casing once. */
  lemma LowerIdempotent(s: PyStr)
    ensures Lower(Lower(s)) == Lower(s)
  {
    var once := Lower(s);
    forall i | 0 <= i < |once| ensures Lower(once)[i] == once[i] {
      assert !IsAsciiUpper(once[i]);
    }
  }

  predicate EndsWith(s: PyStr, suffix: PyStr)
  {
    |suffix| <= |s| && s[|s| - |suffix|..] == suffix
  }

  const PdfExtension: PyStr := [Dot, 0x70, 0x64, 0x66]  // ".pdf"

  /** The filter of `walk_pdfs`: `name.lower().endswith(".pdf")`. */
  predicate IsPdfName(name: PyStr)
  {
    EndsWith(Lower(name), PdfExtension)
  }

  /** The filter accepts exactly the names whose last four code points are `.`, `p`/`P`, `d`/`D`, `f`/`F`. */
  lemma PdfNameCharacterized(name: PyStr)
    ensures IsPdfName(name) <==>
      |name| >= 4 &&
      name[|name| - 4] == Dot &&
      name[|name| - 3] in {0x70, 0x50} &&
      name[|name| - 2] in {0x64, 0x44} &&
      name[|name| - 1] in {0x66, 0x46}
  {
    var n := |name|;
    if n >= 4 {
      var tail := Lower(name)[n - 4..];
      assert tail == [LowerCodePoint(name[n - 4]), LowerCodePoint(name[n - 3]),
                      LowerCodePoint(name[n - 2]), LowerCodePoint(name[n - 1])];
    }
  }

  lemma UpperCaseExtensionAccepted()
    ensures IsPdfName(FromString("A.PDF"))
  {
    PdfNameCharacterized(FromString("A.PDF"));
  }

  lemma BackupExtensionRejected()
    ensures !IsPdfName(FromString("a.pdf.bak"))
  {
    PdfNameCharacterized(FromString("a.pdf.bak"));
  }

  /**
   * `posixpath.join(a, b)`: the path ends with `b`, and unless `b` is
   * absolute it starts with `a`.
   */
  function Join(a: PyStr, b: PyStr): (p: PyStr)
    ensures EndsWith(p, b)
    ensures (|b| == 0 || b[0] != Slash) ==> |a| <= |p| && p[..|a|] == a
  {
    if |b| > 0 && b[0] == Slash then b
    else if |a| == 0 || a[|a| - 1] == Slash then a + b
    else a + [Slash] + b
  }

  /** `s.rfind("/")`: index of the last slash, or -1. */
  function LastSlash(s: PyStr): (r: int)
    ensures -1 <= r < |s|
    ensures r >= 0 ==> s[r] == Slash
    ensures forall i :: r < i < |s| ==> s[i] != Slash
  {
    if |s| == 0 then -1
    else if s[|s| - 1] == Slash then |s| - 1
    else LastSlash(s[..|s| - 1])
  }

  /** `posixpath.basename(p)`: everything after the last slash. */
  function Basename(p: PyStr): (r: PyStr)
    ensures Slash !in r
    ensures EndsWith(p, r)
    ensures |r| < |p| ==> p[|p| - |r| - 1] == Slash
  {
    p[LastSlash(p) + 1..]
  }

  lemma {:induction false} LastSlashAppend(prefix: PyStr, name: PyStr)
    requires Slash !in name
    ensures LastSlash(prefix + name) == LastSlash(prefix)
    decreases |name|
  {
    if |name| > 0 {
      var s := prefix + name;
      assert s[|s| - 1] == name[|name| - 1];
      assert s[..|s| - 1] == prefix + name[..|name| - 1];
      LastSlashAppend(prefix, name[..|name| - 1]);
    } else {
      assert prefix + name == prefix;
    }
  }

  /**
   * A file name from the directory walk holds no slash, so joining it to its
   * directory and taking the basename gives the name back.
   */
  lemma BasenameOfJoin(root: PyStr, name: PyStr)
    requires Slash !in name
    ensures Basename(Join(root, name)) == name
  {
    var p := Join(root, name);
    assert |name| == 0 || name[0] != Slash by { if |name| > 0 { assert name[0] in name; } }
    if |root| == 0 {
      assert p == [] + name;
      LastSlashAppend([], name);
    } else if root[|root| - 1] == Slash {
      LastSlashAppend(root, name);
      assert LastSlash(root) == |root| - 1;
      assert p[|root|..] == name;
    } else {
      LastSlashAppend(root + [Slash], name);
      assert LastSlash(root + [Slash]) == |root|;
      assert p[|root| + 1..] == name;
    }
  }

  /** One file reported by the directory walk: the directory it is in and its name. */
  datatype Entry = Entry(root: PyStr, name: PyStr)

  /** `walk_pdfs(folder)` over the walk `entries`, in walk order. */
  function WalkPdfs(entries: seq<Entry>): (paths: seq<PyStr>)
    ensures |paths| <= |entries|
    ensures forall p :: p in paths <==>
      exists i :: 0 <= i < |entries| && IsPdfName(entries[i].name) && p == Join(entries[i].root, entries[i].name)
  {
    if entries == [] then []
    else
      var e := entries[0];
      var rest := WalkPdfs(entries[1..]);
      assert forall i :: 1 <= i < |entries| ==> entries[i] == entries[1..][i - 1];
      if IsPdfName(e.name) then [Join(e.root, e.name)] + rest else rest
  }

  /** The walk is consumed in order: walking `a` then `b` yields `a`'s PDFs, then `b`'s. */
  lemma {:induction false} WalkPdfsAppend(a: seq<Entry>, b: seq<Entry>)
    ensures WalkPdfs(a + b) == WalkPdfs(a) + WalkPdfs(b)
  {
    if a != [] {
      assert (a + b)[1..] == a[1..] + b;
      WalkPdfsAppend(a[1..], b);
    } else {
      assert a + b == b;
    }
  }

  /**
   * The basename of every path `walk_pdfs` yields is the bare name of a walk
   * entry that passed the filter.
   */
  lemma WalkedBasename(entries: seq<Entry>, p: PyStr)
    requires forall i :: 0 <= i < |entries| ==> Slash !in entries[i].name
    requires p in WalkPdfs(entries)
    ensures exists i :: 0 <= i < |entries| && IsPdfName(entries[i].name) && Basename(p) == entries[i].name
  {
    var i :| 0 <= i < |entries| && IsPdfName(entries[i].name) && p == Join(entries[i].root, entries[i].name);
    BasenameOfJoin(entries[i].root, entries[i].name);
  }
}

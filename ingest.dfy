/**
 * `main` of the ingestion script: walk the folder, and for every PDF and
 * every page write one document keyed by `file_page_id(basename, page)`,
 * then commit in a `finally` block.
 */
module Ingest {
  import opened Text
  import opened Utf8
  import opened DocIdentity
  import opened Paths
  import opened Pages
  import opened Store

  /** What `fitz.open` finds at each path. */
  type Library = PyStr -> Document

  /** How a run ends: normally, or with the exception of a PDF that would not open. */
  datatype RunOutcome = Done | Aborted(path: PyStr)

  /** The document `main` writes for one page: the keyword arguments of `update_document`. */
  function PageRecord(hash: Hasher, filename: PyStr, page: int, text: PyStr): Record
  {
    Record(FilePageId(hash, filename, page), filename, filename, page, text)
  }

  /** What every written document satisfies. */
  predicate WellFormed(hash: Hasher, r: Record)
  {
    r.title == r.filename && Slash !in r.filename && r.page >= 1 &&
    r.docId == FilePageId(hash, r.filename, r.page)
  }

  /** The documents written for one PDF that opened, in page order. */
  function FileRecords(hash: Hasher, path: PyStr, pages: seq<PageResult>): (rs: seq<Record>)
    ensures |rs| == |pages|
    ensures forall i :: 0 <= i < |rs| ==> rs[i] == PageRecord(hash, Basename(path), i + 1, TextOf(pages[i]))
  {
    var filename := Basename(path);
    var pairs := ExtractPages(pages);
    seq(|pairs|, i requires 0 <= i < |pairs| => PageRecord(hash, filename, pairs[i].0, pairs[i].1))
  }

  /** Index of the first path that `fitz.open` cannot read, or the number of paths. */
  function FirstUnreadable(paths: seq<PyStr>, lib: Library): (k: nat)
    ensures k <= |paths|
    ensures forall i :: 0 <= i < k ==> lib(paths[i]).Pages?
    ensures k < |paths| ==> lib(paths[k]).Unreadable?
  {
    if paths == [] || lib(paths[0]).Unreadable? then 0
    else 1 + FirstUnreadable(paths[1..], lib)
  }

  /** The documents written for `paths` in order, skipping nothing (used on paths that all open). */
  function FilesRecords(hash: Hasher, paths: seq<PyStr>, lib: Library): (rs: seq<Record>)
  {
    if paths == [] then []
    else
      var last := paths[|paths| - 1];
      var here := match lib(last) case Unreadable => [] case Pages(ps) => FileRecords(hash, last, ps);
      FilesRecords(hash, paths[..|paths| - 1], lib) + here
  }

  /** Every document written for `paths` is well formed and named after one of them. */
  lemma {:induction false} FilesRecordsShape(hash: Hasher, paths: seq<PyStr>, lib: Library)
    ensures forall r :: r in FilesRecords(hash, paths, lib) ==> WellFormed(hash, r)
    ensures forall r :: r in FilesRecords(hash, paths, lib) ==> exists p :: p in paths && r.filename == Basename(p)
  {
    if paths != [] {
      var init, last := paths[..|paths| - 1], paths[|paths| - 1];
      FilesRecordsShape(hash, init, lib);
      var a := FilesRecords(hash, init, lib);
      var here := match lib(last) case Unreadable => [] case Pages(ps) => FileRecords(hash, last, ps);
      assert FilesRecords(hash, paths, lib) == a + here;
      forall r | r in here ensures WellFormed(hash, r) && r.filename == Basename(last) {
        var i :| 0 <= i < |here| && here[i] == r;
      }
      forall r | r in a ensures exists p :: p in paths && r.filename == Basename(p) {
        var p :| p in init && r.filename == Basename(p);
        assert p in paths;
      }
    }
  }

  /** Every document a run writes, in the order `update_document` is called. */
  function RunRecords(hash: Hasher, entries: seq<Entry>, lib: Library): (rs: seq<Record>)
  {
    var paths := WalkPdfs(entries);
    FilesRecords(hash, paths[..FirstUnreadable(paths, lib)], lib)
  }

  /** `p` is the first of `paths` that `fitz.open` cannot read: every path before it opens. */
  predicate FirstFailing(paths: seq<PyStr>, lib: Library, p: PyStr)
  {
    exists k :: 0 <= k < |paths| && paths[k] == p && lib(paths[k]).Unreadable? &&
      forall i :: 0 <= i < k ==> lib(paths[i]).Pages?
  }

  /** How `main` ends: at the first walked PDF that does not open, or normally when they all open. */
  function RunOutcomeOf(entries: seq<Entry>, lib: Library): (r: RunOutcome)
    ensures r.Aborted? ==> FirstFailing(WalkPdfs(entries), lib, r.path)
    ensures r.Done? <==> forall p :: p in WalkPdfs(entries) ==> lib(p).Pages?
  {
    var paths := WalkPdfs(entries);
    var k := FirstUnreadable(paths, lib);
    if k < |paths| then
      assert paths[k] == paths[k] && lib(paths[k]).Unreadable? && forall i :: 0 <= i < k ==> lib(paths[i]).Pages?;
      Aborted(paths[k])
    else Done
  }

  /** The committed table after a run over an index directory found in the given state. */
  function CommittedAfter(indexExists: bool, committed: Table, hash: Hasher, entries: seq<Entry>, lib: Library): (t: Table)
    ensures t.Keys == (if indexExists then committed.Keys else {}) + DocIds(RunRecords(hash, entries, lib))
  {
    Upserts(if indexExists then committed else map[], RunRecords(hash, entries, lib))
  }

  lemma FilesRecordsStep(hash: Hasher, paths: seq<PyStr>, i: nat, lib: Library)
    requires i < |paths| && lib(paths[i]).Pages?
    ensures FilesRecords(hash, paths[..i + 1], lib) == FilesRecords(hash, paths[..i], lib) + FileRecords(hash, paths[i], lib(paths[i]).pages)
  {
    assert paths[..i + 1][..i] == paths[..i];
  }

  /** One more update: the table after the first `j + 1` documents. */
  lemma UpsertsPrefixStep(m: Table, rs: seq<Record>, j: nat)
    requires j < |rs|
    ensures Upserts(m, rs[..j + 1]) == Upserts(m, rs[..j])[rs[j].docId := rs[j]]
  {
    assert rs[..j + 1][..j] == rs[..j];
  }

  /** Writing the `j`-th pair `extract_pages` yields extends the pending table by the `j`-th document of the file. */
  lemma PageStep(m: Table, hash: Hasher, path: PyStr, doc: seq<PageResult>, j: nat)
    requires j < |doc|
    ensures var pages, rs := ExtractPages(doc), FileRecords(hash, path, doc);
            var r := PageRecord(hash, Basename(path), pages[j].0, pages[j].1);
            Upserts(m, rs[..j + 1]) == Upserts(m, rs[..j])[r.docId := r]
  {
    var rs := FileRecords(hash, path, doc);
    UpsertsPrefixStep(m, rs, j);
  }

  /**
   * The body of `main`'s outer loop for a PDF that opened: `basename`, then
   * one `update_document` per page that `extract_pages` yields.
   */
  method WritePdf(ix: IndexStore, hash: Hasher, path: PyStr, doc: seq<PageResult>)
    requires ix.Valid() && ix.indexExists
    modifies ix
    ensures ix.Valid() && ix.indexExists && ix.committed == old(ix.committed)
    ensures ix.pending == Upserts(old(ix.pending), FileRecords(hash, path, doc))
  {
    var filename := Basename(path);
    var pages := ExtractPages(doc);
    ghost var expected := FileRecords(hash, path, doc);
    var j := 0;
    while j < |pages|
      invariant j <= |pages| == |expected|
      invariant ix.Valid() && ix.indexExists && ix.committed == old(ix.committed)
      invariant ix.pending == Upserts(old(ix.pending), expected[..j])
    {
      PageStep(old(ix.pending), hash, path, doc, j);
      ix.UpdateDocument(PageRecord(hash, filename, pages[j].0, pages[j].1));
      j := j + 1;
    }
    assert expected[..j] == expected;
  }

  /**
   * `main`: `get_index(create=True)`, one writer, the pages of every PDF the
   * walk yields, and `commit` in `finally`, so a PDF that does not open
   * ends the run with every earlier update committed.
   */
  method IndexFolder(ix: IndexStore, hash: Hasher, entries: seq<Entry>, lib: Library) returns (outcome: RunOutcome)
    requires ix.Valid()
    modifies ix
    ensures ix.Valid() && ix.indexExists && ix.pending == map[]
    ensures ix.committed == CommittedAfter(old(ix.indexExists), old(ix.committed), hash, entries, lib)
    ensures outcome == RunOutcomeOf(entries, lib)
  {
    var _ := ix.GetIndex(true);
    ix.Writer();
    var paths := WalkPdfs(entries);
    ghost var stop := FirstUnreadable(paths, lib);
    outcome := Done;
    var i := 0;
    while i < |paths|
      invariant i <= stop
      invariant ix.Valid() && ix.indexExists && ix.committed == old(ix.committed)
      invariant ix.pending == Upserts(map[], FilesRecords(hash, paths[..i], lib))
    {
      var path := paths[i];
      var doc := lib(path);
      if doc.Unreadable? {
        outcome := Aborted(path);
        break;
      }
      assert i < stop;
      WritePdf(ix, hash, path, doc.pages);
      FilesRecordsStep(hash, paths, i, lib);
      UpsertsAppend(map[], FilesRecords(hash, paths[..i], lib), FileRecords(hash, path, doc.pages));
      i := i + 1;
    }
    ix.Commit();
    assert paths[..i] == paths[..stop];
    UpsertsOverBase(old(ix.committed), FilesRecords(hash, paths[..i], lib));
  }
}

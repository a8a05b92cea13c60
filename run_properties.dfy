/** What a whole ingestion run promises, stated over the pure view of `main`. */
module RunProperties {
  import opened Text
  import opened Utf8
  import opened DocIdentity
  import opened Paths
  import opened Pages
  import opened Store
  import opened Ingest

  /**
   * Every written document is keyed by its own (filename, page), has
   * `title == filename`, and its filename is the bare name of a walked PDF:
   * the folder part of the path is gone.
   */
  lemma RunRecordsShape(hash: Hasher, entries: seq<Entry>, lib: Library)
    requires forall i :: 0 <= i < |entries| ==> Slash !in entries[i].name
    ensures forall r :: r in RunRecords(hash, entries, lib) ==> WellFormed(hash, r)
    ensures forall r :: r in RunRecords(hash, entries, lib) ==>
      exists i :: 0 <= i < |entries| && IsPdfName(entries[i].name) && r.filename == entries[i].name
  {
    var paths := WalkPdfs(entries);
    var done := paths[..FirstUnreadable(paths, lib)];
    var rs := RunRecords(hash, entries, lib);
    FilesRecordsShape(hash, done, lib);
    forall r | r in rs
      ensures exists i :: 0 <= i < |entries| && IsPdfName(entries[i].name) && r.filename == entries[i].name
    {
      var k :| 0 <= k < |rs| && rs[k] == r;
      var p :| p in done && r.filename == Basename(p);
      assert p in paths;
      WalkedBasename(entries, p);
    }
  }

  /** Running again over an unchanged folder leaves the committed index as it was. */
  lemma RerunIdempotent(indexExists: bool, committed: Table, hash: Hasher, entries: seq<Entry>, lib: Library)
    ensures var once := CommittedAfter(indexExists, committed, hash, entries, lib);
            CommittedAfter(true, once, hash, entries, lib) == once
  {
    UpsertsIdempotent(if indexExists then committed else map[], RunRecords(hash, entries, lib));
  }

  /**
   * An existing index is opened, not recreated: a document from an earlier
   * run stays unless this run writes its key.
   */
  lemma EarlierRecordsPersist(committed: Table, hash: Hasher, entries: seq<Entry>, lib: Library, k: string)
    requires k in committed
    requires k !in DocIds(RunRecords(hash, entries, lib))
    ensures k in CommittedAfter(true, committed, hash, entries, lib)
    ensures CommittedAfter(true, committed, hash, entries, lib)[k] == committed[k]
  {
    UpsertsUntouched(committed, RunRecords(hash, entries, lib), k);
  }

  /** The distinct (filename, page) pairs among the documents. */
  function Pairs(rs: seq<Record>): set<(PyStr, int)>
  {
    set i | 0 <= i < |rs| :: (rs[i].filename, rs[i].page)
  }

  /** SHA-1 does not collide on the preimages of these documents. */
  predicate NoCollisions(hash: Hasher, rs: seq<Record>)
  {
    forall i, j ::
      && 0 <= i < |rs| && 0 <= j < |rs|
      && hash(Preimage(rs[i].filename, rs[i].page)) == hash(Preimage(rs[j].filename, rs[j].page))
      ==> Preimage(rs[i].filename, rs[i].page) == Preimage(rs[j].filename, rs[j].page)
  }

  /** The keys of a set of (filename, page) pairs. */
  function IdsOf(key: ((PyStr, int)) -> string, ps: set<(PyStr, int)>): set<string>
  {
    set p | p in ps :: key(p)
  }

  /** An injective key function keeps the number of pairs. */
  lemma {:induction false} InjectiveIds(key: ((PyStr, int)) -> string, ps: set<(PyStr, int)>)
    requires forall p, q :: p in ps && q in ps && key(p) == key(q) ==> p == q
    ensures |IdsOf(key, ps)| == |ps|
    decreases |ps|
  {
    if ps != {} {
      var x :| x in ps;
      var rest := ps - {x};
      InjectiveIds(key, rest);
      assert IdsOf(key, ps) == IdsOf(key, rest) + {key(x)};
      assert key(x) !in IdsOf(key, rest);
    }
  }

  /** When every document is keyed by its (filename, page), the keys written are the keys of those pairs. */
  lemma DocIdsOfPairs(key: ((PyStr, int)) -> string, rs: seq<Record>)
    requires forall i :: 0 <= i < |rs| ==> rs[i].docId == key((rs[i].filename, rs[i].page))
    ensures DocIds(rs) == IdsOf(key, Pairs(rs))
  {
    var ps := Pairs(rs);
    forall id | id in IdsOf(key, ps) ensures id in DocIds(rs) {
      var p :| p in ps && id == key(p);
      var i :| 0 <= i < |rs| && p == (rs[i].filename, rs[i].page);
      assert rs[i].docId == id;
    }
    forall id | id in DocIds(rs) ensures id in IdsOf(key, ps) {
      var i :| 0 <= i < |rs| && rs[i].docId == id;
      var p := (rs[i].filename, rs[i].page);
      assert p in ps;
    }
  }

  /** Without SHA-1 collisions, surrogate-free pairs never share a page id. */
  lemma PairIdsInjective(hash: Hasher, rs: seq<Record>, p: (PyStr, int), q: (PyStr, int))
    requires forall i :: 0 <= i < |rs| ==> NoSurrogates(rs[i].filename)
    requires NoCollisions(hash, rs)
    requires p in Pairs(rs) && q in Pairs(rs)
    requires FilePageId(hash, p.0, p.1) == FilePageId(hash, q.0, q.1)
    ensures p == q
  {
    var i :| 0 <= i < |rs| && p == (rs[i].filename, rs[i].page);
    var j :| 0 <= j < |rs| && q == (rs[j].filename, rs[j].page);
    assert Preimage(p.0, p.1) == Preimage(q.0, q.1);
    PreimageInjective(p.0, p.1, q.0, q.1);
  }

  /** Well-formed documents are keyed by the page id of their (filename, page). */
  lemma WellFormedKeyed(hash: Hasher, rs: seq<Record>, key: ((PyStr, int)) -> string)
    requires forall i :: 0 <= i < |rs| ==> WellFormed(hash, rs[i])
    requires forall p :: key(p) == FilePageId(hash, p.0, p.1)
    ensures forall i :: 0 <= i < |rs| ==> rs[i].docId == key((rs[i].filename, rs[i].page))
  {
  }

  /** Without SHA-1 collisions, the page id is injective on the written pairs. */
  lemma KeyInjective(hash: Hasher, rs: seq<Record>, key: ((PyStr, int)) -> string)
    requires forall i :: 0 <= i < |rs| ==> NoSurrogates(rs[i].filename)
    requires NoCollisions(hash, rs)
    requires forall p :: key(p) == FilePageId(hash, p.0, p.1)
    ensures forall p, q :: p in Pairs(rs) && q in Pairs(rs) && key(p) == key(q) ==> p == q
  {
    forall p, q | p in Pairs(rs) && q in Pairs(rs) && key(p) == key(q) ensures p == q {
      PairIdsInjective(hash, rs, p, q);
    }
  }

  /** Documents keyed injectively by their (filename, page) leave one entry per pair. */
  lemma CountByKey(key: ((PyStr, int)) -> string, rs: seq<Record>)
    requires forall i :: 0 <= i < |rs| ==> rs[i].docId == key((rs[i].filename, rs[i].page))
    requires forall p, q :: p in Pairs(rs) && q in Pairs(rs) && key(p) == key(q) ==> p == q
    ensures |Upserts(map[], rs)| == |Pairs(rs)|
  {
    InjectiveIds(key, Pairs(rs));
    DocIdsOfPairs(key, rs);
    UpsertsCount(rs);
  }

  /**
   * From an empty index, the number of documents is the number of distinct
   * (filename, page) pairs written, as long as no filename holds a lone
   * surrogate and SHA-1 does not collide.
   */
  lemma DistinctRecordCount(hash: Hasher, rs: seq<Record>)
    requires forall i :: 0 <= i < |rs| ==> WellFormed(hash, rs[i]) && NoSurrogates(rs[i].filename)
    requires NoCollisions(hash, rs)
    ensures |Upserts(map[], rs)| == |Pairs(rs)|
  {
    var key := (p: (PyStr, int)) => FilePageId(hash, p.0, p.1);
    WellFormedKeyed(hash, rs, key);
    KeyInjective(hash, rs, key);
    CountByKey(key, rs);
  }

  /**
   * A run into a new index stores one document per distinct (filename,
   * page) pair it writes, when no walked name holds a slash or a lone
   * surrogate and SHA-1 does not collide on the pages written.
   */
  lemma RunDocumentCount(hash: Hasher, entries: seq<Entry>, lib: Library)
    requires forall i :: 0 <= i < |entries| ==> Slash !in entries[i].name && NoSurrogates(entries[i].name)
    requires NoCollisions(hash, RunRecords(hash, entries, lib))
    ensures |CommittedAfter(false, map[], hash, entries, lib)| == |Pairs(RunRecords(hash, entries, lib))|
  {
    var rs := RunRecords(hash, entries, lib);
    RunRecordsShape(hash, entries, lib);
    forall i | 0 <= i < |rs| ensures WellFormed(hash, rs[i]) && NoSurrogates(rs[i].filename) {
      assert rs[i] in rs;
    }
    DistinctRecordCount(hash, rs);
  }

  /** A walk of two entries whose names pass the filter yields both joined paths, in order. */
  lemma TwoPdfWalk(dir1: PyStr, name1: PyStr, dir2: PyStr, name2: PyStr)
    requires IsPdfName(name1) && IsPdfName(name2)
    ensures WalkPdfs([Entry(dir1, name1), Entry(dir2, name2)]) == [Join(dir1, name1), Join(dir2, name2)]
  {
    var second := [Entry(dir2, name2)];
    assert [Entry(dir1, name1), Entry(dir2, name2)][1..] == second && second[1..] == [];
  }

  /** Two paths that both open are written whole, the first one's pages first. */
  lemma TwoFilesRecords(hash: Hasher, p1: PyStr, p2: PyStr, pages1: seq<PageResult>, pages2: seq<PageResult>, lib: Library)
    requires lib(p1) == Pages(pages1) && lib(p2) == Pages(pages2)
    ensures var paths := [p1, p2];
            FilesRecords(hash, paths[..FirstUnreadable(paths, lib)], lib) ==
            FileRecords(hash, p1, pages1) + FileRecords(hash, p2, pages2)
  {
    var paths := [p1, p2];
    assert FirstUnreadable(paths[1..][1..], lib) == 0;
    assert FirstUnreadable(paths, lib) == 2;
    var first: seq<PyStr> := [p1];
    assert paths[..2] == paths && paths[..1] == first && first[..0] == [];
    assert FilesRecords(hash, first, lib) == FileRecords(hash, p1, pages1);
  }

  /** A walk of two PDFs that both open writes the first one's pages, then the second one's. */
  lemma TwoPdfRun(hash: Hasher, dir1: PyStr, name1: PyStr, dir2: PyStr, name2: PyStr,
                  pages1: seq<PageResult>, pages2: seq<PageResult>, lib: Library)
    requires IsPdfName(name1) && IsPdfName(name2)
    requires lib(Join(dir1, name1)) == Pages(pages1) && lib(Join(dir2, name2)) == Pages(pages2)
    ensures RunRecords(hash, [Entry(dir1, name1), Entry(dir2, name2)], lib) ==
            FileRecords(hash, Join(dir1, name1), pages1) + FileRecords(hash, Join(dir2, name2), pages2)
  {
    TwoPdfWalk(dir1, name1, dir2, name2);
    TwoFilesRecords(hash, Join(dir1, name1), Join(dir2, name2), pages1, pages2, lib);
  }

  /** A key absent after position `j` of both halves is absent after `j` of their concatenation. */
  lemma NoKeyAfter(r1: seq<Record>, r2: seq<Record>, j: int, id: string)
    requires forall x :: 0 <= x < |r1| && j < x ==> r1[x].docId != id
    requires forall x :: 0 <= x < |r2| && j < |r1| + x ==> r2[x].docId != id
    ensures forall i :: j < i < |r1| + |r2| && 0 <= i ==> (r1 + r2)[i].docId != id
  {
    forall i | j < i < |r1| + |r2| && 0 <= i ensures (r1 + r2)[i].docId != id {
      if i >= |r1| {
        assert (r1 + r2)[i] == r2[i - |r1|];
      }
    }
  }

  /**
   * Two runs of documents keyed by page number, 1 upwards, written one after
   * the other: each key ends up holding the later run's page when the later
   * run has that page, and the earlier run's otherwise.
   */
  lemma PageKeyedLastWins(r1: seq<Record>, r2: seq<Record>, key: int -> string, k: int)
    requires forall x :: 0 <= x < |r1| ==> r1[x].docId == key(x + 1)
    requires forall x :: 0 <= x < |r2| ==> r2[x].docId == key(x + 1)
    requires forall a, b :: (1 <= a <= |r1| || 1 <= a <= |r2|) && (1 <= b <= |r1| || 1 <= b <= |r2|) && a != b ==>
      key(a) != key(b)
    requires 1 <= k <= |r1| || 1 <= k <= |r2|
    ensures var t := Upserts(map[], r1 + r2);
            key(k) in t && t[key(k)] == if k <= |r2| then r2[k - 1] else r1[k - 1]
  {
    var rs := r1 + r2;
    var j := if k <= |r2| then |r1| + k - 1 else k - 1;
    assert rs[j] == if k <= |r2| then r2[k - 1] else r1[k - 1];
    NoKeyAfter(r1, r2, j, key(k));
    UpsertsLastWins(map[], rs, j);
  }

  /** The document at position `x` of one file's documents carries the key of page `x + 1`. */
  lemma FileRecordsKeyed(hash: Hasher, name: PyStr, path: PyStr, pages: seq<PageResult>, key: int -> string)
    requires Basename(path) == name
    requires forall a :: key(a) == FilePageId(hash, name, a)
    ensures forall x :: 0 <= x < |pages| ==> FileRecords(hash, path, pages)[x].docId == key(x + 1)
  {
  }

  /** Among the pages of two files with one name, each key holds the later file's page when it has one. */
  lemma LaterFileWins(hash: Hasher, name: PyStr, path1: PyStr, path2: PyStr,
                      pages1: seq<PageResult>, pages2: seq<PageResult>, k: int)
    requires Basename(path1) == name && Basename(path2) == name
    requires forall a, b :: (1 <= a <= |pages1| || 1 <= a <= |pages2|) && (1 <= b <= |pages1| || 1 <= b <= |pages2|) && a != b ==>
      FilePageId(hash, name, a) != FilePageId(hash, name, b)
    requires 1 <= k <= |pages1| || 1 <= k <= |pages2|
    ensures var t := Upserts(map[], FileRecords(hash, path1, pages1) + FileRecords(hash, path2, pages2));
            var id := FilePageId(hash, name, k);
            id in t &&
            t[id] == PageRecord(hash, name, k, if k <= |pages2| then TextOf(pages2[k - 1]) else TextOf(pages1[k - 1]))
  {
    var key := a => FilePageId(hash, name, a);
    var r1, r2 := FileRecords(hash, path1, pages1), FileRecords(hash, path2, pages2);
    FileRecordsKeyed(hash, name, path1, pages1, key);
    FileRecordsKeyed(hash, name, path2, pages2, key);
    PageKeyedLastWins(r1, r2, key, k);
  }

  /**
   * Two PDFs with the same name in different folders: the later one's pages
   * replace the earlier one's, and pages only the earlier one has remain.
   */
  lemma SameBasenameLaterWins(hash: Hasher, dir1: PyStr, dir2: PyStr, name: PyStr,
                              pages1: seq<PageResult>, pages2: seq<PageResult>, lib: Library, k: int)
    requires IsPdfName(name) && Slash !in name
    requires lib(Join(dir1, name)) == Pages(pages1) && lib(Join(dir2, name)) == Pages(pages2)
    requires forall a, b :: (1 <= a <= |pages1| || 1 <= a <= |pages2|) && (1 <= b <= |pages1| || 1 <= b <= |pages2|) && a != b ==>
      FilePageId(hash, name, a) != FilePageId(hash, name, b)
    requires 1 <= k <= |pages1| || 1 <= k <= |pages2|
    ensures var t := CommittedAfter(false, map[], hash, [Entry(dir1, name), Entry(dir2, name)], lib);
            var id := FilePageId(hash, name, k);
            id in t &&
            t[id] == PageRecord(hash, name, k, if k <= |pages2| then TextOf(pages2[k - 1]) else TextOf(pages1[k - 1]))
  {
    TwoPdfRun(hash, dir1, name, dir2, name, pages1, pages2, lib);
    BasenameOfJoin(dir1, name);
    BasenameOfJoin(dir2, name);
    LaterFileWins(hash, name, Join(dir1, name), Join(dir2, name), pages1, pages2, k);
  }

  /** `lib1` and `lib2` open the same files with the same page counts; only texts may differ. */
  ghost predicate SameShape(lib1: Library, lib2: Library)
  {
    forall p :: (lib1(p).Unreadable? <==> lib2(p).Unreadable?) &&
      (lib1(p).Pages? ==> |lib1(p).pages| == |lib2(p).pages|)
  }

  /** Documents agree on every field but the content. */
  predicate SameButContent(rs1: seq<Record>, rs2: seq<Record>)
  {
    |rs1| == |rs2| &&
    forall i :: 0 <= i < |rs1| ==>
      rs1[i].docId == rs2[i].docId && rs1[i].filename == rs2[i].filename &&
      rs1[i].title == rs2[i].title && rs1[i].page == rs2[i].page
  }

  lemma SameButContentConcat(a1: seq<Record>, b1: seq<Record>, a2: seq<Record>, b2: seq<Record>)
    requires SameButContent(a1, a2) && SameButContent(b1, b2)
    ensures SameButContent(a1 + b1, a2 + b2)
  {
    forall i | 0 <= i < |a1| + |b1|
      ensures (a1 + b1)[i].docId == (a2 + b2)[i].docId && (a1 + b1)[i].filename == (a2 + b2)[i].filename
      ensures (a1 + b1)[i].title == (a2 + b2)[i].title && (a1 + b1)[i].page == (a2 + b2)[i].page
    {
      if i >= |a1| {
        assert (a1 + b1)[i] == b1[i - |a1|] && (a2 + b2)[i] == b2[i - |a1|];
      }
    }
  }

  lemma SameButContentIds(rs1: seq<Record>, rs2: seq<Record>)
    requires SameButContent(rs1, rs2)
    ensures DocIds(rs1) == DocIds(rs2)
  {
    forall id | id in DocIds(rs1) ensures id in DocIds(rs2) {
      var i :| 0 <= i < |rs1| && rs1[i].docId == id;
      assert rs2[i].docId == id;
    }
    forall id | id in DocIds(rs2) ensures id in DocIds(rs1) {
      var i :| 0 <= i < |rs2| && rs2[i].docId == id;
      assert rs1[i].docId == id;
    }
  }

  lemma {:induction false} FirstUnreadableSameShape(paths: seq<PyStr>, lib1: Library, lib2: Library)
    requires SameShape(lib1, lib2)
    ensures FirstUnreadable(paths, lib1) == FirstUnreadable(paths, lib2)
  {
    if paths != [] {
      FirstUnreadableSameShape(paths[1..], lib1, lib2);
    }
  }

  lemma {:induction false} FilesRecordsSameShape(hash: Hasher, paths: seq<PyStr>, lib1: Library, lib2: Library)
    requires SameShape(lib1, lib2)
    ensures SameButContent(FilesRecords(hash, paths, lib1), FilesRecords(hash, paths, lib2))
  {
    if paths != [] {
      var init, last := paths[..|paths| - 1], paths[|paths| - 1];
      FilesRecordsSameShape(hash, init, lib1, lib2);
      var a1, a2 := FilesRecords(hash, init, lib1), FilesRecords(hash, init, lib2);
      if lib1(last).Unreadable? {
        assert FilesRecords(hash, paths, lib1) == a1 + [];
        assert FilesRecords(hash, paths, lib2) == a2 + [];
      } else {
        var h1, h2 := FileRecords(hash, last, lib1(last).pages), FileRecords(hash, last, lib2(last).pages);
        assert SameButContent(h1, h2);
        SameButContentConcat(a1, h1, a2, h2);
      }
    }
  }

  /**
   * Changing page texts, and nothing else, changes no key: re-indexing an
   * edited PDF replaces its documents instead of adding new ones.
   */
  lemma KeysIgnoreText(indexExists: bool, committed: Table, hash: Hasher, entries: seq<Entry>,
                       lib1: Library, lib2: Library)
    requires SameShape(lib1, lib2)
    ensures CommittedAfter(indexExists, committed, hash, entries, lib1).Keys ==
            CommittedAfter(indexExists, committed, hash, entries, lib2).Keys
  {
    var paths := WalkPdfs(entries);
    FirstUnreadableSameShape(paths, lib1, lib2);
    var done := paths[..FirstUnreadable(paths, lib1)];
    FilesRecordsSameShape(hash, done, lib1, lib2);
    var rs1, rs2 := RunRecords(hash, entries, lib1), RunRecords(hash, entries, lib2);
    assert rs1 == FilesRecords(hash, done, lib1) && rs2 == FilesRecords(hash, done, lib2);
    assert SameButContent(rs1, rs2);
    SameButContentIds(rs1, rs2);
  }

  /**
   * Re-running over the same folder after only page texts changed adds no
   * document: the keys committed before the second run are all there are.
   */
  lemma RerunEditedKeys(indexExists: bool, committed: Table, hash: Hasher, entries: seq<Entry>,
                        lib1: Library, lib2: Library)
    requires SameShape(lib1, lib2)
    ensures var first := CommittedAfter(indexExists, committed, hash, entries, lib1);
            CommittedAfter(true, first, hash, entries, lib2).Keys == first.Keys
  {
    KeysIgnoreText(false, map[], hash, entries, lib1, lib2);
  }
}

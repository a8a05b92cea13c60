/**
 * The Whoosh index as the ingestion script uses it: a table of documents
 * keyed by the unique `doc_id` field, a writer whose `update_document`
 * replaces any document with the same `doc_id`, and `commit`, which makes
 * the writer's updates visible.
 */
module Store {
  import opened Text

  /** One indexed page, with the five schema fields. */
  datatype Record = Record(docId: string, filename: PyStr, title: PyStr, page: int, content: PyStr)

  type Table = map<string, Record>

  function DocIds(rs: seq<Record>): (ids: set<string>)
  {
    set i | 0 <= i < |rs| :: rs[i].docId
  }

  /** The table after `update_document` of each record in turn. */
  function Upserts(m: Table, rs: seq<Record>): (t: Table)
    ensures t.Keys == m.Keys + DocIds(rs)
    ensures forall k :: k in t ==> t[k].docId == k || (k in m && t[k] == m[k])
  {
    if rs == [] then m
    else
      var last := rs[|rs| - 1];
      var t := Upserts(m, rs[..|rs| - 1]);
      assert DocIds(rs) == DocIds(rs[..|rs| - 1]) + {last.docId} by {
        assert forall i :: 0 <= i < |rs| - 1 ==> rs[..|rs| - 1][i] == rs[i];
      }
      t[last.docId := last]
  }

  /** Each key holds the record of the last update that wrote it. */
  lemma {:induction false} UpsertsLastWins(m: Table, rs: seq<Record>, j: nat)
    requires j < |rs|
    requires forall i :: j < i < |rs| ==> rs[i].docId != rs[j].docId
    ensures rs[j].docId in Upserts(m, rs) && Upserts(m, rs)[rs[j].docId] == rs[j]
  {
    if j < |rs| - 1 {
      UpsertsLastWins(m, rs[..|rs| - 1], j);
    }
  }

  /** A key no update wrote keeps its old presence and value. */
  lemma {:induction false} UpsertsUntouched(m: Table, rs: seq<Record>, k: string)
    requires k !in DocIds(rs)
    ensures k in Upserts(m, rs) <==> k in m
    ensures k in m ==> Upserts(m, rs)[k] == m[k]
  {
    if rs != [] {
      assert rs[|rs| - 1].docId in DocIds(rs);
      var init := rs[..|rs| - 1];
      assert DocIds(init) <= DocIds(rs) by {
        forall i | 0 <= i < |init| ensures init[i].docId in DocIds(rs) {
          assert init[i] == rs[i];
        }
      }
      UpsertsUntouched(m, rs[..|rs| - 1], k);
    }
  }

  /** From an empty table, there is one entry per distinct key written. */
  lemma UpsertsCount(rs: seq<Record>)
    ensures |Upserts(map[], rs)| == |DocIds(rs)|
  {
    assert Upserts(map[], rs).Keys == DocIds(rs);
  }

  lemma MergeUpdate(m: Table, e: Table, r: Record)
    ensures (m + e)[r.docId := r] == m + e[r.docId := r]
  {
  }

  /** Updating on top of a table is updating from empty and laying the result over it. */
  lemma {:induction false} UpsertsOverBase(m: Table, rs: seq<Record>)
    ensures Upserts(m, rs) == m + Upserts(map[], rs)
  {
    if rs == [] {
      assert m + map[] == m;
    } else {
      var init, last := rs[..|rs| - 1], rs[|rs| - 1];
      UpsertsOverBase(m, init);
      var e := Upserts(map[], init);
      assert Upserts(m, rs) == (m + e)[last.docId := last];
      assert Upserts(map[], rs) == e[last.docId := last];
      MergeUpdate(m, e, last);
    }
  }

  /** Updating with `a` then with `b` is updating with `a + b`. */
  lemma {:induction false} UpsertsAppend(m: Table, a: seq<Record>, b: seq<Record>)
    ensures Upserts(m, a + b) == Upserts(Upserts(m, a), b)
  {
    if b == [] {
      assert a + b == a;
    } else {
      assert (a + b)[..|a + b| - 1] == a + b[..|b| - 1];
      UpsertsAppend(m, a, b[..|b| - 1]);
    }
  }

  /** Writing the same records again changes nothing. */
  lemma UpsertsIdempotent(m: Table, rs: seq<Record>)
    ensures Upserts(Upserts(m, rs), rs) == Upserts(m, rs)
  {
    UpsertsOverBase(m, rs);
    UpsertsOverBase(Upserts(m, rs), rs);
  }

  class IndexStore {
    /** `index.exists_in(INDEX_DIR)` */
    var indexExists: bool
    /** The documents of the last commit, as searchers see them. */
    var committed: Table
    /** The writer's updates not yet committed. */
    var pending: Table

    ghost predicate Valid()
      reads this
    {
      !indexExists ==> committed == map[] && pending == map[]
    }

    /** The index directory as found on disk. */
    constructor (indexExists: bool, committed: Table)
      ensures Valid()
      ensures this.indexExists == indexExists
      ensures this.committed == (if indexExists then committed else map[])
      ensures pending == map[]
    {
      this.indexExists := indexExists;
      this.committed := if indexExists then committed else map[];
      pending := map[];
    }

    /**
     * `get_index(create)`: creates an empty index only when none exists,
     * otherwise opens the existing one; opening a missing index fails.
     */
    method GetIndex(create: bool) returns (ok: bool)
      requires Valid()
      modifies this
      ensures Valid()
      ensures ok == (old(indexExists) || create)
      ensures indexExists == ok
      ensures committed == old(committed) && pending == old(pending)
    {
      if create && !indexExists {
        indexExists := true;
        committed := map[];
      }
      ok := indexExists;
    }

    /** `ix.writer()`: a writer session starts with no pending updates. */
    method Writer()
      requires Valid() && indexExists
      modifies this
      ensures Valid() && indexExists
      ensures committed == old(committed) && pending == map[]
    {
      pending := map[];
    }

    /** `writer.update_document(...)`: insert or replace keyed by `doc_id`. */
    method UpdateDocument(r: Record)
      requires Valid() && indexExists
      modifies this
      ensures Valid() && indexExists
      ensures committed == old(committed)
      ensures pending == old(pending)[r.docId := r]
    {
      pending := pending[r.docId := r];
    }

    /** `writer.commit()`: every pending update becomes visible. */
    method Commit()
      requires Valid() && indexExists
      modifies this
      ensures Valid() && indexExists
      ensures committed == old(committed) + old(pending)
      ensures pending == map[]
    {
      committed := committed + pending;
      pending := map[];
    }
  }
}

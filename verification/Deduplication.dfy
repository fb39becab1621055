/**
 Migration 014 on the documents table: backfill the connector type, delete older duplicates of structured
 documents, and create the partial unique index.
 */
module Deduplication {
  import opened Options

  /** ingestedAt None is SQL NULL; so is a connector type not yet filled in. */
  datatype Document = Document(
    sourceId: int,
    sourcePath: string,
    connectorType: Option<string>,
    ingestedAt: Option<int>,
    rest: string)

  /** Rows by primary key. */
  type Documents = map<int, Document>

  /** data_sources: source type by primary key. */
  type Sources = map<int, string>

  predicate IsStructured(d: Document) {
    d.connectorType == Some("rest_api") || d.connectorType == Some("odbc")
  }

  // ---------------------------------------------------------------- the statements

  /** UPDATE ... SET connector_type = ds.source_type FROM data_sources ds WHERE d.source_id = ds.id */
  function Backfilled(docs: Documents, sources: Sources): Documents {
    map id | id in docs ::
      if docs[id].sourceId in sources then docs[id].(connectorType := Some(sources[docs[id].sourceId])) else docs[id]
  }

  predicate SameKey(a: Document, b: Document) {
    a.sourceId == b.sourceId && a.sourcePath == b.sourcePath
  }

  /** Row j is later than row i; a comparison with NULL is not true. */
  predicate Later(docs: Documents, j: int, i: int)
    requires i in docs && j in docs
  {
    && docs[j].ingestedAt.Some? && docs[i].ingestedAt.Some?
    && (|| docs[j].ingestedAt.value > docs[i].ingestedAt.value
        || (docs[j].ingestedAt.value == docs[i].ingestedAt.value && j > i))
  }

  predicate Superseded(docs: Documents, i: int)
    requires i in docs
  {
    exists j :: j in docs && SameKey(docs[j], docs[i]) && Later(docs, j, i)
  }

  /** DELETE ... WHERE connector_type IN (...) AND EXISTS (a later row with the same key) */
  function Deduplicated(docs: Documents): Documents {
    map id | id in docs && !(IsStructured(docs[id]) && Superseded(docs, id)) :: docs[id]
  }

  /** The partial unique index can be created. */
  predicate UniqueIndexHolds(docs: Documents) {
    forall i, j ::
      i in docs && j in docs && IsStructured(docs[i]) && IsStructured(docs[j]) && SameKey(docs[i], docs[j]) ==> i == j
  }

  /** Backfill gives every document of one source the same connector type. */
  ghost predicate TypesBySource(docs: Documents) {
    forall i, j :: i in docs && j in docs && docs[i].sourceId == docs[j].sourceId ==>
      docs[i].connectorType == docs[j].connectorType
  }

  /** The foreign key from documents to data_sources. */
  ghost predicate SourcesExist(docs: Documents, sources: Sources) {
    forall i :: i in docs ==> docs[i].sourceId in sources
  }

  class DocumentsTable {
    var rows: Documents

    constructor (rows: Documents)
      ensures this.rows == rows
    {
      this.rows := rows;
    }

    /** The data steps of upgrade, and whether the unique index can then be created. */
    method Upgrade(sources: Sources) returns (indexed: bool)
      requires SourcesExist(rows, sources)
      modifies this
      ensures rows == Deduplicated(Backfilled(old(rows), sources))
      ensures indexed == UniqueIndexHolds(rows)
      ensures indexed <==> NullsAreAlone(Backfilled(old(rows), sources))
    {
      rows := Backfilled(rows, sources);
      BackfillTypesBySource(old(rows), sources);
      IndexHoldsExactlyWhen(rows);
      rows := Deduplicated(rows);
      indexed := UniqueIndexHolds(rows);
    }
  }

  lemma BackfillTypesBySource(docs: Documents, sources: Sources)
    requires SourcesExist(docs, sources)
    ensures TypesBySource(Backfilled(docs, sources))
  {
  }

  // ---------------------------------------------------------------- what survives

  /** The rows that compete for one place in the index. */
  function Group(docs: Documents, i: int): set<int>
    requires i in docs
  {
    set j | j in docs && SameKey(docs[j], docs[i]) && docs[j].ingestedAt.Some?
  }

  lemma LaterIsTransitive(docs: Documents, a: int, b: int, c: int)
    requires a in docs && b in docs && c in docs && Later(docs, a, b) && Later(docs, b, c)
    ensures Later(docs, a, c)
  {
  }

  /** Among rows with a known time one is latest. */
  lemma {:induction false} LatestExists(docs: Documents, ids: set<int>, x: int) returns (m: int)
    requires x in ids && (forall i :: i in ids ==> i in docs && docs[i].ingestedAt.Some?)
    ensures m in ids && (forall i :: i in ids ==> i == m || Later(docs, m, i))
    decreases ids
  {
    var others := ids - {x};
    if y :| y in others {
      var n := LatestExists(docs, others, y);
      m := if Later(docs, n, x) then n else x;
      assert m == x ==> Later(docs, x, n);
      forall i | i in ids ensures i == m || Later(docs, m, i) {
        assert i == x || i in others;
        if i in others && i != n && m == x { LaterIsTransitive(docs, x, n, i); }
      }
    } else {
      m := x;
      forall i | i in ids ensures i == m { assert i == x || i in others; }
    }
  }

  ghost predicate IsLatest(docs: Documents, i: int, m: int)
    requires i in docs
  {
    && m in docs && m in Group(docs, i)
    && forall j :: j in Group(docs, i) ==> j == m || Later(docs, m, j)
  }

  /**
   What the delete leaves: a structured row with a known time survives exactly when it is the latest of its
   key; every other row survives; no surviving row changes.
   */
  lemma {:induction false} SurvivorsAreTheLatest(docs: Documents, i: int)
    requires i in docs
    ensures i in Deduplicated(docs) <==>
            (IsStructured(docs[i]) && docs[i].ingestedAt.Some? ==> IsLatest(docs, i, i))
    ensures i in Deduplicated(docs) ==> Deduplicated(docs)[i] == docs[i]
  {
    if IsStructured(docs[i]) && docs[i].ingestedAt.Some? {
      var m := LatestExists(docs, Group(docs, i), i);
      if Superseded(docs, i) {
        var j :| j in docs && SameKey(docs[j], docs[i]) && Later(docs, j, i);
        assert j in Group(docs, i);
      } else {
        assert i in Group(docs, i);
        assert m == i;
      }
    }
  }

  /**
   Which row that is, spelt out: a rest_api or odbc row with a time survives if and only if every other row with a time and
   the same source and path is older, or as old with a smaller id.
   */
  lemma {:induction false} NewestSurvives(docs: Documents, i: int)
    requires i in docs && docs[i].ingestedAt.Some?
    requires docs[i].connectorType == Some("rest_api") || docs[i].connectorType == Some("odbc")
    ensures i in Deduplicated(docs) <==>
            forall j :: j in docs && docs[j].sourceId == docs[i].sourceId && docs[j].sourcePath == docs[i].sourcePath
                        && docs[j].ingestedAt.Some? ==>
              || docs[j].ingestedAt.value < docs[i].ingestedAt.value
              || (docs[j].ingestedAt.value == docs[i].ingestedAt.value && j <= i)
  {
    if Superseded(docs, i) {
      var j :| j in docs && SameKey(docs[j], docs[i]) && Later(docs, j, i);
    } else {
      forall j | j in docs && SameKey(docs[j], docs[i]) && docs[j].ingestedAt.Some?
        ensures docs[j].ingestedAt.value < docs[i].ingestedAt.value
                || (docs[j].ingestedAt.value == docs[i].ingestedAt.value && j <= i)
      {
        assert !Later(docs, j, i);
      }
    }
  }

  /** An instance: of an old and a new row of one key, the new one is left. */
  lemma {:induction false} NewerIsLeft()
    ensures var docs := map[1 := Document(7, "p", Some("rest_api"), Some(5), "old"),
                            2 := Document(7, "p", Some("rest_api"), Some(9), "new")];
            1 !in Deduplicated(docs) && 2 in Deduplicated(docs)
  {
    var docs := map[1 := Document(7, "p", Some("rest_api"), Some(5), "old"),
                    2 := Document(7, "p", Some("rest_api"), Some(9), "new")];
    NewestSurvives(docs, 1);
    NewestSurvives(docs, 2);
    assert 2 in docs;
  }

  /** Backfill gives each document the type of its own source and changes nothing else. */
  lemma BackfillMeans(docs: Documents, sources: Sources, id: int)
    ensures id in Backfilled(docs, sources) <==> id in docs
    ensures id in docs ==>
              var before, after := docs[id], Backfilled(docs, sources)[id];
              && after.sourceId == before.sourceId && after.sourcePath == before.sourcePath
              && after.ingestedAt == before.ingestedAt && after.rest == before.rest
              && after.connectorType ==
                   (if before.sourceId in sources then Some(sources[before.sourceId]) else before.connectorType)
  {
  }

  /** For every key of a structured row with a known time, exactly one such row remains. */
  lemma {:induction false} ExactlyOneRemains(docs: Documents, i: int) returns (m: int)
    requires TypesBySource(docs) && i in docs && IsStructured(docs[i]) && docs[i].ingestedAt.Some?
    ensures m in docs && IsLatest(docs, i, m)
    ensures forall j :: j in Group(docs, i) ==> (j in Deduplicated(docs) <==> j == m)
  {
    m := LatestExists(docs, Group(docs, i), i);
    forall j | j in Group(docs, i) ensures j in Deduplicated(docs) <==> j == m {
      assert docs[j].connectorType == docs[i].connectorType;
      SurvivorsAreTheLatest(docs, j);
      assert j in Group(docs, j) && m in Group(docs, j);
    }
  }

  /** A second pass deletes nothing. */
  lemma {:induction false} SecondPassDeletesNothing(docs: Documents)
    ensures Deduplicated(Deduplicated(docs)) == Deduplicated(docs)
  {
    var once := Deduplicated(docs);
    forall i | i in once ensures !(IsStructured(once[i]) && Superseded(once, i)) {
      if IsStructured(once[i]) && Superseded(once, i) {
        var j :| j in once && SameKey(once[j], once[i]) && Later(once, j, i);
        assert Later(docs, j, i);
        assert false;
      }
    }
    assert Deduplicated(once).Keys == once.Keys;
  }

  /** A row without a time is never deleted, and taking it away changes nothing else. */
  lemma {:induction false} NullTimesAreInert(docs: Documents, i: int)
    requires i in docs && docs[i].ingestedAt == None
    ensures i in Deduplicated(docs)
    ensures Deduplicated(docs - {i}) == Deduplicated(docs) - {i}
  {
    var without := docs - {i};
    forall k | k in without ensures Superseded(without, k) <==> Superseded(docs, k) {
      if Superseded(docs, k) {
        var j :| j in docs && SameKey(docs[j], docs[k]) && Later(docs, j, k);
        assert j in without && Later(without, j, k);
      }
      if Superseded(without, k) {
        var j :| j in without && SameKey(without[j], without[k]) && Later(without, j, k);
        assert Later(docs, j, k);
      }
    }
  }

  /** A structured row without a time shares its key with no other structured row. */
  ghost predicate NullsAreAlone(docs: Documents) {
    forall i, j ::
      (i in docs && j in docs && IsStructured(docs[i]) && IsStructured(docs[j]) && SameKey(docs[i], docs[j])
       && docs[i].ingestedAt == None) ==> i == j
  }

  /**
   The delete establishes the unique index if and only if every structured row without a time is alone on
   its key; in particular whenever all structured rows have one.
   */
  lemma {:induction false} IndexHoldsExactlyWhen(docs: Documents)
    requires TypesBySource(docs)
    ensures UniqueIndexHolds(Deduplicated(docs)) <==> NullsAreAlone(docs)
  {
    var after := Deduplicated(docs);
    if NullsAreAlone(docs) {
      forall i, j | i in after && j in after && IsStructured(after[i]) && IsStructured(after[j]) && SameKey(after[i], after[j])
        ensures i == j
      {
        if docs[i].ingestedAt.Some? && docs[j].ingestedAt.Some? {
          SurvivorsAreTheLatest(docs, i);
          SurvivorsAreTheLatest(docs, j);
          assert i in Group(docs, j) && j in Group(docs, i);
        }
      }
    }
    if UniqueIndexHolds(after) {
      forall i, j | i in docs && j in docs && IsStructured(docs[i]) && IsStructured(docs[j])
                    && SameKey(docs[i], docs[j]) && docs[i].ingestedAt == None
        ensures i == j
      {
        NullTimesAreInert(docs, i);
        if docs[j].ingestedAt == None {
          NullTimesAreInert(docs, j);
        } else {
          var m := ExactlyOneRemains(docs, j);
          assert m in after && IsStructured(after[m]) && SameKey(after[m], after[i]);
        }
      }
    }
  }

  /** A table on which it does not: two structured rows of one key, one of them without a time. */
  lemma {:induction false} DuplicateSurvives()
    ensures var docs := map[1 := Document(7, "path", Some("rest_api"), None, ""),
                            2 := Document(7, "path", Some("rest_api"), Some(5), "")];
            TypesBySource(docs) && !UniqueIndexHolds(Deduplicated(docs))
  {
    var docs := map[1 := Document(7, "path", Some("rest_api"), None, ""),
                    2 := Document(7, "path", Some("rest_api"), Some(5), "")];
    IndexHoldsExactlyWhen(docs);
    assert 1 in docs && 2 in docs && SameKey(docs[1], docs[2]);
  }
}

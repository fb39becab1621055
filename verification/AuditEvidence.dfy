/** What an accepted audit chain proves about history, and which columns that leaves out. */
module AuditEvidence {
  import opened Options
  import opened AuditChain

  // ---------------------------------------------------------------- tamper evidence

  /** Two rows with different hashed fields and the same hash. */
  ghost predicate Collision(h: HashFn, a: seq<Entry>, b: seq<Entry>) {
    exists i, j :: 0 <= i < |a| && 0 <= j < |b|
      && PersistedPayload(a[i]) != PersistedPayload(b[j])
      && h(PersistedPayload(a[i])) == h(PersistedPayload(b[j]))
  }

  /** a agrees with the end of b on every hashed field and on the hash. */
  ghost predicate SuffixOnHashedFields(a: seq<Entry>, b: seq<Entry>) {
    && |a| <= |b|
    && forall i :: 0 <= i < |a| ==>
         var e, f := a[i], b[|b| - |a| + i];
         && e.prevHash == f.prevHash && e.timestamp == f.timestamp && e.userId == f.userId
         && e.action == f.action && e.details == f.details
         && e.entryHash == f.entryHash
  }

  /**
   An accepted chain pins down history: two accepted logs that end in the same hash agree on
   every hashed field as far back as the shorter one reaches, or the logs contain a collision.
   */
  lemma {:induction false} TamperEvidence(h: HashFn, a: seq<Entry>, b: seq<Entry>)
    requires ChainValid(h, a) && ChainValid(h, b)
    requires 0 < |a| <= |b|
    requires a[|a| - 1].entryHash == b[|b| - 1].entryHash
    ensures SuffixOnHashedFields(a, b) || Collision(h, a, b)
  {
    var la, lb := a[|a| - 1], b[|b| - 1];
    var a', b' := a[..|a| - 1], b[..|b| - 1];
    assert Recomputes(h, la) && Recomputes(h, lb);
    if PersistedPayload(la) == PersistedPayload(lb) && |a| > 1 {
      FrontLinks(h, a);
      FrontLinks(h, b);
      TamperEvidence(h, a', b');
    }
    if |a| > 1 && Collision(h, a', b') {
      CollisionLifts(h, a, b);
    } else if PersistedPayload(la) == PersistedPayload(lb) {
      SuffixLifts(a, b);
    }
  }

  lemma FrontLinks(h: HashFn, a: seq<Entry>)
    requires |a| > 1 && ChainValid(h, a)
    ensures var front := a[..|a| - 1];
            ChainValid(h, front) && front[|front| - 1].entryHash == a[|a| - 1].prevHash
  {
    assert a[..|a|] == a;
    PrefixChainValid(h, a, |a| - 1, |a|);
    assert a[|a| - 1].prevHash == a[|a| - 2].entryHash;
  }

  lemma CollisionLifts(h: HashFn, a: seq<Entry>, b: seq<Entry>)
    requires a != [] && b != [] && Collision(h, a[..|a| - 1], b[..|b| - 1])
    ensures Collision(h, a, b)
  {
    var a', b' := a[..|a| - 1], b[..|b| - 1];
    var i, j :| 0 <= i < |a'| && 0 <= j < |b'|
      && PersistedPayload(a'[i]) != PersistedPayload(b'[j])
      && h(PersistedPayload(a'[i])) == h(PersistedPayload(b'[j]));
    assert a[i] == a'[i] && b[j] == b'[j];
  }

  lemma SuffixLifts(a: seq<Entry>, b: seq<Entry>)
    requires 0 < |a| <= |b|
    requires PersistedPayload(a[|a| - 1]) == PersistedPayload(b[|b| - 1]) && a[|a| - 1].entryHash == b[|b| - 1].entryHash
    requires |a| > 1 ==> SuffixOnHashedFields(a[..|a| - 1], b[..|b| - 1])
    ensures SuffixOnHashedFields(a, b)
  {
    var a', b' := a[..|a| - 1], b[..|b| - 1];
    forall i | 0 <= i < |a|
      ensures PersistedPayload(a[i]) == PersistedPayload(b[|b| - |a| + i])
      ensures a[i].entryHash == b[|b| - |a| + i].entryHash
    {
      if i < |a'| { assert a[i] == a'[i] && b[|b| - |a| + i] == b'[|b'| - |a'| + i]; }
    }
  }

  /** The same for any two tables that verify_chain accepts, ordered or not, on the rows it visits. */
  lemma AcceptedVisitsAgree(h: HashFn, a: seq<Entry>, b: seq<Entry>, batchSize: nat)
    requires batchSize >= 1 && VerdictOf(h, a, batchSize).ok && VerdictOf(h, b, batchSize).ok
    requires var va, vb := Visited(a, 0, batchSize), Visited(b, 0, batchSize);
             0 < |va| <= |vb| && va[|va| - 1].entryHash == vb[|vb| - 1].entryHash
    ensures var va, vb := Visited(a, 0, batchSize), Visited(b, 0, batchSize);
            SuffixOnHashedFields(va, vb) || Collision(h, va, vb)
  {
    hide Visited;
    hide ValidPrefix;
    hide ChainValid;
    hide Collision;
    hide SuffixOnHashedFields;
    var va, vb := Visited(a, 0, batchSize), Visited(b, 0, batchSize);
    ValidPrefixIsAll(h, va);
    ValidPrefixIsAll(h, vb);
    TamperEvidence(h, va, vb);
  }

  /** On ordered tables those are the tables themselves. */
  lemma AcceptedLogsAgree(h: HashFn, a: seq<Entry>, b: seq<Entry>, batchSize: nat)
    requires batchSize >= 1
    requires IdsIncrease(a) && Ordered(a) && IdsIncrease(b) && Ordered(b)
    requires VerdictOf(h, a, batchSize).ok && VerdictOf(h, b, batchSize).ok
    requires 0 < |a| <= |b| && a[|a| - 1].entryHash == b[|b| - 1].entryHash
    ensures SuffixOnHashedFields(a, b) || Collision(h, a, b)
  {
    VisitsWholeTableIffOrdered(a, batchSize);
    VisitsWholeTableIffOrdered(b, batchSize);
    AcceptedVisitsAgree(h, a, b, batchSize);
  }

  // ---------------------------------------------------------------- the limit of the evidence

  /** The row with its three unhashed columns blanked. */
  function Mask(e: Entry): Entry {
    e.(resourceType := "", resourceId := None, aiGenerated := false)
  }

  function Masked(t: seq<Entry>): (r: seq<Entry>)
    ensures |r| == |t| && forall i :: 0 <= i < |t| ==> r[i] == Mask(t[i])
  {
    if t == [] then [] else [Mask(t[0])] + Masked(t[1..])
  }

  lemma {:induction false} MaskedInsert(e: Entry, s: seq<Entry>)
    ensures Masked(Insert(e, s)) == Insert(Mask(e), Masked(s))
  {
    if s == [] {
    } else {
      assert Masked(s)[1..] == Masked(s[1..]);
      MaskedInsert(e, s[1..]);
    }
  }

  lemma {:induction false} MaskedSort(t: seq<Entry>)
    ensures Masked(SortRows(t)) == SortRows(Masked(t))
  {
    if t == [] {
    } else {
      assert Masked(t)[1..] == Masked(t[1..]);
      MaskedSort(t[1..]);
      MaskedInsert(t[0], SortRows(t[1..]));
    }
  }

  lemma {:induction false} MaskedAfter(t: seq<Entry>, lastId: int)
    ensures Masked(After(t, lastId)) == After(Masked(t), lastId)
  {
    if t == [] {
    } else {
      assert Masked(t)[1..] == Masked(t[1..]);
      MaskedAfter(t[1..], lastId);
    }
  }

  lemma {:induction false} MaskedPage(t: seq<Entry>, lastId: int, batchSize: nat)
    ensures Masked(Page(t, lastId, batchSize)) == Page(Masked(t), lastId, batchSize)
  {
    MaskedAfter(t, lastId);
    MaskedSort(After(t, lastId));
  }

  lemma MaskedConcat(a: seq<Entry>, b: seq<Entry>)
    ensures Masked(a + b) == Masked(a) + Masked(b)
  {
    hide Masked;
  }

  lemma {:induction false} MaskedVisited(t: seq<Entry>, lastId: int, batchSize: nat)
    requires batchSize >= 1
    ensures Masked(Visited(t, lastId, batchSize)) == Visited(Masked(t), lastId, batchSize)
    decreases |After(t, lastId)|
  {
    hide Page;
    hide After;
    hide Masked;
    MaskedPage(t, lastId, batchSize);
    var page := Page(t, lastId, batchSize);
    if page == [] {
    } else {
      var last := page[|page| - 1];
      assert Masked(page)[|page| - 1].id == last.id;
      CursorAdvances(t, lastId, batchSize);
      MaskedVisited(t, last.id, batchSize);
      MaskedConcat(page, Visited(t, last.id, batchSize));
    }
  }

  lemma {:induction false} MaskedValidPrefix(h: HashFn, log: seq<Entry>)
    ensures ValidPrefix(h, Masked(log)) == ValidPrefix(h, log)
  {
    if log == [] {
    } else {
      assert Masked(log)[..|log| - 1] == Masked(log[..|log| - 1]);
      MaskedValidPrefix(h, log[..|log| - 1]);
    }
  }

  /** Tables that differ only in unhashed columns, ordered or not, get the same verdict and the same count. */
  lemma UnhashedColumnsAreFree(h: HashFn, a: seq<Entry>, b: seq<Entry>, batchSize: nat)
    requires batchSize >= 1 && Masked(a) == Masked(b)
    ensures VerdictOf(h, a, batchSize) == VerdictOf(h, b, batchSize)
  {
    MaskedVisited(a, 0, batchSize);
    MaskedVisited(b, 0, batchSize);
    MaskedValidPrefix(h, Visited(a, 0, batchSize));
    MaskedValidPrefix(h, Visited(b, 0, batchSize));
  }
}

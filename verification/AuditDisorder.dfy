/** What the paging loop makes of timestamps that run against ids, and when a linked table is accepted. */
module AuditDisorder {
  import opened Options
  import opened AuditChain

  lemma {:induction false} InsertLast(e: Entry, s: seq<Entry>)
    requires forall i :: 0 <= i < |s| ==> s[i].timestamp < e.timestamp
    ensures Insert(e, s) == s + [e]
  {
    if s == [] {
    } else {
      InsertLast(e, s[1..]);
    }
  }

  lemma {:induction false} LateRowSortsLast(late: Entry, good: seq<Entry>)
    requires good != [] && IdsIncrease([late] + good) && Ordered(good)
    requires good[|good| - 1].timestamp < late.timestamp
    ensures SortRows([late] + good) == good + [late]
  {
    var t := [late] + good;
    assert SortRows(t) == Insert(late, SortRows(good)) by { assert good == t[1..]; }
    hide SortRows;
    hide Insert;
    assert IdsIncrease(good) by { assert good == t[1..]; SuffixKeepsOrder(t, 1); }
    SortedIsIdentity(good);
    assert forall i :: 0 <= i < |good| ==> good[i].timestamp < late.timestamp;
    InsertLast(late, good);
  }

  lemma {:induction false} LateRowIsNotVisited(late: Entry, good: seq<Entry>)
    requires good != [] && IdsIncrease([late] + good) && Ordered(good)
    requires good[|good| - 1].timestamp < late.timestamp
    ensures Visited([late] + good, 0, |good|) == good
  {
    var t, b := [late] + good, |good|;
    var last := good[b - 1];
    assert last == t[b];
    assert Page(t, 0, b) == good by {
      LateRowSortsLast(late, good);
      AfterIsSuffix(t, 0, 0);
    }
    assert After(t, last.id) == [] by { AfterIsSuffix(t, last.id, b + 1); }
    assert Visited(t, last.id, b) == [];
  }

  /**
   Without that agreement the answer can be wrong.  A row whose timestamp lies after a full page
   of later rows is stepped over: whatever the row holds, the verifier accepts and counts only
   the page.
   */
  lemma LateRowIsSteppedOver(h: HashFn, late: Entry, good: seq<Entry>)
    requires good != [] && IdsIncrease([late] + good)
    requires Ordered(good) && ChainValid(h, good)
    requires good[|good| - 1].timestamp < late.timestamp
    ensures VerdictOf(h, [late] + good, |good|) == Verdict(true, |good|)
  {
    LateRowIsNotVisited(late, good);
    ValidPrefixIsAll(h, good);
  }

  /** The page size of verify_chain. */
  const BATCH_SIZE: nat := 1000

  /** n rows written with ids from 2 and rising timestamps. */
  ghost function HonestLog(h: HashFn, n: nat): (log: seq<Entry>)
    ensures |log| == n
  {
    if n == 0 then []
    else
      var log := HonestLog(h, n - 1);
      var prev := if log == [] then ZERO_HASH else log[|log| - 1].entryHash;
      log + [Entry(n + 1, prev, h(Payload(prev, n, None, "write", None)), n, None, "write", "record", None, None, false)]
  }

  lemma {:induction false} HonestLogIsHonest(h: HashFn, n: nat)
    ensures ChainValid(h, HonestLog(h, n))
    ensures forall i :: 0 <= i < n ==> HonestLog(h, n)[i].id == i + 2 && HonestLog(h, n)[i].timestamp == i + 1
  {
    if n == 0 {
    } else {
      HonestLogIsHonest(h, n - 1);
      var log := HonestLog(h, n - 1);
      var e := HonestLog(h, n)[n - 1];
      assert HonestLog(h, n) == log + [e];
      assert Recomputes(h, e);
      assert e.id == n + 1 && e.timestamp == n && (log != [] ==> e.prevHash == log[n - 2].entryHash);
      hide HonestLog;
      assert ChainValid(h, [e]);
      hide Recomputes;
      hide ChainValid;
      ChainValidConcat(h, log, [e]);
    }
  }

  /** Any full page of honest rows hides a forged first row with a late timestamp. */
  lemma {:induction false} ForgedRowBehindPage(h: HashFn, n: nat) returns (t: seq<Entry>)
    requires n >= 1
    ensures IdsIncrease(t) && !ChainValid(h, t) && VerdictOf(h, t, n) == Verdict(true, n)
  {
    var good := HonestLog(h, n);
    HonestLogIsHonest(h, n);
    hide HonestLog;
    hide VerdictOf;
    var p := Payload(ZERO_HASH, n + 1, None, "write", None);
    var late := Entry(1, ZERO_HASH, h(p) + "x", n + 1, None, "write", "record", None, None, false);
    t := [late] + good;
    assert IdsIncrease(t);
    assert !Recomputes(h, t[0]);
    LateRowIsSteppedOver(h, late, good);
  }

  /** With the page size in use: a thousand honest rows. */
  lemma ForgedLateRowIsAccepted(h: HashFn)
    ensures exists t :: IdsIncrease(t) && !ChainValid(h, t) && VerdictOf(h, t, BATCH_SIZE) == Verdict(true, BATCH_SIZE)
  {
    var t := ForgedRowBehindPage(h, BATCH_SIZE);
  }

  // ---------------------------------------------------------------- when a linked table is accepted

  /** No two rows share an entry hash, and none reproduces the hash before the first row. */
  ghost predicate HashesDistinct(t: seq<Entry>) {
    && (forall i, j :: 0 <= i < j < |t| ==> t[i].entryHash != t[j].entryHash)
    && (forall i :: 0 <= i < |t| ==> t[i].entryHash != t[0].prevHash)
  }

  lemma LinkGoesToNextRow(h: HashFn, t: seq<Entry>, p: nat, q: nat)
    requires ChainValid(h, t) && HashesDistinct(t)
    requires p < |t| && q < |t| && t[q].prevHash == t[p].entryHash
    ensures q == p + 1
  {
    if q > 0 { assert t[q].prevHash == t[q - 1].entryHash; }
  }

  lemma {:induction false} LinkedRowsAreAStretch(h: HashFn, t: seq<Entry>, v: seq<Entry>) returns (s: nat)
    requires ChainValid(h, t) && HashesDistinct(t) && ChainValid(h, v) && v != []
    requires forall i :: 0 <= i < |v| ==> v[i] in t
    ensures s + |v| <= |t| && v == t[s..s + |v|]
  {
    hide Recomputes;
    var n := |v| - 1;
    assert v[n] in t;
    var q :| 0 <= q < |t| && t[q] == v[n];
    if n == 0 {
      s := q;
    } else {
      var w := v[..n];
      assert v == w + [v[n]];
      ChainValidConcat(h, w, [v[n]]);
      s := LinkedRowsAreAStretch(h, t, w);
      assert w[n - 1] == t[s + n - 1];
      LinkGoesToNextRow(h, t, s + n - 1, q);
    }
  }

  lemma {:induction false} VisitedRowsAreRows(t: seq<Entry>, lastId: int, batchSize: nat)
    requires batchSize >= 1
    ensures forall i :: 0 <= i < |Visited(t, lastId, batchSize)| ==> Visited(t, lastId, batchSize)[i] in t
    decreases |After(t, lastId)|
  {
    hide Page;
    hide After;
    var page := Page(t, lastId, batchSize);
    PageProperties(t, lastId, batchSize);
    if page == [] {
    } else {
      CursorAdvances(t, lastId, batchSize);
      VisitedRowsAreRows(t, page[|page| - 1].id, batchSize);
    }
  }

  /**
   A correctly linked table with distinct hashes is accepted in full if and only if its
   timestamps never run against its ids.
   */
  lemma LinkedTableAcceptedIffOrdered(h: HashFn, t: seq<Entry>, batchSize: nat)
    requires batchSize >= 1 && IdsIncrease(t)
    requires ChainValid(h, t) && HashesDistinct(t)
    ensures VerdictOf(h, t, batchSize) == Verdict(true, |t|) <==> Ordered(t)
  {
    if Ordered(t) {
      PagedRefinesWholeLog(h, t, batchSize);
    }
    if VerdictOf(h, t, batchSize) == Verdict(true, |t|) && t != [] {
      var v := Visited(t, 0, batchSize);
      ValidPrefixIsAll(h, v);
      VisitedRowsAreRows(t, 0, batchSize);
      var s := LinkedRowsAreAStretch(h, t, v);
      assert v == t[0..|t|] == t;
      VisitsWholeTableIffOrdered(t, batchSize);
    }
  }
}

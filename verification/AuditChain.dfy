/**
 The audit hash chain as values: rows, the whole-log check, the paged query that the
 verifier issues, and what the two have to do with each other.

 The hash is a function value.  Nothing is assumed about it except where a lemma says so:
 "collision" results name the two colliding rows instead of assuming that there are none.
 */
module AuditChain {
  import opened Options

  const ZERO_HASH: string := "0000000000000000000000000000000000000000000000000000000000000000"

  /** The five fields the hash covers. */
  datatype Payload = Payload(
    prevHash: string,
    timestamp: int,
    actor: Option<string>,
    action: string,
    details: Option<string>)

  datatype Entry = Entry(
    id: int,
    prevHash: string,
    entryHash: string,
    timestamp: int,
    userId: Option<string>,
    action: string,
    resourceType: string,
    resourceId: Option<string>,
    details: Option<string>,
    aiGenerated: bool)

  type HashFn = Payload -> string

  function PersistedPayload(e: Entry): Payload {
    Payload(e.prevHash, e.timestamp, e.userId, e.action, e.details)
  }

  // ---------------------------------------------------------------- the obvious whole-log check

  ghost predicate Recomputes(h: HashFn, e: Entry) {
    e.entryHash == h(PersistedPayload(e))
  }

  /** Every hash recomputes and every row links to the row before it; the first link is free. */
  ghost predicate ChainValid(h: HashFn, log: seq<Entry>) {
    && (forall i :: 0 <= i < |log| ==> Recomputes(h, log[i]))
    && (forall i :: 0 < i < |log| ==> log[i].prevHash == log[i - 1].entryHash)
  }

  /** Position of the first row that does not verify, or the length when all do. */
  function ValidPrefix(h: HashFn, log: seq<Entry>): nat {
    if log == [] then 0
    else
      var last := |log| - 1;
      var n := ValidPrefix(h, log[..last]);
      if n < last then n
      else if && log[last].entryHash == h(PersistedPayload(log[last]))
              && (last == 0 || log[last].prevHash == log[last - 1].entryHash) then last + 1
      else last
  }

  lemma ChainValidStep(h: HashFn, log: seq<Entry>)
    requires log != []
    ensures var n := |log| - 1;
            ChainValid(h, log) <==>
              ChainValid(h, log[..n]) && Recomputes(h, log[n]) && (n == 0 || log[n].prevHash == log[n - 1].entryHash)
  {
    hide Recomputes;
    var n := |log| - 1;
    if ChainValid(h, log) {
      assert Recomputes(h, log[n]);
      forall i | 0 <= i < n ensures Recomputes(h, log[..n][i]) { assert Recomputes(h, log[i]); }
    }
    if ChainValid(h, log[..n]) {
      forall i | 0 <= i < n ensures Recomputes(h, log[i]) { assert Recomputes(h, log[..n][i]); }
    }
  }

  lemma {:induction false} ValidPrefixIsLongest(h: HashFn, log: seq<Entry>)
    ensures ValidPrefix(h, log) <= |log|
    ensures ChainValid(h, log[..ValidPrefix(h, log)])
    ensures ValidPrefix(h, log) < |log| ==> !ChainValid(h, log[..ValidPrefix(h, log) + 1])
  {
    if log == [] {
    } else {
      var front := log[..|log| - 1];
      ValidPrefixIsLongest(h, front);
      ChainValidStep(h, log);
      hide ChainValid;
      assert forall k :: 0 <= k <= |front| ==> front[..k] == log[..k];
      assert log[..|log|] == log;
    }
  }

  lemma ChainValidConcat(h: HashFn, a: seq<Entry>, b: seq<Entry>)
    ensures ChainValid(h, a + b) <==>
            && ChainValid(h, a)
            && ChainValid(h, b)
            && (a != [] && b != [] ==> b[0].prevHash == a[|a| - 1].entryHash)
  {
    var c := a + b;
    if ChainValid(h, c) {
      forall i | 0 <= i < |b| ensures Recomputes(h, b[i]) && (0 < i ==> b[i].prevHash == b[i - 1].entryHash) {
        assert b[i] == c[|a| + i];
        assert Recomputes(h, c[|a| + i]);
        if 0 < i { assert b[i - 1] == c[|a| + i - 1]; }
      }
      forall i | 0 <= i < |a| ensures Recomputes(h, a[i]) && (0 < i ==> a[i].prevHash == a[i - 1].entryHash) {
        assert a[i] == c[i];
        assert Recomputes(h, c[i]);
        if 0 < i { assert a[i - 1] == c[i - 1]; }
      }
      if a != [] && b != [] {
        assert c[|a|].prevHash == c[|a| - 1].entryHash;
      }
    }
  }

  lemma PrefixChainValid(h: HashFn, log: seq<Entry>, n: nat, m: nat)
    requires n <= m <= |log| && ChainValid(h, log[..m])
    ensures ChainValid(h, log[..n])
  {
    assert log[..m] == log[..n] + log[n..m];
    ChainValidConcat(h, log[..n], log[n..m]);
  }

  /** A position n is the valid-prefix length as soon as n rows verify and n + 1 do not. */
  lemma ValidPrefixUnique(h: HashFn, log: seq<Entry>, n: nat)
    requires n <= |log| && ChainValid(h, log[..n])
    requires n < |log| ==> !ChainValid(h, log[..n + 1])
    ensures ValidPrefix(h, log) == n
  {
    var m := ValidPrefix(h, log);
    ValidPrefixIsLongest(h, log);
    if m < n {
      PrefixChainValid(h, log, m + 1, n);
    } else if n < m {
      PrefixChainValid(h, log, n + 1, m);
    }
  }

  lemma ValidPrefixIsAll(h: HashFn, log: seq<Entry>)
    ensures ChainValid(h, log) <==> ValidPrefix(h, log) == |log|
  {
    assert log[..|log|] == log;
    ValidPrefixIsLongest(h, log);
    if ChainValid(h, log) { ValidPrefixUnique(h, log, |log|); }
  }

  // ---------------------------------------------------------------- tables and the page query

  /** Primary keys: positive and increasing in insertion order. */
  ghost predicate IdsIncrease(t: seq<Entry>) {
    && (forall i :: 0 <= i < |t| ==> t[i].id > 0)
    && (forall i, j :: 0 <= i < j < |t| ==> t[i].id < t[j].id)
  }

  /** Timestamp order agrees with id order. */
  ghost predicate Ordered(t: seq<Entry>) {
    forall i, j :: 0 <= i < j < |t| ==> t[i].timestamp <= t[j].timestamp
  }

  /** ORDER BY timestamp, id. */
  predicate Before(a: Entry, b: Entry) {
    a.timestamp < b.timestamp || (a.timestamp == b.timestamp && a.id < b.id)
  }

  ghost predicate Sorted(s: seq<Entry>) {
    forall i, j :: 0 <= i < j < |s| ==> !Before(s[j], s[i])
  }

  function Insert(e: Entry, s: seq<Entry>): seq<Entry> {
    if s == [] || Before(e, s[0]) then [e] + s else [s[0]] + Insert(e, s[1..])
  }

  function SortRows(t: seq<Entry>): seq<Entry> {
    if t == [] then [] else Insert(t[0], SortRows(t[1..]))
  }

  /** WHERE id > lastId. */
  function After(t: seq<Entry>, lastId: int): seq<Entry> {
    if t == [] then []
    else (if t[0].id > lastId then [t[0]] else []) + After(t[1..], lastId)
  }

  function Min(a: nat, b: nat): nat { if a <= b then a else b }

  /** One page: WHERE id > lastId ORDER BY timestamp, id LIMIT batchSize. */
  function Page(t: seq<Entry>, lastId: int, batchSize: nat): seq<Entry> {
    var s := SortRows(After(t, lastId));
    s[..Min(batchSize, |s|)]
  }

  lemma {:induction false} InsertAdds(e: Entry, s: seq<Entry>)
    ensures multiset(Insert(e, s)) == multiset(s) + multiset{e}
  {
    if s == [] {
    } else {
      assert s == [s[0]] + s[1..];
      InsertAdds(e, s[1..]);
    }
  }

  lemma SortedCons(x: Entry, s: seq<Entry>)
    requires Sorted(s) && forall y :: y in s ==> !Before(y, x)
    ensures Sorted([x] + s)
  {
    var all := [x] + s;
    forall i, j | 0 <= i < j < |all| ensures !Before(all[j], all[i]) {
      assert all[j] == s[j - 1];
      if i > 0 { assert all[i] == s[i - 1]; }
    }
  }

  lemma SortedTail(s: seq<Entry>)
    requires s != [] && Sorted(s)
    ensures Sorted(s[1..]) && forall y :: y in s[1..] ==> !Before(y, s[0])
  {
  }

  lemma {:induction false} InsertKeepsSorted(e: Entry, s: seq<Entry>)
    requires Sorted(s)
    ensures Sorted(Insert(e, s))
  {
    if s == [] {
    } else {
      var x, tail := s[0], s[1..];
      SortedTail(s);
      if Before(e, x) {
        assert s == [x] + tail;
        forall y | y in s ensures !Before(y, e) { assert y == x || y in tail; }
        SortedCons(e, s);
      } else {
        InsertKeepsSorted(e, tail);
        InsertAdds(e, tail);
        var rest := Insert(e, tail);
        forall y | y in rest ensures !Before(y, x) {
          assert y in multiset(rest);
          assert y == e || y in tail;
        }
        SortedCons(x, rest);
      }
    }
  }

  lemma {:induction false} SortRowsSorts(t: seq<Entry>)
    ensures multiset(SortRows(t)) == multiset(t)
    ensures Sorted(SortRows(t))
  {
    if t == [] {
    } else {
      assert t == [t[0]] + t[1..];
      SortRowsSorts(t[1..]);
      InsertAdds(t[0], SortRows(t[1..]));
      InsertKeepsSorted(t[0], SortRows(t[1..]));
    }
  }

  lemma {:induction false} AfterSelects(t: seq<Entry>, lastId: int, x: Entry)
    ensures x in After(t, lastId) <==> x in t && x.id > lastId
  {
    if t == [] {
    } else {
      AfterSelects(t[1..], lastId, x);
    }
  }

  lemma PageProperties(t: seq<Entry>, lastId: int, batchSize: nat)
    ensures var page := Page(t, lastId, batchSize);
            && |page| == Min(batchSize, |After(t, lastId)|)
            && Sorted(page)
            && (forall i :: 0 <= i < |page| ==> page[i] in t && page[i].id > lastId)
  {
    var a := After(t, lastId);
    SortRowsSorts(a);
    assert |multiset(SortRows(a))| == |multiset(a)|;
    var page := Page(t, lastId, batchSize);
    forall i | 0 <= i < |page| ensures page[i] in t && page[i].id > lastId {
      assert page[i] in multiset(SortRows(a));
      AfterSelects(t, lastId, page[i]);
    }
  }

  lemma {:induction false} AfterShrinks(t: seq<Entry>, lo: int, e: Entry)
    requires e in t && e.id > lo
    ensures |After(t, e.id)| < |After(t, lo)|
  {
    if e in t[1..] {
      AfterShrinks(t[1..], lo, e);
    } else {
      AfterMonotone(t[1..], lo, e.id);
    }
  }

  lemma AfterMonotone(t: seq<Entry>, lo: int, hi: int)
    requires lo <= hi
    ensures |After(t, hi)| <= |After(t, lo)|
  {
  }

  /** The paging loop makes progress on every table, however disordered. */
  lemma CursorAdvances(t: seq<Entry>, lastId: int, batchSize: nat)
    requires Page(t, lastId, batchSize) != []
    ensures Page(t, lastId, batchSize)[|Page(t, lastId, batchSize)| - 1].id > lastId
    ensures |After(t, Page(t, lastId, batchSize)[|Page(t, lastId, batchSize)| - 1].id)| < |After(t, lastId)|
  {
    PageProperties(t, lastId, batchSize);
    var page := Page(t, lastId, batchSize);
    AfterShrinks(t, lastId, page[|page| - 1]);
  }

  /**
   All rows the paging loop looks at, in order, starting from lastId.  It is defined for every
   table, however disordered: the last id of a page always exceeds the previous one.
   */
  function Visited(t: seq<Entry>, lastId: int, batchSize: nat): seq<Entry>
    requires batchSize >= 1
    decreases |After(t, lastId)|
  {
    var page := Page(t, lastId, batchSize);
    if page == [] then []
    else
      CursorAdvances(t, lastId, batchSize);
      page + Visited(t, page[|page| - 1].id, batchSize)
  }

  // ---------------------------------------------------------------- paging refines the whole-log check

  lemma {:induction false} SortedIsIdentity(t: seq<Entry>)
    requires IdsIncrease(t) && Ordered(t)
    ensures SortRows(t) == t
  {
    if t == [] {
    } else {
      SuffixKeepsOrder(t, 1);
      SortedIsIdentity(t[1..]);
      if |t| > 1 { assert Before(t[0], t[1]); }
    }
  }

  lemma SuffixKeepsOrder(t: seq<Entry>, n: nat)
    requires n <= |t|
    ensures IdsIncrease(t) ==> IdsIncrease(t[n..])
    ensures Ordered(t) ==> Ordered(t[n..])
  {
  }

  /** The rows with id > lastId are those from position n on. */
  ghost predicate CutAt(t: seq<Entry>, lastId: int, n: nat) {
    && n <= |t|
    && (n > 0 ==> t[n - 1].id <= lastId)
    && (n < |t| ==> t[n].id > lastId)
  }

  lemma CutAtTail(t: seq<Entry>, lastId: int, n: nat)
    requires t != [] && IdsIncrease(t) && CutAt(t, lastId, n)
    ensures IdsIncrease(t[1..]) && CutAt(t[1..], lastId, if n == 0 then 0 else n - 1)
    ensures n == 0 <==> t[0].id > lastId
  {
    SuffixKeepsOrder(t, 1);
  }

  /** With increasing ids the filter cuts a prefix off. */
  lemma {:induction false} AfterIsSuffix(t: seq<Entry>, lastId: int, n: nat)
    requires IdsIncrease(t) && CutAt(t, lastId, n)
    ensures After(t, lastId) == t[n..]
  {
    if t == [] {
    } else {
      var rest := t[1..];
      var m := if n == 0 then 0 else n - 1;
      CutAtTail(t, lastId, n);
      AfterIsSuffix(rest, lastId, m);
      assert t[n..] == (if n == 0 then [t[0]] else []) + rest[m..];
    }
  }

  /** Where timestamps agree with ids, a page is the next stretch of the table. */
  lemma {:induction false} PageOfOrdered(t: seq<Entry>, lastId: int, n: nat, batchSize: nat)
    requires IdsIncrease(t) && Ordered(t) && CutAt(t, lastId, n)
    ensures Page(t, lastId, batchSize) == t[n..n + Min(batchSize, |t| - n)]
  {
    var s := t[n..];
    assert SortRows(s) == s by {
      SuffixKeepsOrder(t, n);
      SortedIsIdentity(s);
    }
    assert After(t, lastId) == s by { AfterIsSuffix(t, lastId, n); }
  }

  lemma {:induction false} VisitedOfOrdered(t: seq<Entry>, lastId: int, n: nat, batchSize: nat)
    requires batchSize >= 1
    requires IdsIncrease(t) && Ordered(t) && CutAt(t, lastId, n)
    ensures Visited(t, lastId, batchSize) == t[n..]
    decreases |t| - n
  {
    hide SortRows;
    hide Insert;
    hide After;
    PageOfOrdered(t, lastId, n, batchSize);
    var m := n + Min(batchSize, |t| - n);
    var page := t[n..m];
    if page == [] {
    } else {
      assert page[|page| - 1] == t[m - 1];
      assert CutAt(t, t[m - 1].id, m);
      VisitedOfOrdered(t, t[m - 1].id, m, batchSize);
      assert t[n..] == page + t[m..];
    }
  }

  /** No row still ahead of the cursor, other than those on the page, comes before the page's last row. */
  lemma PageBoundsRest(t: seq<Entry>, lastId: int, batchSize: nat, x: Entry)
    requires batchSize >= 1 && x in After(t, lastId)
    ensures var page := Page(t, lastId, batchSize);
            page != [] && (x in page || !Before(x, page[|page| - 1]))
  {
    var a := After(t, lastId);
    SortRowsSorts(a);
    PageProperties(t, lastId, batchSize);
    var s := SortRows(a);
    assert x in multiset(s);
    var k :| 0 <= k < |s| && s[k] == x;
    var page := Page(t, lastId, batchSize);
    assert page == s[..|page|];
    if k < |page| { assert page[k] == x; }
  }

  lemma OrderedConcat(a: seq<Entry>, b: seq<Entry>)
    requires Sorted(a) && Ordered(b)
    requires a != [] && b != [] ==> !Before(b[0], a[|a| - 1])
    ensures Ordered(a + b)
  {
    forall i, j | 0 <= i < j < |a| ensures a[i].timestamp <= a[j].timestamp {
      assert !Before(a[j], a[i]);
    }
  }

  /** The first row a later page sees does not come before the last row of this page. */
  lemma {:induction false} NextRowIsLater(t: seq<Entry>, lastId: int, n: nat, batchSize: nat)
    requires batchSize >= 1
    requires IdsIncrease(t) && CutAt(t, lastId, n)
    requires var page := Page(t, lastId, batchSize);
             page != [] && n + |page| < |t| && page == t[n..n + |page|]
    ensures var page := Page(t, lastId, batchSize);
            !Before(t[n + |page|], page[|page| - 1])
  {
    var page := Page(t, lastId, batchSize);
    var next := t[n + |page|];
    assert next in After(t, lastId) by {
      AfterIsSuffix(t, lastId, n);
      assert t[n..][|page|] == next;
    }
    PageBoundsRest(t, lastId, batchSize, next);
  }

  lemma {:induction false} VisitedSuffixIsOrdered(t: seq<Entry>, lastId: int, n: nat, batchSize: nat)
    requires batchSize >= 1
    requires IdsIncrease(t) && CutAt(t, lastId, n)
    requires Visited(t, lastId, batchSize) == t[n..]
    ensures Ordered(t[n..])
    decreases |t| - n
  {
    hide SortRows;
    hide Insert;
    hide After;
    var page := Page(t, lastId, batchSize);
    if page != [] {
      var m := n + |page|;
      var last := page[|page| - 1];
      var rest := Visited(t, last.id, batchSize);
      assert t[n..] == page + rest;
      assert page == t[n..m] && rest == t[m..];
      assert CutAt(t, last.id, m);
      VisitedSuffixIsOrdered(t, last.id, m, batchSize);
      assert Sorted(page) by { PageProperties(t, lastId, batchSize); }
      if rest != [] { NextRowIsLater(t, lastId, n, batchSize); }
      OrderedConcat(page, rest);
    } else {
      assert t[n..] == [];
    }
  }

  /**
   The paging loop looks at exactly the table, in id order, if and only if timestamps never run
   against ids.
   */
  lemma VisitsWholeTableIffOrdered(t: seq<Entry>, batchSize: nat)
    requires batchSize >= 1 && IdsIncrease(t)
    ensures Visited(t, 0, batchSize) == t <==> Ordered(t)
  {
    assert t[0..] == t;
    if Ordered(t) {
      VisitedOfOrdered(t, 0, 0, batchSize);
    }
    if Visited(t, 0, batchSize) == t {
      VisitedSuffixIsOrdered(t, 0, 0, batchSize);
    }
  }

  // ---------------------------------------------------------------- what the verifier answers

  /** verify_chain's boolean and count. */
  datatype Verdict = Verdict(ok: bool, count: nat)

  function VerdictOf(h: HashFn, t: seq<Entry>, batchSize: nat): Verdict
    requires batchSize >= 1
  {
    var seen := Visited(t, 0, batchSize);
    var n := ValidPrefix(h, seen);
    Verdict(n == |seen|, n)
  }

  /** Paged verification refines whole-log verification wherever timestamps agree with ids. */
  lemma PagedRefinesWholeLog(h: HashFn, t: seq<Entry>, batchSize: nat)
    requires batchSize >= 1 && IdsIncrease(t) && Ordered(t)
    ensures VerdictOf(h, t, batchSize).ok <==> ChainValid(h, t)
    ensures VerdictOf(h, t, batchSize).ok ==> VerdictOf(h, t, batchSize).count == |t|
    ensures !VerdictOf(h, t, batchSize).ok ==>
              var n := VerdictOf(h, t, batchSize).count;
              n < |t| && ChainValid(h, t[..n]) && !ChainValid(h, t[..n + 1])
  {
    VisitsWholeTableIffOrdered(t, batchSize);
    ValidPrefixIsAll(h, t);
    ValidPrefixIsLongest(h, t);
  }
}

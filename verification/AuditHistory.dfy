/**
 Runs of the audit table: atomic writes, retention clean-up, and a verification whose page
 queries are interleaved with both.
 */
module AuditHistory {
  import opened Options
  import opened AuditChain
  import opened AuditDisorder

  datatype Fields = Fields(
    action: string,
    resourceType: string,
    resourceId: Option<string>,
    userId: Option<string>,
    details: Option<string>,
    aiGenerated: bool)

  /** The table and its primary-key sequence. */
  datatype Table = Table(rows: seq<Entry>, nextId: int)

  const EMPTY_TABLE := Table([], 1)

  /** The newest row's hash; a missing or empty hash reads as the zero hash. */
  function LastHash(rows: seq<Entry>): string {
    if rows != [] && rows[|rows| - 1].entryHash != "" then rows[|rows| - 1].entryHash else ZERO_HASH
  }

  function NewEntry(h: HashFn, tb: Table, now: int, f: Fields): Entry {
    var prev := LastHash(tb.rows);
    Entry(tb.nextId, prev, h(Payload(prev, now, f.userId, f.action, f.details)), now,
          f.userId, f.action, f.resourceType, f.resourceId, f.details, f.aiGenerated)
  }

  /** The row holds what its writer passed, under the clock reading. */
  ghost predicate Carries(e: Entry, now: int, f: Fields) {
    && e.timestamp == now && e.action == f.action && e.userId == f.userId && e.details == f.details
    && e.resourceType == f.resourceType && e.resourceId == f.resourceId && e.aiGenerated == f.aiGenerated
  }

  function Write(h: HashFn, tb: Table, now: int, f: Fields): Table {
    Table(tb.rows + [NewEntry(h, tb, now, f)], tb.nextId + 1)
  }

  /** DELETE WHERE timestamp < cutoff. */
  function Surviving(rows: seq<Entry>, cutoff: int): seq<Entry> {
    if rows == [] then []
    else (if rows[0].timestamp >= cutoff then [rows[0]] else []) + Surviving(rows[1..], cutoff)
  }

  function Cleanup(tb: Table, cutoff: int): Table {
    Table(Surviving(tb.rows, cutoff), tb.nextId)
  }

  datatype Step = WriteStep(now: int, fields: Fields) | CleanupStep(cutoff: int)

  function Apply(h: HashFn, tb: Table, step: Step): Table {
    match step
    case WriteStep(now, f) => Write(h, tb, now, f)
    case CleanupStep(cutoff) => Cleanup(tb, cutoff)
  }

  function Run(h: HashFn, tb: Table, steps: seq<Step>): Table
    decreases |steps|
  {
    if steps == [] then tb else Run(h, Apply(h, tb, steps[0]), steps[1..])
  }

  /** Writes read a clock that never goes back. */
  ghost predicate ClockRuns(steps: seq<Step>, from: int) {
    if steps == [] then true
    else match steps[0]
      case WriteStep(now, _) => from <= now && ClockRuns(steps[1..], now)
      case CleanupStep(_) => ClockRuns(steps[1..], from)
  }

  // ---------------------------------------------------------------- the invariant of every run

  ghost predicate NeverEmpty(h: HashFn) {
    forall p :: h(p) != ""
  }

  ghost predicate Sound(h: HashFn, tb: Table, clock: int) {
    && tb.nextId >= 1
    && IdsIncrease(tb.rows)
    && Ordered(tb.rows)
    && ChainValid(h, tb.rows)
    && (tb.rows != [] ==> tb.rows[|tb.rows| - 1].id < tb.nextId && tb.rows[|tb.rows| - 1].timestamp <= clock)
  }

  lemma {:induction false} WriteKeepsSound(h: HashFn, tb: Table, clock: int, now: int, f: Fields)
    requires NeverEmpty(h) && Sound(h, tb, clock) && clock <= now
    ensures Sound(h, Write(h, tb, now, f), now)
  {
    var e := NewEntry(h, tb, now, f);
    var rows := tb.rows + [e];
    assert Recomputes(h, e);
    assert ChainValid(h, rows) by {
      if tb.rows != [] {
        assert Recomputes(h, tb.rows[|tb.rows| - 1]);
        assert LastHash(tb.rows) == tb.rows[|tb.rows| - 1].entryHash;
      }
      ChainValidConcat(h, tb.rows, [e]);
    }
  }

  lemma {:induction false} AllSurvive(rows: seq<Entry>, cutoff: int)
    requires forall i :: 0 <= i < |rows| ==> rows[i].timestamp >= cutoff
    ensures Surviving(rows, cutoff) == rows
  {
    if rows == [] {
    } else {
      AllSurvive(rows[1..], cutoff);
    }
  }

  /** How many rows from the start are older than the cutoff. */
  function Old(rows: seq<Entry>, cutoff: int): (n: nat)
    ensures n <= |rows|
    ensures forall i :: 0 <= i < n ==> rows[i].timestamp < cutoff
    ensures n < |rows| ==> rows[n].timestamp >= cutoff
  {
    if rows == [] || rows[0].timestamp >= cutoff then 0 else 1 + Old(rows[1..], cutoff)
  }

  lemma {:induction false} OldDoNotSurvive(rows: seq<Entry>, cutoff: int, n: nat)
    requires n <= |rows| && forall i :: 0 <= i < n ==> rows[i].timestamp < cutoff
    ensures Surviving(rows, cutoff) == Surviving(rows[n..], cutoff)
  {
    if n == 0 {
      assert rows[0..] == rows;
    } else {
      OldDoNotSurvive(rows[1..], cutoff, n - 1);
      assert rows[n..] == rows[1..][n - 1..];
    }
  }

  /** With ordered timestamps, clean-up removes an oldest prefix and nothing else. */
  lemma {:induction false} CleanupDropsAPrefix(rows: seq<Entry>, cutoff: int) returns (n: nat)
    requires Ordered(rows)
    ensures n <= |rows| && Surviving(rows, cutoff) == rows[n..]
    ensures forall i :: 0 <= i < n ==> rows[i].timestamp < cutoff
    ensures n < |rows| ==> rows[n].timestamp >= cutoff
  {
    hide Surviving;
    n := Old(rows, cutoff);
    OldDoNotSurvive(rows, cutoff, n);
    forall i | n <= i < |rows| ensures rows[i].timestamp >= cutoff {
      assert rows[n].timestamp <= rows[i].timestamp || i == n;
    }
    AllSurvive(rows[n..], cutoff);
  }

  lemma SuffixChainValid(h: HashFn, rows: seq<Entry>, n: nat)
    requires n <= |rows| && ChainValid(h, rows)
    ensures ChainValid(h, rows[n..])
  {
    assert rows == rows[..n] + rows[n..];
    ChainValidConcat(h, rows[..n], rows[n..]);
  }

  lemma CleanupKeepsSound(h: HashFn, tb: Table, clock: int, cutoff: int)
    requires Sound(h, tb, clock)
    ensures Sound(h, Cleanup(tb, cutoff), clock)
  {
    var n := CleanupDropsAPrefix(tb.rows, cutoff);
    SuffixKeepsOrder(tb.rows, n);
    SuffixChainValid(h, tb.rows, n);
  }

  lemma {:induction false} RunKeepsSound(h: HashFn, tb: Table, clock: int, steps: seq<Step>) returns (end: int)
    requires NeverEmpty(h) && Sound(h, tb, clock) && ClockRuns(steps, clock)
    ensures Sound(h, Run(h, tb, steps), end)
    decreases |steps|
  {
    if steps == [] {
      end := clock;
    } else {
      match steps[0]
      case WriteStep(now, f) =>
        WriteKeepsSound(h, tb, clock, now, f);
        end := RunKeepsSound(h, Write(h, tb, now, f), now, steps[1..]);
      case CleanupStep(cutoff) =>
        CleanupKeepsSound(h, tb, clock, cutoff);
        end := RunKeepsSound(h, Cleanup(tb, cutoff), clock, steps[1..]);
    }
  }

  /** Whatever mix of writes and clean-ups produced the table, verification accepts all of it. */
  lemma EveryReachableTableVerifies(h: HashFn, steps: seq<Step>, clock: int, batchSize: nat)
    requires NeverEmpty(h) && ClockRuns(steps, clock) && batchSize >= 1
    ensures var rows := Run(h, EMPTY_TABLE, steps).rows;
            VerdictOf(h, rows, batchSize) == Verdict(true, |rows|)
  {
    var end := RunKeepsSound(h, EMPTY_TABLE, clock, steps);
    PagedRefinesWholeLog(h, Run(h, EMPTY_TABLE, steps).rows, batchSize);
  }

  // ---------------------------------------------------------------- writes with an unreliable clock

  ghost predicate WritesOnly(steps: seq<Step>) {
    forall i :: 0 <= i < |steps| ==> steps[i].WriteStep?
  }

  /** What a run of writes keeps when nothing is known about the clock. */
  ghost predicate Linked(h: HashFn, tb: Table) {
    && tb.nextId >= 1
    && IdsIncrease(tb.rows)
    && ChainValid(h, tb.rows)
    && (tb.rows != [] ==> tb.rows[|tb.rows| - 1].id < tb.nextId)
  }

  lemma {:induction false} WriteStaysLinked(h: HashFn, tb: Table, now: int, f: Fields)
    requires NeverEmpty(h) && Linked(h, tb)
    ensures var tb' := Write(h, tb, now, f);
            && Linked(h, tb') && |tb'.rows| == |tb.rows| + 1 && Carries(tb'.rows[|tb.rows|], now, f)
            && (forall i :: 0 <= i < |tb.rows| ==> tb'.rows[i] == tb.rows[i])
  {
    var e := NewEntry(h, tb, now, f);
    assert Recomputes(h, e);
    if tb.rows != [] { assert Recomputes(h, tb.rows[|tb.rows| - 1]); }
    ChainValidConcat(h, tb.rows, [e]);
  }

  lemma {:induction false} WritesStayLinked(h: HashFn, tb: Table, steps: seq<Step>)
    requires NeverEmpty(h) && Linked(h, tb) && WritesOnly(steps)
    ensures var rows := Run(h, tb, steps).rows;
            && Linked(h, Run(h, tb, steps))
            && |rows| == |tb.rows| + |steps|
            && (forall i :: 0 <= i < |tb.rows| ==> rows[i] == tb.rows[i])
            && (forall i :: 0 <= i < |steps| ==> Carries(rows[|tb.rows| + i], steps[i].now, steps[i].fields))
    decreases |steps|
  {
    if steps == [] {
    } else {
      var step := steps[0];
      assert step.WriteStep?;
      var tb' := Write(h, tb, step.now, step.fields);
      WriteStaysLinked(h, tb, step.now, step.fields);
      WritesStayLinked(h, tb', steps[1..]);
      var rows := Run(h, tb, steps).rows;
      hide Run;
      hide ChainValid;
      forall i | 0 <= i < |steps| ensures Carries(rows[|tb.rows| + i], steps[i].now, steps[i].fields) {
        if i == 0 { assert rows[|tb.rows|] == tb'.rows[|tb.rows|]; } else { assert steps[i] == steps[1..][i - 1]; }
      }
      forall i | 0 <= i < |tb.rows| ensures rows[i] == tb.rows[i] {
        assert rows[i] == tb'.rows[i];
      }
    }
  }

  /**
   The exact condition on the clock: a table built by writes alone, with distinct hashes, is
   accepted in full if and only if the clock readings never went back.
   */
  lemma WrittenTableAcceptedIffClockMonotone(h: HashFn, steps: seq<Step>, batchSize: nat)
    requires NeverEmpty(h) && WritesOnly(steps) && batchSize >= 1
    requires HashesDistinct(Run(h, EMPTY_TABLE, steps).rows)
    ensures var rows := Run(h, EMPTY_TABLE, steps).rows;
            VerdictOf(h, rows, batchSize) == Verdict(true, |steps|) <==>
            forall i, j :: 0 <= i < j < |steps| ==> steps[i].now <= steps[j].now
  {
    var rows := Run(h, EMPTY_TABLE, steps).rows;
    hide Run;
    hide VerdictOf;
    hide HashesDistinct;
    WritesStayLinked(h, EMPTY_TABLE, steps);
    LinkedTableAcceptedIffOrdered(h, rows, batchSize);
    OrderedMeansClock(rows, steps) by {
      forall i | 0 <= i < |steps| ensures rows[i].timestamp == steps[i].now {
        assert Carries(rows[|EMPTY_TABLE.rows| + i], steps[i].now, steps[i].fields);
      }
    }
  }

  lemma OrderedMeansClock(rows: seq<Entry>, steps: seq<Step>)
    requires WritesOnly(steps) && |rows| == |steps|
    requires forall i :: 0 <= i < |steps| ==> rows[i].timestamp == steps[i].now
    ensures Ordered(rows) <==> forall i, j :: 0 <= i < j < |steps| ==> steps[i].now <= steps[j].now
  {
    if Ordered(rows) {
      forall i, j | 0 <= i < j < |steps| ensures steps[i].now <= steps[j].now {
        assert rows[i].timestamp <= rows[j].timestamp;
      }
    }
  }

  // ---------------------------------------------------------------- what the table holds

  function WritesOf(steps: seq<Step>): seq<Step> {
    if steps == [] then []
    else (if steps[0].WriteStep? then [steps[0]] else []) + WritesOf(steps[1..])
  }

  /** The rows are those of the last writes, in order, each with all that its writer passed. */
  ghost predicate HoldsLast(rows: seq<Entry>, writes: seq<Step>) {
    && |rows| <= |writes|
    && forall i :: 0 <= i < |rows| ==> IsRowOf(rows[i], writes[|writes| - |rows| + i])
  }

  ghost predicate IsRowOf(e: Entry, w: Step) {
    w.WriteStep? && Carries(e, w.now, w.fields)
  }

  lemma {:induction false} StepHoldsLast(h: HashFn, tb: Table, clock: int, step: Step, writes: seq<Step>)
    requires Sound(h, tb, clock) && HoldsLast(tb.rows, writes)
    ensures HoldsLast(Apply(h, tb, step).rows, if step.WriteStep? then writes + [step] else writes)
  {
    match step
    case WriteStep(now, f) =>
      assert IsRowOf(NewEntry(h, tb, now, f), step);
      hide LastHash;
      hide IsRowOf;
      var rows, all := Write(h, tb, now, f).rows, writes + [step];
      forall i | 0 <= i < |rows| ensures IsRowOf(rows[i], all[|all| - |rows| + i]) {
        if i < |tb.rows| { assert all[|all| - |rows| + i] == writes[|writes| - |tb.rows| + i]; }
      }
    case CleanupStep(cutoff) =>
      var n := CleanupDropsAPrefix(tb.rows, cutoff);
      hide Surviving;
      hide IsRowOf;
  }

  lemma AppendOne(writes: seq<Step>, step: Step, tail: seq<Step>)
    ensures (writes + [step]) + tail == writes + ([step] + tail)
  {
  }

  lemma WritesStep(steps: seq<Step>, writes: seq<Step>)
    requires steps != []
    ensures (if steps[0].WriteStep? then writes + [steps[0]] else writes) + WritesOf(steps[1..]) == writes + WritesOf(steps)
  {
    var tail := WritesOf(steps[1..]);
    assert WritesOf(steps) == if steps[0].WriteStep? then [steps[0]] + tail else tail by { assert [] + tail == tail; }
    hide WritesOf;
    AppendOne(writes, steps[0], tail);
  }

  lemma {:induction false} RunHoldsLast(h: HashFn, tb: Table, clock: int, steps: seq<Step>, writes: seq<Step>)
    requires NeverEmpty(h) && Sound(h, tb, clock) && ClockRuns(steps, clock) && HoldsLast(tb.rows, writes)
    ensures HoldsLast(Run(h, tb, steps).rows, writes + WritesOf(steps))
    decreases |steps|
  {
    if steps == [] {
      assert writes + [] == writes;
    } else {
      var step := steps[0];
      StepHoldsLast(h, tb, clock, step, writes);
      match step {
        case WriteStep(now, f) => WriteKeepsSound(h, tb, clock, now, f);
        case CleanupStep(cutoff) => CleanupKeepsSound(h, tb, clock, cutoff);
      }
      var writes' := if step.WriteStep? then writes + [step] else writes;
      hide HoldsLast;
      hide Sound;
      hide WritesOf;
      RunHoldsLast(h, Apply(h, tb, step), if step.WriteStep? then step.now else clock, steps[1..], writes');
      WritesStep(steps, writes);
    }
  }

  /**
   What a table holds after any mix of writes and clean-ups under a clock that never goes back: the rows of the
   last writes, in order, each with the action, actor, details, resource and AI flag that its writer passed.
   */
  lemma {:induction false} TableHoldsLastWrites(h: HashFn, steps: seq<Step>, clock: int)
    requires NeverEmpty(h) && ClockRuns(steps, clock)
    ensures HoldsLast(Run(h, EMPTY_TABLE, steps).rows, WritesOf(steps))
  {
    RunHoldsLast(h, EMPTY_TABLE, clock, steps, []);
    assert [] + WritesOf(steps) == WritesOf(steps);
  }

  /** Whatever the order of timestamps, clean-up keeps exactly the rows that are not older than the cutoff. */
  lemma {:induction false} SurvivingMeans(rows: seq<Entry>, cutoff: int, e: Entry)
    ensures e in Surviving(rows, cutoff) <==> e in rows && e.timestamp >= cutoff
  {
    if rows == [] {
    } else {
      SurvivingMeans(rows[1..], cutoff, e);
      assert rows == [rows[0]] + rows[1..];
    }
  }

  // ---------------------------------------------------------------- verification interleaved with the rest

  /** The local variables of verify_chain between two queries, or its answer. */
  datatype Cursor =
    | Running(total: nat, expectedPrev: Option<string>, lastId: int)
    | Finished(ok: bool, total: nat)

  const START := Running(0, None, 0)

  /** One turn of the paging loop against the table as it is now. */
  function PageStep(h: HashFn, rows: seq<Entry>, c: Cursor, batchSize: nat): Cursor
    requires batchSize >= 1
  {
    if c.Finished? then c else
    var page := Page(rows, c.lastId, batchSize);
    if page == [] then Finished(true, c.total)
    else if c.expectedPrev.Some? && page[0].prevHash != c.expectedPrev.value then Finished(false, c.total)
    else
      var n := ValidPrefix(h, page);
      if n < |page| then Finished(false, c.total + n)
      else Running(c.total + n, Some(page[|page| - 1].entryHash), page[|page| - 1].id)
  }

  /** The cursor records that exactly the rows of seen have been accepted. */
  ghost predicate Records(h: HashFn, c: Cursor, seen: seq<Entry>) {
    && c.Running?
    && ChainValid(h, seen)
    && c.total == |seen|
    && c.expectedPrev == (if seen == [] then None else Some(seen[|seen| - 1].entryHash))
  }

  /** The answer owed once the rows of all have been looked at in that order. */
  ghost function AnswerFor(h: HashFn, all: seq<Entry>): Cursor {
    Finished(ValidPrefix(h, all) == |all|, ValidPrefix(h, all))
  }

  lemma {:induction false} FailureAt(h: HashFn, seen: seq<Entry>, page: seq<Entry>, rest: seq<Entry>, n: nat)
    requires ChainValid(h, seen) && n < |page| && ChainValid(h, page[..n])
    requires n > 0 ==> seen == [] || page[0].prevHash == seen[|seen| - 1].entryHash
    requires || !ChainValid(h, page[..n + 1])
             || (seen != [] && page[0].prevHash != seen[|seen| - 1].entryHash)
    ensures ValidPrefix(h, seen + (page + rest)) == |seen| + n
  {
    hide ValidPrefix;
    var all := seen + (page + rest);
    assert all[..|seen| + n] == seen + page[..n];
    assert all[..|seen| + n + 1] == seen + page[..n + 1];
    ChainValidConcat(h, seen, page[..n]);
    ChainValidConcat(h, seen, page[..n + 1]);
    ValidPrefixUnique(h, all, |seen| + n);
  }

  /** A failure n rows into page is the first failure of seen + page + rest. */
  lemma {:induction false} FailureInPage(h: HashFn, seen: seq<Entry>, page: seq<Entry>, rest: seq<Entry>)
    requires ChainValid(h, seen) && page != []
    requires !ChainValid(h, seen + page)
    ensures var linked := seen == [] || page[0].prevHash == seen[|seen| - 1].entryHash;
            var n := if linked then ValidPrefix(h, page) else 0;
            && n < |page|
            && ValidPrefix(h, seen + (page + rest)) == |seen| + n
  {
    var linked := seen == [] || page[0].prevHash == seen[|seen| - 1].entryHash;
    var n := if linked then ValidPrefix(h, page) else 0;
    ValidPrefixIsLongest(h, page);
    ChainValidConcat(h, seen, page);
    hide ValidPrefix;
    assert page[..|page|] == page;
    FailureAt(h, seen, page, rest, n);
  }

  /** One turn of the loop either extends what has been accepted by a page or gives the final answer. */
  lemma {:induction false} PageStepMeaning(h: HashFn, rows: seq<Entry>, c: Cursor, seen: seq<Entry>, batchSize: nat)
    requires batchSize >= 1 && Records(h, c, seen)
    ensures var page := Page(rows, c.lastId, batchSize);
            var c' := PageStep(h, rows, c, batchSize);
            var all := seen + Visited(rows, c.lastId, batchSize);
            if c'.Finished? then c' == AnswerFor(h, all)
            else && page != []
                 && Records(h, c', seen + page)
                 && c'.lastId == page[|page| - 1].id
                 && all == (seen + page) + Visited(rows, c'.lastId, batchSize)
  {
    hide Page;
    hide After;
    hide ChainValid;
    hide ValidPrefix;
    var page := Page(rows, c.lastId, batchSize);
    if page == [] {
      assert seen + [] == seen;
      ValidPrefixIsAll(h, seen);
    } else {
      var rest := Visited(rows, page[|page| - 1].id, batchSize);
      assert seen + (page + rest) == (seen + page) + rest;
      ChainValidConcat(h, seen, page);
      ValidPrefixIsAll(h, page);
      if !ChainValid(h, seen + page) { FailureInPage(h, seen, page, rest); }
      ValidPrefixIsLongest(h, page);
    }
  }

  datatype Event = TableEvent(step: Step) | PageEvent

  datatype System = System(tb: Table, cursor: Cursor)

  function Next(h: HashFn, s: System, e: Event, batchSize: nat): System
    requires batchSize >= 1
  {
    match e
    case TableEvent(step) => s.(tb := Apply(h, s.tb, step))
    case PageEvent => s.(cursor := PageStep(h, s.tb.rows, s.cursor, batchSize))
  }

  function RunSystem(h: HashFn, s: System, events: seq<Event>, batchSize: nat): System
    requires batchSize >= 1
    decreases |events|
  {
    if events == [] then s else RunSystem(h, Next(h, s, events[0], batchSize), events[1..], batchSize)
  }

  ghost predicate PagesOnly(events: seq<Event>) {
    forall i :: 0 <= i < |events| ==> events[i].PageEvent?
  }

  lemma {:induction false} FinishedStays(h: HashFn, s: System, events: seq<Event>, batchSize: nat)
    requires batchSize >= 1 && s.cursor.Finished? && PagesOnly(events)
    ensures RunSystem(h, s, events, batchSize).cursor == s.cursor
    decreases |events|
  {
    if events == [] {
    } else {
      FinishedStays(h, Next(h, s, events[0], batchSize), events[1..], batchSize);
    }
  }

  /** On a table left alone, enough page queries always end in the answer for the rows visited. */
  lemma {:induction false} PagingAnswers(h: HashFn, s: System, seen: seq<Entry>, events: seq<Event>, batchSize: nat)
    requires batchSize >= 1 && Records(h, s.cursor, seen)
    requires PagesOnly(events) && |events| > |After(s.tb.rows, s.cursor.lastId)|
    ensures RunSystem(h, s, events, batchSize).cursor
              == AnswerFor(h, seen + Visited(s.tb.rows, s.cursor.lastId, batchSize))
    decreases |events|
  {
    var rows, c := s.tb.rows, s.cursor;
    var s' := Next(h, s, events[0], batchSize);
    PageStepMeaning(h, rows, c, seen, batchSize);
    if s'.cursor.Finished? {
      FinishedStays(h, s', events[1..], batchSize);
    } else {
      CursorAdvances(rows, c.lastId, batchSize);
      PagingAnswers(h, s', seen + Page(rows, c.lastId, batchSize), events[1..], batchSize);
    }
  }

  // ---------------------------------------------------------------- what a clean-up must leave in place

  /**
   The cursor stands before row n, and what comes next links on: row n if there is one, else the row that
   will be written next, which links to the newest row.
   */
  ghost predicate LinksOnAt(rows: seq<Entry>, c: Cursor, n: nat) {
    && c.Running?
    && CutAt(rows, c.lastId, n)
    && (c.expectedPrev.None? ==> n == 0 && c.lastId == 0)
    && (c.expectedPrev.Some? ==>
          && rows != []
          && c.expectedPrev.value == if n < |rows| then rows[n].prevHash else rows[n - 1].entryHash)
  }

  /** The clean-up takes a row that the verification has yet to read, or all rows there are. */
  ghost predicate Loses(rows: seq<Entry>, c: Cursor, cutoff: int) {
    && c.Running? && c.expectedPrev.Some? && rows != []
    && (|| (exists i :: 0 <= i < |rows| && rows[i].id > c.lastId && rows[i].timestamp < cutoff)
        || (forall i :: 0 <= i < |rows| ==> rows[i].timestamp < cutoff))
  }

  lemma {:induction false} LosesMeans(rows: seq<Entry>, c: Cursor, cutoff: int, n: nat, dropped: nat)
    requires c.Running? && IdsIncrease(rows) && CutAt(rows, c.lastId, n) && dropped <= |rows|
    requires forall i :: 0 <= i < dropped ==> rows[i].timestamp < cutoff
    requires forall i :: dropped <= i < |rows| ==> rows[i].timestamp >= cutoff
    requires c.expectedPrev.Some? && rows != []
    ensures Loses(rows, c, cutoff) <==> dropped > n || dropped == |rows|
  {
    if n < dropped { assert rows[n].id > c.lastId && rows[n].timestamp < cutoff; }
    if i :| 0 <= i < |rows| && rows[i].id > c.lastId && rows[i].timestamp < cutoff {
      assert i < dropped;
      assert n > 0 ==> rows[n - 1].id < rows[i].id;
    }
    if dropped < |rows| { assert rows[dropped].timestamp >= cutoff; }
  }

  /** With ordered timestamps, what is dropped is old and what is kept is not. */
  lemma {:induction false} CleanupCut(rows: seq<Entry>, cutoff: int) returns (n: nat)
    requires Ordered(rows)
    ensures n <= |rows| && Surviving(rows, cutoff) == rows[n..]
    ensures forall i :: 0 <= i < n ==> rows[i].timestamp < cutoff
    ensures forall i :: n <= i < |rows| ==> rows[i].timestamp >= cutoff
  {
    n := CleanupDropsAPrefix(rows, cutoff);
    forall i | n <= i < |rows| ensures rows[i].timestamp >= cutoff {
      if i > n { assert rows[n].timestamp <= rows[i].timestamp; }
    }
  }

  predicate IsWrite(e: Event) {
    e.TableEvent? && e.step.WriteStep?
  }

  predicate IsCleanup(e: Event) {
    e.TableEvent? && e.step.CleanupStep?
  }

  function ClockAfter(clock: int, e: Event): int {
    if IsWrite(e) then e.step.now else clock
  }

  /** Clock readings never go back, and no clean-up takes what the verification has yet to read. */
  ghost predicate Orderly(h: HashFn, s: System, clock: int, events: seq<Event>, batchSize: nat)
    requires batchSize >= 1
    decreases |events|
  {
    if events == [] then true
    else
      && (IsWrite(events[0]) ==> clock <= events[0].step.now)
      && (IsCleanup(events[0]) ==> !Loses(s.tb.rows, s.cursor, events[0].step.cutoff))
      && Orderly(h, Next(h, s, events[0], batchSize), ClockAfter(clock, events[0]), events[1..], batchSize)
  }

  ghost predicate Accepting(h: HashFn, s: System, clock: int) {
    && Sound(h, s.tb, clock)
    && (s.cursor.Finished? ==> s.cursor.ok)
    && (s.cursor.Running? ==> s.cursor.lastId < s.tb.nextId && exists n: nat :: LinksOnAt(s.tb.rows, s.cursor, n))
  }

  lemma {:induction false} StretchIsValid(h: HashFn, rows: seq<Entry>, n: nat, m: nat)
    requires n <= m <= |rows| && ChainValid(h, rows)
    ensures ValidPrefix(h, rows[n..m]) == m - n
  {
    hide ValidPrefix;
    SuffixChainValid(h, rows, n);
    assert rows[n..] == rows[n..m] + rows[m..];
    ChainValidConcat(h, rows[n..m], rows[m..]);
    ValidPrefixIsAll(h, rows[n..m]);
  }

  /** After row m - 1, what comes next links on. */
  lemma {:induction false} LinksOnAfterRow(h: HashFn, rows: seq<Entry>, c: Cursor, m: nat)
    requires IdsIncrease(rows) && ChainValid(h, rows) && 0 < m <= |rows|
    requires c.Running? && c.expectedPrev == Some(rows[m - 1].entryHash) && c.lastId == rows[m - 1].id
    ensures LinksOnAt(rows, c, m)
  {
    hide Recomputes;
    if m < |rows| { assert rows[m].prevHash == rows[m - 1].entryHash; }
  }

  lemma {:induction false} PageStepReadsOn(h: HashFn, rows: seq<Entry>, c: Cursor, n: nat, m: nat, batchSize: nat)
    requires batchSize >= 1 && LinksOnAt(rows, c, n) && n < m <= |rows|
    requires Page(rows, c.lastId, batchSize) == rows[n..m] && ValidPrefix(h, rows[n..m]) == m - n
    ensures PageStep(h, rows, c, batchSize) == Running(c.total + (m - n), Some(rows[m - 1].entryHash), rows[m - 1].id)
  {
    hide ValidPrefix;
    hide Page;
    var page := rows[n..m];
    assert page[0] == rows[n] && page[|page| - 1] == rows[m - 1];
  }

  /** The next page, read where the cursor stands: a non-empty stretch of the table that links on. */
  lemma {:induction false} PageStepMovesOn(h: HashFn, rows: seq<Entry>, c: Cursor, n: nat, batchSize: nat)
    requires batchSize >= 1 && IdsIncrease(rows) && Ordered(rows) && ChainValid(h, rows) && LinksOnAt(rows, c, n)
    ensures n == |rows| ==> PageStep(h, rows, c, batchSize) == Finished(true, c.total)
    ensures n < |rows| ==>
              var m := n + Min(batchSize, |rows| - n);
              && PageStep(h, rows, c, batchSize) == Running(c.total + (m - n), Some(rows[m - 1].entryHash), rows[m - 1].id)
              && LinksOnAt(rows, PageStep(h, rows, c, batchSize), m)
  {
    PageOfOrdered(rows, c.lastId, n, batchSize);
    hide Page;
    if n < |rows| {
      hide PageStep;
      var m := n + Min(batchSize, |rows| - n);
      StretchIsValid(h, rows, n, m);
      PageStepReadsOn(h, rows, c, n, m, batchSize);
      LinksOnAfterRow(h, rows, PageStep(h, rows, c, batchSize), m);
    }
  }

  lemma {:induction false} PageStepStaysAccepting(h: HashFn, s: System, clock: int, batchSize: nat)
    requires batchSize >= 1 && Accepting(h, s, clock) && s.cursor.Running?
    ensures Accepting(h, Next(h, s, PageEvent, batchSize), clock)
  {
    var n: nat :| LinksOnAt(s.tb.rows, s.cursor, n);
    PageStepMovesOn(h, s.tb.rows, s.cursor, n, batchSize);
  }

  lemma {:induction false} WriteKeepsPlace(h: HashFn, tb: Table, c: Cursor, clock: int, now: int, f: Fields, n: nat)
    requires NeverEmpty(h) && Sound(h, tb, clock) && c.Running? && c.lastId < tb.nextId && LinksOnAt(tb.rows, c, n)
    ensures LinksOnAt(Write(h, tb, now, f).rows, c, n)
  {
    var rows := tb.rows;
    if rows != [] {
      assert Recomputes(h, rows[|rows| - 1]);
      assert LastHash(rows) == rows[|rows| - 1].entryHash;
    }
  }

  lemma {:induction false} CleanupKeepsPlace(rows: seq<Entry>, c: Cursor, cutoff: int, n: nat)
    requires IdsIncrease(rows) && Ordered(rows) && LinksOnAt(rows, c, n) && !Loses(rows, c, cutoff)
    ensures exists m: nat :: LinksOnAt(Surviving(rows, cutoff), c, m)
  {
    var dropped := CleanupCut(rows, cutoff);
    hide Surviving;
    var rows' := rows[dropped..];
    if c.expectedPrev.Some? {
      LosesMeans(rows, c, cutoff, n, dropped);
      assert LinksOnAt(rows', c, n - dropped);
    } else {
      assert LinksOnAt(rows', c, 0);
    }
  }

  lemma {:induction false} TableStepStaysAccepting(h: HashFn, s: System, clock: int, step: Step)
    requires NeverEmpty(h) && Accepting(h, s, clock)
    requires step.WriteStep? ==> clock <= step.now
    requires step.CleanupStep? ==> !Loses(s.tb.rows, s.cursor, step.cutoff)
    ensures Accepting(h, s.(tb := Apply(h, s.tb, step)), if step.WriteStep? then step.now else clock)
  {
    match step
    case WriteStep(now, f) =>
      WriteKeepsSound(h, s.tb, clock, now, f);
      if s.cursor.Running? {
        var n: nat :| LinksOnAt(s.tb.rows, s.cursor, n);
        WriteKeepsPlace(h, s.tb, s.cursor, clock, now, f, n);
      }
    case CleanupStep(cutoff) =>
      CleanupKeepsSound(h, s.tb, clock, cutoff);
      if s.cursor.Running? {
        var n: nat :| LinksOnAt(s.tb.rows, s.cursor, n);
        CleanupKeepsPlace(s.tb.rows, s.cursor, cutoff, n);
      }
  }

  /**
   A verification whose page queries interleave with any writes, and with clean-ups that take nothing it has
   yet to read, never reports a broken chain.
   */
  lemma {:induction false} InterleavedStaysAccepting(h: HashFn, s: System, clock: int, events: seq<Event>, batchSize: nat)
    returns (end: int)
    requires batchSize >= 1 && NeverEmpty(h)
    requires Accepting(h, s, clock) && Orderly(h, s, clock, events, batchSize)
    ensures Accepting(h, RunSystem(h, s, events, batchSize), end)
    decreases |events|
  {
    if events == [] {
      end := clock;
    } else {
      match events[0] {
        case PageEvent => if s.cursor.Running? { PageStepStaysAccepting(h, s, clock, batchSize); }
        case TableEvent(step) => TableStepStaysAccepting(h, s, clock, step);
      }
      end := InterleavedStaysAccepting(
        h, Next(h, s, events[0], batchSize), ClockAfter(clock, events[0]), events[1..], batchSize);
    }
  }

  lemma AfterIsNoLonger(rows: seq<Entry>, lastId: int)
    ensures |After(rows, lastId)| <= |rows|
  {
  }

  lemma {:induction false} RunSystemConcat(h: HashFn, s: System, a: seq<Event>, b: seq<Event>, batchSize: nat)
    requires batchSize >= 1
    ensures RunSystem(h, s, a + b, batchSize) == RunSystem(h, RunSystem(h, s, a, batchSize), b, batchSize)
    decreases |a|
  {
    if a == [] {
      assert a + b == b;
    } else {
      assert (a + b)[1..] == a[1..] + b;
      RunSystemConcat(h, Next(h, s, a[0], batchSize), a[1..], b, batchSize);
    }
  }

  lemma {:induction false} PagingEndsAccepting(h: HashFn, s: System, clock: int, events: seq<Event>, batchSize: nat)
    requires batchSize >= 1 && Accepting(h, s, clock)
    requires PagesOnly(events)
    requires s.cursor.Running? ==> |events| > |After(s.tb.rows, s.cursor.lastId)|
    ensures var c := RunSystem(h, s, events, batchSize).cursor; c.Finished? && c.ok
    decreases |events|
  {
    if s.cursor.Finished? {
      FinishedStays(h, s, events, batchSize);
    } else {
      var s' := Next(h, s, events[0], batchSize);
      PageStepStaysAccepting(h, s, clock, batchSize);
      if s'.cursor.Running? { CursorAdvances(s.tb.rows, s.cursor.lastId, batchSize); }
      PagingEndsAccepting(h, s', clock, events[1..], batchSize);
    }
  }

  /**
   Once the interleaved writes and clean-ups are over, the verification ends and accepts: from
   any sound table, after any orderly events, enough further page queries answer True.
   */
  lemma {:induction false} InterleavedVerificationEnds(
    h: HashFn, tb: Table, clock: int, events: seq<Event>, pages: seq<Event>, batchSize: nat)
    requires batchSize >= 1 && NeverEmpty(h) && Sound(h, tb, clock)
    requires Orderly(h, System(tb, START), clock, events, batchSize) && PagesOnly(pages)
    requires |pages| > |RunSystem(h, System(tb, START), events, batchSize).tb.rows|
    ensures var c := RunSystem(h, System(tb, START), events + pages, batchSize).cursor; c.Finished? && c.ok
  {
    var s := System(tb, START);
    assert LinksOnAt(tb.rows, START, 0);
    var end := InterleavedStaysAccepting(h, s, clock, events, batchSize);
    var s' := RunSystem(h, s, events, batchSize);
    if s'.cursor.Running? { AfterIsNoLonger(s'.tb.rows, s'.cursor.lastId); }
    PagingEndsAccepting(h, s', end, pages, batchSize);
    RunSystemConcat(h, s, events, pages, batchSize);
  }

  // ---------------------------------------------------------------- exactly when it reports a broken chain

  predicate Fails(c: Cursor) {
    c.Finished? && !c.ok
  }

  /** Some page query comes upon a row after a clean-up has cost the verification its place. */
  ghost predicate SeesLoss(h: HashFn, s: System, lost: bool, events: seq<Event>, batchSize: nat)
    requires batchSize >= 1
    decreases |events|
  {
    events != [] &&
    var lost' := lost || (IsCleanup(events[0]) && Loses(s.tb.rows, s.cursor, events[0].step.cutoff));
    || (events[0].PageEvent? && lost && s.cursor.Running? && s.tb.rows != [])
    || SeesLoss(h, Next(h, s, events[0], batchSize), lost', events[1..], batchSize)
  }

  /** The hash of a new row is that of no row in the table, not the one expected next, and not the zero hash. */
  ghost predicate FreshWrite(h: HashFn, s: System, step: Step)
    requires step.WriteStep?
  {
    var hash := NewEntry(h, s.tb, step.now, step.fields).entryHash;
    && hash != ZERO_HASH
    && (forall i :: 0 <= i < |s.tb.rows| ==> s.tb.rows[i].entryHash != hash)
    && (s.cursor.Running? ==> s.cursor.expectedPrev != Some(hash))
  }

  /** Clock readings never go back, and no two hashes collide. */
  ghost predicate Ordinary(h: HashFn, s: System, clock: int, events: seq<Event>, batchSize: nat)
    requires batchSize >= 1
    decreases |events|
  {
    if events == [] then true
    else
      && (IsWrite(events[0]) ==> clock <= events[0].step.now && FreshWrite(h, s, events[0].step))
      && Ordinary(h, Next(h, s, events[0], batchSize), ClockAfter(clock, events[0]), events[1..], batchSize)
  }

  /** No two rows of the table share a hash, and the one expected next belongs to none still to be read. */
  ghost predicate Told(rows: seq<Entry>, c: Cursor) {
    && (forall i, j :: 0 <= i < j < |rows| ==> rows[i].entryHash != rows[j].entryHash)
    && (forall i :: 0 <= i < |rows| ==> rows[i].entryHash != ZERO_HASH)
    && (c.Running? && c.expectedPrev.Some? ==>
          && c.expectedPrev.value != ZERO_HASH
          && forall i :: 0 <= i < |rows| && rows[i].id > c.lastId ==> rows[i].entryHash != c.expectedPrev.value)
  }

  /** All rows are still to be read, and none links to the hash expected next or ever will. */
  ghost predicate Stranded(rows: seq<Entry>, c: Cursor) {
    && c.Running? && c.expectedPrev.Some?
    && c.expectedPrev.value != ZERO_HASH
    && forall i :: 0 <= i < |rows| ==>
         rows[i].id > c.lastId && rows[i].prevHash != c.expectedPrev.value && rows[i].entryHash != c.expectedPrev.value
  }

  ghost predicate Tracked(h: HashFn, s: System, clock: int, lost: bool) {
    && Sound(h, s.tb, clock)
    && Told(s.tb.rows, s.cursor)
    && (s.cursor.Running? ==>
          && s.cursor.lastId < s.tb.nextId
          && if lost then Stranded(s.tb.rows, s.cursor) else exists n: nat :: LinksOnAt(s.tb.rows, s.cursor, n))
  }

  lemma {:induction false} StrandedPageStep(h: HashFn, rows: seq<Entry>, c: Cursor, batchSize: nat)
    requires batchSize >= 1 && Stranded(rows, c)
    ensures PageStep(h, rows, c, batchSize) == Finished(rows == [], c.total)
  {
    PageProperties(rows, c.lastId, batchSize);
    var page := Page(rows, c.lastId, batchSize);
    if rows != [] {
      AfterSelects(rows, c.lastId, rows[0]);
      assert After(rows, c.lastId) != [];
      hide Page;
      assert page[0] in rows;
    } else {
      assert After(rows, c.lastId) == [];
    }
  }

  lemma {:induction false} LossStrands(h: HashFn, rows: seq<Entry>, c: Cursor, cutoff: int, n: nat)
    requires IdsIncrease(rows) && Ordered(rows) && ChainValid(h, rows) && Told(rows, c)
    requires LinksOnAt(rows, c, n) && Loses(rows, c, cutoff)
    ensures Stranded(Surviving(rows, cutoff), c)
  {
    var dropped := CleanupCut(rows, cutoff);
    LosesMeans(rows, c, cutoff, n, dropped);
    hide Surviving;
    var rows' := rows[dropped..];
    forall i | 0 <= i < |rows'|
      ensures rows'[i].id > c.lastId && rows'[i].prevHash != c.expectedPrev.value && rows'[i].entryHash != c.expectedPrev.value
    {
      var p := dropped + i;
      assert rows'[i] == rows[p] && n < p;
      assert rows[n].id > c.lastId;
      assert rows[p].prevHash == rows[p - 1].entryHash;
      assert rows[p - 1].id > c.lastId && rows[p].id > c.lastId;
    }
  }

  lemma {:induction false} WriteStaysTold(h: HashFn, s: System, now: int, f: Fields)
    requires Told(s.tb.rows, s.cursor) && FreshWrite(h, s, WriteStep(now, f))
    ensures Told(Write(h, s.tb, now, f).rows, s.cursor)
  {
  }

  lemma {:induction false} WriteStaysStranded(h: HashFn, s: System, clock: int, now: int, f: Fields)
    requires NeverEmpty(h) && Sound(h, s.tb, clock) && Stranded(s.tb.rows, s.cursor) && s.cursor.lastId < s.tb.nextId
    requires FreshWrite(h, s, WriteStep(now, f))
    ensures Stranded(Write(h, s.tb, now, f).rows, s.cursor)
  {
    var rows := s.tb.rows;
    if rows != [] { assert Recomputes(h, rows[|rows| - 1]); }
  }

  lemma {:induction false} CleanupStaysTold(rows: seq<Entry>, c: Cursor, cutoff: int)
    requires Ordered(rows) && Told(rows, c)
    ensures Told(Surviving(rows, cutoff), c)
    ensures Stranded(rows, c) ==> Stranded(Surviving(rows, cutoff), c)
  {
    var n := CleanupDropsAPrefix(rows, cutoff);
  }

  /** A page read up to row m - 1 leaves the hash expected next with no row still to be read. */
  lemma {:induction false} ToldAfterRow(rows: seq<Entry>, c: Cursor, c': Cursor, m: nat)
    requires IdsIncrease(rows) && Told(rows, c) && 0 < m <= |rows|
    requires c'.Running? && c'.expectedPrev == Some(rows[m - 1].entryHash) && c'.lastId == rows[m - 1].id
    ensures Told(rows, c')
  {
    forall i | 0 <= i < |rows| && rows[i].id > rows[m - 1].id ensures rows[i].entryHash != rows[m - 1].entryHash {
      assert i > m - 1;
    }
  }

  lemma {:induction false} PageStepStaysTracked(h: HashFn, s: System, clock: int, lost: bool, batchSize: nat)
    requires batchSize >= 1 && Tracked(h, s, clock, lost) && s.cursor.Running?
    ensures Tracked(h, Next(h, s, PageEvent, batchSize), clock, lost)
    ensures Fails(PageStep(h, s.tb.rows, s.cursor, batchSize)) <==> lost && s.tb.rows != []
  {
    var rows, c := s.tb.rows, s.cursor;
    if lost {
      StrandedPageStep(h, rows, c, batchSize);
    } else {
      var n: nat :| LinksOnAt(rows, c, n);
      PageStepMovesOn(h, rows, c, n, batchSize);
      hide PageStep;
      if n < |rows| {
        ToldAfterRow(rows, c, PageStep(h, rows, c, batchSize), n + Min(batchSize, |rows| - n));
      }
      hide LinksOnAt;
      hide ChainValid;
      hide IdsIncrease;
      hide Ordered;
    }
  }

  lemma {:induction false} TableStepStaysTracked(h: HashFn, s: System, clock: int, lost: bool, step: Step)
    requires NeverEmpty(h) && Tracked(h, s, clock, lost)
    requires step.WriteStep? ==> clock <= step.now && FreshWrite(h, s, step)
    ensures Tracked(h, s.(tb := Apply(h, s.tb, step)), if step.WriteStep? then step.now else clock,
                    lost || (step.CleanupStep? && Loses(s.tb.rows, s.cursor, step.cutoff)))
  {
    var rows, c := s.tb.rows, s.cursor;
    match step
    case WriteStep(now, f) =>
      WriteKeepsSound(h, s.tb, clock, now, f);
      WriteStaysTold(h, s, now, f);
      if c.Running? {
        if lost {
          WriteStaysStranded(h, s, clock, now, f);
        } else {
          var n: nat :| LinksOnAt(rows, c, n);
          WriteKeepsPlace(h, s.tb, c, clock, now, f, n);
        }
      }
    case CleanupStep(cutoff) =>
      CleanupKeepsSound(h, s.tb, clock, cutoff);
      CleanupStaysTold(rows, c, cutoff);
      if c.Running? && !lost {
        var n: nat :| LinksOnAt(rows, c, n);
        if Loses(rows, c, cutoff) {
          LossStrands(h, rows, c, cutoff, n);
        } else {
          CleanupKeepsPlace(rows, c, cutoff, n);
        }
      }
  }

  lemma {:induction false} TrackedRun(h: HashFn, s: System, clock: int, lost: bool, events: seq<Event>, batchSize: nat)
    requires batchSize >= 1 && NeverEmpty(h)
    requires Tracked(h, s, clock, lost) && Ordinary(h, s, clock, events, batchSize)
    ensures Fails(RunSystem(h, s, events, batchSize).cursor) <==> Fails(s.cursor) || SeesLoss(h, s, lost, events, batchSize)
    decreases |events|
  {
    if events == [] {
    } else {
      var lost' := lost || (IsCleanup(events[0]) && Loses(s.tb.rows, s.cursor, events[0].step.cutoff));
      match events[0] {
        case PageEvent => if s.cursor.Running? { PageStepStaysTracked(h, s, clock, lost, batchSize); }
        case TableEvent(step) => TableStepStaysTracked(h, s, clock, lost, step);
      }
      TrackedRun(h, Next(h, s, events[0], batchSize), ClockAfter(clock, events[0]), lost', events[1..], batchSize);
    }
  }

  /**
   Exactly when a verification of an untampered table reports a broken chain: when a clean-up takes a row
   it has yet to read, or all rows there are, and a later page query of it still finds a row.  This holds over every
   interleaving of page queries, writes and clean-ups in which hashes do not collide.
   */
  lemma {:induction false} InterleavedFailsExactlyWhen(h: HashFn, tb: Table, clock: int, events: seq<Event>, batchSize: nat)
    requires batchSize >= 1 && NeverEmpty(h) && Sound(h, tb, clock) && Told(tb.rows, START)
    requires Ordinary(h, System(tb, START), clock, events, batchSize)
    ensures SeesLoss(h, System(tb, START), false, events, batchSize) <==>
            Fails(RunSystem(h, System(tb, START), events, batchSize).cursor)
  {
    assert LinksOnAt(tb.rows, START, 0);
    TrackedRun(h, System(tb, START), clock, false, events, batchSize);
  }

  /** The cursor sits on a row of the table, and that row's hash is the one expected next. */
  ghost predicate OnRow(rows: seq<Entry>, c: Cursor, k: nat) {
    && c.Running? && c.expectedPrev.Some?
    && k < |rows| && rows[k].id == c.lastId && rows[k].entryHash == c.expectedPrev.value
  }

  /**
   One clean-up between two page queries: with the cursor on row k, dropping the first n rows makes the next
   page query fail exactly when the row after the cursor is among them; the row under the cursor
   itself may go.  Dropping everything makes it fail exactly when a row is written before the query.
   */
  lemma {:induction false} CleanupBreaksExactlyWhen(
    h: HashFn, rows: seq<Entry>, c: Cursor, k: nat, n: nat, nextId: int, now: int, f: Fields, batchSize: nat)
    requires batchSize >= 1 && IdsIncrease(rows) && Ordered(rows) && ChainValid(h, rows) && Told(rows, START)
    requires OnRow(rows, c, k) && n <= |rows| && nextId > c.lastId && nextId >= 1
    ensures n < |rows| ==> (PageStep(h, rows[n..], c, batchSize) == Finished(false, c.total) <==> n > k + 1)
    ensures n == |rows| ==> PageStep(h, rows[n..], c, batchSize) == Finished(true, c.total)
    ensures n == |rows| ==> PageStep(h, Write(h, Table(rows[n..], nextId), now, f).rows, c, batchSize) == Finished(false, c.total)
  {
    var rest := rows[n..];
    assert Told(rows, c);
    if n == |rows| {
      assert After([], c.lastId) == [];
      FirstWriteAfterEmptying(h, c, nextId, now, f, batchSize);
    } else if n > k + 1 {
      forall i | 0 <= i < |rest|
        ensures rest[i].id > c.lastId && rest[i].prevHash != c.expectedPrev.value && rest[i].entryHash != c.expectedPrev.value
      {
        assert rest[i] == rows[n + i] && rows[n + i].prevHash == rows[n + i - 1].entryHash;
      }
      StrandedPageStep(h, rest, c, batchSize);
    } else {
      SuffixKeepsOrder(rows, n);
      SuffixChainValid(h, rows, n);
      assert LinksOnAt(rest, c, k + 1 - n) by {
        if k + 1 < |rows| { assert rows[k + 1].prevHash == rows[k].entryHash; }
      }
      PageStepMovesOn(h, rest, c, k + 1 - n, batchSize);
    }
  }

  lemma {:induction false} FirstWriteAfterEmptying(h: HashFn, c: Cursor, nextId: int, now: int, f: Fields, batchSize: nat)
    requires batchSize >= 1 && c.Running? && c.expectedPrev.Some? && c.expectedPrev.value != ZERO_HASH && nextId > c.lastId
    ensures PageStep(h, Write(h, Table([], nextId), now, f).rows, c, batchSize) == Finished(false, c.total)
  {
    var e := NewEntry(h, Table([], nextId), now, f);
    var rows := Write(h, Table([], nextId), now, f).rows;
    assert rows == [e] && e.prevHash == ZERO_HASH;
    PageProperties(rows, c.lastId, batchSize);
    AfterSelects(rows, c.lastId, e);
    assert e in After(rows, c.lastId);
    var page := Page(rows, c.lastId, batchSize);
    hide Page;
    assert page[0] in rows;
  }

  /** A failing run at any page size: one page, a clean-up that reaches past the row after it, another page. */
  lemma {:induction false} CleanupMidVerificationFails(h: HashFn, tb: Table, clock: int, batchSize: nat)
    requires batchSize >= 1 && Sound(h, tb, clock) && Told(tb.rows, START) && |tb.rows| >= batchSize + 2
    requires tb.rows[batchSize].timestamp < tb.rows[batchSize + 1].timestamp
    ensures RunSystem(h, System(tb, START),
              [PageEvent, TableEvent(CleanupStep(tb.rows[batchSize + 1].timestamp)), PageEvent], batchSize).cursor
              == Finished(false, batchSize)
  {
    var rows, b := tb.rows, batchSize;
    var cutoff := rows[b + 1].timestamp;
    var s0 := System(tb, START);
    assert LinksOnAt(rows, START, 0);
    PageStepMovesOn(h, rows, START, 0, b);
    var s1 := Next(h, s0, PageEvent, b);
    assert s1.cursor == Running(b, Some(rows[b - 1].entryHash), rows[b - 1].id);
    var n := CleanupCut(rows, cutoff);
    assert n == b + 1;
    var s2 := Next(h, s1, TableEvent(CleanupStep(cutoff)), b);
    assert OnRow(rows, s1.cursor, b - 1);
    CleanupBreaksExactlyWhen(h, rows, s1.cursor, b - 1, n, tb.nextId, 0, Fields("", "", None, None, None, false), b);
    var e1, e2, e3 := PageEvent, TableEvent(CleanupStep(cutoff)), PageEvent;
    var s3 := Next(h, s2, e3, b);
    hide PageStep;
    hide Surviving;
    assert [e1, e2, e3][1..] == [e2, e3] && [e2, e3][1..] == [e3];
    assert RunSystem(h, s2, [e3], b) == s3;
    assert RunSystem(h, s1, [e2, e3], b) == s3;
  }

  ghost predicate Injective(h: HashFn) {
    forall p, q :: h(p) == h(q) ==> p == q
  }

  lemma {:induction false} HonestLogIsTold(h: HashFn, n: nat)
    requires Injective(h) && forall p :: h(p) != ZERO_HASH
    ensures Told(HonestLog(h, n), START)
  {
    HonestLogIsHonest(h, n);
    var log := HonestLog(h, n);
    forall i | 0 <= i < |log| ensures log[i].entryHash == h(PersistedPayload(log[i])) {
      assert Recomputes(h, log[i]);
    }
  }

  /** With the page size in use: a thousand and two honest rows, and a clean-up after the first page. */
  lemma {:induction false} CleanupBreaksFullPage(h: HashFn)
    requires Injective(h) && forall p :: h(p) != ZERO_HASH
    ensures exists tb, clock, cutoff ::
              && Sound(h, tb, clock)
              && RunSystem(h, System(tb, START), [PageEvent, TableEvent(CleanupStep(cutoff)), PageEvent], BATCH_SIZE).cursor
                   == Finished(false, BATCH_SIZE)
  {
    var n := BATCH_SIZE + 2;
    var tb := Table(HonestLog(h, n), n + 2);
    HonestLogIsHonest(h, n);
    HonestLogIsTold(h, n);
    hide HonestLog;
    assert Sound(h, tb, n);
    CleanupMidVerificationFails(h, tb, n, BATCH_SIZE);
  }
}

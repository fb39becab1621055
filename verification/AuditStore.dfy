/** The audit table as the application updates it. */
module AuditStore {
  import opened Options
  import opened AuditChain
  import opened AuditHistory

  class AuditLog {
    var rows: seq<Entry>
    var nextId: int
    const hash: HashFn

    constructor (hash: HashFn)
      ensures this.hash == hash && State() == EMPTY_TABLE
    {
      this.hash := hash;
      rows, nextId := [], 1;
    }

    ghost function State(): Table
      reads this
    {
      Table(rows, nextId)
    }

    method GetLastHash() returns (r: string)
      ensures r == LastHash(rows)
      ensures rows == [] || rows[|rows| - 1].entryHash == "" ==> r == ZERO_HASH
      ensures rows != [] && rows[|rows| - 1].entryHash != "" ==> r == rows[|rows| - 1].entryHash
    {
      if rows == [] { return ZERO_HASH; }
      var last := rows[|rows| - 1].entryHash;
      r := if last != "" then last else ZERO_HASH;
    }

    /** One atomic write: the new row links to the newest row and hashes the five covered fields. */
    method WriteAuditLog(fields: Fields, now: int) returns (entry: Entry)
      modifies this
      ensures State() == Write(hash, old(State()), now, fields)
      ensures rows == old(rows) + [entry] && entry.id == old(nextId) && nextId == old(nextId) + 1
      ensures Carries(entry, now, fields)
      ensures PersistedPayload(entry) == Payload(LastHash(old(rows)), now, fields.userId, fields.action, fields.details)
      ensures Recomputes(hash, entry) && entry.timestamp == now && entry.prevHash == LastHash(old(rows))
    {
      var prevHash := GetLastHash();
      var entryHash := hash(Payload(prevHash, now, fields.userId, fields.action, fields.details));
      entry := Entry(nextId, prevHash, entryHash, now, fields.userId, fields.action,
                     fields.resourceType, fields.resourceId, fields.details, fields.aiGenerated);
      rows := rows + [entry];
      nextId := nextId + 1;
    }

    /** Retention clean-up. */
    method CleanupAuditLogs(cutoff: int)
      modifies this
      ensures State() == Cleanup(old(State()), cutoff)
      ensures nextId == old(nextId) && forall e :: e in rows <==> e in old(rows) && e.timestamp >= cutoff
    {
      forall e ensures e in Surviving(rows, cutoff) <==> e in rows && e.timestamp >= cutoff {
        SurvivingMeans(rows, cutoff, e);
      }
      rows := Surviving(rows, cutoff);
    }

    /**
     The paging loop.  Whatever the table, the answer is about the rows visited: True exactly when
     they form a valid chain, with the number of rows before the first failure as the count.
     */
    method VerifyChain(batchSize: nat) returns (ok: bool, totalChecked: nat)
      requires batchSize >= 1
      ensures Verdict(ok, totalChecked) == VerdictOf(hash, rows, batchSize)
    {
      hide Page;
      hide After;
      hide ValidPrefix;
      totalChecked := 0;
      var expectedPrev: Option<string> := None;
      var lastId := 0;
      ghost var seen: seq<Entry> := [];
      ghost var all := Visited(rows, 0, batchSize);
      assert seen + all == all;

      while true
        invariant Records(hash, Running(totalChecked, expectedPrev, lastId), seen)
        invariant all == seen + Visited(rows, lastId, batchSize)
        decreases |After(rows, lastId)|
      {
        PageStepMeaning(hash, rows, Running(totalChecked, expectedPrev, lastId), seen, batchSize);
        var entries := Page(rows, lastId, batchSize);
        if entries == [] { break; }
        if expectedPrev.Some? && entries[0].prevHash != expectedPrev.value {
          return false, totalChecked;
        }
        var batchCount := ValidPrefix(hash, entries);
        ValidPrefixIsLongest(hash, entries);
        if batchCount < |entries| {
          return false, totalChecked + batchCount;
        }
        CursorAdvances(rows, lastId, batchSize);
        totalChecked := totalChecked + batchCount;
        expectedPrev := Some(entries[|entries| - 1].entryHash);
        lastId := entries[|entries| - 1].id;
        seen := seen + entries;
      }
      return true, totalChecked;
    }
  }
}

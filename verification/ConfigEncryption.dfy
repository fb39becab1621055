/**
 Migration 019: connection_config is encrypted row by row, and decrypted again on downgrade; and the
 operator's check that no plaintext row is left.

 Encryption draws fresh randomness, so it takes a salt.  The primitives are not part of this repository:
 they are functions in Crypto, and Lawful says what is assumed of them.
 */
module ConfigEncryption {
  import opened Options

  /** Only objects and strings are told apart from the rest. */
  datatype Json = Object(fields: map<string, Json>) | Text(s: string) | Other(tag: int)

  /** loads and decrypt are None where the source raises. */
  datatype Crypto = Crypto(
    encrypt: (Json, int) -> Json,
    decrypt: Json -> Option<Json>,
    isEncrypted: Json -> bool,
    loads: string -> Option<Json>)

  /** Envelopes are objects; encrypting an object gives an envelope that decrypts to it. */
  ghost predicate Lawful(c: Crypto) {
    && (forall v: Json :: c.isEncrypted(v) ==> v.Object?)
    && (forall v: Json, salt: int :: v.Object? ==> c.isEncrypted(c.encrypt(v, salt)) && c.decrypt(c.encrypt(v, salt)) == Some(v))
  }

  datatype Row = Row(id: int, cfg: Json)

  /** The parsed cell: a string cell is parsed once more. */
  function Decoded(c: Crypto, cfg: Json): Option<Json> {
    if cfg.Text? then c.loads(cfg.s) else Some(cfg)
  }

  /** What a row means: its decrypted value if it is an envelope, else itself. */
  function View(c: Crypto, cfg: Json): Option<Json> {
    match Decoded(c, cfg)
    case None => None
    case Some(v) => if c.isEncrypted(v) then c.decrypt(v) else Some(v)
  }

  // ---------------------------------------------------------------- one row

  datatype Direction = Up | Down

  datatype RowResult = Keep | Put(value: Json) | Raise

  function RowStep(c: Crypto, dir: Direction, cfg: Json, salt: int): RowResult {
    match Decoded(c, cfg)
    case None => Raise
    case Some(v) =>
      if dir == Up then
        if c.isEncrypted(v) then Keep
        else if !v.Object? then Raise
        else Put(c.encrypt(v, salt))
      else if !c.isEncrypted(v) then Keep
      else match c.decrypt(v)
        case None => Raise
        case Some(p) => Put(p)
  }

  /** A row both directions can handle: it means an object that does not itself look like an envelope. */
  ghost predicate RowOk(c: Crypto, cfg: Json) {
    View(c, cfg).Some? && View(c, cfg).value.Object? && !c.isEncrypted(View(c, cfg).value)
  }

  lemma RowStepKeepsView(c: Crypto, dir: Direction, cfg: Json, salt: int)
    requires Lawful(c) && RowOk(c, cfg)
    ensures !RowStep(c, dir, cfg, salt).Raise?
    ensures RowStep(c, dir, cfg, salt).Put? ==>
              var v := RowStep(c, dir, cfg, salt).value;
              View(c, v) == View(c, cfg) && RowOk(c, v) && !v.Text?
  {
    var v := Decoded(c, cfg).value;
    if dir == Up && !c.isEncrypted(v) {
      var e := c.encrypt(v, salt);
      assert c.isEncrypted(e) && c.decrypt(e) == Some(v);
    }
  }

  /** An envelope with an envelope inside. */
  predicate Doubled(c: Crypto, cfg: Json) {
    c.isEncrypted(cfg) && c.decrypt(cfg).Some? && c.isEncrypted(c.decrypt(cfg).value)
  }

  /** What the application's column type stores: envelopes are passed through, anything else is encrypted. */
  function ColumnWrite(c: Crypto, v: Json, salt: int): Json {
    if c.isEncrypted(v) then v else c.encrypt(v, salt)
  }

  /** No writer makes a doubled cell from one that is not: not the application's column, and not the migration. */
  lemma NobodyDoubles(c: Crypto, dir: Direction, v: Json, salt: int)
    requires Lawful(c) && v.Object?
    ensures Doubled(c, ColumnWrite(c, v, salt)) <==> Doubled(c, v)
    ensures RowStep(c, dir, v, salt).Put? && Doubled(c, RowStep(c, dir, v, salt).value) ==> Doubled(c, v)
  {
    if !c.isEncrypted(v) { assert c.decrypt(c.encrypt(v, salt)) == Some(v); }
  }

  /** What the downgrade does to a doubled cell that got there otherwise: it unwraps one layer, and the meaning changes. */
  lemma DoubledCellUnwrapsOnce(c: Crypto, v: Json, inner: int, outer: int, salt: int)
    requires Lawful(c) && v.Object? && !c.isEncrypted(v)
    ensures var once := c.encrypt(v, inner);
            var twice := c.encrypt(once, outer);
            && Doubled(c, twice) && RowStep(c, Down, twice, salt) == Put(once)
            && View(c, twice) == Some(once) && View(c, once) == Some(v) && once != v
  {
    var once := c.encrypt(v, inner);
    assert c.isEncrypted(once) && once.Object? && c.decrypt(once) == Some(v);
    var twice := c.encrypt(once, outer);
    assert c.isEncrypted(twice) && twice.Object? && c.decrypt(twice) == Some(once);
  }

  /**
   Decrypting an envelope keeps the row's meaning if and only if the cell is not doubled, or what is inside
   decrypts to itself.
   */
  lemma DowngradeKeepsViewExactlyWhen(c: Crypto, cfg: Json, p: Json, salt: int)
    requires Lawful(c) && RowStep(c, Down, cfg, salt) == Put(p) && !p.Text?
    ensures View(c, p) == View(c, cfg) <==> !Doubled(c, Decoded(c, cfg).value) || c.decrypt(p) == Some(p)
  {
  }

  // ---------------------------------------------------------------- one pass over the table

  /** raised: the pass stopped at a row it could not handle. */
  datatype Pass = Pass(rows: seq<Row>, written: nat, skipped: nat, raised: bool)

  /** The first n rows of the table processed, unless a row raised before. */
  function PassOver(c: Crypto, dir: Direction, rows: seq<Row>, n: nat, salts: int -> int): (p: Pass)
    requires n <= |rows|
    ensures |p.rows| == |rows|
    ensures forall i :: n <= i < |rows| ==> p.rows[i] == rows[i]
    ensures !p.raised ==> p.written + p.skipped == n
  {
    if n == 0 then Pass(rows, 0, 0, false)
    else
      var p := PassOver(c, dir, rows, n - 1, salts);
      if p.raised then p
      else match RowStep(c, dir, rows[n - 1].cfg, salts(n - 1))
        case Keep => p.(skipped := p.skipped + 1)
        case Put(v) => p.(rows := p.rows[n - 1 := Row(rows[n - 1].id, v)], written := p.written + 1)
        case Raise => p.(raised := true)
  }

  function RowAfter(c: Crypto, dir: Direction, row: Row, salt: int): Row {
    match RowStep(c, dir, row.cfg, salt)
    case Put(v) => Row(row.id, v)
    case _ => row
  }

  lemma {:induction false} PassRowByRow(c: Crypto, dir: Direction, rows: seq<Row>, n: nat, salts: int -> int)
    requires n <= |rows|
    ensures var p := PassOver(c, dir, rows, n, salts);
            && (p.raised <==> exists i :: 0 <= i < n && RowStep(c, dir, rows[i].cfg, salts(i)).Raise?)
            && (!p.raised ==> forall i :: 0 <= i < n ==> p.rows[i] == RowAfter(c, dir, rows[i], salts(i)))
            && (forall i :: 0 <= i < |rows| ==> p.rows[i] == rows[i] || p.rows[i] == RowAfter(c, dir, rows[i], salts(i)))
  {
    if n == 0 {
    } else {
      PassRowByRow(c, dir, rows, n - 1, salts);
      var before, p := PassOver(c, dir, rows, n - 1, salts), PassOver(c, dir, rows, n, salts);
      assert before.rows[n - 1] == rows[n - 1];
    }
  }

  /** One more row of a pass. */
  lemma PassStep(c: Crypto, dir: Direction, rows: seq<Row>, i: nat, salts: int -> int)
    requires i < |rows| && !PassOver(c, dir, rows, i, salts).raised
    ensures var p, q := PassOver(c, dir, rows, i, salts), PassOver(c, dir, rows, i + 1, salts);
            match RowStep(c, dir, rows[i].cfg, salts(i))
            case Keep => q == p.(skipped := p.skipped + 1)
            case Put(v) => q == p.(rows := p.rows[i := Row(rows[i].id, v)], written := p.written + 1)
            case Raise => q == p.(raised := true)
  {
    hide RowStep;
  }

  lemma RowStepUp(c: Crypto, cfg: Json, salt: int)
    ensures var v := Decoded(c, cfg);
            RowStep(c, Up, cfg, salt) ==
              if v.None? || (!c.isEncrypted(v.value) && !v.value.Object?) then Raise
              else if c.isEncrypted(v.value) then Keep
              else Put(c.encrypt(v.value, salt))
  {
    hide Decoded;
  }

  lemma RowStepDown(c: Crypto, cfg: Json, salt: int)
    ensures var v := Decoded(c, cfg);
            RowStep(c, Down, cfg, salt) ==
              if v.None? || (c.isEncrypted(v.value) && c.decrypt(v.value).None?) then Raise
              else if !c.isEncrypted(v.value) then Keep
              else Put(c.decrypt(v.value).value)
  {
    hide Decoded;
  }

  class DataSources {
    const crypto: Crypto
    var rows: seq<Row>

    constructor (crypto: Crypto, rows: seq<Row>)
      ensures this.crypto == crypto && this.rows == rows
    {
      this.crypto, this.rows := crypto, rows;
    }

    /** Encrypt every plaintext row; stop at a row that is not an object. */
    method Upgrade(salts: int -> int) returns (completed: bool, encrypted: nat, skipped: nat)
      modifies this
      ensures Pass(rows, encrypted, skipped, !completed) == PassOver(crypto, Up, old(rows), old(|rows|), salts)
      ensures completed <==> !PassOver(crypto, Up, old(rows), old(|rows|), salts).raised
    {
      hide RowStep;
      hide Decoded;
      ghost var before := rows;
      encrypted, skipped := 0, 0;
      for i := 0 to |rows|
        invariant |rows| == |before|
        invariant Pass(rows, encrypted, skipped, false) == PassOver(crypto, Up, before, i, salts)
      {
        assert rows[i] == before[i];
        PassStep(crypto, Up, before, i, salts);
        RowStepUp(crypto, rows[i].cfg, salts(i));
        var cfg := Decoded(crypto, rows[i].cfg);
        if cfg.None? || (!crypto.isEncrypted(cfg.value) && !cfg.value.Object?) {
          RaisedStays(crypto, Up, before, i + 1, |before|, salts);
          return false, encrypted, skipped;
        }
        if crypto.isEncrypted(cfg.value) {
          skipped := skipped + 1;
          continue;
        }
        rows := rows[i := Row(rows[i].id, crypto.encrypt(cfg.value, salts(i)))];
        encrypted := encrypted + 1;
      }
      return true, encrypted, skipped;
    }

    /** Decrypt every envelope; stop at one that does not decrypt. */
    method Downgrade(salts: int -> int) returns (completed: bool, decrypted: nat, skipped: nat)
      modifies this
      ensures Pass(rows, decrypted, skipped, !completed) == PassOver(crypto, Down, old(rows), old(|rows|), salts)
      ensures completed <==> !PassOver(crypto, Down, old(rows), old(|rows|), salts).raised
    {
      hide RowStep;
      hide Decoded;
      ghost var before := rows;
      decrypted, skipped := 0, 0;
      for i := 0 to |rows|
        invariant |rows| == |before|
        invariant Pass(rows, decrypted, skipped, false) == PassOver(crypto, Down, before, i, salts)
      {
        assert rows[i] == before[i];
        PassStep(crypto, Down, before, i, salts);
        RowStepDown(crypto, rows[i].cfg, salts(i));
        var cfg := Decoded(crypto, rows[i].cfg);
        if cfg.None? || (crypto.isEncrypted(cfg.value) && crypto.decrypt(cfg.value).None?) {
          RaisedStays(crypto, Down, before, i + 1, |before|, salts);
          return false, decrypted, skipped;
        }
        if !crypto.isEncrypted(cfg.value) {
          skipped := skipped + 1;
          continue;
        }
        rows := rows[i := Row(rows[i].id, crypto.decrypt(cfg.value).value)];
        decrypted := decrypted + 1;
      }
      return true, decrypted, skipped;
    }

    /** verify_at_rest: count the rows and list the offending ones; readable is false where it would exit with 2. */
    method VerifyAtRest() returns (readable: bool, total: nat, ok: nat, bad: seq<int>)
      ensures readable <==> forall i :: 0 <= i < |rows| ==> Decoded(crypto, rows[i].cfg).Some?
      ensures readable ==> total == |rows| && total == ok + |bad| && bad == PlaintextIds(crypto, rows)
      ensures readable ==> (bad == [] <==> AllEncrypted(crypto, rows))
    {
      total, ok, bad := 0, 0, [];
      for i := 0 to |rows|
        invariant forall j :: 0 <= j < i ==> Decoded(crypto, rows[j].cfg).Some?
        invariant total == i && total == ok + |bad| && bad == PlaintextIds(crypto, rows[..i])
      {
        assert rows[..i + 1][..i] == rows[..i];
        total := total + 1;
        var cfg := Decoded(crypto, rows[i].cfg);
        if cfg.None? { return false, total, ok, bad; }
        if crypto.isEncrypted(cfg.value) {
          ok := ok + 1;
        } else {
          bad := bad + [rows[i].id];
        }
      }
      assert rows[..|rows|] == rows;
      NoPlaintextMeansEncrypted(crypto, rows);
      return true, total, ok, bad;
    }
  }

  ghost predicate AllEncrypted(c: Crypto, rows: seq<Row>) {
    forall i :: 0 <= i < |rows| ==> Decoded(c, rows[i].cfg).Some? && c.isEncrypted(Decoded(c, rows[i].cfg).value)
  }

  /** The rows that decode and are no envelope, by id, in order. */
  function PlaintextIds(c: Crypto, rows: seq<Row>): seq<int> {
    if rows == [] then []
    else
      var last := rows[|rows| - 1];
      var cfg := Decoded(c, last.cfg);
      PlaintextIds(c, rows[..|rows| - 1]) + if cfg.Some? && !c.isEncrypted(cfg.value) then [last.id] else []
  }

  /** A readable table without plaintext ids is encrypted throughout, and conversely. */
  lemma {:induction false} NoPlaintextMeansEncrypted(c: Crypto, rows: seq<Row>)
    requires forall i :: 0 <= i < |rows| ==> Decoded(c, rows[i].cfg).Some?
    ensures PlaintextIds(c, rows) == [] <==> AllEncrypted(c, rows)
  {
    if rows == [] {
    } else {
      var front := rows[..|rows| - 1];
      NoPlaintextMeansEncrypted(c, front);
      assert forall i :: 0 <= i < |front| ==> front[i] == rows[i];
    }
  }

  /** The ids listed are those of the rows that can be read and are no envelope. */
  lemma {:induction false} PlaintextIdsMean(c: Crypto, rows: seq<Row>, id: int)
    ensures id in PlaintextIds(c, rows) <==>
            exists i :: 0 <= i < |rows| && rows[i].id == id
                        && Decoded(c, rows[i].cfg).Some? && !c.isEncrypted(Decoded(c, rows[i].cfg).value)
  {
    hide Decoded;
    if rows == [] {
    } else {
      var n := |rows| - 1;
      PlaintextIdsMean(c, rows[..n], id);
      forall i | 0 <= i < n ensures rows[..n][i] == rows[i] { }
    }
  }

  /** They are listed in the order of the rows. */
  lemma {:induction false} PlaintextIdsOfConcat(c: Crypto, a: seq<Row>, b: seq<Row>)
    ensures PlaintextIds(c, a + b) == PlaintextIds(c, a) + PlaintextIds(c, b)
  {
    hide Decoded;
    if b == [] {
      assert a + b == a;
    } else {
      var n := |b| - 1;
      assert (a + b)[..|a| + n] == a + b[..n] && (a + b)[|a| + n] == b[n];
      PlaintextIdsOfConcat(c, a, b[..n]);
    }
  }

  lemma NotRaisedBefore(c: Crypto, dir: Direction, rows: seq<Row>, n: nat, salts: int -> int)
    requires 0 < n <= |rows| && !PassOver(c, dir, rows, n, salts).raised
    ensures !PassOver(c, dir, rows, n - 1, salts).raised
  {
    hide RowStep;
  }

  lemma PlaintextStep(c: Crypto, rows: seq<Row>, n: nat)
    requires 0 < n <= |rows|
    ensures var cfg := Decoded(c, rows[n - 1].cfg);
            |PlaintextIds(c, rows[..n])|
              == |PlaintextIds(c, rows[..n - 1])| + if cfg.Some? && !c.isEncrypted(cfg.value) then 1 else 0
  {
    hide Decoded;
    assert rows[..n][..n - 1] == rows[..n - 1];
  }

  /** The counters of an upgrade: as many rows are written as were plaintext, and the rest are skipped. */
  lemma {:induction false} UpgradeCountsPlaintext(c: Crypto, rows: seq<Row>, n: nat, salts: int -> int)
    requires n <= |rows| && !PassOver(c, Up, rows, n, salts).raised
    ensures PassOver(c, Up, rows, n, salts).written == |PlaintextIds(c, rows[..n])|
    ensures PassOver(c, Up, rows, n, salts).skipped == n - |PlaintextIds(c, rows[..n])|
  {
    if n == 0 {
    } else {
      assert rows[..n][..n - 1] == rows[..n - 1];
      NotRaisedBefore(c, Up, rows, n, salts);
      UpgradeCountsPlaintext(c, rows, n - 1, salts);
      PassStep(c, Up, rows, n - 1, salts);
      RowStepUp(c, rows[n - 1].cfg, salts(n - 1));
      PlaintextStep(c, rows, n);
      hide PassOver;
      hide RowStep;
      hide Decoded;
      hide PlaintextIds;
    }
  }

  /** Likewise for a downgrade: every readable row that was no envelope is skipped. */
  lemma {:induction false} DowngradeCountsEnvelopes(c: Crypto, rows: seq<Row>, n: nat, salts: int -> int)
    requires n <= |rows| && !PassOver(c, Down, rows, n, salts).raised
    ensures PassOver(c, Down, rows, n, salts).skipped == |PlaintextIds(c, rows[..n])|
    ensures PassOver(c, Down, rows, n, salts).written == n - |PlaintextIds(c, rows[..n])|
  {
    if n == 0 {
    } else {
      assert rows[..n][..n - 1] == rows[..n - 1];
      NotRaisedBefore(c, Down, rows, n, salts);
      DowngradeCountsEnvelopes(c, rows, n - 1, salts);
      PassStep(c, Down, rows, n - 1, salts);
      RowStepDown(c, rows[n - 1].cfg, salts(n - 1));
      PlaintextStep(c, rows, n);
      hide PassOver;
      hide RowStep;
      hide Decoded;
      hide PlaintextIds;
    }
  }

  lemma {:induction false} RaisedStays(c: Crypto, dir: Direction, rows: seq<Row>, m: nat, n: nat, salts: int -> int)
    requires m <= n <= |rows| && PassOver(c, dir, rows, m, salts).raised
    ensures PassOver(c, dir, rows, n, salts) == PassOver(c, dir, rows, m, salts)
    decreases n
  {
    if m < n { RaisedStays(c, dir, rows, m, n - 1, salts); }
  }

  // ---------------------------------------------------------------- whole runs

  /** One attempt: a direction, how many rows it reached before it was interrupted, its randomness. */
  datatype Attempt = Attempt(dir: Direction, reached: nat, salts: int -> int)

  function Reach(n: nat, rows: seq<Row>): nat { if n <= |rows| then n else |rows| }

  function AfterAttempts(c: Crypto, rows: seq<Row>, run: seq<Attempt>): seq<Row> {
    if run == [] then rows
    else
      var before := AfterAttempts(c, rows, run[..|run| - 1]);
      var a := run[|run| - 1];
      PassOver(c, a.dir, before, Reach(a.reached, before), a.salts).rows
  }

  ghost predicate AllOk(c: Crypto, rows: seq<Row>) {
    forall i :: 0 <= i < |rows| ==> RowOk(c, rows[i].cfg)
  }

  ghost predicate SameViews(c: Crypto, a: seq<Row>, b: seq<Row>) {
    |a| == |b| && forall i :: 0 <= i < |a| ==> a[i].id == b[i].id && View(c, a[i].cfg) == View(c, b[i].cfg)
  }

  lemma {:induction false} PassKeepsViews(c: Crypto, dir: Direction, rows: seq<Row>, n: nat, salts: int -> int)
    requires Lawful(c) && AllOk(c, rows) && n <= |rows|
    ensures SameViews(c, rows, PassOver(c, dir, rows, n, salts).rows)
    ensures AllOk(c, PassOver(c, dir, rows, n, salts).rows)
    ensures !PassOver(c, dir, rows, n, salts).raised
  {
    PassRowByRow(c, dir, rows, n, salts);
    forall i | 0 <= i < |rows|
      ensures !RowStep(c, dir, rows[i].cfg, salts(i)).Raise?
      ensures RowOk(c, RowAfter(c, dir, rows[i], salts(i)).cfg)
      ensures View(c, RowAfter(c, dir, rows[i], salts(i)).cfg) == View(c, rows[i].cfg)
    {
      RowStepKeepsView(c, dir, rows[i].cfg, salts(i));
    }
  }

  /** Any sequence of full or interrupted upgrades and downgrades leaves every row meaning what it meant. */
  lemma {:induction false} RunsKeepViews(c: Crypto, rows: seq<Row>, run: seq<Attempt>)
    requires Lawful(c) && AllOk(c, rows)
    ensures SameViews(c, rows, AfterAttempts(c, rows, run)) && AllOk(c, AfterAttempts(c, rows, run))
  {
    if run == [] {
    } else {
      var front, a := run[..|run| - 1], run[|run| - 1];
      RunsKeepViews(c, rows, front);
      var before := AfterAttempts(c, rows, front);
      PassKeepsViews(c, a.dir, before, Reach(a.reached, before), a.salts);
    }
  }

  /** A completed upgrade, from any mixture and after any history, leaves no plaintext row for verify_at_rest to find. */
  lemma {:induction false} CompletedUpgradeVerifies(c: Crypto, rows: seq<Row>, run: seq<Attempt>, salts: int -> int)
    requires Lawful(c) && AllOk(c, rows)
    ensures var before := AfterAttempts(c, rows, run);
            var p := PassOver(c, Up, before, |before|, salts);
            !p.raised && AllEncrypted(c, p.rows) && PlaintextIds(c, p.rows) == []
  {
    RunsKeepViews(c, rows, run);
    var before := AfterAttempts(c, rows, run);
    PassKeepsViews(c, Up, before, |before|, salts);
    PassRowByRow(c, Up, before, |before|, salts);
    var p := PassOver(c, Up, before, |before|, salts);
    forall i | 0 <= i < |before| ensures Decoded(c, p.rows[i].cfg).Some? && c.isEncrypted(Decoded(c, p.rows[i].cfg).value) {
      RowStepKeepsView(c, Up, before[i].cfg, salts(i));
      assert p.rows[i] == RowAfter(c, Up, before[i], salts(i));
    }
    NoPlaintextMeansEncrypted(c, p.rows);
  }

  /** A completed downgrade, after any history, restores the plaintext: every cell decodes to what its row meant at the start. */
  lemma {:induction false} CompletedDowngradeRestores(c: Crypto, rows: seq<Row>, run: seq<Attempt>, salts: int -> int)
    requires Lawful(c) && AllOk(c, rows)
    ensures var before := AfterAttempts(c, rows, run);
            var p := PassOver(c, Down, before, |before|, salts);
            && !p.raised && |p.rows| == |rows|
            && forall i :: 0 <= i < |rows| ==> p.rows[i].id == rows[i].id && Decoded(c, p.rows[i].cfg) == View(c, rows[i].cfg)
  {
    RunsKeepViews(c, rows, run);
    var before := AfterAttempts(c, rows, run);
    PassKeepsViews(c, Down, before, |before|, salts);
    PassRowByRow(c, Down, before, |before|, salts);
    var p := PassOver(c, Down, before, |before|, salts);
    forall i | 0 <= i < |rows| ensures p.rows[i].id == rows[i].id && Decoded(c, p.rows[i].cfg) == View(c, rows[i].cfg) {
      RowStepKeepsView(c, Down, before[i].cfg, salts(i));
      assert p.rows[i] == RowAfter(c, Down, before[i], salts(i));
    }
  }

  /** Each direction is idempotent: a second complete pass writes nothing. */
  lemma {:induction false} SecondPassWritesNothing(
    c: Crypto, dir: Direction, rows: seq<Row>, first: int -> int, second: int -> int)
    requires Lawful(c) && AllOk(c, rows)
    ensures var once := PassOver(c, dir, rows, |rows|, first).rows;
            PassOver(c, dir, once, |once|, second) == Pass(once, 0, |once|, false)
  {
    PassKeepsViews(c, dir, rows, |rows|, first);
    PassRowByRow(c, dir, rows, |rows|, first);
    var once := PassOver(c, dir, rows, |rows|, first).rows;
    forall i | 0 <= i < |once| ensures RowStep(c, dir, once[i].cfg, second(i)) == Keep {
      RowStepKeepsView(c, dir, rows[i].cfg, first(i));
      assert once[i] == RowAfter(c, dir, rows[i], first(i));
    }
    AllKept(c, dir, once, |once|, second);
  }

  lemma {:induction false} AllKept(c: Crypto, dir: Direction, rows: seq<Row>, n: nat, salts: int -> int)
    requires n <= |rows| && forall i :: 0 <= i < |rows| ==> RowStep(c, dir, rows[i].cfg, salts(i)) == Keep
    ensures PassOver(c, dir, rows, n, salts) == Pass(rows, 0, n, false)
  {
    if n == 0 {
    } else {
      AllKept(c, dir, rows, n - 1, salts);
    }
  }

  lemma PlaintextUpAndDown(c: Crypto, row: Row, up: int, down: int)
    requires Lawful(c) && row.cfg.Object? && !c.isEncrypted(row.cfg)
    ensures RowOk(c, row.cfg)
    ensures RowAfter(c, Down, RowAfter(c, Up, row, up), down) == row
  {
    var e := c.encrypt(row.cfg, up);
    assert c.isEncrypted(e) && e.Object? && c.decrypt(e) == Some(row.cfg);
  }

  /** Up and down again is the identity on a plaintext table. */
  lemma {:induction false} RoundTrip(c: Crypto, rows: seq<Row>, up: int -> int, down: int -> int)
    requires Lawful(c) && forall i :: 0 <= i < |rows| ==> rows[i].cfg.Object? && !c.isEncrypted(rows[i].cfg)
    ensures var encrypted := PassOver(c, Up, rows, |rows|, up).rows;
            PassOver(c, Down, encrypted, |encrypted|, down).rows == rows
  {
    forall i | 0 <= i < |rows|
      ensures RowOk(c, rows[i].cfg) && RowAfter(c, Down, RowAfter(c, Up, rows[i], up(i)), down(i)) == rows[i]
    {
      PlaintextUpAndDown(c, rows[i], up(i), down(i));
    }
    hide RowOk;
    hide RowAfter;
    hide Lawful;
    hide PassOver;
    hide SameViews;
    PassKeepsViews(c, Up, rows, |rows|, up);
    PassRowByRow(c, Up, rows, |rows|, up);
    var encrypted := PassOver(c, Up, rows, |rows|, up).rows;
    PassKeepsViews(c, Down, encrypted, |encrypted|, down);
    PassRowByRow(c, Down, encrypted, |encrypted|, down);
    var restored := PassOver(c, Down, encrypted, |encrypted|, down).rows;
    forall i | 0 <= i < |rows| ensures restored[i] == rows[i] {
      assert encrypted[i] == RowAfter(c, Up, rows[i], up(i));
      assert restored[i] == RowAfter(c, Down, encrypted[i], down(i));
    }
  }
}

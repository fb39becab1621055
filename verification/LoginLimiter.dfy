/**
 The sliding-window login limiter: an insertion-ordered map from client address to the recent
 admitted times, pruned lazily and bounded by evicting the oldest entry.
 */
module LoginLimiter {
  const MAX_TRACKED_IPS: nat := 10_000
  const WINDOW: real := 60.0
  const MAX_REQUESTS: nat := 5

  /** The ordered dictionary: its keys in insertion order, and its values. */
  datatype Tracked = Tracked(order: seq<string>, times: map<string, seq<real>>)

  const NOTHING_TRACKED := Tracked([], map[])

  function Live(ts: seq<real>, now: real): seq<real> {
    if ts == [] then []
    else (if now - ts[0] < WINDOW then [ts[0]] else []) + Live(ts[1..], now)
  }

  function Without(order: seq<string>, ip: string): seq<string> {
    if order == [] then []
    else if order[0] == ip then order[1..]
    else [order[0]] + Without(order[1..], ip)
  }

  function Stored(s: Tracked, ip: string): seq<real> {
    if ip in s.times then s.times[ip] else []
  }

  /** Drop the expired times of one address, and the address itself when none are left. */
  function Prune(s: Tracked, ip: string, now: real): Tracked {
    if ip !in s.times then s
    else if Live(s.times[ip], now) == [] then Tracked(Without(s.order, ip), s.times - {ip})
    else s.(times := s.times[ip := Live(s.times[ip], now)])
  }

  function Record(s: Tracked, ip: string, now: real): Tracked {
    Tracked(if ip in s.times then s.order else s.order + [ip], s.times[ip := Stored(s, ip) + [now]])
  }

  function Evict(s: Tracked): Tracked {
    if |s.order| > MAX_TRACKED_IPS then Tracked(s.order[1..], s.times - {s.order[0]}) else s
  }

  predicate Admits(s: Tracked, ip: string, now: real) {
    |Stored(Prune(s, ip, now), ip)| < MAX_REQUESTS
  }

  function Step(s: Tracked, ip: string, now: real): Tracked {
    var p := Prune(s, ip, now);
    if Admits(s, ip, now) then Evict(Record(p, ip, now)) else p
  }

  // ---------------------------------------------------------------- what every request keeps

  ghost predicate Distinct(order: seq<string>) {
    forall i, j :: 0 <= i < j < |order| ==> order[i] != order[j]
  }

  ghost predicate Sorted(ts: seq<real>) {
    forall i, j :: 0 <= i < j < |ts| ==> ts[i] <= ts[j]
  }

  /** An ordered dictionary: its order lists each key once. */
  ghost predicate IsDictionary(s: Tracked) {
    && Distinct(s.order)
    && (forall ip :: ip in s.order <==> ip in s.times)
  }

  /** Every stored list is non-empty, sorted, at most five long and not later than the clock. */
  ghost predicate ListOk(ts: seq<real>, clock: real) {
    0 < |ts| <= MAX_REQUESTS && Sorted(ts) && ts[|ts| - 1] <= clock
  }

  ghost predicate ListsOk(s: Tracked, clock: real) {
    forall ip :: ip in s.times ==> ListOk(s.times[ip], clock)
  }

  ghost predicate Valid(s: Tracked, clock: real) {
    IsDictionary(s) && ListsOk(s, clock) && |s.order| <= MAX_TRACKED_IPS
  }

  lemma {:induction false} WithoutRemoves(order: seq<string>, ip: string)
    requires Distinct(order)
    ensures Distinct(Without(order, ip))
    ensures forall x :: x in Without(order, ip) <==> x in order && x != ip
    ensures |Without(order, ip)| == (if ip in order then |order| - 1 else |order|)
  {
    if order == [] {
    } else {
      assert order == [order[0]] + order[1..];
      WithoutRemoves(order[1..], ip);
      var w := Without(order[1..], ip);
      if order[0] != ip {
        forall i | 0 <= i < |w| ensures w[i] != order[0] {
          assert w[i] in order[1..];
        }
      }
    }
  }

  lemma {:induction false} LiveIsSuffix(ts: seq<real>, now: real) returns (k: nat)
    requires Sorted(ts)
    ensures k <= |ts| && Live(ts, now) == ts[k..]
    ensures forall i :: 0 <= i < k ==> now - ts[i] >= WINDOW
    ensures k < |ts| ==> now - ts[k] < WINDOW
  {
    if ts == [] {
      k := 0;
    } else {
      var j := LiveIsSuffix(ts[1..], now);
      if now - ts[0] < WINDOW {
        k := 0;
        if |ts| > 1 { assert ts[0] <= ts[1..][0]; }
        assert ts == [ts[0]] + ts[1..];
      } else {
        k := j + 1;
        forall i | 0 <= i < k ensures now - ts[i] >= WINDOW {
          if i > 0 { assert ts[i] == ts[1..][i - 1]; }
        }
      }
    }
  }

  lemma {:induction false} PruneKeepsDictionary(s: Tracked, ip: string, now: real)
    requires IsDictionary(s)
    ensures IsDictionary(Prune(s, ip, now)) && |Prune(s, ip, now).order| <= |s.order|
  {
    hide Live;
    hide Without;
    WithoutRemoves(s.order, ip);
  }

  lemma {:induction false} PruneKeepsLists(s: Tracked, clock: real, ip: string, now: real)
    requires ListsOk(s, clock) && clock <= now
    ensures ListsOk(Prune(s, ip, now), now)
  {
    hide Live;
    hide Without;
    var p := Prune(s, ip, now);
    forall x | x in p.times ensures ListOk(p.times[x], now) {
      assert x in s.times && ListOk(s.times[x], clock);
      if x == ip { LiveKeepsList(s.times[x], clock, now); }
      hide Sorted;
    }
  }

  lemma LiveKeepsList(ts: seq<real>, clock: real, now: real)
    requires ListOk(ts, clock) && clock <= now && Live(ts, now) != []
    ensures ListOk(Live(ts, now), now)
  {
    var k := LiveIsSuffix(ts, now);
    hide Live;
    assert ts[k..][|ts[k..]| - 1] == ts[|ts| - 1];
  }

  lemma {:induction false} PruneKeepsValid(s: Tracked, clock: real, ip: string, now: real)
    requires Valid(s, clock) && clock <= now
    ensures Valid(Prune(s, ip, now), now)
  {
    PruneKeepsDictionary(s, ip, now);
    PruneKeepsLists(s, clock, ip, now);
  }

  lemma {:induction false} RecordKeepsDictionary(s: Tracked, ip: string, now: real)
    requires IsDictionary(s)
    ensures IsDictionary(Record(s, ip, now))
    ensures ip !in s.times ==> Record(s, ip, now).order == s.order + [ip]
  {
    var order := Record(s, ip, now).order;
    if ip !in s.times {
      forall i, j | 0 <= i < j < |order| ensures order[i] != order[j] {
        assert order[i] in s.order;
      }
    }
  }

  lemma {:induction false} RecordKeepsLists(s: Tracked, clock: real, ip: string, now: real)
    requires ListsOk(s, clock) && clock <= now && |Stored(s, ip)| < MAX_REQUESTS
    ensures ListsOk(Record(s, ip, now), now)
  {
    var r := Record(s, ip, now);
    forall x | x in r.times ensures ListOk(r.times[x], now) {
      if x != ip {
        assert ListOk(s.times[x], clock);
      } else if ip in s.times {
        assert ListOk(s.times[ip], clock);
      }
    }
  }

  lemma {:induction false} EvictKeepsDictionary(s: Tracked)
    requires IsDictionary(s)
    ensures IsDictionary(Evict(s))
  {
    if |s.order| > MAX_TRACKED_IPS {
      var first, rest := s.order[0], s.order[1..];
      assert s.order == [first] + rest;
      assert first !in rest;
    }
  }

  /** One eviction is always enough, and it never removes the address just served. */
  lemma {:induction false} EvictionSparesServed(s: Tracked, ip: string, now: real)
    requires IsDictionary(s) && |s.order| <= MAX_TRACKED_IPS
    ensures ip in Evict(Record(s, ip, now)).times
    ensures |Evict(Record(s, ip, now)).order| <= MAX_TRACKED_IPS
    ensures |Record(s, ip, now).order| > MAX_TRACKED_IPS ==>
              ip !in s.times && Record(s, ip, now).order[0] == s.order[0] != ip
  {
    RecordKeepsDictionary(s, ip, now);
    if |Record(s, ip, now).order| > MAX_TRACKED_IPS {
      assert s.order[0] in s.order;
    }
  }

  /** After every request the dictionary is sound, bounded, and still tracks the address it served. */
  lemma {:induction false} StepKeepsValid(s: Tracked, clock: real, ip: string, now: real)
    requires Valid(s, clock) && clock <= now
    ensures Valid(Step(s, ip, now), now)
    ensures ip in Step(s, ip, now).times
    ensures |Step(s, ip, now).order| <= 10_000
  {
    PruneKeepsValid(s, clock, ip, now);
    var p := Prune(s, ip, now);
    if Admits(s, ip, now) {
      RecordKeepsDictionary(p, ip, now);
      RecordKeepsLists(p, now, ip, now);
      EvictKeepsDictionary(Record(p, ip, now));
      EvictionSparesServed(p, ip, now);
    }
  }

  // ---------------------------------------------------------------- whole runs, against the full history

  datatype Attempt = Attempt(ip: string, now: real)

  /** An address's last eviction: how many attempts it had been granted by then, and when it was. */
  datatype Lapse = Lapse(count: nat, at: real)

  /** A run: the limiter's state, every admitted attempt so far, and the last eviction of each address ever evicted. */
  datatype World = World(s: Tracked, admitted: seq<Attempt>, lapses: map<string, Lapse>)

  function Next(w: World, a: Attempt): World {
    if Admits(w.s, a.ip, a.now) then
      var order := Record(Prune(w.s, a.ip, a.now), a.ip, a.now).order;
      var admitted := w.admitted + [a];
      World(Step(w.s, a.ip, a.now), admitted,
            if |order| > MAX_TRACKED_IPS then w.lapses[order[0] := Lapse(|TimesOf(admitted, order[0])|, a.now)] else w.lapses)
    else
      w.(s := Step(w.s, a.ip, a.now))
  }

  function After(run: seq<Attempt>): World {
    if run == [] then World(NOTHING_TRACKED, [], map[])
    else Next(After(run[..|run| - 1]), run[|run| - 1])
  }

  ghost predicate ClockRuns(run: seq<Attempt>) {
    forall i, j :: 0 <= i < j < |run| ==> run[i].now <= run[j].now
  }

  function TimesOf(log: seq<Attempt>, ip: string): seq<real> {
    if log == [] then []
    else TimesOf(log[..|log| - 1], ip) + if log[|log| - 1].ip == ip then [log[|log| - 1].now] else []
  }

  /** Any six admitted attempts in a row span at least the window. */
  ghost predicate SixSpanTheWindow(ts: seq<real>) {
    forall i :: 0 <= i && i + MAX_REQUESTS < |ts| ==> ts[i + MAX_REQUESTS] - ts[i] >= WINDOW
  }

  /** The times an address was admitted at since its last eviction, or ever. */
  function Since(w: World, ip: string): seq<real> {
    var ts := TimesOf(w.admitted, ip);
    if ip in w.lapses && w.lapses[ip].count <= |ts| then ts[w.lapses[ip].count..] else ts
  }

  /** Sorted, and not later than the clock. */
  ghost predicate Past(ts: seq<real>, clock: real) {
    Sorted(ts) && (ts != [] ==> ts[|ts| - 1] <= clock)
  }

  /** kept is the end of ts; what comes before it has expired. */
  ghost predicate RecentEnd(ts: seq<real>, kept: seq<real>, clock: real) {
    && Past(ts, clock)
    && |kept| <= |ts|
    && kept == ts[|ts| - |kept|..]
    && (forall i :: 0 <= i < |ts| - |kept| ==> clock - ts[i] >= WINDOW)
    && SixSpanTheWindow(ts)
  }

  ghost predicate LapseOk(ts: seq<real>, lapse: Lapse, clock: real) {
    && lapse.count <= |ts|
    && lapse.at <= clock
    && forall i :: 0 <= i < lapse.count ==> ts[i] <= lapse.at
  }

  /** The list stored for an address is the recent end of its admitted times since it was last evicted. */
  ghost predicate Faithful(w: World, clock: real, ip: string) {
    && Past(TimesOf(w.admitted, ip), clock)
    && (ip in w.lapses ==> LapseOk(TimesOf(w.admitted, ip), w.lapses[ip], clock))
    && RecentEnd(Since(w, ip), Stored(w.s, ip), clock)
  }

  ghost predicate Inv(w: World, clock: real) {
    Valid(w.s, clock) && forall ip :: Faithful(w, clock, ip)
  }

  lemma {:induction false} LiveConcat(a: seq<real>, b: seq<real>, now: real)
    ensures Live(a + b, now) == Live(a, now) + Live(b, now)
  {
    if a == [] {
      assert a + b == b;
    } else {
      assert (a + b)[1..] == a[1..] + b;
      LiveConcat(a[1..], b, now);
    }
  }

  lemma {:induction false} LiveOfExpired(ts: seq<real>, now: real)
    requires forall i :: 0 <= i < |ts| ==> now - ts[i] >= WINDOW
    ensures Live(ts, now) == []
  {
    if ts == [] {
    } else {
      LiveOfExpired(ts[1..], now);
    }
  }

  lemma StoredAfterPrune(s: Tracked, ip: string, now: real, other: string)
    ensures Stored(Prune(s, ip, now), ip) == Live(Stored(s, ip), now)
    ensures other != ip ==> Stored(Prune(s, ip, now), other) == Stored(s, other)
  {
  }

  /** The admitted times of an address are those from before its last eviction and those since. */
  lemma {:induction false} HistorySplits(w: World, clock: real, ip: string) returns (before: seq<real>)
    requires Faithful(w, clock, ip)
    ensures TimesOf(w.admitted, ip) == before + Since(w, ip)
    ensures ip !in w.lapses ==> before == []
    ensures ip in w.lapses ==> forall i :: 0 <= i < |before| ==> before[i] <= w.lapses[ip].at
  {
    var ts := TimesOf(w.admitted, ip);
    before := if ip in w.lapses then ts[..w.lapses[ip].count] else [];
  }

  /** What is stored is what is live of the times since the last eviction. */
  lemma {:induction false} StoredIsLiveSince(w: World, clock: real, ip: string, now: real)
    requires Faithful(w, clock, ip) && clock <= now
    ensures Live(Stored(w.s, ip), now) == Live(Since(w, ip), now)
  {
    var ts, kept := Since(w, ip), Stored(w.s, ip);
    hide Since;
    hide Stored;
    hide Past;
    hide LapseOk;
    hide SixSpanTheWindow;
    hide TimesOf;
    var dropped := ts[..|ts| - |kept|];
    assert ts == dropped + kept;
    LiveConcat(dropped, kept, now);
    LiveOfExpired(dropped, now);
  }

  /**
   What the limiter decides, for every address, evicted or not: it counts the admitted attempts since the last
   eviction of the address.  That is the decision of the full history unless five admitted attempts
   are live and fewer than five of them are since; and an eviction at least 60 seconds old costs nothing.
   */
  lemma {:induction false} DecisionAgainstHistory(w: World, clock: real, ip: string, now: real)
    requires Inv(w, clock) && clock <= now
    ensures var recent, remembered := |Live(TimesOf(w.admitted, ip), now)|, |Live(Since(w, ip), now)|;
            && remembered <= recent
            && (Admits(w.s, ip, now) <==> remembered < MAX_REQUESTS)
            && ((Admits(w.s, ip, now) <==> recent < MAX_REQUESTS) <==> !(remembered < MAX_REQUESTS <= recent))
            && (ip !in w.lapses || now - w.lapses[ip].at >= WINDOW ==> remembered == recent)
  {
    assert Faithful(w, clock, ip);
    StoredIsLiveSince(w, clock, ip, now);
    StoredAfterPrune(w.s, ip, now, ip);
    var before := HistorySplits(w, clock, ip);
    LiveConcat(before, Since(w, ip), now);
    if ip !in w.lapses || now - w.lapses[ip].at >= WINDOW { LiveOfExpired(before, now); }
  }

  /** An admitted attempt keeps six in a row spread over the window exactly when fewer than five are live. */
  lemma {:induction false} AdmissionKeepsSpread(ts: seq<real>, now: real)
    requires Past(ts, now) && SixSpanTheWindow(ts)
    ensures SixSpanTheWindow(ts + [now]) <==> |Live(ts, now)| < MAX_REQUESTS
  {
    var k := LiveIsSuffix(ts, now);
    var ts' := ts + [now];
    if |ts| - k < MAX_REQUESTS {
      forall i | 0 <= i && i + MAX_REQUESTS < |ts'| ensures ts'[i + MAX_REQUESTS] - ts'[i] >= WINDOW {
        if i + MAX_REQUESTS < |ts| { assert ts[i + MAX_REQUESTS] - ts[i] >= WINDOW; }
      }
    } else {
      var i := |ts| - MAX_REQUESTS;
      assert ts[k] <= ts[i];
      assert ts'[i + MAX_REQUESTS] - ts'[i] < WINDOW;
    }
  }

  lemma {:induction false} PrefixKeepsSpread(ts: seq<real>, now: real)
    requires SixSpanTheWindow(ts + [now])
    ensures SixSpanTheWindow(ts)
  {
    var ts' := ts + [now];
    forall i | 0 <= i && i + MAX_REQUESTS < |ts| ensures ts[i + MAX_REQUESTS] - ts[i] >= WINDOW {
      assert ts'[i + MAX_REQUESTS] - ts'[i] >= WINDOW;
    }
  }

  lemma TimesOfAppend(log: seq<Attempt>, a: Attempt, ip: string)
    ensures TimesOf(log + [a], ip) == TimesOf(log, ip) + if a.ip == ip then [a.now] else []
  {
    assert (log + [a])[..|log|] == log;
  }

  /** What one request does to the list stored for each address. */
  lemma {:induction false} StoredAfterStep(s: Tracked, clock: real, ip: string, now: real, other: string)
    requires Valid(s, clock) && clock <= now && other != ip
    ensures Stored(Step(s, ip, now), ip) == Live(Stored(s, ip), now) + if Admits(s, ip, now) then [now] else []
    ensures var r := Record(Prune(s, ip, now), ip, now);
            Stored(Step(s, ip, now), other)
              == if Admits(s, ip, now) && |r.order| > MAX_TRACKED_IPS && other == r.order[0] then [] else Stored(s, other)
  {
    StoredAfterPrune(s, ip, now, ip);
    StoredAfterPrune(s, ip, now, other);
    PruneKeepsValid(s, clock, ip, now);
    EvictionSparesServed(Prune(s, ip, now), ip, now);
  }

  lemma {:induction false} PruningKeepsRecentEnd(ts: seq<real>, kept: seq<real>, clock: real, now: real)
    requires RecentEnd(ts, kept, clock) && clock <= now
    ensures RecentEnd(ts, Live(kept, now), now)
  {
    hide Live;
    hide SixSpanTheWindow;
    var d := |ts| - |kept|;
    assert Sorted(kept);
    var k := LiveIsSuffix(kept, now);
    assert kept[k..] == ts[d + k..];
    assert forall i :: 0 <= i < k ==> ts[d + i] == kept[i];
    forall i | d <= i < d + k ensures now - ts[i] >= WINDOW {
      assert ts[d + (i - d)] == kept[i - d];
    }
  }

  lemma {:induction false} AdmissionKeepsRecentEnd(ts: seq<real>, kept: seq<real>, now: real)
    requires RecentEnd(ts, kept, now) && |Live(ts, now)| < MAX_REQUESTS
    ensures RecentEnd(ts + [now], kept + [now], now)
  {
    assert (ts + [now])[|ts| - |kept|..] == ts[|ts| - |kept|..] + [now];
    AdmissionKeepsSpread(ts, now);
  }

  /** What an admitted request does to the run: the history grows, and at most one other address lapses. */
  lemma {:induction false} ServedAfterNext(w: World, clock: real, a: Attempt)
    requires Valid(w.s, clock) && clock <= a.now
    ensures a.ip in Next(w, a).lapses <==> a.ip in w.lapses
    ensures a.ip in w.lapses ==> Next(w, a).lapses[a.ip] == w.lapses[a.ip]
    ensures var granted := if Admits(w.s, a.ip, a.now) then [a.now] else [];
            && TimesOf(Next(w, a).admitted, a.ip) == TimesOf(w.admitted, a.ip) + granted
            && Stored(Next(w, a).s, a.ip) == Live(Stored(w.s, a.ip), a.now) + granted
  {
    hide Live;
    hide Without;
    TimesOfAppend(w.admitted, a, a.ip);
    hide TimesOf;
    StoredAfterStep(w.s, clock, a.ip, a.now, a.ip + "x");
    PruneKeepsValid(w.s, clock, a.ip, a.now);
    EvictionSparesServed(Prune(w.s, a.ip, a.now), a.ip, a.now);
  }

  lemma SinceGrows(w: World, w': World, ip: string, granted: seq<real>)
    requires ip in w'.lapses <==> ip in w.lapses
    requires ip in w.lapses ==> w'.lapses[ip] == w.lapses[ip] && w.lapses[ip].count <= |TimesOf(w.admitted, ip)|
    requires TimesOf(w'.admitted, ip) == TimesOf(w.admitted, ip) + granted
    ensures Since(w', ip) == Since(w, ip) + granted
  {
    hide TimesOf;
  }

  /** Nothing was granted, or the present was. */
  predicate Granted(granted: seq<real>, now: real) {
    granted == [] || granted == [now]
  }

  lemma {:induction false} GrownRecentEnd(since: seq<real>, kept: seq<real>, granted: seq<real>, clock: real, now: real)
    requires RecentEnd(since, kept, clock) && clock <= now && Granted(granted, now)
    requires granted != [] ==> |Live(since, now)| < MAX_REQUESTS
    ensures RecentEnd(since + granted, Live(kept, now) + granted, now)
  {
    PruningKeepsRecentEnd(since, kept, clock, now);
    hide Live;
    hide RecentEnd;
    if granted == [] {
      assert since + granted == since && Live(kept, now) + granted == Live(kept, now);
    } else {
      AdmissionKeepsRecentEnd(since, Live(kept, now), now);
    }
  }

  lemma {:induction false} GrownPast(ts: seq<real>, granted: seq<real>, clock: real, now: real)
    requires Past(ts, clock) && clock <= now && Granted(granted, now)
    ensures Past(ts + granted, now)
    ensures forall lapse: Lapse :: LapseOk(ts, lapse, clock) ==> LapseOk(ts + granted, lapse, now)
  {
  }

  /** The address served: its history and its stored list grow together. */
  lemma {:induction false} ServedStaysFaithful(w: World, clock: real, a: Attempt)
    requires Inv(w, clock) && clock <= a.now
    ensures Faithful(Next(w, a), a.now, a.ip)
  {
    assert Faithful(w, clock, a.ip);
    var granted := if Admits(w.s, a.ip, a.now) then [a.now] else [];
    ServedAfterNext(w, clock, a);
    assert a.ip in w.lapses ==> w.lapses[a.ip].count <= |TimesOf(w.admitted, a.ip)|;
    SinceGrows(w, Next(w, a), a.ip, granted);
    DecisionAgainstHistory(w, clock, a.ip, a.now);
    hide *;
    hide Next;
    FaithfulGrows(w, Next(w, a), clock, a.ip, a.now, granted);
  }

  lemma {:induction false} FaithfulGrows(w: World, w': World, clock: real, ip: string, now: real, granted: seq<real>)
    requires Faithful(w, clock, ip) && clock <= now && Granted(granted, now)
    requires granted != [] ==> |Live(Since(w, ip), now)| < MAX_REQUESTS
    requires ip in w'.lapses <==> ip in w.lapses
    requires ip in w.lapses ==> w'.lapses[ip] == w.lapses[ip]
    requires TimesOf(w'.admitted, ip) == TimesOf(w.admitted, ip) + granted
    requires Since(w', ip) == Since(w, ip) + granted
    requires Stored(w'.s, ip) == Live(Stored(w.s, ip), now) + granted
    ensures Faithful(w', now, ip)
  {
    hide RecentEnd;
    hide LapseOk;
    hide Past;
    hide Live;
    hide TimesOf;
    hide Since;
    hide Stored;
    hide Granted;
    GrownRecentEnd(Since(w, ip), Stored(w.s, ip), granted, clock, now);
    GrownPast(TimesOf(w.admitted, ip), granted, clock, now);
  }

  /** Any other address is untouched, or has just been evicted. */
  lemma {:induction false} OtherAfterNext(w: World, clock: real, a: Attempt, ip: string)
    requires Valid(w.s, clock) && clock <= a.now && ip != a.ip
    ensures TimesOf(Next(w, a).admitted, ip) == TimesOf(w.admitted, ip)
    ensures || (&& Stored(Next(w, a).s, ip) == Stored(w.s, ip)
                && (ip in Next(w, a).lapses <==> ip in w.lapses)
                && (ip in w.lapses ==> Next(w, a).lapses[ip] == w.lapses[ip]))
            || (&& Stored(Next(w, a).s, ip) == []
                && ip in Next(w, a).lapses
                && Next(w, a).lapses[ip] == Lapse(|TimesOf(w.admitted, ip)|, a.now))
  {
    hide Live;
    hide Without;
    StoredAfterStep(w.s, clock, a.ip, a.now, ip);
    TimesOfAppend(w.admitted, a, ip);
    hide TimesOf;
  }

  lemma LaterStillRecent(ts: seq<real>, kept: seq<real>, clock: real, now: real)
    requires RecentEnd(ts, kept, clock) && clock <= now
    ensures RecentEnd(ts, kept, now)
  {
    hide SixSpanTheWindow;
    hide Sorted;
  }

  lemma SinceDepends(w: World, w': World, ip: string)
    requires TimesOf(w'.admitted, ip) == TimesOf(w.admitted, ip)
    requires (ip in w'.lapses <==> ip in w.lapses) && (ip in w.lapses ==> w'.lapses[ip] == w.lapses[ip])
    ensures Since(w', ip) == Since(w, ip)
  {
    hide TimesOf;
  }

  lemma {:induction false} IdleStaysFaithful(w: World, w': World, clock: real, ip: string, now: real)
    requires Faithful(w, clock, ip) && clock <= now
    requires TimesOf(w'.admitted, ip) == TimesOf(w.admitted, ip) && Stored(w'.s, ip) == Stored(w.s, ip)
    requires (ip in w'.lapses <==> ip in w.lapses) && (ip in w.lapses ==> w'.lapses[ip] == w.lapses[ip])
    ensures Faithful(w', now, ip)
  {
    SinceDepends(w, w', ip);
    LaterStillRecent(Since(w, ip), Stored(w.s, ip), clock, now);
    hide Since;
    hide RecentEnd;
    hide Sorted;
    hide TimesOf;
    hide Stored;
  }

  lemma {:induction false} EvictedStaysFaithful(w: World, w': World, clock: real, ip: string, now: real)
    requires Faithful(w, clock, ip) && clock <= now
    requires TimesOf(w'.admitted, ip) == TimesOf(w.admitted, ip) && Stored(w'.s, ip) == []
    requires ip in w'.lapses && w'.lapses[ip] == Lapse(|TimesOf(w.admitted, ip)|, now)
    ensures Faithful(w', now, ip)
  {
    hide TimesOf;
    hide Stored;
    var ts := TimesOf(w.admitted, ip);
    assert ts[|ts|..] == [];
    assert Since(w', ip) == [];
  }

  lemma {:induction false} OtherStaysFaithful(w: World, clock: real, a: Attempt, ip: string)
    requires Inv(w, clock) && clock <= a.now && ip != a.ip
    ensures Faithful(Next(w, a), a.now, ip)
  {
    assert Faithful(w, clock, ip);
    OtherAfterNext(w, clock, a, ip);
    hide *;
    hide Next;
    if Stored(Next(w, a).s, ip) == [] && ip in Next(w, a).lapses
       && Next(w, a).lapses[ip] == Lapse(|TimesOf(w.admitted, ip)|, a.now) {
      EvictedStaysFaithful(w, Next(w, a), clock, ip, a.now);
    } else {
      IdleStaysFaithful(w, Next(w, a), clock, ip, a.now);
    }
  }

  lemma {:induction false} NextKeepsInv(w: World, clock: real, a: Attempt)
    requires Inv(w, clock) && clock <= a.now
    ensures Inv(Next(w, a), a.now)
  {
    StepKeepsValid(w.s, clock, a.ip, a.now);
    forall ip ensures Faithful(Next(w, a), a.now, ip) {
      if ip == a.ip { ServedStaysFaithful(w, clock, a); } else { OtherStaysFaithful(w, clock, a, ip); }
    }
  }

  lemma {:induction false} InvAlways(run: seq<Attempt>, clock: real)
    requires ClockRuns(run) && (run != [] ==> run[|run| - 1].now == clock)
    ensures Inv(After(run), clock)
  {
    if run == [] {
    } else {
      var front := run[..|run| - 1];
      var before := if front == [] then clock else front[|front| - 1].now;
      InvAlways(front, before);
      NextKeepsInv(After(front), before, run[|run| - 1]);
    }
  }

  lemma ClockOf(run: seq<Attempt>, next: Attempt) returns (clock: real)
    requires ClockRuns(run + [next])
    ensures clock <= next.now && ClockRuns(run) && (run != [] ==> run[|run| - 1].now == clock)
  {
    var all := run + [next];
    assert all[|run|] == next && forall i :: 0 <= i < |run| ==> all[i] == run[i];
    clock := if run == [] then next.now else run[|run| - 1].now;
    assert clock <= next.now by { if run != [] { assert all[|run| - 1].now <= all[|run|].now; } }
  }

  /**
   Agreement with full history: over every run and for every next attempt, from any address, the attempt is
   admitted exactly when fewer than five admitted attempts of the last 60 seconds came after the last eviction of
   the address.  The full history decides the same unless five are that recent and fewer than five of
   them came after; without an eviction in the last 60 seconds it always does.
   */
  lemma LimiterAgreesWithHistory(run: seq<Attempt>, next: Attempt)
    requires ClockRuns(run + [next])
    ensures var w := After(run);
            var recent := |Live(TimesOf(w.admitted, next.ip), next.now)|;
            var remembered := |Live(Since(w, next.ip), next.now)|;
            var admits := Admits(w.s, next.ip, next.now);
            && (admits <==> remembered < 5)
            && (!admits ==> recent >= 5)
            && ((admits <==> recent < 5) <==> !(remembered < 5 <= recent))
            && (next.ip !in w.lapses || next.now - w.lapses[next.ip].at >= 60.0 ==> remembered == recent)
  {
    var clock := ClockOf(run, next);
    InvAlways(run, clock);
    DecisionAgainstHistory(After(run), clock, next.ip, next.now);
  }

  // ---------------------------------------------------------------- the window bound

  function Within(ts: seq<real>, from: real): seq<real> {
    if ts == [] then []
    else Within(ts[..|ts| - 1], from) + if from <= ts[|ts| - 1] < from + 60.0 then [ts[|ts| - 1]] else []
  }

  lemma {:induction false} WithinNone(ts: seq<real>, from: real)
    requires forall i :: 0 <= i < |ts| ==> ts[i] < from
    ensures Within(ts, from) == []
  {
    if ts == [] {
    } else {
      WithinNone(ts[..|ts| - 1], from);
    }
  }

  lemma {:induction false} WithinOfTail(ts: seq<real>, from: real, k: nat)
    requires k <= |ts| && forall i :: 0 <= i < k ==> ts[i] < from
    ensures |Within(ts, from)| <= |ts| - k
  {
    if |ts| == k {
      WithinNone(ts, from);
    } else {
      WithinOfTail(ts[..|ts| - 1], from, k);
    }
  }

  lemma {:induction false} SpreadBoundsWindow(ts: seq<real>, from: real)
    requires Sorted(ts) && SixSpanTheWindow(ts)
    ensures |Within(ts, from)| <= MAX_REQUESTS
  {
    var n := |ts|;
    if n > MAX_REQUESTS {
      var last := ts[n - 1];
      if from <= last < from + WINDOW {
        var k := n - MAX_REQUESTS;
        assert ts[k - 1 + MAX_REQUESTS] - ts[k - 1] >= WINDOW;
        assert forall i :: 0 <= i < k ==> ts[i] <= ts[k - 1];
        WithinOfTail(ts, from, k);
      } else {
        SpreadBoundsWindow(ts[..n - 1], from);
      }
    } else {
      WithinOfTail(ts, from, 0);
    }
  }

  lemma {:induction false} WithinAll(ts: seq<real>, from: real, k: nat)
    requires k <= |ts| && forall i :: k <= i < |ts| ==> from <= ts[i] < from + WINDOW
    ensures |Within(ts, from)| >= |ts| - k
  {
    if |ts| > k { WithinAll(ts[..|ts| - 1], from, k); }
  }

  lemma {:induction false} CrowdedWindow(ts: seq<real>, i: nat)
    requires Sorted(ts) && i + MAX_REQUESTS < |ts| && ts[i + MAX_REQUESTS] - ts[i] < WINDOW
    ensures |Within(ts, ts[i])| > MAX_REQUESTS
  {
    if |ts| == i + MAX_REQUESTS + 1 {
      WithinAll(ts, ts[i], i);
    } else {
      CrowdedWindow(ts[..|ts| - 1], i);
    }
  }

  /** No window is crowded exactly when any six times in a row span one. */
  lemma SpreadMeansWindows(ts: seq<real>)
    requires Sorted(ts)
    ensures SixSpanTheWindow(ts) <==> forall from :: |Within(ts, from)| <= MAX_REQUESTS
  {
    if SixSpanTheWindow(ts) {
      forall from ensures |Within(ts, from)| <= MAX_REQUESTS { SpreadBoundsWindow(ts, from); }
    } else {
      var i :| 0 <= i && i + MAX_REQUESTS < |ts| && ts[i + MAX_REQUESTS] - ts[i] < WINDOW;
      CrowdedWindow(ts, i);
    }
  }

  /** Attempt i of the run found five live admitted attempts of its address, of which the limiter had forgotten some. */
  ghost predicate Forgets(run: seq<Attempt>, i: nat)
    requires i < |run|
  {
    var w := After(run[..i]);
    |Live(Since(w, run[i].ip), run[i].now)| < MAX_REQUESTS <= |Live(TimesOf(w.admitted, run[i].ip), run[i].now)|
  }

  ghost predicate NeverForgets(run: seq<Attempt>, ip: string) {
    forall i :: 0 <= i < |run| && run[i].ip == ip ==> !Forgets(run, i)
  }

  lemma {:induction false} NeverForgetsStep(run: seq<Attempt>, a: Attempt, ip: string)
    ensures NeverForgets(run + [a], ip) <==> NeverForgets(run, ip) && (a.ip == ip ==> !Forgets(run + [a], |run|))
  {
    var all := run + [a];
    forall i | 0 <= i < |run| ensures all[i] == run[i] && (Forgets(all, i) <==> Forgets(run, i)) {
      assert all[..i] == run[..i];
    }
    hide Forgets;
    if NeverForgets(all, ip) {
      forall i | 0 <= i < |run| && run[i].ip == ip ensures !Forgets(run, i) { assert all[i].ip == ip; }
      assert a.ip == ip ==> all[|run|].ip == ip;
    }
  }

  lemma {:induction false} SpreadStep(run: seq<Attempt>, a: Attempt)
    requires ClockRuns(run + [a])
    ensures SixSpanTheWindow(TimesOf(After(run + [a]).admitted, a.ip)) <==>
            SixSpanTheWindow(TimesOf(After(run).admitted, a.ip)) && !Forgets(run + [a], |run|)
  {
    var clock := ClockOf(run, a);
    InvAlways(run, clock);
    var w := After(run);
    assert Faithful(w, clock, a.ip);
    DecisionAgainstHistory(w, clock, a.ip, a.now);
    ServedAfterNext(w, clock, a);
    AfterStep(run, a);
    assert (run + [a])[..|run|] == run;
    var ts := TimesOf(w.admitted, a.ip);
    hide After;
    hide Next;
    hide TimesOf;
    hide Admits;
    hide Since;
    hide Live;
    hide SixSpanTheWindow;
    if Admits(w.s, a.ip, a.now) {
      GrownPast(ts, [a.now], clock, a.now);
      if SixSpanTheWindow(ts) { AdmissionKeepsSpread(ts, a.now); }
      if SixSpanTheWindow(ts + [a.now]) { PrefixKeepsSpread(ts, a.now); }
    } else {
      assert ts + [] == ts;
    }
  }

  lemma IdleSpread(run: seq<Attempt>, a: Attempt, ip: string)
    requires a.ip != ip
    ensures TimesOf(After(run + [a]).admitted, ip) == TimesOf(After(run).admitted, ip)
  {
    AfterStep(run, a);
    TimesOfAppend(After(run).admitted, a, ip);
    hide After;
    hide TimesOf;
  }

  lemma {:induction false} SpreadExactlyWhen(run: seq<Attempt>, ip: string)
    requires ClockRuns(run)
    ensures SixSpanTheWindow(TimesOf(After(run).admitted, ip)) <==> NeverForgets(run, ip)
  {
    if run == [] {
      assert TimesOf(After([]).admitted, ip) == [];
    } else {
      hide After;
      hide TimesOf;
      hide Forgets;
      hide NeverForgets;
      hide SixSpanTheWindow;
      var front, a := run[..|run| - 1], run[|run| - 1];
      assert run == front + [a];
      SpreadExactlyWhen(front, ip);
      NeverForgetsStep(front, a, ip);
      if a.ip == ip { SpreadStep(front, a); } else { IdleSpread(front, a, ip); }
    }
  }

  lemma RunIsPast(run: seq<Attempt>, ip: string)
    requires ClockRuns(run)
    ensures Sorted(TimesOf(After(run).admitted, ip))
  {
    var clock := if run == [] then 0.0 else run[|run| - 1].now;
    InvAlways(run, clock);
    assert Faithful(After(run), clock, ip);
  }

  /**
   The window bound, for every run and every address: every half-open interval of 60 seconds holds at most five
   admitted attempts of the address if and only if no attempt of it came when five were live and some of them had been
   forgotten by an eviction.
   */
  lemma {:induction false} WindowBoundExactlyWhen(run: seq<Attempt>, ip: string)
    requires ClockRuns(run)
    ensures NeverForgets(run, ip) <==> forall from :: |Within(TimesOf(After(run).admitted, ip), from)| <= 5
  {
    RunIsPast(run, ip);
    SpreadExactlyWhen(run, ip);
    SpreadMeansWindows(TimesOf(After(run).admitted, ip));
  }

  lemma {:induction false} WithinConcat(a: seq<real>, b: seq<real>, from: real)
    ensures Within(a + b, from) == Within(a, from) + Within(b, from)
  {
    if b == [] {
      assert a + b == a;
    } else {
      assert (a + b)[..|a + b| - 1] == a + b[..|b| - 1];
      WithinConcat(a, b[..|b| - 1], from);
    }
  }

  /**
   In particular: any half-open interval of 60 seconds that starts after the last eviction of the address, or
   any at all if it was never evicted, holds at most five of its admitted attempts.
   */
  lemma {:induction false} WindowBound(run: seq<Attempt>, ip: string, from: real)
    requires ClockRuns(run) && (ip in After(run).lapses ==> from > After(run).lapses[ip].at)
    ensures |Within(TimesOf(After(run).admitted, ip), from)| <= 5
  {
    var w, clock := After(run), if run == [] then 0.0 else run[|run| - 1].now;
    InvAlways(run, clock);
    assert Faithful(w, clock, ip);
    SpreadBoundsWindow(Since(w, ip), from);
    var before := HistorySplits(w, clock, ip);
    WithinConcat(before, Since(w, ip), from);
    WithinNone(before, from);
  }

  // ---------------------------------------------------------------- insertion order

  lemma WithoutStep(first: string, rest: seq<string>, ip: string)
    ensures Without([first] + rest, ip) == if first == ip then rest else [first] + Without(rest, ip)
  {
    assert ([first] + rest)[1..] == rest;
  }

  /** Taking an address out leaves the others standing as they stood. */
  lemma {:induction false} WithoutKeepsOrder(x: seq<string>, ip: string, y: seq<string>)
    requires ip !in x
    ensures Without(x + [ip] + y, ip) == x + y
  {
    hide Without;
    if x == [] {
      assert x + [ip] + y == [ip] + y && x + y == y;
      WithoutStep(ip, y, ip);
    } else {
      var first, rest := x[0], x[1..];
      assert x == [first] + rest;
      WithoutKeepsOrder(rest, ip, y);
      WithoutStep(first, rest + [ip] + y, ip);
      assert x + [ip] + y == [first] + (rest + [ip] + y);
      assert [first] + (rest + y) == x + y;
    }
  }

  lemma {:induction false} WhereItStands(order: seq<string>, ip: string) returns (x: seq<string>, y: seq<string>)
    requires ip in order
    ensures order == x + [ip] + y && ip !in x
  {
    if order[0] == ip {
      x, y := [], order[1..];
    } else {
      assert order == [order[0]] + order[1..];
      x, y := WhereItStands(order[1..], ip);
      x := [order[0]] + x;
    }
  }

  /** Pruning forgets an address whose times have all expired, and moves no other; else it moves none. */
  lemma {:induction false} PruneKeepsOrder(s: Tracked, ip: string, now: real, x: seq<string>, y: seq<string>)
    requires IsDictionary(s) && s.order == x + [ip] + y && ip !in x
    ensures Live(s.times[ip], now) == [] ==> Prune(s, ip, now).order == x + y
    ensures Live(s.times[ip], now) != [] ==> Prune(s, ip, now).order == s.order
  {
    WithoutKeepsOrder(x, ip, y);
  }

  /**
   When an address last entered the dictionary: the number of the attempt that found it missing after pruning and
   was admitted, counted from one; 0 when none did.
   */
  function LastInserted(run: seq<Attempt>, ip: string): (n: nat)
    ensures n <= |run|
  {
    if run == [] then 0
    else
      var front, a := run[..|run| - 1], run[|run| - 1];
      var s := After(front).s;
      if a.ip == ip && Admits(s, ip, a.now) && ip !in Prune(s, ip, a.now).times then |run| else LastInserted(front, ip)
  }

  /** Of any two addresses the one that stands first went in first. */
  ghost predicate OldestFirst(order: seq<string>, inserted: string -> nat) {
    forall i, j :: 0 <= i < j < |order| ==> inserted(order[i]) < inserted(order[j])
  }

  function InsertedIn(run: seq<Attempt>): string -> nat {
    ip => LastInserted(run, ip)
  }

  lemma {:induction false} WithoutStaysOldestFirst(order: seq<string>, ip: string, inserted: string -> nat)
    requires OldestFirst(order, inserted)
    ensures OldestFirst(Without(order, ip), inserted)
    ensures forall x :: x in Without(order, ip) ==> x in order
  {
    hide Without;
    if ip in order {
      var x, y := WhereItStands(order, ip);
      WithoutKeepsOrder(x, ip, y);
      hide Without;
      var all := x + y;
      forall i, j | 0 <= i < j < |all| ensures inserted(all[i]) < inserted(all[j]) {
        var i', j' := if i < |x| then i else i + 1, if j < |x| then j else j + 1;
        assert all[i] == order[i'] && all[j] == order[j'];
      }
      forall z | z in all ensures z in order { assert z in x || z in y; }
    } else {
      WithoutAbsent(order, ip);
    }
  }

  lemma {:induction false} WithoutAbsent(order: seq<string>, ip: string)
    requires ip !in order
    ensures Without(order, ip) == order
  {
    if order == [] {
    } else {
      assert order == [order[0]] + order[1..];
      WithoutAbsent(order[1..], ip);
    }
  }

  lemma {:induction false} LastInsertedStep(run: seq<Attempt>, a: Attempt, ip: string)
    ensures var s := After(run).s;
            LastInserted(run + [a], ip) ==
              if a.ip == ip && Admits(s, ip, a.now) && ip !in Prune(s, ip, a.now).times then |run| + 1
              else LastInserted(run, ip)
  {
    hide After;
    hide Admits;
    hide Prune;
    assert (run + [a])[..|run|] == run;
  }

  lemma {:induction false} PrunedOldestFirst(s: Tracked, ip: string, now: real, inserted: string -> nat)
    requires OldestFirst(s.order, inserted)
    ensures OldestFirst(Prune(s, ip, now).order, inserted)
  {
    WithoutStaysOldestFirst(s.order, ip, inserted);
  }

  /** An address that enters takes the last place. */
  lemma {:induction false} EnteringOldestFirst(order: seq<string>, ip: string, before: string -> nat, after: string -> nat, n: nat)
    requires OldestFirst(order, before) && ip !in order && after(ip) == n
    requires forall x :: x != ip ==> after(x) == before(x) && before(x) < n
    ensures OldestFirst(order + [ip], after)
  {
    var all := order + [ip];
    forall i, j | 0 <= i < j < |all| ensures after(all[i]) < after(all[j]) {
      assert all[i] == order[i] && order[i] in order;
      if j < |order| { assert order[j] in order; }
    }
  }

  /** The addresses that stand after one more attempt, eviction aside. */
  lemma {:induction false} RecordedOldestFirst(run: seq<Attempt>, a: Attempt)
    requires IsDictionary(Prune(After(run).s, a.ip, a.now))
    requires OldestFirst(After(run).s.order, InsertedIn(run)) && Admits(After(run).s, a.ip, a.now)
    ensures OldestFirst(Record(Prune(After(run).s, a.ip, a.now), a.ip, a.now).order, InsertedIn(run + [a]))
  {
    var s := After(run).s;
    var p := Prune(s, a.ip, a.now);
    PrunedOldestFirst(s, a.ip, a.now, InsertedIn(run));
    forall ip ensures InsertedIn(run + [a])(ip)
                        == if ip == a.ip && ip !in p.times then |run| + 1 else InsertedIn(run)(ip) {
      LastInsertedStep(run, a, ip);
    }
    hide After;
    hide Prune;
    hide Admits;
    hide LastInserted;
    if a.ip !in p.times {
      assert a.ip !in p.order;
      EnteringOldestFirst(p.order, a.ip, InsertedIn(run), InsertedIn(run + [a]), |run| + 1);
    }
  }

  lemma {:induction false} RefusedOldestFirst(run: seq<Attempt>, a: Attempt)
    requires OldestFirst(After(run).s.order, InsertedIn(run)) && !Admits(After(run).s, a.ip, a.now)
    ensures OldestFirst(Prune(After(run).s, a.ip, a.now).order, InsertedIn(run + [a]))
  {
    PrunedOldestFirst(After(run).s, a.ip, a.now, InsertedIn(run));
    forall ip ensures InsertedIn(run + [a])(ip) == InsertedIn(run)(ip) { LastInsertedStep(run, a, ip); }
    hide After;
    hide Prune;
    hide Admits;
    hide LastInserted;
  }

  lemma {:induction false} StepOrder(w: World, a: Attempt)
    ensures var r := Record(Prune(w.s, a.ip, a.now), a.ip, a.now).order;
            Next(w, a).s.order ==
              if !Admits(w.s, a.ip, a.now) then Prune(w.s, a.ip, a.now).order
              else if |r| > MAX_TRACKED_IPS then r[1..] else r
  {
    hide Prune;
    hide Admits;
  }

  lemma TailOldestFirst(order: seq<string>, inserted: string -> nat)
    requires order != [] && OldestFirst(order, inserted)
    ensures OldestFirst(order[1..], inserted)
  {
  }

  /** Over every run, the dictionary stands in the order in which its addresses last went in. */
  lemma {:induction false} OrderIsInsertionOrder(run: seq<Attempt>, clock: real)
    requires ClockRuns(run) && (run != [] ==> run[|run| - 1].now == clock)
    ensures OldestFirst(After(run).s.order, InsertedIn(run))
  {
    if run == [] {
      assert After([]).s.order == [];
    } else {
      var front, a := run[..|run| - 1], run[|run| - 1];
      assert run == front + [a];
      var before := if front == [] then clock else front[|front| - 1].now;
      OrderIsInsertionOrder(front, before);
      InvAlways(front, before);
      AfterStep(front, a);
      StepOrder(After(front), a);
      PruneKeepsDictionary(After(front).s, a.ip, a.now);
      hide After;
      hide Next;
      hide Prune;
      hide Record;
      hide Admits;
      hide InsertedIn;
      hide OldestFirst;
      if Admits(After(front).s, a.ip, a.now) {
        RecordedOldestFirst(front, a);
        var order := Record(Prune(After(front).s, a.ip, a.now), a.ip, a.now).order;
        if |order| > MAX_TRACKED_IPS { TailOldestFirst(order, InsertedIn(run)); }
      } else {
        RefusedOldestFirst(front, a);
      }
    }
  }

  /**
   The address evicted is the one that went in earliest of all that stand when the dictionary is over its bound, the one
   just served among them.
   */
  lemma {:induction false} EarliestIsEvicted(run: seq<Attempt>, a: Attempt, other: string)
    requires ClockRuns(run + [a]) && Admits(After(run).s, a.ip, a.now)
    requires var order := Record(Prune(After(run).s, a.ip, a.now), a.ip, a.now).order;
             |order| > 10_000 && other in order && other != order[0]
    ensures var victim := Record(Prune(After(run).s, a.ip, a.now), a.ip, a.now).order[0];
            && victim !in After(run + [a]).s.times && other in After(run + [a]).s.times
            && LastInserted(run + [a], victim) < LastInserted(run + [a], other)
  {
    var clock := ClockOf(run, a);
    OrderIsInsertionOrder(run, clock);
    InvAlways(run, clock);
    var s := After(run).s;
    PruneKeepsDictionary(s, a.ip, a.now);
    RecordedOldestFirst(run, a);
    AfterStep(run, a);
    var p := Prune(s, a.ip, a.now);
    RecordKeepsDictionary(p, a.ip, a.now);
    var t := Record(p, a.ip, a.now);
    EvictedIsFirst(After(run), a, other);
    hide After;
    hide Prune;
    hide Admits;
    hide LastInserted;
    var j :| 0 <= j < |t.order| && t.order[j] == other;
    assert InsertedIn(run + [a])(t.order[0]) < InsertedIn(run + [a])(t.order[j]);
  }

  lemma {:induction false} EvictedIsFirst(w: World, a: Attempt, other: string)
    requires Admits(w.s, a.ip, a.now) && IsDictionary(Record(Prune(w.s, a.ip, a.now), a.ip, a.now))
    requires var order := Record(Prune(w.s, a.ip, a.now), a.ip, a.now).order;
             |order| > MAX_TRACKED_IPS && other in order && other != order[0]
    ensures var order := Record(Prune(w.s, a.ip, a.now), a.ip, a.now).order;
            order[0] !in Next(w, a).s.times && other in Next(w, a).s.times
  {
    hide Prune;
    hide Record;
    hide Admits;
  }

  /** While no more than ten thousand addresses would stand, none is evicted. */
  lemma NoneEvictedWithinBound(w: World, a: Attempt)
    requires |Record(Prune(w.s, a.ip, a.now), a.ip, a.now).order| <= 10_000
    ensures Next(w, a).lapses == w.lapses
    ensures Admits(w.s, a.ip, a.now) ==> Next(w, a).s == Record(Prune(w.s, a.ip, a.now), a.ip, a.now)
  {
    hide Prune;
    hide Record;
    hide Admits;
  }

  // ---------------------------------------------------------------- what eviction costs

  function Repeat(ip: string, now: real, n: nat): seq<Attempt> {
    if n == 0 then [] else Repeat(ip, now, n - 1) + [Attempt(ip, now)]
  }

  function Copies(now: real, n: nat): (ts: seq<real>)
    ensures |ts| == n && forall i :: 0 <= i < n ==> ts[i] == now
  {
    if n == 0 then [] else Copies(now, n - 1) + [now]
  }

  function Each(ips: seq<string>, now: real): seq<Attempt> {
    if ips == [] then [] else Each(ips[..|ips| - 1], now) + [Attempt(ips[|ips| - 1], now)]
  }

  lemma {:induction false} AfterStep(run: seq<Attempt>, a: Attempt)
    ensures After(run + [a]) == Next(After(run), a)
  {
    hide Next;
    assert (run + [a])[..|run|] == run;
  }

  /** What is tracked after n <= 5 admitted attempts from one address at one instant. */
  function Tries(ip: string, now: real, n: nat): Tracked {
    if n == 0 then NOTHING_TRACKED else Tracked([ip], map[ip := Copies(now, n)])
  }

  ghost predicate Burst(w: World, ip: string, now: real, n: nat) {
    w.s == Tries(ip, now, n) && TimesOf(w.admitted, ip) == Copies(now, n)
  }

  lemma {:induction false} PruneKeepsTries(ip: string, now: real, n: nat)
    ensures Prune(Tries(ip, now, n), ip, now) == Tries(ip, now, n)
  {
    AllLive(n, now);
    hide Live;
    hide Copies;
    if n > 0 { assert map[ip := Copies(now, n)][ip := Copies(now, n)] == map[ip := Copies(now, n)]; }
  }

  lemma {:induction false} RecordAddsOne(ip: string, now: real, n: nat)
    ensures Record(Tries(ip, now, n), ip, now) == Tries(ip, now, n + 1)
    ensures Stored(Tries(ip, now, n), ip) == Copies(now, n)
  {
    assert Copies(now, n) + [now] == Copies(now, n + 1);
    assert n == 0 ==> Copies(now, n) == [] && [ip] == [] + [ip];
    hide Copies;
  }

  lemma {:induction false} BurstGrows(w: World, ip: string, now: real, n: nat)
    requires n < MAX_REQUESTS && Burst(w, ip, now, n)
    ensures Burst(Next(w, Attempt(ip, now)), ip, now, n + 1)
  {
    PruneKeepsTries(ip, now, n);
    RecordAddsOne(ip, now, n);
    TimesOfAppend(w.admitted, Attempt(ip, now), ip);
    assert Copies(now, n) + [now] == Copies(now, n + 1);
    assert |Tries(ip, now, n + 1).order| == 1;
    hide Prune;
    hide Record;
    hide Stored;
    hide Tries;
    hide TimesOf;
    hide Copies;
  }

  lemma BurstStarts(ip: string, now: real)
    ensures Burst(After(Repeat(ip, now, 0)), ip, now, 0)
  {
    assert Repeat(ip, now, 0) == [];
    assert After([]) == World(NOTHING_TRACKED, [], map[]);
  }

  lemma BurstContinues(run: seq<Attempt>, ip: string, now: real, n: nat)
    requires n < MAX_REQUESTS && Burst(After(run), ip, now, n)
    ensures Burst(After(run + [Attempt(ip, now)]), ip, now, n + 1)
  {
    hide *;
    AfterStep(run, Attempt(ip, now));
    BurstGrows(After(run), ip, now, n);
  }

  lemma {:induction false} BurstFillsTheList(ip: string, now: real, n: nat)
    requires n <= MAX_REQUESTS
    ensures Burst(After(Repeat(ip, now, n)), ip, now, n)
  {
    hide After;
    hide Burst;
    if n == 0 {
      BurstStarts(ip, now);
    } else {
      BurstFillsTheList(ip, now, n - 1);
      BurstContinues(Repeat(ip, now, n - 1), ip, now, n - 1);
    }
  }

  lemma {:induction false} AllLive(n: nat, now: real)
    ensures Live(Copies(now, n), now) == Copies(now, n)
  {
    if n == 0 {
    } else {
      var ts := Copies(now, n);
      assert ts[1..] == Copies(now, n - 1);
      AllLive(n - 1, now);
    }
  }

  lemma DistinctPrefix(order: seq<string>, n: nat)
    requires n <= |order| && Distinct(order)
    ensures Distinct(order[..n])
  {
  }

  /** Attempts from n further addresses queue up behind the victim and, at capacity, push it out. */
  lemma {:induction false} CrowdQueuesUp(victim: string, crowd: seq<string>, now: real)
    requires |crowd| <= MAX_TRACKED_IPS && Distinct([victim] + crowd)
    ensures var w := After(Repeat(victim, now, MAX_REQUESTS) + Each(crowd, now));
            && w.s.order == (if |crowd| < MAX_TRACKED_IPS then [victim] + crowd else crowd)
            && (forall ip :: ip in w.s.times <==> ip in w.s.order)
            && TimesOf(w.admitted, victim) == Copies(now, MAX_REQUESTS)
    decreases |crowd|
  {
    hide After;
    hide TimesOf;
    hide Next;
    hide Repeat;
    hide Copies;
    var burst := Repeat(victim, now, MAX_REQUESTS);
    if crowd == [] {
      assert burst + Each(crowd, now) == burst;
      BurstFillsTheList(victim, now, MAX_REQUESTS);
    } else {
      var front, ip := crowd[..|crowd| - 1], crowd[|crowd| - 1];
      assert crowd == front + [ip];
      DistinctPrefix([victim] + crowd, 1 + |front|);
      assert ([victim] + crowd)[..1 + |front|] == [victim] + front;
      CrowdQueuesUp(victim, front, now);
      var run := burst + Each(front, now);
      var a := Attempt(ip, now);
      assert burst + Each(crowd, now) == run + [a];
      AfterStep(run, a);
      NewcomerJoins(After(run), victim, front, a);
    }
  }

  lemma {:induction false} NewcomerJoins(w: World, victim: string, front: seq<string>, a: Attempt)
    requires |front| < MAX_TRACKED_IPS && Distinct([victim] + (front + [a.ip]))
    requires w.s.order == [victim] + front && (forall ip :: ip in w.s.times <==> ip in w.s.order)
    ensures var w' := Next(w, a);
            && w'.s.order == (if |front| + 1 < MAX_TRACKED_IPS then [victim] + (front + [a.ip]) else front + [a.ip])
            && (forall ip :: ip in w'.s.times <==> ip in w'.s.order)
            && TimesOf(w'.admitted, victim) == TimesOf(w.admitted, victim)
  {
    var all := [victim] + (front + [a.ip]);
    assert all[0] == victim && all[|all| - 1] == a.ip;
    assert a.ip !in [victim] + front by {
      forall i | 0 <= i < |front| + 1 ensures ([victim] + front)[i] != a.ip { assert all[i] == ([victim] + front)[i]; }
    }
    assert ([victim] + front) + [a.ip] == all;
    TimesOfAppend(w.admitted, a, victim);
    assert all[1..] == front + [a.ip];
    assert forall i :: 0 <= i < |front| + 1 ==> (front + [a.ip])[i] == all[i + 1];
  }

  lemma FirstIsNotInRest(first: string, rest: seq<string>)
    requires Distinct([first] + rest)
    ensures first !in rest
  {
    var all := [first] + rest;
    forall i | 0 <= i < |rest| ensures rest[i] != first {
      assert all[0] == first && all[i + 1] == rest[i];
    }
  }

  /**
   The window bound does need the address not to be evicted: five attempts, then one from each of
   ten thousand other addresses, then a sixth, all at one instant, and the sixth is admitted.
   */
  lemma {:induction false} EvictionForgets(victim: string, crowd: seq<string>, now: real)
    requires |crowd| == 10_000 && Distinct([victim] + crowd)
    ensures var run := Repeat(victim, now, 5) + Each(crowd, now);
            && Admits(After(run).s, victim, now)
            && TimesOf(After(run + [Attempt(victim, now)]).admitted, victim) == Copies(now, 6)
  {
    var run := Repeat(victim, now, MAX_REQUESTS) + Each(crowd, now);
    CrowdQueuesUp(victim, crowd, now);
    FirstIsNotInRest(victim, crowd);
    hide After;
    hide TimesOf;
    var a := Attempt(victim, now);
    AfterStep(run, a);
    TimesOfAppend(After(run).admitted, a, victim);
  }

  // ---------------------------------------------------------------- the middleware

  class RateLimiter {
    var order: seq<string>
    var attempts: map<string, seq<real>>

    constructor ()
      ensures State() == NOTHING_TRACKED
    {
      order, attempts := [], map[];
    }

    ghost function State(): Tracked
      reads this
    {
      Tracked(order, attempts)
    }

    /** Keep only the times inside the window; forget an address with none. */
    method PruneClient(clientIp: string, now: real)
      modifies this
      ensures State() == Prune(old(State()), clientIp, now)
    {
      if clientIp in attempts {
        var live := Live(attempts[clientIp], now);
        attempts := attempts[clientIp := live];
        if attempts[clientIp] == [] {
          attempts := attempts - {clientIp};
          order := Without(order, clientIp);
          assert attempts == old(attempts) - {clientIp};
        }
      }
    }

    /** Append to the list of an address, starting one at the end of the order when there is none. */
    method RecordClient(clientIp: string, now: real)
      modifies this
      ensures State() == Record(old(State()), clientIp, now)
    {
      if clientIp !in attempts {
        attempts := attempts[clientIp := []];
        order := order + [clientIp];
      }
      attempts := attempts[clientIp := attempts[clientIp] + [now]];
    }

    /** Evict oldest entries while there are too many: at most one. */
    method EvictOldest()
      requires |order| <= MAX_TRACKED_IPS + 1
      modifies this
      ensures State() == Evict(old(State())) && |order| <= MAX_TRACKED_IPS
    {
      while |order| > MAX_TRACKED_IPS
        invariant State() == old(State()) || (State() == Evict(old(State())) && |order| <= MAX_TRACKED_IPS)
        decreases |order|
      {
        attempts := attempts - {order[0]};
        order := order[1..];
      }
    }

    /** One login attempt: prune, refuse or record, evict. */
    method RateLimitLogin(clientIp: string, now: real) returns (admitted: bool)
      requires IsDictionary(State()) && |order| <= MAX_TRACKED_IPS
      modifies this
      ensures State() == Step(old(State()), clientIp, now)
      ensures admitted == Admits(old(State()), clientIp, now)
      ensures |order| <= MAX_TRACKED_IPS
    {
      WithoutRemoves(order, clientIp);
      PruneClient(clientIp, now);
      if clientIp in attempts && |attempts[clientIp]| >= MAX_REQUESTS {
        return false;
      }
      RecordClient(clientIp, now);
      EvictOldest();
      return true;
    }
  }
}

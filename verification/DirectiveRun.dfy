/**
 A pipeline run under a directive: the conformance check that binds and approves, the plan gate
 that approves again, and the edits and log lines that come in between.

 Files are modelled by their content.  SHA-256, YAML parsing and the plan assertions are
 functions of content, collected in Tools.
 */
module DirectiveRun {
  import opened Options
  import opened Text
  import opened BindLine

  /** What parsing directive.yaml to a mapping yields. */
  datatype Directive = Directive(
    version: Option<int>,
    fields: set<string>,
    contentHash: Option<string>,
    preapproved: Option<map<string, Yaml>>,
    planAssertions: seq<string>,
    author: string,
    authority: string)

  /** A parsed YAML value; only equality matters. */
  datatype Yaml = Yaml(canonical: string)

  /**
   parseDirective is None for malformed YAML and for anything that is not a mapping.  planPasses may look at
   any file of the run directory.
   */
  datatype Tools = Tools(
    sha: string -> string,
    parseDirective: string -> Option<Directive>,
    parseYaml: string -> Option<Yaml>,
    planPasses: (Directive, Files) -> bool)

  datatype Files = Files(
    directive: Option<string>,
    manifest: Option<string>,
    scopeLock: Option<string>,
    plan: Option<string>,
    log: string,
    others: map<string, string>)

  const REQUIRED_FIELDS: set<string> := {"author", "authority", "preapproved", "acceptance"}

  datatype Verdict =
    | NoDirective
    | Fallback
    | HashChanged
    | Mismatch
    | ContractDiverged
    | AutoApprove(hash: string)

  // ---------------------------------------------------------------- loading and comparing

  /** load_directive: None stands for its errors. */
  function LoadDirective(t: Tools, content: string): Option<Directive> {
    match t.parseDirective(content)
    case None => None
    case Some(d) => if d.version == Some(1) && REQUIRED_FIELDS <= d.fields then Some(d) else None
  }

  /** ensure_hash_integrity: the verdict of the error it raises, if any. */
  function HashIntegrity(d: Directive, current: string, bound: Option<string>): Option<Verdict> {
    if d.contentHash.Some? && d.contentHash.value != "" && d.contentHash.value != current then Some(Fallback)
    else if bound.Some? && bound.value != current then Some(HashChanged)
    else None
  }

  datatype Comparison = CannotCompare | Differs | Same

  function ComparePreapproved(t: Tools, d: Directive, artifact: Option<string>, key: string): Comparison {
    if d.preapproved.None? || key !in d.preapproved.value then CannotCompare
    else if artifact.None? || t.parseYaml(artifact.value).None? then CannotCompare
    else if t.parseYaml(artifact.value).value == d.preapproved.value[key] then Same
    else Differs
  }

  function CompareBoth(t: Tools, d: Directive, f: Files): Comparison {
    var m, s := ComparePreapproved(t, d, f.manifest, "manifest"), ComparePreapproved(t, d, f.scopeLock, "scope_lock");
    if m == CannotCompare || s == CannotCompare then CannotCompare
    else if m == Same && s == Same then Same
    else Differs
  }

  // ---------------------------------------------------------------- the two gates

  function Conformance(t: Tools, f: Files, bind: bool): Verdict {
    if f.directive.None? then NoDirective else
    match LoadDirective(t, f.directive.value)
    case None => Fallback
    case Some(d) =>
      var current, bound := t.sha(f.directive.value), BoundHash(f.log);
      if HashIntegrity(d, current, bound).Some? then HashIntegrity(d, current, bound).value
      else match CompareBoth(t, d, f)
        case CannotCompare => Fallback
        case Differs => if bound.Some? then ContractDiverged else Mismatch
        case Same => if bound.None? && !bind then Fallback else AutoApprove(current)
  }

  /** The log after the check: a first approval binds. */
  function LogAfterConformance(t: Tools, f: Files, bind: bool, timestamp: string): string {
    match Conformance(t, f, bind)
    case AutoApprove(hash) =>
      if BoundHash(f.log).Some? || f.directive.None? then f.log
      else
        var d := LoadDirective(t, f.directive.value);
        if d.None? then f.log
        else f.log + (BindText(timestamp, hash, d.value.author, d.value.authority) + "\n")
    case _ => f.log
  }

  function PlanGate(t: Tools, f: Files): Verdict {
    if f.directive.None? then NoDirective else
    match LoadDirective(t, f.directive.value)
    case None => Fallback
    case Some(d) =>
      var current := t.sha(f.directive.value);
      if HashIntegrity(d, current, BoundHash(f.log)).Some? then HashIntegrity(d, current, BoundHash(f.log)).value
      else match CompareBoth(t, d, f)
        case CannotCompare => Fallback
        case Differs => ContractDiverged
        case Same =>
          if f.plan.None? || d.planAssertions == [] then Fallback
          else if t.planPasses(d, f) then AutoApprove(current)
          else Fallback
  }

  // ---------------------------------------------------------------- what the verdicts say about the files

  /** The directive file parses to a mapping of version 1 with the four fields it must have. */
  ghost predicate Loads(t: Tools, f: Files) {
    && f.directive.Some?
    && t.parseDirective(f.directive.value).Some?
    && var d := t.parseDirective(f.directive.value).value;
       d.version == Some(1) && {"author", "authority", "preapproved", "acceptance"} <= d.fields
  }

  /** The directive in place. */
  ghost function InPlace(t: Tools, f: Files): Directive
    requires Loads(t, f)
  {
    t.parseDirective(f.directive.value).value
  }

  /** What the directive declares as its own hash, if anything, is its hash. */
  ghost predicate DeclaresItself(t: Tools, f: Files)
    requires Loads(t, f)
  {
    InPlace(t, f).contentHash in {None, Some(""), Some(t.sha(f.directive.value))}
  }

  ghost predicate BoundAgrees(t: Tools, f: Files)
    requires Loads(t, f)
  {
    BoundHash(f.log) in {None, Some(t.sha(f.directive.value))}
  }

  /** There is a parsed artifact and a preapproved value to compare it with. */
  ghost predicate Comparable(t: Tools, d: Directive, artifact: Option<string>, key: string) {
    && d.preapproved.Some? && key in d.preapproved.value
    && artifact.Some? && t.parseYaml(artifact.value).Some?
  }

  ghost predicate BothComparable(t: Tools, f: Files)
    requires Loads(t, f)
  {
    Comparable(t, InPlace(t, f), f.manifest, "manifest") && Comparable(t, InPlace(t, f), f.scopeLock, "scope_lock")
  }

  /** Manifest and scope lock parse to what the directive preapproves. */
  ghost predicate BothMatch(t: Tools, f: Files)
    requires Loads(t, f)
  {
    && BothComparable(t, f)
    && t.parseYaml(f.manifest.value).value == InPlace(t, f).preapproved.value["manifest"]
    && t.parseYaml(f.scopeLock.value).value == InPlace(t, f).preapproved.value["scope_lock"]
  }

  lemma CompareBothMeans(t: Tools, f: Files)
    requires Loads(t, f)
    ensures CompareBoth(t, InPlace(t, f), f) ==
            if !BothComparable(t, f) then CannotCompare else if BothMatch(t, f) then Same else Differs
  {
  }

  lemma LoadMeans(t: Tools, f: Files)
    requires f.directive.Some?
    ensures LoadDirective(t, f.directive.value) == if Loads(t, f) then Some(InPlace(t, f)) else None
  {
  }

  lemma IntegrityMeans(t: Tools, f: Files)
    requires Loads(t, f)
    ensures HashIntegrity(InPlace(t, f), t.sha(f.directive.value), BoundHash(f.log)) ==
            if !DeclaresItself(t, f) then Some(Fallback) else if !BoundAgrees(t, f) then Some(HashChanged) else None
  {
    hide BoundHash;
    hide Loads;
  }

  /** The files on which the plan gate approves. */
  ghost predicate PlanApproves(t: Tools, f: Files) {
    && Loads(t, f) && DeclaresItself(t, f) && BoundAgrees(t, f) && BothMatch(t, f)
    && f.plan.Some? && InPlace(t, f).planAssertions != [] && t.planPasses(InPlace(t, f), f)
  }

  /** The files on which the conformance check approves: a first approval needs leave to bind. */
  ghost predicate ConformanceApproves(t: Tools, f: Files, bind: bool) {
    && Loads(t, f) && DeclaresItself(t, f) && BoundAgrees(t, f) && BothMatch(t, f)
    && (BoundHash(f.log).Some? || bind)
  }

  /**
   Each verdict of the plan gate, in terms of the files.  It approves exactly a conforming directive whose assertions
   there are and the plan passes.
   */
  lemma PlanGateVerdicts(t: Tools, f: Files)
    ensures PlanGate(t, f).AutoApprove? <==> PlanApproves(t, f)
    ensures PlanGate(t, f).AutoApprove? ==> f.directive.Some? && PlanGate(t, f).hash == t.sha(f.directive.value)
    ensures PlanGate(t, f).NoDirective? <==> f.directive == None
    ensures PlanGate(t, f).HashChanged? <==> Loads(t, f) && DeclaresItself(t, f) && !BoundAgrees(t, f)
    ensures PlanGate(t, f).ContractDiverged? <==>
            && Loads(t, f) && DeclaresItself(t, f) && BoundAgrees(t, f) && BothComparable(t, f) && !BothMatch(t, f)
    ensures !PlanGate(t, f).Mismatch?
  {
    if f.directive.Some? {
      LoadMeans(t, f);
      if Loads(t, f) {
        CompareBothMeans(t, f);
        IntegrityMeans(t, f);
      }
    }
    hide LoadDirective;
    hide CompareBoth;
    hide HashIntegrity;
    hide BoundHash;
    hide DeclaresItself;
    hide BoundAgrees;
    hide BothComparable;
  }

  /** Each verdict of the conformance check. */
  lemma ConformanceVerdicts(t: Tools, f: Files, bind: bool)
    ensures var v := Conformance(t, f, bind);
            && (v.AutoApprove? <==> ConformanceApproves(t, f, bind))
            && (v.AutoApprove? ==> f.directive.Some? && v.hash == t.sha(f.directive.value))
            && (v.NoDirective? <==> f.directive == None)
            && (v.HashChanged? <==> Loads(t, f) && DeclaresItself(t, f) && !BoundAgrees(t, f))
            && (v.ContractDiverged? || v.Mismatch? <==>
                  && Loads(t, f) && DeclaresItself(t, f) && BoundAgrees(t, f) && BothComparable(t, f) && !BothMatch(t, f))
            && (v.ContractDiverged? ==> BoundHash(f.log).Some?) && (v.Mismatch? ==> BoundHash(f.log) == None)
  {
    if f.directive.Some? {
      LoadMeans(t, f);
      if Loads(t, f) {
        CompareBothMeans(t, f);
        IntegrityMeans(t, f);
      }
    }
    hide LoadDirective;
    hide CompareBoth;
    hide HashIntegrity;
    hide BoundHash;
    hide DeclaresItself;
    hide BoundAgrees;
    hide BothComparable;
  }

  /** The check writes to the log exactly when it approves with nothing bound, and then the bind line. */
  lemma LogAfterMeans(t: Tools, f: Files, bind: bool, timestamp: string)
    ensures var after := LogAfterConformance(t, f, bind, timestamp);
            if ConformanceApproves(t, f, bind) && BoundHash(f.log) == None then
              after == f.log + (BindText(timestamp, t.sha(f.directive.value), InPlace(t, f).author, InPlace(t, f).authority)
                                + "\n")
            else after == f.log
  {
    ConformanceVerdicts(t, f, bind);
    if f.directive.Some? { LoadMeans(t, f); }
    hide Conformance;
    hide LoadDirective;
    hide BoundHash;
  }

  class RunDirectory {
    const tools: Tools
    var files: Files

    constructor (tools: Tools, files: Files)
      ensures this.tools == tools && this.files == files
    {
      this.tools, this.files := tools, files;
    }

    /** check_directive_conformance: compare, and bind on the first approval. */
    method CheckConformance(bind: bool, timestamp: string) returns (v: Verdict)
      modifies this
      ensures v == Conformance(tools, old(files), bind)
      ensures files == old(files).(log := LogAfterConformance(tools, old(files), bind, timestamp))
    {
      if files.directive.None? { return NoDirective; }
      var loaded := LoadDirective(tools, files.directive.value);
      if loaded.None? { return Fallback; }
      var d, current, bound := loaded.value, tools.sha(files.directive.value), BoundHash(files.log);
      var broken := HashIntegrity(d, current, bound);
      if broken.Some? { return broken.value; }
      var checks := [(files.manifest, "manifest"), (files.scopeLock, "scope_lock")];
      var diffs: seq<string> := [];
      for i := 0 to |checks|
        invariant forall j :: 0 <= j < i ==> ComparePreapproved(tools, d, checks[j].0, checks[j].1) != CannotCompare
        invariant diffs == [] <==> forall j :: 0 <= j < i ==> ComparePreapproved(tools, d, checks[j].0, checks[j].1) == Same
      {
        var c := ComparePreapproved(tools, d, checks[i].0, checks[i].1);
        if c == CannotCompare {
          assert CompareBoth(tools, d, files) == CannotCompare;
          return Fallback;
        }
        if c == Differs { diffs := diffs + [checks[i].1]; }
      }
      assert ComparePreapproved(tools, d, checks[0].0, checks[0].1) != CannotCompare;
      assert ComparePreapproved(tools, d, checks[1].0, checks[1].1) != CannotCompare;
      if diffs != [] {
        return if bound.Some? then ContractDiverged else Mismatch;
      }
      if bound.None? {
        if !bind { return Fallback; }
        files := files.(log := files.log + (BindText(timestamp, current, d.author, d.authority) + "\n"));
      }
      return AutoApprove(current);
    }
  }

  // ---------------------------------------------------------------- runs

  datatype Event =
    | EditDirective(content: Option<string>)
    | EditManifest(content: Option<string>)
    | EditScopeLock(content: Option<string>)
    | EditPlan(content: Option<string>)
    | EditOther(name: string, content: Option<string>)
    | AppendLog(text: string)
    | RunConformance(bind: bool, timestamp: string)
    | RunPlanGate

  function Next(t: Tools, f: Files, e: Event): Files {
    match e
    case EditDirective(c) => f.(directive := c)
    case EditManifest(c) => f.(manifest := c)
    case EditScopeLock(c) => f.(scopeLock := c)
    case EditPlan(c) => f.(plan := c)
    case EditOther(name, c) => f.(others := if c.Some? then f.others[name := c.value] else f.others - {name})
    case AppendLog(text) => f.(log := f.log + text)
    case RunConformance(bind, timestamp) => f.(log := LogAfterConformance(t, f, bind, timestamp))
    case RunPlanGate => f
  }

  function FilesAfter(t: Tools, f: Files, run: seq<Event>): Files {
    if run == [] then f else Next(t, FilesAfter(t, f, run[..|run| - 1]), run[|run| - 1])
  }

  /** The verdict event i of the run gives. */
  function VerdictAt(t: Tools, f: Files, run: seq<Event>, i: nat): Verdict
    requires i < |run|
  {
    var before := FilesAfter(t, f, run[..i]);
    match run[i]
    case RunConformance(bind, _) => Conformance(t, before, bind)
    case RunPlanGate => PlanGate(t, before)
    case _ => NoDirective
  }

  ghost predicate Wellformed(t: Tools, run: seq<Event>) {
    && (forall c :: IsHash(t.sha(c)))
    && (forall i :: 0 <= i < |run| && run[i].RunConformance? ==> IsTimestamp(run[i].timestamp))
  }

  /** What an event does to the log is to append to it. */
  lemma NextAppends(t: Tools, f: Files, e: Event) returns (more: string)
    ensures Next(t, f, e).log == f.log + more
  {
    hide Conformance;
    var after := Next(t, f, e).log;
    if e.AppendLog? {
      more := e.text;
    } else if after == f.log {
      more := "";
      assert f.log + more == f.log;
    } else {
      var d := LoadDirective(t, f.directive.value).value;
      more := BindText(e.timestamp, Conformance(t, f, e.bind).hash, d.author, d.authority) + "\n";
    }
  }

  lemma {:induction false} RunAppends(t: Tools, f: Files, run: seq<Event>) returns (more: string)
    ensures FilesAfter(t, f, run).log == f.log + more
  {
    hide Next;
    if run == [] {
      more := "";
      assert f.log + more == f.log;
    } else {
      var front := run[..|run| - 1];
      var m := RunAppends(t, f, front);
      var n := NextAppends(t, FilesAfter(t, f, front), run[|run| - 1]);
      more := m + n;
      assert f.log + (m + n) == (f.log + m) + n;
    }
  }

  /**
   A bound hash is the one bound after every run, whatever is edited, logged or checked in it, if and only
   if it is settled.
   */
  lemma {:induction false} BoundHashIsForever(t: Tools, f: Files)
    requires BoundHash(f.log).Some?
    ensures Settled(f.log) <==> forall run :: BoundHash(FilesAfter(t, f, run).log) == BoundHash(f.log)
  {
    hide Settled;
    hide BoundHash;
    hide FilesAfter;
    if Settled(f.log) {
      forall run ensures BoundHash(FilesAfter(t, f, run).log) == BoundHash(f.log) {
        var more := RunAppends(t, f, run);
        SettledStays(f.log, more);
      }
    } else {
      UnsettledIsLost(f.log);
      LoggedOnce(t, f, "0");
      assert BoundHash(FilesAfter(t, f, [AppendLog("0")]).log) != BoundHash(f.log);
    }
  }

  lemma LoggedOnce(t: Tools, f: Files, text: string)
    ensures FilesAfter(t, f, [AppendLog(text)]).log == f.log + text
  {
    var run := [AppendLog(text)];
    assert run[..0] == [] && FilesAfter(t, f, run[..0]) == f;
  }

  lemma {:induction false} SettledAlongRun(t: Tools, f: Files, run: seq<Event>, i: nat, j: nat)
    requires i <= j <= |run| && Settled(FilesAfter(t, f, run[..i]).log)
    ensures Settled(FilesAfter(t, f, run[..j]).log)
    ensures BoundHash(FilesAfter(t, f, run[..i]).log).Some?
    ensures BoundHash(FilesAfter(t, f, run[..j]).log) == BoundHash(FilesAfter(t, f, run[..i]).log)
    decreases j
  {
    hide Settled;
    hide BoundHash;
    hide Next;
    SettledStays(FilesAfter(t, f, run[..i]).log, "");
    if i < j {
      SettledAlongRun(t, f, run, i, j - 1);
      var before := FilesAfter(t, f, run[..j - 1]);
      assert run[..j][..j - 1] == run[..j - 1] && run[..j][j - 1] == run[j - 1];
      var more := NextAppends(t, before, run[j - 1]);
      SettledExtends(before.log, more);
    }
  }

  /** The hash that is bound once a conformance check has approved. */
  function BoundByApproval(log: string, timestamp: string, hash: string): string
    requires |timestamp| >= 4
  {
    if BoundHash(log).Some? then BoundHash(log).value else ReadBack(log, timestamp, hash)
  }

  /**
   An approving conformance check leaves its hash bound if and only if one was bound before, or the log did not
   end in an unfinished bind line that the year completes to another hash.  What it newly binds is settled.
   */
  lemma {:induction false} ApprovalBinds(t: Tools, f: Files, bind: bool, timestamp: string)
    requires IsTimestamp(timestamp) && (forall c :: IsHash(t.sha(c)))
    requires Conformance(t, f, bind).AutoApprove?
    ensures var hash, after := Conformance(t, f, bind).hash, LogAfterConformance(t, f, bind, timestamp);
            && BoundHash(after) == Some(BoundByApproval(f.log, timestamp, hash))
            && (BoundHash(after) == Some(hash) <==>
                  || BoundHash(f.log).Some?
                  || DanglingHash(LastLine(f.log)) == None
                  || DanglingHash(LastLine(f.log)).value + timestamp[..4] == hash)
            && (Settled(after) <==> BoundHash(f.log) == None || Settled(f.log))
  {
    var hash := Conformance(t, f, bind).hash;
    ApprovalIsForBound(t, f, bind);
    if BoundHash(f.log) == None {
      var d := LoadDirective(t, f.directive.value).value;
      var text := BindText(timestamp, hash, d.author, d.authority) + "\n";
      assert LogAfterConformance(t, f, bind, timestamp) == f.log + text;
      hide Conformance;
      hide LogAfterConformance;
      BindReadsBackAs(f.log, timestamp, hash, d.author, d.authority);
      ReadBackIsHash(f.log, timestamp, hash);
      WholeLogIsSettled(f.log + text);
    }
  }

  lemma ApprovalIsForBound(t: Tools, f: Files, bind: bool)
    requires Conformance(t, f, bind).AutoApprove?
    ensures f.directive.Some? && LoadDirective(t, f.directive.value).Some?
    ensures Conformance(t, f, bind).hash == t.sha(f.directive.value)
    ensures BoundHash(f.log).Some? ==> BoundHash(f.log) == Some(Conformance(t, f, bind).hash)
  {
    hide BoundHash;
  }

  lemma WholeLogIsSettled(log: string)
    requires log != "" && log[|log| - 1] == '\n' && BoundHash(log).Some?
    ensures Settled(log)
  {
    hide BoundHash;
  }

  // ---------------------------------------------------------------- one directive per run

  /** What an approval was given for. */
  ghost predicate ApprovedFor(t: Tools, f: Files, hash: string, d: Directive) {
    && f.directive.Some? && f.manifest.Some? && f.scopeLock.Some?
    && t.sha(f.directive.value) == hash
    && t.parseDirective(f.directive.value) == Some(d)
    && d.preapproved.Some? && "manifest" in d.preapproved.value && "scope_lock" in d.preapproved.value
    && t.parseYaml(f.manifest.value) == Some(d.preapproved.value["manifest"])
    && t.parseYaml(f.scopeLock.value) == Some(d.preapproved.value["scope_lock"])
  }

  lemma ApprovalMeans(t: Tools, f: Files, v: Verdict)
    requires v.AutoApprove? && (v == PlanGate(t, f) || v == Conformance(t, f, true) || v == Conformance(t, f, false))
    ensures f.directive.Some? && LoadDirective(t, f.directive.value).Some?
    ensures ApprovedFor(t, f, v.hash, LoadDirective(t, f.directive.value).value)
    ensures BoundHash(f.log).Some? ==> BoundHash(f.log) == Some(v.hash)
  {
  }

  /** Same directive, same manifest, same scope lock; or two directive files with one hash. */
  ghost predicate SameContract(t: Tools, a: Files, b: Files) {
    && a.directive.Some? && b.directive.Some? && a.manifest.Some? && b.manifest.Some?
    && a.scopeLock.Some? && b.scopeLock.Some?
    && t.sha(a.directive.value) == t.sha(b.directive.value)
    && (|| a.directive.value != b.directive.value
        || (&& t.parseYaml(a.manifest.value) == t.parseYaml(b.manifest.value)
            && t.parseYaml(a.scopeLock.value) == t.parseYaml(b.scopeLock.value)))
  }

  /** Once a settled hash is bound, however it came to be, every approval by either gate is for that hash. */
  lemma {:induction false} ApprovalsAreForTheBound(t: Tools, f: Files, run: seq<Event>, i: nat, j: nat)
    requires i <= j < |run| && Settled(FilesAfter(t, f, run[..i]).log)
    requires VerdictAt(t, f, run, j).AutoApprove?
    ensures BoundHash(FilesAfter(t, f, run[..i]).log) == Some(VerdictAt(t, f, run, j).hash)
  {
    SettledAlongRun(t, f, run, i, j);
    var b := FilesAfter(t, f, run[..j]);
    hide Settled;
    ApprovalMeans(t, b, VerdictAt(t, f, run, j));
  }

  /** The approval at this log will be the approval of the run. */
  predicate KeepsBind(log: string, timestamp: string, hash: string)
    requires |timestamp| >= 4
  {
    if BoundHash(log).Some? then Settled(log)
    else DanglingHash(LastLine(log)) == None || DanglingHash(LastLine(log)).value + timestamp[..4] == hash
  }

  lemma {:induction false} BoundAfterApproval(t: Tools, f: Files, run: seq<Event>, i: nat)
    requires Wellformed(t, run) && i < |run| && run[i].RunConformance? && VerdictAt(t, f, run, i).AutoApprove?
    ensures var log, after := FilesAfter(t, f, run[..i]).log, FilesAfter(t, f, run[..i + 1]).log;
            var hash := VerdictAt(t, f, run, i).hash;
            && BoundHash(after).Some?
            && (Settled(after) <==> BoundHash(log) == None || Settled(log))
            && (Settled(after) && BoundHash(after) == Some(hash) <==> KeepsBind(log, run[i].timestamp, hash))
  {
    var a := FilesAfter(t, f, run[..i]);
    assert run[..i + 1][..i] == run[..i] && run[..i + 1][i] == run[i];
    assert FilesAfter(t, f, run[..i + 1]) == Next(t, a, run[i]);
    hide Settled;
    hide BoundHash;
    hide DanglingHash;
    hide LastLine;
    hide Conformance;
    ApprovalBinds(t, a, run[i].bind, run[i].timestamp);
  }

  /**
   One directive per run.  After a conformance approval whose bind keeps, every later approval by either gate
   carries the same hash; after one that bound anew, exactly then.  And approvals with one hash are, unless two
   directive files collide, for the same directive, manifest and scope lock.
   */
  lemma {:induction false} OneDirectivePerRun(t: Tools, f: Files, run: seq<Event>, i: nat, j: nat)
    requires Wellformed(t, run) && i < j < |run|
    requires run[i].RunConformance? && VerdictAt(t, f, run, i).AutoApprove?
    requires VerdictAt(t, f, run, j).AutoApprove?
    ensures var a, b := FilesAfter(t, f, run[..i]), FilesAfter(t, f, run[..j]);
            var same := VerdictAt(t, f, run, j) == VerdictAt(t, f, run, i);
            var keeps := KeepsBind(a.log, run[i].timestamp, VerdictAt(t, f, run, i).hash);
            && (keeps ==> same)
            && (BoundHash(a.log) == None ==> (same <==> keeps))
            && (same ==> SameContract(t, a, b))
  {
    BoundAfterApproval(t, f, run, i);
    hide Settled;
    hide BoundHash;
    hide KeepsBind;
    hide FilesAfter;
    if Settled(FilesAfter(t, f, run[..i + 1]).log) {
      ApprovalsAreForTheBound(t, f, run, i + 1, j);
    }
    if VerdictAt(t, f, run, j) == VerdictAt(t, f, run, i) { SameHashSameContract(t, f, run, i, j); }
  }

  lemma {:induction false} SameHashSameContract(t: Tools, f: Files, run: seq<Event>, i: nat, j: nat)
    requires i < |run| && j < |run|
    requires VerdictAt(t, f, run, i).AutoApprove? && VerdictAt(t, f, run, j) == VerdictAt(t, f, run, i)
    ensures SameContract(t, FilesAfter(t, f, run[..i]), FilesAfter(t, f, run[..j]))
  {
    var a, b := FilesAfter(t, f, run[..i]), FilesAfter(t, f, run[..j]);
    ApprovalMeans(t, a, VerdictAt(t, f, run, i));
    ApprovalMeans(t, b, VerdictAt(t, f, run, j));
    hide VerdictAt;
    hide FilesAfter;
    hide LoadDirective;
  }

  lemma {:induction false} FilesAfterStep(t: Tools, f: Files, run: seq<Event>, i: nat)
    requires i < |run|
    ensures FilesAfter(t, f, run[..i + 1]) == Next(t, FilesAfter(t, f, run[..i]), run[i])
  {
    assert run[..i + 1][..i] == run[..i] && run[..i + 1][i] == run[i];
  }

  /** Event i of the run, seen from the files before it. */
  lemma {:induction false} EventAt(t: Tools, f: Files, run: seq<Event>, i: nat, before: Files)
    requires i < |run| && FilesAfter(t, f, run[..i]) == before
    ensures FilesAfter(t, f, run[..i + 1]) == Next(t, before, run[i])
    ensures run[i].RunConformance? ==> VerdictAt(t, f, run, i) == Conformance(t, before, run[i].bind)
    ensures run[i].RunPlanGate? ==> VerdictAt(t, f, run, i) == PlanGate(t, before)
  {
    FilesAfterStep(t, f, run, i);
  }

  /** In every run, a plan approval is for files that include a plan which passes the assertions of the directive in place. */
  lemma {:induction false} PlanApprovalsSawThePlan(t: Tools, f: Files, run: seq<Event>, i: nat)
    requires i < |run| && run[i].RunPlanGate?
    ensures VerdictAt(t, f, run, i).AutoApprove? <==> PlanApproves(t, FilesAfter(t, f, run[..i]))
  {
    EventAt(t, f, run, i, FilesAfter(t, f, run[..i]));
    PlanGateVerdicts(t, FilesAfter(t, f, run[..i]));
    hide VerdictAt;
    hide PlanGate;
    hide PlanApproves;
    hide FilesAfter;
  }

  lemma RunStarts(t: Tools, f: Files, run: seq<Event>)
    ensures FilesAfter(t, f, run[..0]) == f
  {
    assert run[..0] == [];
  }

  /** The directive file holds content, and it conforms to the manifest and the scope lock. */
  ghost predicate Conforms(t: Tools, f: Files, content: string) {
    && LoadDirective(t, content).Some?
    && LoadDirective(t, content).value.contentHash == None
    && CompareBoth(t, LoadDirective(t, content).value, f) == Same
  }

  lemma ConformingIsApproved(t: Tools, f: Files, content: string)
    requires f.directive == Some(content) && Conforms(t, f, content)
    requires BoundHash(f.log) == None || BoundHash(f.log) == Some(t.sha(content))
    ensures Conformance(t, f, true) == AutoApprove(t.sha(content))
  {
    hide BoundHash;
  }

  lemma ConformsWhatever(t: Tools, f: Files, g: Files, content: string)
    requires Conforms(t, f, content) && g.manifest == f.manifest && g.scopeLock == f.scopeLock
    ensures Conforms(t, g, content)
  {
  }

  lemma {:induction false} UnfinishedBindSwapsHash(t: Tools, f: Files, c1: string, c2: string, ts: string)
    requires IsTimestamp(ts) && (forall c :: IsHash(t.sha(c))) && BoundHash(f.log) == None
    requires DanglingHash(LastLine(f.log)).Some?
    requires t.sha(c2) == DanglingHash(LastLine(f.log)).value + ts[..4]
    requires Conforms(t, f, c1) && Conforms(t, f, c2)
    ensures var f1 := f.(directive := Some(c1));
            var f3 := f1.(log := LogAfterConformance(t, f1, true, ts), directive := Some(c2));
            Conformance(t, f1, true) == AutoApprove(t.sha(c1)) && Conformance(t, f3, true) == AutoApprove(t.sha(c2))
  {
    var f1 := f.(directive := Some(c1));
    ConformsWhatever(t, f, f1, c1);
    ConformingIsApproved(t, f1, c1);
    ApprovalBinds(t, f1, true, ts);
    hide BoundHash;
    hide DanglingHash;
    hide LastLine;
    hide Settled;
    hide Conformance;
    hide LogAfterConformance;
    hide Conforms;
    var f3 := f1.(log := LogAfterConformance(t, f1, true, ts), directive := Some(c2));
    ConformsWhatever(t, f, f3, c2);
    ConformingIsApproved(t, f3, c2);
  }

  /**
   A run that approves two directives, on a log that ends in an unfinished bind line: the first check binds the
   hash that the year completes, and the directive with that hash is approved next.
   */
  lemma {:induction false} UnfinishedBindApprovesAnother(t: Tools, f: Files, c1: string, c2: string, ts: string)
    requires IsTimestamp(ts) && (forall c :: IsHash(t.sha(c))) && BoundHash(f.log) == None
    requires DanglingHash(LastLine(f.log)).Some?
    requires t.sha(c2) == DanglingHash(LastLine(f.log)).value + ts[..4]
    requires Conforms(t, f, c1) && Conforms(t, f, c2)
    ensures var run := [EditDirective(Some(c1)), RunConformance(true, ts), EditDirective(Some(c2)), RunConformance(true, ts)];
            VerdictAt(t, f, run, 1) == AutoApprove(t.sha(c1)) && VerdictAt(t, f, run, 3) == AutoApprove(t.sha(c2))
  {
    var run := [EditDirective(Some(c1)), RunConformance(true, ts), EditDirective(Some(c2)), RunConformance(true, ts)];
    var f1 := f.(directive := Some(c1));
    var f2 := f1.(log := LogAfterConformance(t, f1, true, ts));
    var f3 := f2.(directive := Some(c2));
    hide *;
    UnfinishedBindSwapsHash(t, f, c1, c2, ts);
    RunStarts(t, f, run);
    NextEdits(t, f, c1);
    EventAt(t, f, run, 0, f);
    NextChecks(t, f1, true, ts);
    EventAt(t, f, run, 1, f1);
    NextEdits(t, f2, c2);
    EventAt(t, f, run, 2, f2);
    EventAt(t, f, run, 3, f3);
  }

  /** The events of the runs here, one at a time. */
  lemma NextEdits(t: Tools, f: Files, content: string)
    ensures Next(t, f, EditDirective(Some(content))) == f.(directive := Some(content))
  {
  }

  lemma NextChecks(t: Tools, f: Files, bind: bool, ts: string)
    ensures Next(t, f, RunConformance(bind, ts)) == f.(log := LogAfterConformance(t, f, bind, ts))
  {
    hide LogAfterConformance;
  }

  lemma NextPlans(t: Tools, f: Files)
    ensures Next(t, f, RunPlanGate) == f
  {
  }

  lemma NextLogs(t: Tools, f: Files, text: string)
    ensures Next(t, f, AppendLog(text)) == f.(log := f.log + text)
  {
  }

  /**
   A run that approves two directives, on a log whose bound hash is not settled: a digit logged after the
   first approval unbinds it.
   */
  lemma {:induction false} UnsettledBindApprovesAnother(t: Tools, f: Files, c1: string, c2: string, ts: string)
    requires f.directive == Some(c1) && BoundHash(f.log) == Some(t.sha(c1)) && !Settled(f.log)
    requires Conforms(t, f, c1) && Conforms(t, f, c2)
    ensures var run := [RunConformance(true, ts), AppendLog("0"), EditDirective(Some(c2)), RunConformance(true, ts)];
            VerdictAt(t, f, run, 0) == AutoApprove(t.sha(c1)) && VerdictAt(t, f, run, 3) == AutoApprove(t.sha(c2))
  {
    var f3 := f.(log := f.log + "0", directive := Some(c2));
    UnsettledIsLost(f.log);
    ConformsWhatever(t, f, f3, c2);
    BoundLogStays(t, f, true, ts);
    ConformingIsApproved(t, f, c1);
    ConformingIsApproved(t, f3, c2);
    hide *;
    var run := [RunConformance(true, ts), AppendLog("0"), EditDirective(Some(c2)), RunConformance(true, ts)];
    CheckLogEditCheck(t, f, "0", c2, ts, run);
  }

  /** A conformance check that leaves the log alone, more text in the log, an edit, and another check. */
  lemma {:induction false} CheckLogEditCheck(t: Tools, f: Files, text: string, c2: string, ts: string, run: seq<Event>)
    requires run == [RunConformance(true, ts), AppendLog(text), EditDirective(Some(c2)), RunConformance(true, ts)]
    requires Next(t, f, RunConformance(true, ts)) == f
    ensures VerdictAt(t, f, run, 0) == Conformance(t, f, true)
    ensures VerdictAt(t, f, run, 3) == Conformance(t, f.(log := f.log + text, directive := Some(c2)), true)
  {
    hide *;
    var g := f.(log := f.log + text);
    RunStarts(t, f, run);
    EventAt(t, f, run, 0, f);
    NextLogs(t, f, text);
    EventAt(t, f, run, 1, f);
    NextEdits(t, g, c2);
    EventAt(t, f, run, 2, g);
    EventAt(t, f, run, 3, g.(directive := Some(c2)));
  }

  lemma BoundLogStays(t: Tools, f: Files, bind: bool, ts: string)
    requires BoundHash(f.log).Some?
    ensures LogAfterConformance(t, f, bind, ts) == f.log && Next(t, f, RunConformance(bind, ts)) == f
  {
    hide Conformance;
    hide BoundHash;
  }

  // ---------------------------------------------------------------- the plan gate on its own

  /** The plan meets the assertions of the directive with this content. */
  ghost predicate PlanAccepts(t: Tools, f: Files, content: string) {
    && f.plan.Some?
    && LoadDirective(t, content).Some?
    && LoadDirective(t, content).value.planAssertions != []
    && t.planPasses(LoadDirective(t, content).value, f.(directive := Some(content)))
  }

  lemma PlanIsApproved(t: Tools, f: Files, content: string)
    requires Conforms(t, f, content) && PlanAccepts(t, f, content)
    requires BoundHash(f.log) == None || BoundHash(f.log) == Some(t.sha(content))
    ensures PlanGate(t, f.(directive := Some(content))) == AutoApprove(t.sha(content))
  {
    hide BoundHash;
    hide LoadDirective;
  }

  /**
   With nothing bound, the plan gate approves whatever conforming directive is in place, so an edit between
   two plan approvals goes unnoticed.
   */
  lemma {:induction false} UnboundPlanGateFollowsEdits(t: Tools, f: Files, c1: string, c2: string)
    requires BoundHash(f.log) == None && Conforms(t, f, c1) && Conforms(t, f, c2)
    requires PlanAccepts(t, f, c1) && PlanAccepts(t, f, c2)
    ensures var run := [EditDirective(Some(c1)), RunPlanGate, EditDirective(Some(c2)), RunPlanGate];
            VerdictAt(t, f, run, 1) == AutoApprove(t.sha(c1)) && VerdictAt(t, f, run, 3) == AutoApprove(t.sha(c2))
  {
    var run := [EditDirective(Some(c1)), RunPlanGate, EditDirective(Some(c2)), RunPlanGate];
    var f1, f3 := f.(directive := Some(c1)), f.(directive := Some(c2));
    PlanIsApproved(t, f, c1);
    PlanIsApproved(t, f, c2);
    hide *;
    RunStarts(t, f, run);
    NextEdits(t, f, c1);
    EventAt(t, f, run, 0, f);
    NextPlans(t, f1);
    EventAt(t, f, run, 1, f1);
    NextEdits(t, f1, c2);
    EventAt(t, f, run, 2, f1);
    EventAt(t, f, run, 3, f3);
  }

  /** On a log whose bound hash is not settled, a digit logged between two plan approvals does the same. */
  lemma {:induction false} UnsettledPlanGateFollowsEdits(t: Tools, f: Files, c1: string, c2: string)
    requires BoundHash(f.log) == Some(t.sha(c1)) && !Settled(f.log) && Conforms(t, f, c1) && Conforms(t, f, c2)
    requires PlanAccepts(t, f, c1) && PlanAccepts(t, f.(log := f.log + "0"), c2)
    ensures var run := [EditDirective(Some(c1)), RunPlanGate, AppendLog("0"), EditDirective(Some(c2)), RunPlanGate];
            VerdictAt(t, f, run, 1) == AutoApprove(t.sha(c1)) && VerdictAt(t, f, run, 4) == AutoApprove(t.sha(c2))
  {
    var g := f.(log := f.log + "0");
    UnsettledIsLost(f.log);
    PlanIsApproved(t, f, c1);
    ConformsWhatever(t, f, g, c2);
    PlanIsApproved(t, g, c2);
    hide *;
    var run := [EditDirective(Some(c1)), RunPlanGate, AppendLog("0"), EditDirective(Some(c2)), RunPlanGate];
    EditPlanLogEditPlan(t, f, c1, "0", c2, run);
  }

  /** A plan gate after one edit, and after more text in the log and another edit. */
  lemma {:induction false} EditPlanLogEditPlan(t: Tools, f: Files, c1: string, text: string, c2: string, run: seq<Event>)
    requires run == [EditDirective(Some(c1)), RunPlanGate, AppendLog(text), EditDirective(Some(c2)), RunPlanGate]
    ensures VerdictAt(t, f, run, 1) == PlanGate(t, f.(directive := Some(c1)))
    ensures VerdictAt(t, f, run, 4) == PlanGate(t, f.(log := f.log + text, directive := Some(c2)))
  {
    hide *;
    var f1 := f.(directive := Some(c1));
    var f3 := f1.(log := f.log + text);
    RunStarts(t, f, run);
    NextEdits(t, f, c1);
    EventAt(t, f, run, 0, f);
    NextPlans(t, f1);
    EventAt(t, f, run, 1, f1);
    NextLogs(t, f1, text);
    EventAt(t, f, run, 2, f1);
    NextEdits(t, f3, c2);
    EventAt(t, f, run, 3, f3);
    EventAt(t, f, run, 4, f3.(directive := Some(c2)));
  }

  /** The directive with this content would be approved by the plan gate, whatever else is logged. */
  ghost predicate Approvable(t: Tools, f: Files, content: string) {
    Conforms(t, f, content) && forall more :: PlanAccepts(t, f.(log := f.log + more), content)
  }

  /** All plan approvals of every run carry one hash. */
  ghost predicate PlanGateFixesOne(t: Tools, f: Files) {
    forall run: seq<Event>, i: nat, j: nat ::
      && i < |run| && j < |run| && run[i].RunPlanGate? && run[j].RunPlanGate?
      && VerdictAt(t, f, run, i).AutoApprove? && VerdictAt(t, f, run, j).AutoApprove?
      ==> VerdictAt(t, f, run, i) == VerdictAt(t, f, run, j)
  }

  lemma {:induction false} SettledFixesOne(t: Tools, f: Files)
    requires Settled(f.log)
    ensures PlanGateFixesOne(t, f)
  {
    hide Settled;
    hide VerdictAt;
    hide BoundHash;
    forall run: seq<Event>, i: nat, j: nat |
      && i < |run| && j < |run| && run[i].RunPlanGate? && run[j].RunPlanGate?
      && VerdictAt(t, f, run, i).AutoApprove? && VerdictAt(t, f, run, j).AutoApprove?
      ensures VerdictAt(t, f, run, i) == VerdictAt(t, f, run, j)
    {
      assert run[..0] == [] && FilesAfter(t, f, run[..0]) == f;
      ApprovalsAreForTheBound(t, f, run, 0, i);
      ApprovalsAreForTheBound(t, f, run, 0, j);
    }
  }

  /** A run that logs some text and then has two directives approved by the plan gate. */
  lemma {:induction false} LoggedThenFollowsEdits(t: Tools, f: Files, more: string, c1: string, c2: string)
    requires BoundHash(f.log + more) == None && Approvable(t, f, c1) && Approvable(t, f, c2)
    ensures var run := [AppendLog(more), EditDirective(Some(c1)), RunPlanGate, EditDirective(Some(c2)), RunPlanGate];
            VerdictAt(t, f, run, 2) == AutoApprove(t.sha(c1)) && VerdictAt(t, f, run, 4) == AutoApprove(t.sha(c2))
  {
    var g := f.(log := f.log + more);
    ConformsWhatever(t, f, g, c1);
    ConformsWhatever(t, f, g, c2);
    PlanIsApproved(t, g, c1);
    PlanIsApproved(t, g, c2);
    hide *;
    var run := [AppendLog(more), EditDirective(Some(c1)), RunPlanGate, EditDirective(Some(c2)), RunPlanGate];
    LogEditPlanEditPlan(t, f, more, c1, c2, run);
  }

  lemma {:induction false} LogEditPlanEditPlan(t: Tools, f: Files, text: string, c1: string, c2: string, run: seq<Event>)
    requires run == [AppendLog(text), EditDirective(Some(c1)), RunPlanGate, EditDirective(Some(c2)), RunPlanGate]
    ensures VerdictAt(t, f, run, 2) == PlanGate(t, f.(log := f.log + text, directive := Some(c1)))
    ensures VerdictAt(t, f, run, 4) == PlanGate(t, f.(log := f.log + text, directive := Some(c2)))
  {
    hide *;
    var g := f.(log := f.log + text);
    var g1 := g.(directive := Some(c1));
    RunStarts(t, f, run);
    NextLogs(t, f, text);
    EventAt(t, f, run, 0, f);
    NextEdits(t, g, c1);
    EventAt(t, f, run, 1, g);
    NextPlans(t, g1);
    EventAt(t, f, run, 2, g1);
    NextEdits(t, g1, c2);
    EventAt(t, f, run, 3, g1);
    EventAt(t, f, run, 4, g.(directive := Some(c2)));
  }

  lemma {:induction false} TwoPlanApprovals(t: Tools, f: Files, run: seq<Event>, i: nat, j: nat)
    requires i < |run| && j < |run| && run[i].RunPlanGate? && run[j].RunPlanGate?
    requires VerdictAt(t, f, run, i).AutoApprove? && VerdictAt(t, f, run, j).AutoApprove?
    requires VerdictAt(t, f, run, i) != VerdictAt(t, f, run, j)
    ensures !PlanGateFixesOne(t, f)
  {
    hide VerdictAt;
  }

  lemma {:induction false} UnsettledFixesNone(t: Tools, f: Files, c1: string, c2: string)
    requires Approvable(t, f, c1) && Approvable(t, f, c2) && t.sha(c1) != t.sha(c2) && !Settled(f.log)
    ensures !PlanGateFixesOne(t, f)
  {
    hide BoundHash;
    hide Settled;
    hide VerdictAt;
    hide Approvable;
    hide PlanGateFixesOne;
    var more := if BoundHash(f.log) == None then "" else "0";
    if BoundHash(f.log) == None { assert f.log + more == f.log; } else { UnsettledIsLost(f.log); }
    LoggedThenFollowsEdits(t, f, more, c1, c2);
    var run := [AppendLog(more), EditDirective(Some(c1)), RunPlanGate, EditDirective(Some(c2)), RunPlanGate];
    TwoPlanApprovals(t, f, run, 2, 4);
  }

  /**
   The plan gate alone fixes a directive exactly when a hash is bound for good: where two directives with different
   hashes could be approved, all plan approvals of every run carry one hash if and only if the log is settled.
   */
  lemma {:induction false} PlanGateFixesOneExactlyWhen(t: Tools, f: Files, c1: string, c2: string)
    requires Approvable(t, f, c1) && Approvable(t, f, c2) && t.sha(c1) != t.sha(c2)
    ensures PlanGateFixesOne(t, f) <==> Settled(f.log)
  {
    hide *;
    if Settled(f.log) { SettledFixesOne(t, f); } else { UnsettledFixesNone(t, f, c1, c2); }
  }
}

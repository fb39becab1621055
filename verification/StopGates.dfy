/**
 The control state of a run and the three gates that read it: the agent decision gate, the final
 response gate and pipeline-continue.
 */
module StopGates {
  import opened Options
  import opened Text
  import opened RunLog

  const VALID_STOP_CONDITIONS: set<string> := {
    "human_approval_gate", "failed_gate_needs_user_direction", "destructive_action",
    "credential_or_secret_required", "scope_conflict", "external_system_unavailable_after_retry",
    "user_explicitly_paused_or_stopped"
  }

  const INVALID_STOP_CONDITIONS: set<string> := {
    "successful_push", "green_ci", "recommended_next_action", "open_caveats",
    "release_or_tag_after_gates_pass", "pr_draft_status", "unverified_blocker_or_risk"
  }

  const INVALID_DECISION_REASONS: set<string> := INVALID_STOP_CONDITIONS + {
    "could_trigger_ci", "inferred_blocker", "unverified_blocker", "unverified_blocker_or_risk",
    "unverified_actions_budget_risk", "successful_ci", "remote_ci_green"
  }

  const REQUIRED_STATE_KEYS: seq<string> := [
    "active_run", "current_stage", "last_completed_gate", "next_required_action", "stop_condition",
    "final_response_allowed", "continuing_to"
  ]

  const VALID_HUMAN_GATE_STAGES: set<string> := {"manifest", "plan", "manager"}

  type Fields = map<string, string>

  function Get(fields: Fields, key: string): string {
    if key in fields then fields[key] else ""
  }

  // ---------------------------------------------------------------- reading the control state

  predicate IsKeyChar(c: char) {
    'a' <= c <= 'z' || 'A' <= c <= 'Z' || '0' <= c <= '9' || c == '_' || c == '-'
  }

  function KeyLength(s: string): (n: nat)
    ensures n <= |s|
  {
    if s != "" && IsKeyChar(s[0]) then 1 + KeyLength(s[1..]) else 0
  }

  /** An optional bullet, a key, a colon, a value. */
  function ParseKeyLine(line: string): Option<(string, string)> {
    var s := Strip(line);
    var r := if |s| >= 2 && s[0] == '-' && IsSpace(s[1]) then LStrip(s[1..]) else s;
    var n := KeyLength(r);
    if 0 < n < |r| && r[n] == ':' then Some((r[..n], Strip(r[n + 1..]))) else None
  }

  function ControlState(lines: seq<string>): Fields {
    if lines == [] then map[]
    else
      var front := ControlState(lines[..|lines| - 1]);
      match ParseKeyLine(lines[|lines| - 1])
      case Some((key, value)) => front[key := value]
      case None => front
  }

  predicate HasKey(line: string, key: string) {
    ParseKeyLine(line).Some? && ParseKeyLine(line).value.0 == key
  }

  /** Some line gives key this value, and no later line gives it any. */
  ghost predicate LastValue(lines: seq<string>, key: string, value: string) {
    exists i :: 0 <= i < |lines| && ParseKeyLine(lines[i]) == Some((key, value))
                && forall j :: i < j < |lines| ==> !HasKey(lines[j], key)
  }

  lemma LastValueStep(lines: seq<string>, key: string, value: string)
    requires lines != []
    ensures var last := lines[|lines| - 1];
            LastValue(lines, key, value) <==>
              if HasKey(last, key) then ParseKeyLine(last) == Some((key, value))
              else LastValue(lines[..|lines| - 1], key, value)
  {
    hide ParseKeyLine;
    var n := |lines| - 1;
    var front := lines[..n];
    if HasKey(lines[n], key) {
      assert ParseKeyLine(lines[n]) == Some((key, value)) ==> LastValue(lines, key, value);
    } else {
      assert forall j :: 0 <= j < n ==> front[j] == lines[j];
      if i :| 0 <= i < |front| && ParseKeyLine(front[i]) == Some((key, value))
              && forall j :: i < j < |front| ==> !HasKey(front[j], key) {
        assert ParseKeyLine(lines[i]) == Some((key, value)) && forall j :: i < j < |lines| ==> !HasKey(lines[j], key);
      }
      if i :| 0 <= i < |lines| && ParseKeyLine(lines[i]) == Some((key, value))
              && forall j :: i < j < |lines| ==> !HasKey(lines[j], key) {
        assert i < n && ParseKeyLine(front[i]) == Some((key, value));
      }
    }
  }

  /** A control state holds, for each key, what the last line with that key says. */
  lemma {:induction false} ControlStateMeans(lines: seq<string>, key: string, value: string)
    ensures (key in ControlState(lines) && ControlState(lines)[key] == value) <==> LastValue(lines, key, value)
  {
    hide ParseKeyLine;
    if lines == [] {
    } else {
      ControlStateMeans(lines[..|lines| - 1], key, value);
      LastValueStep(lines, key, value);
      hide LastValue;
    }
  }

  method ParseControlState(text: string) returns (fields: Fields)
    ensures fields == ControlState(Lines(text))
    ensures forall key, value :: (key in fields && fields[key] == value) <==> LastValue(Lines(text), key, value)
  {
    forall key, value
      ensures (key in ControlState(Lines(text)) && ControlState(Lines(text))[key] == value) <==>
              LastValue(Lines(text), key, value)
    {
      ControlStateMeans(Lines(text), key, value);
    }
    hide LastValue;
    hide Lines;
    hide ParseKeyLine;
    fields := map[];
    var lines := Lines(text);
    for i := 0 to |lines|
      invariant fields == ControlState(lines[..i])
    {
      assert lines[..i + 1][..i] == lines[..i];
      var pair := ParseKeyLine(lines[i]);
      if pair.Some? { fields := fields[pair.value.0 := pair.value.1]; }
    }
    assert lines[..|lines|] == lines;
  }

  // ---------------------------------------------------------------- validating the control state

  predicate IsBool(value: string) {
    Lower(value) == "true" || Lower(value) == "false"
  }

  /** No violation is reported. */
  predicate Clean(fields: Fields) {
    var final, stop := Lower(Get(fields, "final_response_allowed")), Get(fields, "stop_condition");
    && (forall key :: key in REQUIRED_STATE_KEYS ==> key in fields)
    && IsBool(Get(fields, "active_run"))
    && IsBool(Get(fields, "final_response_allowed"))
    && (stop == "none" ==> final == "false" && Get(fields, "continuing_to") != "" && Get(fields, "next_required_action") != "")
    && (stop != "" && stop != "none" ==> stop in VALID_STOP_CONDITIONS && final == "true")
  }

  method ValidateControlState(fields: Fields) returns (violations: seq<string>)
    ensures violations == [] <==> Clean(fields)
  {
    violations := [];
    for i := 0 to |REQUIRED_STATE_KEYS|
      invariant violations == [] <==> forall j :: 0 <= j < i ==> REQUIRED_STATE_KEYS[j] in fields
    {
      if REQUIRED_STATE_KEYS[i] !in fields {
        violations := violations + ["missing required key " + REQUIRED_STATE_KEYS[i]];
      }
    }
    assert violations == [] <==> forall key :: key in REQUIRED_STATE_KEYS ==> key in fields;
    var activeRun, finalAllowed := Lower(Get(fields, "active_run")), Lower(Get(fields, "final_response_allowed"));
    var stop := Get(fields, "stop_condition");
    if activeRun != "true" && activeRun != "false" { violations := violations + ["active_run"]; }
    if finalAllowed != "true" && finalAllowed != "false" { violations := violations + ["final_response_allowed"]; }
    if stop in INVALID_STOP_CONDITIONS { violations := violations + ["invalid stop condition"]; }
    if stop == "none" {
      if finalAllowed != "false" { violations := violations + ["final_response_allowed with none"]; }
      if Get(fields, "continuing_to") == "" { violations := violations + ["continuing_to"]; }
      if Get(fields, "next_required_action") == "" { violations := violations + ["next_required_action"]; }
    } else if stop != "" {
      if stop !in VALID_STOP_CONDITIONS { violations := violations + ["unknown stop condition"]; }
      if finalAllowed != "true" { violations := violations + ["final_response_allowed"]; }
    }
    if activeRun == "true" && finalAllowed == "true" && stop == "none" {
      violations := violations + ["no valid stop condition"];
    }
    ValidAndInvalidDiffer(stop);
  }

  lemma ValidAndInvalidDiffer(stop: string)
    ensures stop in INVALID_STOP_CONDITIONS ==> stop !in VALID_STOP_CONDITIONS && stop != "" && stop != "none"
  {
  }

  // ---------------------------------------------------------------- validating one state file

  /** A state file and what the validator looks up beside it. */
  datatype StateFile = StateFile(
    path: string,
    text: string,
    pipeline: string,
    runLog: string,
    scopeReceiptPasses: bool)

  function FieldsOf(f: StateFile): Fields {
    ControlState(Lines(f.text))
  }

  /** The stages of the run's pipeline file; none when the file is missing. */
  function StagesOf(f: StateFile): seq<string> {
    StagesFrom(Lines(f.pipeline), false)
  }

  predicate IsActive(f: StateFile) {
    Lower(Get(FieldsOf(f), "active_run")) == "true"
  }

  predicate AnyIn(haystack: string, needles: seq<string>) {
    exists n :: n in needles && Contains(haystack, n)
  }

  predicate HumanGateOk(stages: seq<string>, runLog: string, stage: string) {
    var resume := ResumeStage(stages, runLog);
    stage in VALID_HUMAN_GATE_STAGES && (resume == "" || resume == stage)
  }

  predicate ScopeConflictOk(f: StateFile, action: string) {
    f.scopeReceiptPasses ==>
      && !(Contains(action, "scope-authority") && Contains(action, "repair"))
      && AnyIn(action, ["replan", "manifest", "scope", "amend"])
  }

  predicate FailedGateOk(f: StateFile, stage: string) {
    var events := Events(Lines(f.runLog));
    events == [] || exists e :: e in events && e.stage == stage && (e.status == "FAILED" || e.status == "BLOCKED")
  }

  /** The evidence the recorded stop condition calls for. */
  predicate EvidenceOk(f: StateFile) {
    var fields := FieldsOf(f);
    var stop, stage := Get(fields, "stop_condition"), Get(fields, "current_stage");
    var next, to := Get(fields, "next_required_action"), Get(fields, "continuing_to");
    var said := Lower(next + " " + to);
    if stop == "human_approval_gate" then HumanGateOk(StagesOf(f), f.runLog, stage)
    else if stop == "scope_conflict" then ScopeConflictOk(f, Lower(stage + " " + next + " " + to))
    else if stop == "failed_gate_needs_user_direction" then FailedGateOk(f, stage)
    else if stop == "credential_or_secret_required" then AnyIn(said, ["credential", "secret", "token", "key"])
    else if stop == "destructive_action" then AnyIn(said, ["delete", "destructive", "force", "reset", "drop", "destroy"])
    else if stop == "external_system_unavailable_after_retry" then
      AnyIn(said, ["unavailable", "after retry", "retry", "external", "service"])
    else if stop == "user_explicitly_paused_or_stopped" then
      AnyIn(said, ["user", "explicit", "pause", "paused", "stop", "stopped"])
    else true
  }

  datatype Reason =
    | BadControlState
    | Inactive
    | MustContinue
    | Unproven
    | StopRecorded
    | NothingFound

  datatype StopValidation = StopValidation(allowed: bool, reason: Reason, statePath: Option<string>, stopCondition: string)

  function ValidateStateFile(f: StateFile): StopValidation {
    var fields := FieldsOf(f);
    var stop := Get(fields, "stop_condition");
    if !Clean(fields) then StopValidation(false, BadControlState, Some(f.path), "")
    else if !IsActive(f) then StopValidation(true, Inactive, Some(f.path), "")
    else if Lower(Get(fields, "final_response_allowed")) == "false" then
      StopValidation(false, MustContinue, Some(f.path), stop)
    else if !EvidenceOk(f) then StopValidation(false, Unproven, Some(f.path), stop)
    else StopValidation(true, StopRecorded, Some(f.path), stop)
  }

  /** A recorded reason to stop: none at all, or a valid one with its evidence. */
  predicate StopJustified(f: StateFile) {
    var stop := Get(FieldsOf(f), "stop_condition");
    stop == "" || (stop in VALID_STOP_CONDITIONS && EvidenceOk(f))
  }

  /** Exactly when an active run may stop. */
  lemma ActiveAllowedExactlyWhen(f: StateFile)
    requires IsActive(f)
    ensures ValidateStateFile(f).allowed <==>
            && (forall key :: key in REQUIRED_STATE_KEYS ==> key in FieldsOf(f))
            && Lower(Get(FieldsOf(f), "final_response_allowed")) == "true"
            && StopJustified(f)
  {
    assert "none" !in VALID_STOP_CONDITIONS;
  }

  /**
   The written rule, that an active run may only stop with a valid stop condition on record, is not what the
   code enforces: a blank one passes.
   */
  lemma BlankStopConditionPasses(f: StateFile)
    requires IsActive(f) && (forall key :: key in REQUIRED_STATE_KEYS ==> key in FieldsOf(f))
    requires Lower(Get(FieldsOf(f), "final_response_allowed")) == "true"
    ensures (ValidateStateFile(f).allowed && Get(FieldsOf(f), "stop_condition") !in VALID_STOP_CONDITIONS)
              <==> Get(FieldsOf(f), "stop_condition") == ""
  {
    ActiveAllowedExactlyWhen(f);
  }

  // ---------------------------------------------------------------- the gates

  function Validations(files: seq<StateFile>): seq<StopValidation> {
    if files == [] then [] else [ValidateStateFile(files[0])] + Validations(files[1..])
  }

  function ActiveOnly(files: seq<StateFile>): seq<StateFile> {
    if files == [] then [] else (if IsActive(files[0]) then [files[0]] else []) + ActiveOnly(files[1..])
  }

  const NOTHING_ALLOWED := StopValidation(false, NothingFound, None, "")

  function ValidateAllActiveStops(files: seq<StateFile>, requireActiveRun: bool): seq<StopValidation> {
    if files == [] then [StopValidation(!requireActiveRun, NothingFound, None, "")]
    else if requireActiveRun && ActiveOnly(files) == [] then [NOTHING_ALLOWED]
    else Validations(files)
  }

  predicate NoneBlocked(results: seq<StopValidation>) {
    forall r :: r in results ==> r.allowed
  }

  /** final_response_gate prints ALLOW. */
  predicate FinalResponseAllowed(files: seq<StateFile>, requireActiveRun: bool) {
    NoneBlocked(ValidateAllActiveStops(files, requireActiveRun))
  }

  /** The first colon of a line separates key and value; no bullets here. */
  function ReadState(lines: seq<string>): Fields {
    if lines == [] then map[]
    else
      var front, s := ReadState(lines[..|lines| - 1]), Strip(lines[|lines| - 1]);
      var k := IndexOf(s, ':');
      if k == |s| then front else front[s[..k] := Strip(s[k + 1..])]
  }

  datatype Decision = Decision(allowed: bool, statePath: Option<string>)

  /** The state file of a named run, or of the first active run. */
  function StateForRun(files: seq<StateFile>, runPath: Option<string>): Option<StateFile> {
    match runPath
    case Some(path) =>
      if files == [] then None
      else if files[0].path == path then Some(files[0])
      else StateForRun(files[1..], runPath)
    case None =>
      if ActiveOnly(files) != [] then Some(ActiveOnly(files)[0]) else None
  }

  /** evidence: for each evidence file claimed, whether it exists. */
  function AgentDecision(
    files: seq<StateFile>, intentKnown: bool, claimed: string, evidence: seq<bool>,
    runPath: Option<string>, requireActiveRun: bool): Decision
  {
    if !intentKnown then Decision(false, None)
    else if !FinalResponseAllowed(files, requireActiveRun) then Decision(false, None)
    else if claimed in INVALID_DECISION_REASONS || claimed !in VALID_STOP_CONDITIONS then Decision(false, None)
    else
      var state := StateForRun(files, runPath);
      var path := if state.Some? then Some(state.value.path) else None;
      var recorded := if state.Some? then Get(ReadState(Lines(state.value.text)), "stop_condition") else "";
      if false in evidence then Decision(false, path)
      else if recorded != claimed && evidence == [] then Decision(false, path)
      else Decision(true, path)
  }

  predicate AllAllowed(states: seq<StateFile>) {
    forall f :: f in states ==> ValidateStateFile(f).allowed
  }

  /** pipeline_continue says STOP_ALLOWED. */
  predicate StopAllowed(files: seq<StateFile>) {
    ActiveOnly(files) != [] && AllAllowed(ActiveOnly(files))
  }

  lemma {:induction false} AllAllowedStep(states: seq<StateFile>, i: nat)
    requires i < |states|
    ensures AllAllowed(states[..i + 1]) <==> AllAllowed(states[..i]) && ValidateStateFile(states[i]).allowed
  {
    assert states[..i + 1] == states[..i] + [states[i]];
    if AllAllowed(states[..i + 1]) {
      assert states[i] in states[..i + 1];
      forall f | f in states[..i] ensures ValidateStateFile(f).allowed { assert f in states[..i + 1]; }
    }
  }

  /** The paths of the runs that may stop, or of those that may not, in order. */
  function PathsWhere(states: seq<StateFile>, allowed: bool): seq<string> {
    if states == [] then []
    else
      var last := states[|states| - 1];
      PathsWhere(states[..|states| - 1], allowed) + if ValidateStateFile(last).allowed == allowed then [last.path] else []
  }

  /** The paths listed are those of the runs with that verdict. */
  lemma {:induction false} PathsMean(states: seq<StateFile>, allowed: bool, path: string)
    ensures path in PathsWhere(states, allowed) <==>
            exists f :: f in states && f.path == path && ValidateStateFile(f).allowed == allowed
  {
    hide ValidateStateFile;
    if states == [] {
    } else {
      var front, last := states[..|states| - 1], states[|states| - 1];
      assert states == front + [last];
      PathsMean(front, allowed, path);
    }
  }

  /** They are listed in the order of the runs. */
  lemma {:induction false} PathsOfConcat(a: seq<StateFile>, b: seq<StateFile>, allowed: bool)
    ensures PathsWhere(a + b, allowed) == PathsWhere(a, allowed) + PathsWhere(b, allowed)
  {
    hide ValidateStateFile;
    if b == [] {
      assert a + b == a;
    } else {
      var n := |b| - 1;
      assert (a + b)[..|a| + n] == a + b[..n] && (a + b)[|a| + n] == b[n];
      PathsOfConcat(a, b[..n], allowed);
    }
  }

  /** pipeline_continue: sort the active runs into blocked and allowed; any blocked run must continue. */
  method NextAction(files: seq<StateFile>) returns (stopAllowed: bool, blocked: seq<string>, allowed: seq<string>)
    ensures stopAllowed <==> StopAllowed(files)
    ensures blocked == PathsWhere(ActiveOnly(files), false)
    ensures allowed == PathsWhere(ActiveOnly(files), true)
    ensures blocked == [] <==> AllAllowed(ActiveOnly(files))
  {
    hide ValidateStateFile;
    hide ActiveOnly;
    var states := ActiveOnly(files);
    blocked, allowed := [], [];
    if states == [] { return false, blocked, allowed; }
    for i := 0 to |states|
      invariant blocked == PathsWhere(states[..i], false) && allowed == PathsWhere(states[..i], true)
      invariant blocked == [] <==> AllAllowed(states[..i])
    {
      AllAllowedStep(states, i);
      assert states[..i + 1][..i] == states[..i];
      var result := ValidateStateFile(states[i]).allowed;
      if !result {
        blocked := blocked + [states[i].path];
      } else {
        allowed := allowed + [states[i].path];
      }
    }
    assert states[..|states|] == states;
    stopAllowed := blocked == [];
  }

  // ---------------------------------------------------------------- how the gates relate

  lemma {:induction false} ValidationsOf(files: seq<StateFile>)
    ensures NoneBlocked(Validations(files)) <==> forall f :: f in files ==> ValidateStateFile(f).allowed
  {
    if files == [] {
    } else {
      assert files == [files[0]] + files[1..];
      ValidationsOf(files[1..]);
      var first, rest := ValidateStateFile(files[0]), Validations(files[1..]);
      assert first in Validations(files);
      assert forall r :: r in rest ==> r in Validations(files);
    }
  }

  lemma {:induction false} ActiveOnlyOf(files: seq<StateFile>, f: StateFile)
    ensures f in ActiveOnly(files) <==> f in files && IsActive(f)
  {
    if files == [] {
    } else {
      assert files == [files[0]] + files[1..];
      ActiveOnlyOf(files[1..], f);
    }
  }

  /**
   The final response gate, with an active run required, is pipeline-continue plus one demand: that every
   inactive state file has a clean control state too.
   */
  lemma {:induction false} FinalGateVersusContinue(files: seq<StateFile>)
    ensures FinalResponseAllowed(files, true) <==>
            StopAllowed(files) && forall f :: f in files && !IsActive(f) ==> Clean(FieldsOf(f))
  {
    ValidationsOf(files);
    forall f ensures f in ActiveOnly(files) <==> f in files && IsActive(f) { ActiveOnlyOf(files, f); }
    assert NOTHING_ALLOWED in [NOTHING_ALLOWED];
    if files != [] && ActiveOnly(files) != [] {
      if FinalResponseAllowed(files, true) {
        forall f | f in files && !IsActive(f) ensures Clean(FieldsOf(f)) { assert ValidateStateFile(f).allowed; }
      }
    }
  }

  /** The three gates are ordered, from the strictest to the most lenient. */
  lemma GatesAreOrdered(files: seq<StateFile>, intentKnown: bool, claimed: string, evidence: seq<bool>, runPath: Option<string>)
    ensures AgentDecision(files, intentKnown, claimed, evidence, runPath, true).allowed ==> FinalResponseAllowed(files, true)
    ensures FinalResponseAllowed(files, true) ==> StopAllowed(files)
    ensures AgentDecision(files, intentKnown, claimed, evidence, runPath, true).allowed ==>
              forall f :: f in files ==> Clean(FieldsOf(f)) && (IsActive(f) ==> StopJustified(f))
  {
    FinalGateVersusContinue(files);
    hide FinalResponseAllowed;
    if FinalResponseAllowed(files, true) {
      forall f | f in files ensures Clean(FieldsOf(f)) && (IsActive(f) ==> StopJustified(f)) {
        if IsActive(f) { PermissionIsJustified(files, f); AllowedIsClean(files, f); }
      }
    }
  }

  lemma AllowedIsClean(files: seq<StateFile>, f: StateFile)
    requires StopAllowed(files) && f in files && IsActive(f)
    ensures Clean(FieldsOf(f))
  {
    ActiveOnlyOf(files, f);
    assert ValidateStateFile(f).allowed;
  }

  /**
   What any permission to stop rests on: every active run records final_response_allowed true and, if it
   records a stop condition, a valid one whose evidence check passes.
   */
  lemma {:induction false} PermissionIsJustified(files: seq<StateFile>, f: StateFile)
    requires StopAllowed(files) && f in files && IsActive(f)
    ensures Lower(Get(FieldsOf(f), "final_response_allowed")) == "true"
    ensures StopJustified(f)
  {
    ActiveOnlyOf(files, f);
    ActiveAllowedExactlyWhen(f);
  }

  // ---------------------------------------------------------------- a human gate does not reopen

  /**
   Once a gate stage is logged COMPLETE, claiming it as a human approval gate is refused in every extension of the
   log, until no stage is left or the first one left has no name; then it is accepted again.  Where every stage has
   a name, that is exactly when all of them are completed.
   */
  lemma {:induction false} CompletedGateStaysClosed(stages: seq<string>, log: string, more: string, stage: string)
    requires Completed(log, stage) && stage in VALID_HUMAN_GATE_STAGES
    ensures var k := ResumeIndex(stages, log + more);
            HumanGateOk(stages, log + more, stage) <==> k == |stages| || stages[k] == ""
    ensures "" !in stages ==>
              (HumanGateOk(stages, log + more, stage) <==> forall i :: 0 <= i < |stages| ==> Completed(log + more, stages[i]))
  {
    CompletedStays(log, more, stage);
    hide Completed;
    ResumeIndexMeans(stages, log + more);
    hide ResumeIndex;
    var k := ResumeIndex(stages, log + more);
    assert k < |stages| ==> !Completed(log + more, stages[k]);
  }

  /** The stop conditions the rule knows, spelt out. */
  ghost predicate IsStopCondition(stop: string) {
    || stop == "human_approval_gate" || stop == "failed_gate_needs_user_direction" || stop == "destructive_action"
    || stop == "credential_or_secret_required" || stop == "scope_conflict"
    || stop == "external_system_unavailable_after_retry" || stop == "user_explicitly_paused_or_stopped"
  }

  /**
   The agent decision gate, spelt out: a known intent, leave from the final response gate, a claim that is one of
   the seven conditions, no evidence file missing, and either some evidence or a record that says the same.
   */
  lemma {:induction false} AgentDecisionExactlyWhen(
    files: seq<StateFile>, intentKnown: bool, claimed: string, evidence: seq<bool>, runPath: Option<string>, requireActiveRun: bool)
    ensures var state := StateForRun(files, runPath);
            var recorded := if state.Some? then Get(ReadState(Lines(state.value.text)), "stop_condition") else "";
            AgentDecision(files, intentKnown, claimed, evidence, runPath, requireActiveRun).allowed <==>
              && intentKnown && FinalResponseAllowed(files, requireActiveRun) && IsStopCondition(claimed)
              && (forall i :: 0 <= i < |evidence| ==> evidence[i]) && (evidence != [] || recorded == claimed)
  {
    hide FinalResponseAllowed;
    hide StateForRun;
    hide ReadState;
    if claimed in VALID_STOP_CONDITIONS { ClaimsDiffer(claimed); }
  }

  /** Active runs are taken in the order of the files. */
  lemma {:induction false} ActiveOnlyOfConcat(a: seq<StateFile>, b: seq<StateFile>)
    ensures ActiveOnly(a + b) == ActiveOnly(a) + ActiveOnly(b)
  {
    hide IsActive;
    if a == [] {
      assert a + b == b;
    } else {
      assert (a + b)[0] == a[0] && (a + b)[1..] == a[1..] + b;
      ActiveOnlyOfConcat(a[1..], b);
    }
  }

  /** The state file a run path names is the first with that path; without one, it is the first active one. */
  lemma {:induction false} StateForRunMeans(files: seq<StateFile>, runPath: Option<string>)
    ensures StateForRun(files, None) == if ActiveOnly(files) == [] then None else Some(ActiveOnly(files)[0])
    ensures runPath.Some? && StateForRun(files, runPath).None? ==> forall f :: f in files ==> f.path != runPath.value
    ensures runPath.Some? && StateForRun(files, runPath).Some? ==>
              exists i :: 0 <= i < |files| && StateForRun(files, runPath) == Some(files[i]) && files[i].path == runPath.value
                          && forall j :: 0 <= j < i ==> files[j].path != runPath.value
    decreases |files|
  {
    hide ActiveOnly;
    if files == [] || runPath.None? {
    } else {
      StateForRunMeans(files[1..], runPath);
      assert files == [files[0]] + files[1..];
      if files[0].path == runPath.value {
        assert StateForRun(files, runPath) == Some(files[0]);
      } else if StateForRun(files, runPath).Some? {
        var i :| 0 <= i < |files[1..]| && StateForRun(files[1..], runPath) == Some(files[1..][i])
                 && files[1..][i].path == runPath.value && forall j :: 0 <= j < i ==> files[1..][j].path != runPath.value;
        assert files[i + 1] == files[1..][i];
        forall j | 0 <= j < i + 1 ensures files[j].path != runPath.value {
          if j > 0 { assert files[j] == files[1..][j - 1]; }
        }
      }
    }
  }

  /** Without an active run required, the final response gate asks that every state file validates. */
  lemma {:induction false} FinalGateWithoutRun(files: seq<StateFile>)
    ensures FinalResponseAllowed(files, false) <==> forall f :: f in files ==> ValidateStateFile(f).allowed
  {
    ValidationsOf(files);
    hide ValidateStateFile;
    assert StopValidation(true, NothingFound, None, "") in [StopValidation(true, NothingFound, None, "")];
  }

  /** What the agent decision gate asks for where no stop condition is on record: a valid claim, and evidence that exists. */
  lemma {:induction false} BlankNeedsEvidence(files: seq<StateFile>, claimed: string, evidence: seq<bool>, runPath: Option<string>)
    requires FinalResponseAllowed(files, true)
    requires var state := StateForRun(files, runPath);
             state.None? || Get(ReadState(Lines(state.value.text)), "stop_condition") == ""
    ensures AgentDecision(files, true, claimed, evidence, runPath, true).allowed <==>
            claimed in VALID_STOP_CONDITIONS && evidence != [] && false !in evidence
  {
    hide FinalResponseAllowed;
    hide StateForRun;
    hide ReadState;
    if claimed in VALID_STOP_CONDITIONS { ClaimsDiffer(claimed); }
  }

  lemma ClaimsDiffer(claimed: string)
    requires claimed in VALID_STOP_CONDITIONS
    ensures claimed !in INVALID_DECISION_REASONS && claimed != ""
  {
  }
}

/**
 What evidence each stop condition needs, spelt out, what that means for the gates, and a refused text for each kind.
 */
module StopEvidence {
  import opened Options
  import opened Text
  import opened RunLog
  import opened StopGates
  import opened GateCases

  // ---------------------------------------------------------------- the evidence, condition by condition

  function Field(f: StateFile, key: string): string {
    Get(FieldsOf(f), key)
  }

  /** An active run with all keys on record that may answer with a final response. */
  ghost predicate AsksToStop(f: StateFile) {
    && IsActive(f)
    && (forall key :: key in REQUIRED_STATE_KEYS ==> key in FieldsOf(f))
    && Lower(Field(f, "final_response_allowed")) == "true"
  }

  /** What the run says it will do, in small letters. */
  function Plans(f: StateFile): string {
    Lower(Field(f, "next_required_action") + " " + Field(f, "continuing_to"))
  }

  function StageAndPlans(f: StateFile): string {
    Lower(Field(f, "current_stage") + " " + Field(f, "next_required_action") + " " + Field(f, "continuing_to"))
  }

  /** The stage is a gate, and the run resumes at it, at a nameless stage, or nowhere. */
  ghost predicate StandsAtGate(f: StateFile) {
    var stage, stages := Field(f, "current_stage"), StagesOf(f);
    var k := ResumeIndex(stages, f.runLog);
    && (stage == "manifest" || stage == "plan" || stage == "manager")
    && (k == |stages| || stages[k] == "" || stages[k] == stage)
  }

  /** No scope-lock receipt passes; or the run repairs no scope authority, and replans. */
  ghost predicate ScopeIsOpen(f: StateFile) {
    var said := StageAndPlans(f);
    f.scopeReceiptPasses ==>
      && !(Substring("scope-authority", said) && Substring("repair", said))
      && (Substring("replan", said) || Substring("manifest", said) || Substring("scope", said) || Substring("amend", said))
  }

  /** The log has no event, or one that says the stage failed or is blocked. */
  ghost predicate StageFailed(f: StateFile) {
    || (forall line :: line in Lines(f.runLog) ==> EventOf(line) == None)
    || exists line, e :: line in Lines(f.runLog) && EventOf(line) == Some(e)
                         && SaysFailed(e, Field(f, "current_stage"))
  }

  ghost predicate Evidence(f: StateFile) {
    var stop, said := Field(f, "stop_condition"), Plans(f);
    && (stop == "human_approval_gate" ==> StandsAtGate(f))
    && (stop == "scope_conflict" ==> ScopeIsOpen(f))
    && (stop == "failed_gate_needs_user_direction" ==> StageFailed(f))
    && (stop == "credential_or_secret_required" ==>
          Substring("credential", said) || Substring("secret", said) || Substring("token", said) || Substring("key", said))
    && (stop == "destructive_action" ==>
          || Substring("delete", said) || Substring("destructive", said) || Substring("force", said)
          || Substring("reset", said) || Substring("drop", said) || Substring("destroy", said))
    && (stop == "external_system_unavailable_after_retry" ==>
          || Substring("unavailable", said) || Substring("after retry", said) || Substring("retry", said)
          || Substring("external", said) || Substring("service", said))
    && (stop == "user_explicitly_paused_or_stopped" ==>
          || Substring("user", said) || Substring("explicit", said) || Substring("pause", said)
          || Substring("paused", said) || Substring("stop", said) || Substring("stopped", said))
  }

  lemma AnyOf(said: string, words: seq<string>)
    ensures AnyIn(said, words) <==> exists i :: 0 <= i < |words| && Substring(words[i], said)
  {
    forall w ensures Contains(said, w) <==> Substring(w, said) { ContainsMeansSubstring(said, w); }
    hide Contains;
    hide Substring;
    if i :| 0 <= i < |words| && Substring(words[i], said) { assert words[i] in words; }
  }

  lemma FourWords(said: string, a: string, b: string, c: string, d: string)
    ensures AnyIn(said, [a, b, c, d]) <==>
            Substring(a, said) || Substring(b, said) || Substring(c, said) || Substring(d, said)
  {
    var words := [a, b, c, d];
    AnyOf(said, words);
    hide AnyIn;
    hide Substring;
    assert words[0] == a && words[1] == b && words[2] == c && words[3] == d;
  }

  lemma FiveWords(said: string, a: string, b: string, c: string, d: string, e: string)
    ensures AnyIn(said, [a, b, c, d, e]) <==>
            Substring(a, said) || Substring(b, said) || Substring(c, said) || Substring(d, said) || Substring(e, said)
  {
    var words := [a, b, c, d, e];
    AnyOf(said, words);
    hide AnyIn;
    hide Substring;
    assert words[0] == a && words[1] == b && words[2] == c && words[3] == d && words[4] == e;
  }

  lemma SixWords(said: string, a: string, b: string, c: string, d: string, e: string, g: string)
    ensures AnyIn(said, [a, b, c, d, e, g]) <==>
            || Substring(a, said) || Substring(b, said) || Substring(c, said)
            || Substring(d, said) || Substring(e, said) || Substring(g, said)
  {
    var words := [a, b, c, d, e, g];
    AnyOf(said, words);
    hide AnyIn;
    hide Substring;
    assert words[0] == a && words[1] == b && words[2] == c && words[3] == d && words[4] == e && words[5] == g;
  }

  lemma GateMeans(f: StateFile)
    ensures HumanGateOk(StagesOf(f), f.runLog, Field(f, "current_stage")) <==> StandsAtGate(f)
  {
    hide ResumeIndex;
    hide StagesOf;
    hide FieldsOf;
  }

  lemma ScopeMeans(f: StateFile)
    ensures ScopeConflictOk(f, StageAndPlans(f)) <==> ScopeIsOpen(f)
  {
    var said := StageAndPlans(f);
    ContainsMeansSubstring(said, "scope-authority");
    ContainsMeansSubstring(said, "repair");
    FourWords(said, "replan", "manifest", "scope", "amend");
    hide StageAndPlans;
    hide Contains;
    hide AnyIn;
    hide Substring;
  }

  lemma NoEvents(lines: seq<string>)
    ensures Events(lines) == [] <==> forall line :: line in lines ==> EventOf(line) == None
  {
    forall e ensures e in Events(lines) <==> exists line :: line in lines && EventOf(line) == Some(e) { EventsOfLines(lines, e); }
    var events := Events(lines);
    hide Events;
    hide EventOf;
    assert forall line :: line in lines && EventOf(line).Some? ==> EventOf(line).value in events;
    if events != [] {
      assert events[0] in events;
      var line :| line in lines && EventOf(line) == Some(events[0]);
    }
  }

  ghost predicate SaysFailed(e: Event, stage: string) {
    e.stage == stage && (e.status == "FAILED" || e.status == "BLOCKED")
  }

  lemma SomeEventFailed(lines: seq<string>, stage: string)
    ensures (exists e :: e in Events(lines) && SaysFailed(e, stage)) <==>
            exists line, e :: line in lines && EventOf(line) == Some(e) && SaysFailed(e, stage)
  {
    forall e ensures e in Events(lines) <==> exists line :: line in lines && EventOf(line) == Some(e) { EventsOfLines(lines, e); }
    hide Events;
    hide EventOf;
    hide SaysFailed;
  }

  lemma FailureMeans(f: StateFile)
    ensures FailedGateOk(f, Field(f, "current_stage")) <==> StageFailed(f)
  {
    var lines, stage := Lines(f.runLog), Field(f, "current_stage");
    NoEvents(lines);
    SomeEventFailed(lines, stage);
    hide Events;
    hide EventOf;
    hide Field;
    hide Lines;
    if FailedGateOk(f, stage) && Events(lines) != [] {
      var e :| e in Events(lines) && e.stage == stage && (e.status == "FAILED" || e.status == "BLOCKED");
      assert SaysFailed(e, stage);
    }
    if e :| e in Events(lines) && SaysFailed(e, stage) { assert FailedGateOk(f, stage); }
  }

  lemma WordsMean(f: StateFile)
    requires IsStopCondition(Field(f, "stop_condition"))
    requires var stop := Field(f, "stop_condition");
             stop != "human_approval_gate" && stop != "scope_conflict" && stop != "failed_gate_needs_user_direction"
    ensures EvidenceOk(f) <==> Evidence(f)
  {
    var said := Plans(f);
    FourWords(said, "credential", "secret", "token", "key");
    SixWords(said, "delete", "destructive", "force", "reset", "drop", "destroy");
    FiveWords(said, "unavailable", "after retry", "retry", "external", "service");
    SixWords(said, "user", "explicit", "pause", "paused", "stop", "stopped");
    hide FieldsOf;
    hide AnyIn;
    hide Substring;
    hide Lower;
  }

  lemma {:induction false} EvidenceMeans(f: StateFile)
    requires IsStopCondition(Field(f, "stop_condition"))
    ensures EvidenceOk(f) <==> Evidence(f)
  {
    var stop := Field(f, "stop_condition");
    GateMeans(f);
    ScopeMeans(f);
    FailureMeans(f);
    hide FieldsOf;
    hide StandsAtGate;
    hide ScopeIsOpen;
    hide StageFailed;
    hide HumanGateOk;
    hide ScopeConflictOk;
    hide FailedGateOk;
    hide StagesOf;
    hide Lower;
    hide AnyIn;
    hide Substring;
    if stop != "human_approval_gate" && stop != "scope_conflict" && stop != "failed_gate_needs_user_direction" {
      WordsMean(f);
    }
  }

  /**
   When an active run is let stop, for each of the seven conditions, in terms of the fields, the stages and the log: it asks to
   stop, and the condition is blank, or one of the seven with its evidence.
   */
  lemma {:induction false} StopNeedsEvidence(f: StateFile)
    requires IsActive(f)
    ensures ValidateStateFile(f).allowed <==>
            && AsksToStop(f)
            && (Field(f, "stop_condition") == "" || (IsStopCondition(Field(f, "stop_condition")) && Evidence(f)))
  {
    ActiveAllowedExactlyWhen(f);
    ConditionsSpeltOut(Field(f, "stop_condition"));
    if IsStopCondition(Field(f, "stop_condition")) { EvidenceMeans(f); }
    hide FieldsOf;
    hide ValidateStateFile;
    hide EvidenceOk;
    hide Evidence;
    hide IsStopCondition;
    hide Lower;
  }

  /**
   The clean control states, by what they permit: a final response with a blank or valid stop condition, or none, with a
   blank condition or with the condition none and something to continue with.
   */
  lemma {:induction false} CleanStatesMean(fields: Fields)
    ensures Clean(fields) <==>
            var final, stop := Lower(Get(fields, "final_response_allowed")), Get(fields, "stop_condition");
            && (forall key :: key in REQUIRED_STATE_KEYS ==> key in fields)
            && (Lower(Get(fields, "active_run")) == "true" || Lower(Get(fields, "active_run")) == "false")
            && (|| (final == "true" && (stop == "" || IsStopCondition(stop)))
                || (final == "false" && stop == "")
                || (final == "false" && stop == "none"
                    && Get(fields, "continuing_to") != "" && Get(fields, "next_required_action") != ""))
  {
    var final, stop := Lower(Get(fields, "final_response_allowed")), Get(fields, "stop_condition");
    ConditionsSpeltOut(stop);
    NoneIsNoCondition();
    TrueIsNotFalse();
    hide Get;
    hide Lower;
    hide IsStopCondition;
  }

  lemma NoneIsNoCondition()
    ensures !IsStopCondition("none") && !IsStopCondition("")
  {
  }

  lemma TrueIsNotFalse()
    ensures "true" != "false"
  {
  }

  lemma ConditionsSpeltOut(stop: string)
    ensures stop in VALID_STOP_CONDITIONS <==> IsStopCondition(stop)
  {
  }

  /** What a permission from any gate rests on, spelt out for every active run. */
  lemma {:induction false} PermissionNeedsEvidence(files: seq<StateFile>, f: StateFile)
    requires StopAllowed(files) && f in files && IsActive(f)
    ensures AsksToStop(f)
    ensures Field(f, "stop_condition") == "" || (IsStopCondition(Field(f, "stop_condition")) && Evidence(f))
  {
    ActiveOnlyOf(files, f);
    StopNeedsEvidence(f);
    hide ValidateStateFile;
    hide AsksToStop;
    hide Evidence;
    hide IsStopCondition;
    hide ActiveOnly;
    hide IsActive;
  }

  /** An active run that is not let stop keeps every gate closed. */
  lemma {:induction false} RefusalClosesGates(files: seq<StateFile>, f: StateFile)
    requires f in files && IsActive(f) && !ValidateStateFile(f).allowed
    ensures !StopAllowed(files) && !FinalResponseAllowed(files, true)
  {
    ActiveOnlyOf(files, f);
    FinalGateVersusContinue(files);
    hide FinalResponseAllowed;
    hide ValidateStateFile;
    hide ActiveOnly;
    hide IsActive;
  }

  /**
   A completed gate, at the gates: once its stage is logged COMPLETE, a run that claims it is let stop, in every
   extension of the log, if and only if no stage is left or the first one left has no name; otherwise it keeps
   pipeline-continue and the final response gate closed.
   */
  lemma {:induction false} CompletedGateIsRefused(files: seq<StateFile>, f: StateFile, log: string, more: string)
    requires f in files && AsksToStop(f) && f.runLog == log + more
    requires Field(f, "stop_condition") == "human_approval_gate"
    requires Field(f, "current_stage") in VALID_HUMAN_GATE_STAGES && Completed(log, Field(f, "current_stage"))
    ensures var stages := StagesOf(f);
            var k := ResumeIndex(stages, f.runLog);
            && (ValidateStateFile(f).allowed <==> k == |stages| || stages[k] == "")
            && (k < |stages| && stages[k] != "" ==> !StopAllowed(files) && !FinalResponseAllowed(files, true))
  {
    CompletedGateStaysClosed(StagesOf(f), log, more, Field(f, "current_stage"));
    ActiveAllowedExactlyWhen(f);
    ConditionsSpeltOut("human_approval_gate");
    HumanEvidence(f);
    if !ValidateStateFile(f).allowed { RefusalClosesGates(files, f); }
    hide FieldsOf;
    hide ValidateStateFile;
    hide EvidenceOk;
    hide HumanGateOk;
    hide ResumeIndex;
    hide StagesOf;
    hide Completed;
    hide StopAllowed;
    hide FinalResponseAllowed;
    hide Lower;
  }

  lemma HumanEvidence(f: StateFile)
    requires Field(f, "stop_condition") == "human_approval_gate"
    ensures EvidenceOk(f) <==> HumanGateOk(StagesOf(f), f.runLog, Field(f, "current_stage"))
  {
    hide FieldsOf;
    hide StagesOf;
    hide HumanGateOk;
    hide AnyIn;
  }

  // ---------------------------------------------------------------- refused texts

  /** A control state with all seven keys. */
  function StateEntries(stop: string, stage: string): seq<(string, string)> {
    [("active_run", "true"), ("current_stage", stage), ("last_completed_gate", "none"), ("next_required_action", "wait"),
     ("stop_condition", stop), ("final_response_allowed", "true"), ("continuing_to", "wait")]
  }

  function Waiting(stop: string, stage: string, runLog: string, receipt: bool): StateFile {
    StateFile("active-control-state", Written(StateLines(StateEntries(stop, stage))), "", runLog, receipt)
  }

  function StateMap(stop: string, stage: string): Fields {
    map["active_run" := "true", "current_stage" := stage, "last_completed_gate" := "none",
        "next_required_action" := "wait", "stop_condition" := stop, "final_response_allowed" := "true",
        "continuing_to" := "wait"]
  }

  lemma {:induction false} EntriesMap(stop: string, stage: string)
    ensures MapOf(StateEntries(stop, stage)) == StateMap(stop, stage)
  {
    var p := StateEntries(stop, stage);
    assert p[..0] == [] && p[..7] == p;
    MapStep(p, 0);
    MapStep(p, 1);
    MapStep(p, 2);
    MapStep(p, 3);
    MapStep(p, 4);
    MapStep(p, 5);
    MapStep(p, 6);
  }

  lemma EntriesArePlain(stop: string, stage: string)
    requires Plain(stop) && Plain(stage)
    ensures forall i :: 0 <= i < |StateEntries(stop, stage)| ==> Entry(StateEntries(stop, stage)[i])
  {
    ShortWordsArePlain();
    MiddleWordsArePlain();
    LongWordsArePlain();
    hide Plain;
  }

  lemma KeysOfState(stop: string, stage: string)
    ensures forall key :: key in REQUIRED_STATE_KEYS ==> key in StateMap(stop, stage)
    ensures Get(StateMap(stop, stage), "active_run") == "true" && Get(StateMap(stop, stage), "stop_condition") == stop
    ensures Get(StateMap(stop, stage), "final_response_allowed") == "true"
    ensures Get(StateMap(stop, stage), "current_stage") == stage
    ensures Get(StateMap(stop, stage), "next_required_action") == "wait"
    ensures Get(StateMap(stop, stage), "continuing_to") == "wait"
  {
    assert "current_stage"[1] == 'u' && "continuing_to"[1] == 'o';
  }

  /** Read back, such a text asks to stop. */
  lemma {:induction false} WaitingAsksToStop(stop: string, stage: string, runLog: string, receipt: bool)
    requires Plain(stop) && Plain(stage)
    ensures var f := Waiting(stop, stage, runLog, receipt);
            && AsksToStop(f) && Field(f, "stop_condition") == stop && Field(f, "current_stage") == stage
            && Field(f, "next_required_action") == "wait" && Field(f, "continuing_to") == "wait"
  {
    EntriesArePlain(stop, stage);
    StateReadsBack(StateEntries(stop, stage));
    EntriesMap(stop, stage);
    KeysOfState(stop, stage);
    TrueIsLower();
    hide StateMap;
    hide ControlState;
    hide ReadState;
    hide Lines;
    hide Written;
    hide StateLines;
    hide StateEntries;
    hide MapOf;
    hide Lower;
    hide Get;
  }

  /** One of the letters of "plan wait". */
  predicate IsFew(c: char) {
    c == 'p' || c == 'l' || c == 'a' || c == 'n' || c == ' ' || c == 'w' || c == 'i' || c == 't'
  }

  lemma FewLetters()
    ensures (forall i :: 0 <= i < |"wait wait"| ==> IsFew("wait wait"[i]))
    ensures (forall i :: 0 <= i < |"plan wait wait"| ==> IsFew("plan wait wait"[i]))
    ensures !IsFew('c') && !IsFew('s') && !IsFew('o') && !IsFew('k') && !IsFew('f') && !IsFew('r') && !IsFew('d')
    ensures !IsFew('u') && !IsFew('e') && !IsFew('m')
  {
  }

  lemma LetterIsSaid(word: string, k: nat, said: string)
    requires k < |word| && Substring(word, said)
    ensures exists i :: 0 <= i < |said| && said[i] == word[k]
  {
    var a, b :| said == a + word + b;
    assert said[|a| + k] == word[k];
  }

  lemma NotSaid(word: string, k: nat, said: string)
    requires k < |word| && !IsFew(word[k]) && forall i :: 0 <= i < |said| ==> IsFew(said[i])
    ensures !Substring(word, said)
  {
    hide Substring;
    hide IsFew;
    if Substring(word, said) { LetterIsSaid(word, k, said); }
  }

  lemma FewAreSmall(s: string)
    requires forall i :: 0 <= i < |s| ==> IsFew(s[i])
    ensures Lower(s) == s
  {
    LowerMeans(s);
    hide Lower;
  }

  lemma WaitsJoined()
    ensures "wait" + " " + "wait" == "wait wait"
  {
  }

  lemma PlanWaitsJoined()
    ensures "plan" + " " + "wait" + " " + "wait" == "plan wait wait"
  {
  }

  lemma {:induction false} WaitIsSmall()
    ensures Lower("wait" + " " + "wait") == "wait wait"
    ensures Lower("plan" + " " + "wait" + " " + "wait") == "plan wait wait"
  {
    hide *;
    FewLetters();
    FewAreSmall("wait wait");
    FewAreSmall("plan wait wait");
    WaitsJoined();
    PlanWaitsJoined();
  }

  lemma {:induction false} WaitHasNoCredential()
    ensures !Substring("credential", "wait wait")
    ensures !Substring("secret", "wait wait")
    ensures !Substring("token", "wait wait")
    ensures !Substring("key", "wait wait")
  {
    FewLetters();
    hide Substring;
    hide IsFew;
    assert "credential"[0] == 'c' && "secret"[0] == 's' && "token"[1] == 'o' && "key"[0] == 'k';
    NotSaid("credential", 0, "wait wait");
    NotSaid("secret", 0, "wait wait");
    NotSaid("token", 1, "wait wait");
    NotSaid("key", 0, "wait wait");
  }

  lemma {:induction false} WaitIsNotDestructive()
    ensures !Substring("delete", "wait wait")
    ensures !Substring("destructive", "wait wait")
    ensures !Substring("force", "wait wait")
    ensures !Substring("reset", "wait wait")
    ensures !Substring("drop", "wait wait")
    ensures !Substring("destroy", "wait wait")
  {
    FewLetters();
    hide Substring;
    hide IsFew;
    assert "delete"[0] == 'd' && "destructive"[0] == 'd' && "force"[0] == 'f' && "reset"[0] == 'r' && "drop"[0] == 'd' && "destroy"[0] == 'd';
    NotSaid("delete", 0, "wait wait");
    NotSaid("destructive", 0, "wait wait");
    NotSaid("force", 0, "wait wait");
    NotSaid("reset", 0, "wait wait");
    NotSaid("drop", 0, "wait wait");
    NotSaid("destroy", 0, "wait wait");
  }

  lemma {:induction false} WaitIsNotOutside()
    ensures !Substring("unavailable", "wait wait")
    ensures !Substring("after retry", "wait wait")
    ensures !Substring("retry", "wait wait")
    ensures !Substring("external", "wait wait")
    ensures !Substring("service", "wait wait")
  {
    FewLetters();
    hide Substring;
    hide IsFew;
    assert "unavailable"[0] == 'u' && "after retry"[1] == 'f' && "retry"[0] == 'r' && "external"[0] == 'e' && "service"[0] == 's';
    NotSaid("unavailable", 0, "wait wait");
    NotSaid("after retry", 1, "wait wait");
    NotSaid("retry", 0, "wait wait");
    NotSaid("external", 0, "wait wait");
    NotSaid("service", 0, "wait wait");
  }

  lemma {:induction false} WaitIsNotFromUser()
    ensures !Substring("user", "wait wait")
    ensures !Substring("explicit", "wait wait")
    ensures !Substring("pause", "wait wait")
    ensures !Substring("paused", "wait wait")
    ensures !Substring("stop", "wait wait")
    ensures !Substring("stopped", "wait wait")
  {
    FewLetters();
    hide Substring;
    hide IsFew;
    assert "user"[0] == 'u' && "explicit"[0] == 'e' && "pause"[2] == 'u' && "paused"[2] == 'u' && "stop"[0] == 's' && "stopped"[0] == 's';
    NotSaid("user", 0, "wait wait");
    NotSaid("explicit", 0, "wait wait");
    NotSaid("pause", 2, "wait wait");
    NotSaid("paused", 2, "wait wait");
    NotSaid("stop", 0, "wait wait");
    NotSaid("stopped", 0, "wait wait");
  }

  lemma {:induction false} PlanWaitHasNoCue()
    ensures !Substring("replan", "plan wait wait")
    ensures !Substring("manifest", "plan wait wait")
    ensures !Substring("scope", "plan wait wait")
    ensures !Substring("amend", "plan wait wait")
  {
    FewLetters();
    hide Substring;
    hide IsFew;
    assert "replan"[0] == 'r' && "manifest"[0] == 'm' && "scope"[0] == 's' && "amend"[1] == 'm';
    NotSaid("replan", 0, "plan wait wait");
    NotSaid("manifest", 0, "plan wait wait");
    NotSaid("scope", 0, "plan wait wait");
    NotSaid("amend", 1, "plan wait wait");
  }

  lemma ConditionsArePlain()
    ensures Plain("human_approval_gate") && Plain("scope_conflict") && Plain("destructive_action")
    ensures Plain("failed_gate_needs_user_direction")
  {
  }

  lemma CredentialIsPlain()
    ensures Plain("credential_or_secret_required")
  {
  }

  lemma UnavailableIsPlain()
    ensures Plain("external_system_unavailable_after_retry")
  {
  }

  lemma PausedIsPlain()
    ensures Plain("user_explicitly_paused_or_stopped")
  {
  }

  /** A run that waits says nothing that counts as evidence for the four conditions that ask for a word. */
  lemma {:induction false} WordlessIsRefused(stop: string)
    requires stop == "credential_or_secret_required" || stop == "destructive_action"
             || stop == "external_system_unavailable_after_retry" || stop == "user_explicitly_paused_or_stopped"
    ensures var f := Waiting(stop, "plan", "", false); AsksToStop(f) && !ValidateStateFile(f).allowed
  {
    ConditionsArePlain();
    CredentialIsPlain();
    UnavailableIsPlain();
    PausedIsPlain();
    ShortWordsArePlain();
    WaitingAsksToStop(stop, "plan", "", false);
    WaitIsSmall();
    WaitHasNoCredential();
    WaitIsNotDestructive();
    WaitIsNotOutside();
    WaitIsNotFromUser();
    var f := Waiting(stop, "plan", "", false);
    hide Waiting;
    hide Plain;
    hide FieldsOf;
    hide Substring;
    hide Lower;
    hide ValidateStateFile;
    hide StandsAtGate;
    hide ScopeIsOpen;
    hide StageFailed;
    StopNeedsEvidence(f);
  }

  /** A human gate is refused at a stage that has none. */
  lemma {:induction false} ExecuteIsNoGate(runLog: string)
    ensures var f := Waiting("human_approval_gate", "execute", runLog, false); AsksToStop(f) && !ValidateStateFile(f).allowed
  {
    ConditionsArePlain();
    CapitalsArePlain();
    WaitingAsksToStop("human_approval_gate", "execute", runLog, false);
    var f := Waiting("human_approval_gate", "execute", runLog, false);
    StopNeedsEvidence(f);
    assert "execute" != "manager" by { assert "execute"[0] == 'e' && "manager"[0] == 'm'; }
    hide Waiting;
    hide Plain;
    hide FieldsOf;
    hide ValidateStateFile;
    hide Substring;
    hide Lower;
    hide ResumeIndex;
    hide StagesOf;
  }

  /** A scope conflict is refused when the scope-lock receipt passes and the run does not replan. */
  lemma {:induction false} ScopeIsSettled()
    ensures var f := Waiting("scope_conflict", "plan", "", true); AsksToStop(f) && !ValidateStateFile(f).allowed
  {
    ConditionsArePlain();
    ShortWordsArePlain();
    WaitingAsksToStop("scope_conflict", "plan", "", true);
    var f := Waiting("scope_conflict", "plan", "", true);
    StopNeedsEvidence(f);
    WaitIsSmall();
    PlanWaitHasNoCue();
    assert f.scopeReceiptPasses;
    hide Waiting;
    hide Plain;
    hide FieldsOf;
    hide ValidateStateFile;
    hide Substring;
    hide Lower;
  }

  lemma OneEventNotFailed(f: StateFile, line: string, e: Event)
    requires Lines(f.runLog) == [line] && EventOf(line) == Some(e) && e.status != "FAILED" && e.status != "BLOCKED"
    ensures !StageFailed(f)
  {
    hide Lines;
    hide EventOf;
    hide FieldsOf;
    assert line in [line];
  }

  /** A failed gate is refused when the log has events, and none says that the stage failed. */
  lemma {:induction false} NothingFailed()
    ensures var f := Waiting("failed_gate_needs_user_direction", "plan", Written(PLAN_DONE), false);
            AsksToStop(f) && !ValidateStateFile(f).allowed
  {
    ConditionsArePlain();
    CapitalsArePlain();
    var log := Written(PLAN_DONE);
    WaitingAsksToStop("failed_gate_needs_user_direction", "plan", log, false);
    var f := Waiting("failed_gate_needs_user_direction", "plan", log, false);
    assert f.runLog == log;
    hide Waiting;
    PlanDoneIsNotFailed(f);
    hide *;
    hide Field;
    StopNeedsEvidence(f);
    FailureIsNeeded(f);
  }

  lemma PlanDoneIsNotFailed(f: StateFile)
    requires f.runLog == Written(PLAN_DONE)
    ensures !StageFailed(f)
  {
    CapitalsArePlain();
    var line := LogLine("plan", "COMPLETE");
    LogLineEvent("plan", "COMPLETE");
    hide LogLine;
    hide OneLine;
    hide StageFailed;
    assert forall i :: 0 <= i < 1 ==> OneLine([line][i]);
    LinesOfWritten([line]);
    hide Lines;
    hide Written;
    hide EventOf;
    hide Strip;
    assert "COMPLETE"[0] == 'C' && "FAILED"[0] == 'F' && "BLOCKED"[0] == 'B';
    OneEventNotFailed(f, line, Event("plan", "COMPLETE", Strip(" n")));
  }

  lemma FailureIsNeeded(f: StateFile)
    requires Field(f, "stop_condition") == "failed_gate_needs_user_direction" && !StageFailed(f)
    ensures !Evidence(f) && Field(f, "stop_condition") != ""
  {
    hide StageFailed;
    hide FieldsOf;
    hide StandsAtGate;
    hide ScopeIsOpen;
    hide Substring;
  }
}

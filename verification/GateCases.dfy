/**
 State files, pipelines and logs as text: what is written one line per entry is read back, and texts on which
 the gates give way.
 */
module GateCases {
  import opened Options
  import opened Text
  import opened Normalize
  import opened RunLog
  import opened StopGates

  // ---------------------------------------------------------------- lines

  /** The lines, each with its line break. */
  function Written(lines: seq<string>): string {
    if lines == [] then "" else lines[0] + ("\n" + Written(lines[1..]))
  }

  lemma {:induction false} LinesOfWritten(lines: seq<string>)
    requires forall i :: 0 <= i < |lines| ==> OneLine(lines[i])
    ensures Lines(Written(lines)) == lines
  {
    if lines == [] {
    } else {
      LinesOfWritten(lines[1..]);
      var rest := "\n" + Written(lines[1..]);
      assert rest[1..] == Written(lines[1..]);
      LinesStep(lines[0], rest);
    }
  }

  /** Letters, digits, underscores and hyphens only. */
  ghost predicate Plain(s: string) {
    forall i :: 0 <= i < |s| ==> IsKeyChar(s[i])
  }

  lemma OneLineConcat(a: string, b: string)
    requires OneLine(a) && OneLine(b)
    ensures OneLine(a + b)
  {
  }

  lemma PlainIsTrim(s: string)
    requires Plain(s)
    ensures Trim(s) && OneLine(s) && ':' !in s && '|' !in s && Strip(s) == s
  {
    assert "" + s + "" == s;
    StripIsMiddle("", s, "");
  }

  lemma TrimIsStripped(s: string)
    requires Trim(s)
    ensures Strip(s) == s
  {
    assert "" + s + "" == s;
    StripIsMiddle("", s, "");
  }

  lemma {:induction false} AfterSpace(value: string)
    requires Plain(value)
    ensures Strip(" " + value) == value && Strip(" " + value + " ") == value && Strip(value + " ") == value
  {
    PlainIsTrim(value);
    hide Strip;
    assert " " + value + "" == " " + value && "" + value + " " == value + " ";
    StripIsMiddle(" ", value, "");
    StripIsMiddle(" ", value, " ");
    StripIsMiddle("", value, " ");
  }

  // ---------------------------------------------------------------- control states

  /** key: value, or key: alone. */
  function KeyLine(key: string, value: string): string {
    if value == "" then key + ":" else key + (": " + value)
  }

  lemma {:induction false} KeyLengthOf(key: string, rest: string)
    requires Plain(key) && rest != "" && !IsKeyChar(rest[0])
    ensures KeyLength(key + rest) == |key|
  {
    if key == "" {
      assert key + rest == rest;
    } else {
      assert (key + rest)[1..] == key[1..] + rest;
      KeyLengthOf(key[1..], rest);
    }
  }

  lemma {:induction false} KeyLineShape(key: string, value: string)
    requires Plain(key) && Plain(value) && key != ""
    ensures var line := KeyLine(key, value);
            && OneLine(line) && Trim(line) && |key| < |line| && line[..|key|] == key && line[|key|] == ':'
            && Strip(line[|key| + 1..]) == value
            && KeyLength(line) == |key|
            && !(|line| >= 2 && line[0] == '-' && IsSpace(line[1]))
  {
    var line := KeyLine(key, value);
    var tail := if value == "" then ":" else ": " + value;
    assert line == key + tail && tail[0] == ':';
    KeyLengthOf(key, tail);
    assert line[|key| + 1..] == tail[1..];
    if value == "" {
      assert tail[1..] == "";
      PlainIsTrim("");
    } else {
      assert tail[1..] == " " + value;
      AfterSpace(value);
    }
    hide Strip;
    assert forall i :: 0 <= i < |key| ==> line[i] == key[i];
    assert forall i :: 0 <= i < |tail| ==> line[|key| + i] == tail[i];
  }

  /** Both readers of a control state find the key and the value on such a line. */
  lemma {:induction false} KeyLineParses(key: string, value: string)
    requires Plain(key) && Plain(value) && key != ""
    ensures ParseKeyLine(KeyLine(key, value)) == Some((key, value))
    ensures var s := Strip(KeyLine(key, value));
            IndexOf(s, ':') == |key| < |s| && s[..|key|] == key && Strip(s[|key| + 1..]) == value
  {
    var line := KeyLine(key, value);
    KeyLineShape(key, value);
    hide KeyLine;
    hide KeyLength;
    TrimIsStripped(line);
    PlainIsTrim(key);
    hide Strip;
    assert forall i :: 0 <= i < |key| ==> line[i] == key[i] && key[i] != ':';
  }

  ghost predicate Entry(p: (string, string)) {
    p.0 != "" && Plain(p.0) && Plain(p.1)
  }

  function StateLines(entries: seq<(string, string)>): (lines: seq<string>)
    ensures |lines| == |entries|
  {
    if entries == [] then []
    else
      var last := entries[|entries| - 1];
      StateLines(entries[..|entries| - 1]) + [KeyLine(last.0, last.1)]
  }

  /** The last entry of a key counts. */
  function MapOf(entries: seq<(string, string)>): Fields {
    if entries == [] then map[]
    else
      var last := entries[|entries| - 1];
      MapOf(entries[..|entries| - 1])[last.0 := last.1]
  }

  lemma {:induction false} ControlStateAppends(lines: seq<string>, line: string, key: string, value: string)
    requires ParseKeyLine(line) == Some((key, value))
    ensures ControlState(lines + [line]) == ControlState(lines)[key := value]
  {
    hide ParseKeyLine;
    assert (lines + [line])[..|lines|] == lines;
  }

  lemma {:induction false} ReadStateAppends(lines: seq<string>, line: string, key: string, value: string)
    requires var s := Strip(line);
             IndexOf(s, ':') == |key| < |s| && s[..|key|] == key && Strip(s[|key| + 1..]) == value
    ensures ReadState(lines + [line]) == ReadState(lines)[key := value]
  {
    hide Strip;
    hide IndexOf;
    assert (lines + [line])[..|lines|] == lines;
  }

  lemma {:induction false} StateLinesRead(entries: seq<(string, string)>)
    requires forall i :: 0 <= i < |entries| ==> Entry(entries[i])
    ensures ControlState(StateLines(entries)) == MapOf(entries)
    ensures ReadState(StateLines(entries)) == MapOf(entries)
    ensures forall i :: 0 <= i < |entries| ==> OneLine(StateLines(entries)[i])
  {
    if entries == [] {
    } else {
      var front, last := entries[..|entries| - 1], entries[|entries| - 1];
      StateLinesRead(front);
      assert Entry(last);
      KeyLineShape(last.0, last.1);
      KeyLineParses(last.0, last.1);
      hide KeyLine;
      hide ParseKeyLine;
      hide ControlState;
      hide ReadState;
      hide Strip;
      hide KeyLength;
      hide OneLine;
      ControlStateAppends(StateLines(front), KeyLine(last.0, last.1), last.0, last.1);
      ReadStateAppends(StateLines(front), KeyLine(last.0, last.1), last.0, last.1);
    }
  }

  /** A control state written one line per key is read back, and alike, by the validator and by the agent decision gate. */
  lemma {:induction false} StateReadsBack(entries: seq<(string, string)>)
    requires forall i :: 0 <= i < |entries| ==> Entry(entries[i])
    ensures var lines := Lines(Written(StateLines(entries)));
            ControlState(lines) == MapOf(entries) && ReadState(lines) == MapOf(entries)
  {
    StateLinesRead(entries);
    LinesOfWritten(StateLines(entries));
  }

  // ---------------------------------------------------------------- pipelines and logs

  function NameLine(name: string): string {
    if name == "" then "- name:" else "- name:" + (" " + name)
  }

  function NameLines(names: seq<string>): (lines: seq<string>)
    ensures |lines| == |names| && forall i :: 0 <= i < |names| ==> lines[i] == NameLine(names[i])
  {
    if names == [] then [] else [NameLine(names[0])] + NameLines(names[1..])
  }

  lemma NameMark()
    ensures OneLine("- name:") && OneLine(" ") && !IsSpace('-') && !IsSpace(':') && |"- name:"| == 7
  {
  }

  lemma {:induction false} NameLineShape(name: string)
    requires Plain(name)
    ensures var line := NameLine(name); Trim(line) && OneLine(line) && "- name:" <= line && Strip(line[7..]) == name
  {
    NameMark();
    var line, mark := NameLine(name), "- name:";
    PlainIsTrim(name);
    if name == "" {
      assert line[7..] == "";
    } else {
      AfterSpace(name);
      hide Strip;
      hide Plain;
      OneLineConcat(" ", name);
      OneLineConcat(mark, " " + name);
      hide OneLine;
      assert line[..7] == mark && line[7..] == " " + name;
      assert line[0] == mark[0] && line[|line| - 1] == name[|name| - 1];
    }
  }

  lemma PlainHasNoQuotes(name: string)
    requires Plain(name)
    ensures StripQuotes(name) == name
  {
  }

  lemma {:induction false} NameLineNames(name: string)
    requires Plain(name)
    ensures Strip(NameLine(name)) != "stages:" && IsNameLine(NameLine(name)) && NameOn(NameLine(name)) == name
    ensures OneLine(NameLine(name))
  {
    NameLineShape(name);
    TrimIsStripped(NameLine(name));
    PlainHasNoQuotes(name);
    hide Strip;
    hide StripQuotes;
    assert NameLine(name)[0] == '-' && "stages:"[0] == 's';
  }

  lemma {:induction false} NamesRead(names: seq<string>)
    requires forall i :: 0 <= i < |names| ==> Plain(names[i])
    ensures StagesFrom(NameLines(names), true) == names
    ensures forall i :: 0 <= i < |names| ==> OneLine(NameLines(names)[i])
  {
    if names == [] {
    } else {
      NamesRead(names[1..]);
      NameLineNames(names[0]);
      hide Strip;
      hide StripQuotes;
      hide NameLine;
      hide OneLine;
      assert NameLines(names)[1..] == NameLines(names[1..]);
    }
  }

  /** The stages: line, and a line for each stage. */
  function PipelineLines(names: seq<string>): seq<string> {
    ["stages:"] + NameLines(names)
  }

  lemma StagesLine()
    ensures Strip("stages:") == "stages:" && OneLine("stages:")
  {
    TrimIsStripped("stages:");
    hide Strip;
  }

  /** A pipeline written so is read back, nameless stages included. */
  lemma {:induction false} PipelineReadsBack(names: seq<string>)
    requires forall i :: 0 <= i < |names| ==> Plain(names[i])
    ensures StagesFrom(Lines(Written(PipelineLines(names))), false) == names
  {
    NamesRead(names);
    StagesLine();
    var lines := PipelineLines(names);
    assert lines[1..] == NameLines(names);
    assert forall i :: 1 <= i < |lines| ==> lines[i] == NameLines(names)[i - 1];
    hide Strip;
    hide OneLine;
    LinesOfWritten(lines);
    hide Lines;
    hide NameLines;
  }

  /** An event as the run log holds it. */
  function LogLine(stage: string, status: string): string {
    "t " + ("|" + (" " + stage + " " + ("|" + (" " + status + " " + ("|" + " n")))))
  }

  lemma {:induction false} CutAt(a: string, b: string)
    requires '|' !in a
    ensures CutAtBar(a + ("|" + b)) == Some((a, b))
  {
    var s := a + ("|" + b);
    assert s[|a|] == '|' && forall i :: 0 <= i < |a| ==> s[i] == a[i];
    assert IndexOf(s, '|') == |a|;
    assert s[..|a|] == a && s[|a| + 1..] == b;
  }

  lemma LogMarks()
    ensures OneLine("t ") && OneLine("|") && OneLine(" ") && OneLine(" n") && '|' !in "t "
  {
  }

  lemma NoBarAround(s: string)
    requires '|' !in s
    ensures '|' !in " " + s + " "
  {
  }

  lemma {:induction false} LogLineIsOneLine(stage: string, status: string)
    requires OneLine(stage) && OneLine(status)
    ensures OneLine(LogLine(stage, status))
  {
    LogMarks();
    OneLineConcat("|", " n");
    OneLineConcat(" ", status);
    OneLineConcat(" " + status, " ");
    OneLineConcat(" " + status + " ", "|" + " n");
    OneLineConcat("|", " " + status + " " + ("|" + " n"));
    OneLineConcat(" ", stage);
    OneLineConcat(" " + stage, " ");
    var third := " " + status + " " + ("|" + " n");
    OneLineConcat(" " + stage + " ", "|" + third);
    OneLineConcat("|", " " + stage + " " + ("|" + third));
    OneLineConcat("t ", "|" + (" " + stage + " " + ("|" + third)));
    hide OneLine;
  }

  lemma {:induction false} ThreeCuts(a: string, b: string, c: string, d: string)
    requires '|' !in a && '|' !in b && '|' !in c
    ensures EventOf(a + ("|" + (b + ("|" + (c + ("|" + d)))))) == Some(Event(Strip(b), Strip(c), Strip(d)))
  {
    hide Strip;
    CutAt(a, b + ("|" + (c + ("|" + d))));
    CutAt(b, c + ("|" + d));
    CutAt(c, d);
    hide CutAtBar;
  }

  lemma {:induction false} LogLineEvent(stage: string, status: string)
    requires Plain(stage) && Plain(status)
    ensures EventOf(LogLine(stage, status)) == Some(Event(stage, status, Strip(" n")))
    ensures OneLine(LogLine(stage, status))
  {
    PlainIsTrim(stage);
    PlainIsTrim(status);
    AfterSpace(stage);
    AfterSpace(status);
    LogMarks();
    NoBarAround(stage);
    NoBarAround(status);
    LogLineIsOneLine(stage, status);
    hide Strip;
    hide Plain;
    hide OneLine;
    hide EventOf;
    ThreeCuts("t ", " " + stage + " ", " " + status + " ", " n");
  }

  lemma CompletedOfOne(log: string, line: string, stage: string, note: string, other: string)
    requires Lines(log) == [line] && EventOf(line) == Some(Event(stage, "COMPLETE", note))
    ensures Completed(log, other) <==> other == stage
  {
    var e := Event(stage, "COMPLETE", note);
    EventsOfOne(line, e);
    hide Lines;
    hide EventOf;
    hide Events;
    assert e in [e];
  }

  /** A log with one event completes one stage. */
  lemma {:induction false} OneEventLog(stage: string, other: string)
    requires Plain(stage) && Plain("COMPLETE")
    ensures Completed(Written([LogLine(stage, "COMPLETE")]), other) <==> other == stage
  {
    hide *;
    hide LogLine;
    hide OneLine;
    var line := LogLine(stage, "COMPLETE");
    LogLineEvent(stage, "COMPLETE");
    assert forall i :: 0 <= i < 1 ==> OneLine([line][i]);
    LinesOfWritten([line]);
    CompletedOfOne(Written([line]), line, stage, Strip(" n"), other);
  }

  lemma EventsOfOne(line: string, e: Event)
    requires EventOf(line) == Some(e)
    ensures Events([line]) == [e]
  {
    hide EventOf;
    assert [line][..0] == [];
  }

  // ---------------------------------------------------------------- a gate that opens again

  const PLAN_DONE: seq<string> := [LogLine("plan", "COMPLETE")]

  /** With every stage completed, the completed plan gate can be claimed again. */
  lemma {:induction false} FinishedRunReopensGate()
    ensures var stages, log := StagesFrom(Lines(Written(PipelineLines(["plan"]))), false), Written(PLAN_DONE);
            stages == ["plan"] && Completed(log, "plan") && HumanGateOk(stages, log, "plan")
  {
    PipelineReadsBack(["plan"]);
    var log := Written(PLAN_DONE);
    CapitalsArePlain();
    OneEventLog("plan", "plan");
    hide *;
    Extended(log);
    CompletedGateStaysClosed(["plan"], log, "", "plan");
    AllCompleted(log);
  }

  lemma CapitalsArePlain()
    ensures Plain("COMPLETE") && Plain("plan") && Plain("execute")
  {
  }

  lemma Extended(log: string)
    ensures log + "" == log
  {
  }

  lemma AllCompleted(log: string)
    requires Completed(log, "plan")
    ensures ResumeIndex(["plan"], log) == 1
  {
    hide Completed;
    assert ["plan"][1..] == [];
  }

  lemma NamelessIsFirstLeft(log: string)
    requires Completed(log, "plan") && !Completed(log, "")
    ensures ResumeIndex(["plan", "", "execute"], log) == 1
  {
    hide Completed;
    assert ["plan", "", "execute"][1..] == ["", "execute"];
  }

  /** With a nameless stage next, so it can, although two stages are still to be done. */
  lemma {:induction false} NamelessStageReopensGate()
    ensures var names := ["plan", "", "execute"];
            var stages, log := StagesFrom(Lines(Written(PipelineLines(names))), false), Written(PLAN_DONE);
            && stages == names && Completed(log, "plan") && !Completed(log, "") && !Completed(log, "execute")
            && HumanGateOk(stages, log, "plan")
  {
    PipelineReadsBack(["plan", "", "execute"]);
    var log := Written(PLAN_DONE);
    CapitalsArePlain();
    OneEventLog("plan", "plan");
    OneEventLog("plan", "");
    OneEventLog("plan", "execute");
    assert "execute"[0] == 'e' && "plan"[0] == 'p';
    hide *;
    Extended(log);
    NamelessIsFirstLeft(log);
    CompletedGateStaysClosed(["plan", "", "execute"], log, "", "plan");
  }

  // ---------------------------------------------------------------- a blank stop condition

  const BLANK_STOP: seq<(string, string)> := [
    ("active_run", "true"), ("current_stage", "plan"), ("last_completed_gate", "none"), ("next_required_action", "wait"),
    ("stop_condition", ""), ("final_response_allowed", "true"), ("continuing_to", "wait")
  ]

  lemma MapStep(entries: seq<(string, string)>, n: nat)
    requires n < |entries|
    ensures MapOf(entries[..n + 1]) == MapOf(entries[..n])[entries[n].0 := entries[n].1]
  {
    assert entries[..n + 1][..n] == entries[..n];
  }

  lemma {:induction false} BlankStopFields()
    ensures MapOf(BLANK_STOP) == map[
              "active_run" := "true", "current_stage" := "plan", "last_completed_gate" := "none",
              "next_required_action" := "wait", "stop_condition" := "", "final_response_allowed" := "true",
              "continuing_to" := "wait"]
  {
    var p := BLANK_STOP;
    assert p[..0] == [] && p[..7] == p;
    MapStep(p, 0);
    MapStep(p, 1);
    MapStep(p, 2);
    MapStep(p, 3);
    MapStep(p, 4);
    MapStep(p, 5);
    MapStep(p, 6);
  }

  lemma TrueIsLower()
    ensures Lower("true") == "true"
  {
    assert "true"[1..] == "rue" && "rue"[1..] == "ue" && "ue"[1..] == "e" && "e"[1..] == "";
    assert Lower("e") == "e";
    assert Lower("ue") == "ue";
    assert Lower("rue") == "rue";
  }

  function BlankStopFile(): StateFile {
    StateFile("active-control-state", Written(StateLines(BLANK_STOP)), "", "", false)
  }

  lemma {:induction false} BlankStopIsValidated()
    ensures var f := BlankStopFile();
            && IsActive(f) && ValidateStateFile(f).allowed
            && Get(FieldsOf(f), "stop_condition") == "" && Get(ReadState(Lines(f.text)), "stop_condition") == ""
  {
    BlankStopEntries();
    StateReadsBack(BLANK_STOP);
    BlankStopFields();
    TrueIsLower();
    var f := BlankStopFile();
    hide ControlState;
    hide ReadState;
    hide Lines;
    hide Written;
    hide StateLines;
    hide MapOf;
    hide Lower;
    hide EvidenceOk;
    var fields := FieldsOf(f);
    KeysPresent(fields);
    ActiveAllowedExactlyWhen(f);
  }

  lemma ShortWordsArePlain()
    ensures Plain("") && Plain("true") && Plain("plan") && Plain("none") && Plain("wait")
  {
  }

  lemma MiddleWordsArePlain()
    ensures Plain("active_run") && Plain("current_stage") && Plain("stop_condition") && Plain("continuing_to")
  {
  }

  lemma LongWordsArePlain()
    ensures Plain("last_completed_gate") && Plain("next_required_action") && Plain("final_response_allowed")
  {
  }

  lemma BlankStopEntries()
    ensures forall i :: 0 <= i < |BLANK_STOP| ==> Entry(BLANK_STOP[i])
  {
    ShortWordsArePlain();
    MiddleWordsArePlain();
    LongWordsArePlain();
    hide Plain;
  }

  lemma KeysPresent(fields: Fields)
    requires fields == map[
               "active_run" := "true", "current_stage" := "plan", "last_completed_gate" := "none",
               "next_required_action" := "wait", "stop_condition" := "", "final_response_allowed" := "true",
               "continuing_to" := "wait"]
    ensures forall key :: key in REQUIRED_STATE_KEYS ==> key in fields
    ensures Get(fields, "active_run") == "true" && Get(fields, "stop_condition") == ""
    ensures Get(fields, "final_response_allowed") == "true"
  {
    assert "current_stage"[1] == 'u' && "continuing_to"[1] == 'o';
  }

  /**
   A text with all seven keys and a blank stop condition: the final response gate and pipeline-continue let the
   run stop, and so does the agent decision gate on any valid claim with evidence files that exist.
   */
  lemma {:induction false} BlankStopOpensGates(claimed: string, evidence: seq<bool>)
    ensures var f := BlankStopFile();
            && FinalResponseAllowed([f], true) && StopAllowed([f])
            && (AgentDecision([f], true, claimed, evidence, None, true).allowed <==>
                claimed in VALID_STOP_CONDITIONS && evidence != [] && false !in evidence)
  {
    var f := BlankStopFile();
    BlankStopIsValidated();
    hide BlankStopFile;
    OneActiveRun(f);
    FinalGateVersusContinue([f]);
    hide FinalResponseAllowed;
    hide AgentDecision;
    hide StopAllowed;
    BlankNeedsEvidence([f], claimed, evidence, None);
  }

  lemma OneActiveRun(f: StateFile)
    requires IsActive(f) && ValidateStateFile(f).allowed
    ensures StopAllowed([f]) && StateForRun([f], None) == Some(f)
    ensures forall g :: g in [f] && !IsActive(g) ==> Clean(FieldsOf(g))
  {
    hide IsActive;
    hide ValidateStateFile;
    assert [f][1..] == [];
    assert ActiveOnly([f]) == [f];
  }
}

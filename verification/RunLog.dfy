/** The run log and the pipeline's stage list: which stage the run resumes at. */
module RunLog {
  import opened Options
  import opened Text

  datatype Event = Event(stage: string, status: string, note: string)

  /** What stands before and after the first bar. */
  function CutAtBar(s: string): Option<(string, string)> {
    var i := IndexOf(s, '|');
    if i == |s| then None else Some((s[..i], s[i + 1..]))
  }

  /** raw.split("|", 3) into exactly four stripped parts. */
  function EventOf(raw: string): Option<Event> {
    var a := CutAtBar(raw);
    if a.None? then None else
    var b := CutAtBar(a.value.1);
    if b.None? then None else
    var c := CutAtBar(b.value.1);
    if c.None? then None else
    Some(Event(Strip(b.value.0), Strip(c.value.0), Strip(c.value.1)))
  }

  function Events(lines: seq<string>): seq<Event> {
    if lines == [] then []
    else Events(lines[..|lines| - 1]) +
         match EventOf(lines[|lines| - 1]) case Some(e) => [e] case None => []
  }

  method ReadRunLog(text: string) returns (events: seq<Event>)
    ensures events == Events(Lines(text))
  {
    events := [];
    var lines := Lines(text);
    for i := 0 to |lines|
      invariant events == Events(lines[..i])
    {
      assert lines[..i + 1][..i] == lines[..i];
      var e := EventOf(lines[i]);
      if e.None? { continue; }
      events := events + [e.value];
    }
    assert lines[..|lines|] == lines;
  }

  predicate Completed(log: string, stage: string) {
    exists e :: e in Events(Lines(log)) && e.stage == stage && e.status == "COMPLETE"
  }

  predicate IsStagesLine(line: string) {
    Strip(line) == "stages:"
  }

  predicate IsNameLine(line: string) {
    StartsWith(Strip(line), "- name:")
  }

  function NameOn(line: string): string
    requires IsNameLine(line)
  {
    StripQuotes(Strip(Strip(line)[7..]))
  }

  /** _pipeline_stages: names listed after the line that says stages:. */
  function StagesFrom(lines: seq<string>, inStages: bool): seq<string> {
    if lines == [] then []
    else
      var stripped := Strip(lines[0]);
      if stripped == "stages:" then StagesFrom(lines[1..], true)
      else if inStages && StartsWith(stripped, "- name:") then
        [StripQuotes(Strip(stripped[7..]))] + StagesFrom(lines[1..], inStages)
      else StagesFrom(lines[1..], inStages)
  }

  /** Some line names a stage, and the stages line came before it. */
  ghost predicate Listed(lines: seq<string>, inStages: bool, name: string) {
    exists j :: 0 <= j < |lines| && IsNameLine(lines[j]) && NameOn(lines[j]) == name && (inStages || Opened(lines[..j]))
  }

  /** Some line says stages:. */
  predicate Opened(lines: seq<string>) {
    exists i :: 0 <= i < |lines| && IsStagesLine(lines[i])
  }

  lemma OpenedConcat(a: seq<string>, b: seq<string>)
    ensures Opened(a + b) <==> Opened(a) || Opened(b)
  {
    hide IsStagesLine;
    if i :| 0 <= i < |a| && IsStagesLine(a[i]) { assert (a + b)[i] == a[i]; }
    if i :| 0 <= i < |b| && IsStagesLine(b[i]) { assert (a + b)[|a| + i] == b[i]; }
  }

  lemma OpenedBy(line: string)
    ensures Opened([line]) <==> IsStagesLine(line)
    ensures !Opened([])
    ensures IsStagesLine(line) ==> !IsNameLine(line)
  {
    if IsStagesLine(line) { assert [line][0] == line && "stages:"[0] == 's' && "- name:"[0] == '-'; }
  }

  /** Stages are listed in line order: of two stretches of a file, the first lists its stages first. */
  lemma {:induction false} StagesOfConcat(a: seq<string>, b: seq<string>, inStages: bool)
    ensures StagesFrom(a + b, inStages) == StagesFrom(a, inStages) + StagesFrom(b, inStages || Opened(a))
  {
    hide Strip;
    hide StripQuotes;
    if a == [] {
      OpenedBy("");
      assert a + b == b;
    } else {
      assert (a + b)[1..] == a[1..] + b && a == [a[0]] + a[1..];
      OpenedConcat([a[0]], a[1..]);
      OpenedBy(a[0]);
      hide Opened;
      StagesOfConcat(a[1..], b, inStages || IsStagesLine(a[0]));
    }
  }

  lemma ListedStep(lines: seq<string>, inStages: bool, name: string)
    requires lines != []
    ensures Listed(lines, inStages, name) <==>
            || (inStages && IsNameLine(lines[0]) && NameOn(lines[0]) == name)
            || Listed(lines[1..], inStages || IsStagesLine(lines[0]), name)
  {
    hide IsNameLine;
    hide NameOn;
    hide IsStagesLine;
    OpenedBy(lines[0]);
    forall j | 0 < j <= |lines| ensures Opened(lines[..j]) <==> IsStagesLine(lines[0]) || Opened(lines[1..][..j - 1]) {
      assert lines[..j] == [lines[0]] + lines[1..][..j - 1];
      OpenedConcat([lines[0]], lines[1..][..j - 1]);
    }
    if inStages && IsNameLine(lines[0]) && NameOn(lines[0]) == name { assert lines[0] == lines[0]; }
    var open := inStages || IsStagesLine(lines[0]);
    if j :| 0 <= j < |lines| && IsNameLine(lines[j]) && NameOn(lines[j]) == name && (inStages || Opened(lines[..j])) {
      if j > 0 { assert lines[1..][j - 1] == lines[j] && (open || Opened(lines[1..][..j - 1])); }
    }
    if j :| 0 <= j < |lines[1..]| && IsNameLine(lines[1..][j]) && NameOn(lines[1..][j]) == name
            && (open || Opened(lines[1..][..j])) {
      assert lines[j + 1] == lines[1..][j] && (inStages || Opened(lines[..j + 1]));
    }
  }

  /** A stage is listed exactly when a line names it after a line that says stages:. */
  lemma {:induction false} StagesMean(lines: seq<string>, inStages: bool, name: string)
    ensures name in StagesFrom(lines, inStages) <==> Listed(lines, inStages, name)
  {
    if lines == [] {
    } else {
      StagesMean(lines[1..], inStages || IsStagesLine(lines[0]), name);
      ListedStep(lines, inStages, name);
      OpenedBy(lines[0]);
      hide Listed;
      hide Strip;
      hide StripQuotes;
    }
  }

  method PipelineStages(lines: seq<string>) returns (stages: seq<string>)
    ensures stages == StagesFrom(lines, false)
    ensures forall name :: name in stages <==> Listed(lines, false, name)
  {
    forall name ensures name in StagesFrom(lines, false) <==> Listed(lines, false, name) { StagesMean(lines, false, name); }
    hide Listed;
    stages := [];
    var inStages := false;
    for i := 0 to |lines|
      invariant StagesFrom(lines, false) == stages + StagesFrom(lines[i..], inStages)
    {
      assert lines[i..][1..] == lines[i + 1..];
      var stripped := Strip(lines[i]);
      if stripped == "stages:" {
        inStages := true;
        continue;
      }
      if !inStages { continue; }
      if StartsWith(stripped, "- name:") {
        stages := stages + [StripQuotes(Strip(stripped[7..]))];
      }
    }
    assert lines[|lines|..] == [];
  }

  /** Position of the first stage not completed, or the number of stages. */
  function ResumeIndex(stages: seq<string>, log: string): (k: nat)
    ensures k <= |stages|
  {
    if stages == [] || !Completed(log, stages[0]) then 0 else 1 + ResumeIndex(stages[1..], log)
  }

  /** The stages before it are completed, and the one at it, if any, is not. */
  lemma {:induction false} ResumeIndexMeans(stages: seq<string>, log: string)
    ensures var k := ResumeIndex(stages, log);
            && (forall i :: 0 <= i < k ==> Completed(log, stages[i]))
            && (k < |stages| ==> !Completed(log, stages[k]))
  {
    hide Completed;
    if stages == [] || !Completed(log, stages[0]) {
    } else {
      ResumeIndexMeans(stages[1..], log);
      assert forall i :: 1 <= i < |stages| ==> stages[i] == stages[1..][i - 1];
    }
  }

  /** The stage the run resumes at; empty when no stage is left, but also when the first one left has no name. */
  function ResumeStage(stages: seq<string>, log: string): string {
    var k := ResumeIndex(stages, log);
    if k < |stages| then stages[k] else ""
  }

  // ---------------------------------------------------------------- the log only grows

  lemma {:induction false} IndexOfExtends(s: string, more: string, c: char)
    requires IndexOf(s, c) < |s|
    ensures IndexOf(s + more, c) == IndexOf(s, c)
  {
    if s[0] != c {
      assert (s + more)[1..] == s[1..] + more;
      IndexOfExtends(s[1..], more, c);
    }
  }

  lemma {:induction false} CutExtends(s: string, more: string)
    requires CutAtBar(s).Some?
    ensures CutAtBar(s + more) == Some((CutAtBar(s).value.0, CutAtBar(s).value.1 + more))
  {
    IndexOfExtends(s, more, '|');
    var i := IndexOf(s, '|');
    assert (s + more)[i + 1..] == s[i + 1..] + more && (s + more)[..i] == s[..i];
  }

  /** Text appended to a complete event line only reaches its note. */
  lemma {:induction false} EventExtends(raw: string, more: string)
    requires EventOf(raw).Some?
    ensures EventOf(raw + more).Some?
    ensures EventOf(raw + more).value.stage == EventOf(raw).value.stage
    ensures EventOf(raw + more).value.status == EventOf(raw).value.status
  {
    CutExtends(raw, more);
    var rest := CutAtBar(raw).value.1;
    CutExtends(rest, more);
    CutExtends(CutAtBar(rest).value.1, more);
  }

  lemma {:induction false} EventsOfLines(lines: seq<string>, e: Event)
    ensures e in Events(lines) <==> exists line :: line in lines && EventOf(line) == Some(e)
  {
    if lines == [] {
    } else {
      var front, last := lines[..|lines| - 1], lines[|lines| - 1];
      assert lines == front + [last];
      EventsOfLines(front, e);
    }
  }

  /** Events come in the order of their lines. */
  lemma {:induction false} EventsOfConcat(a: seq<string>, b: seq<string>)
    ensures Events(a + b) == Events(a) + Events(b)
  {
    hide EventOf;
    if b == [] {
      assert a + b == a;
    } else {
      var n := |b| - 1;
      assert (a + b)[..|a| + n] == a + b[..n] && (a + b)[|a| + n] == b[n];
      EventsOfConcat(a, b[..n]);
    }
  }

  /** Once logged COMPLETE, a stage stays so, however the log grows. */
  lemma {:induction false} CompletedStays(log: string, more: string, stage: string)
    requires Completed(log, stage)
    ensures Completed(log + more, stage)
  {
    var e :| e in Events(Lines(log)) && e.stage == stage && e.status == "COMPLETE";
    EventsOfLines(Lines(log), e);
    var line :| line in Lines(log) && EventOf(line) == Some(e);
    var longer, e' := EventIsCarriedOver(log, more, line);
    EventsOfLines(Lines(log + more), e');
  }

  lemma {:induction false} EventIsCarriedOver(log: string, more: string, line: string) returns (longer: string, e: Event)
    requires line in Lines(log) && EventOf(line).Some?
    ensures longer in Lines(log + more) && EventOf(longer) == Some(e)
    ensures e.stage == EventOf(line).value.stage && e.status == EventOf(line).value.status
  {
    hide Lines;
    longer := LinesOfConcat(log, more, line);
    assert longer == line + longer[|line|..];
    EventExtends(line, longer[|line|..]);
    hide EventOf;
    e := EventOf(longer).value;
  }

  /** For a fixed stage list, the resume stage never moves backwards. */
  lemma ResumeNeverMovesBack(stages: seq<string>, log: string, more: string)
    ensures ResumeIndex(stages, log) <= ResumeIndex(stages, log + more)
  {
    hide Completed;
    var k := ResumeIndex(stages, log + more);
    ResumeIndexMeans(stages, log);
    ResumeIndexMeans(stages, log + more);
    if k < ResumeIndex(stages, log) {
      CompletedStays(log, more, stages[k]);
    }
  }
}

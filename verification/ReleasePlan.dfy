/**
 The release plan: rung headings, the section each heading owns, and which rung owns a term.
 Lines are what str.splitlines gives.
 */
module ReleasePlan {
  import opened Options
  import opened Text
  import opened Normalize

  // ---------------------------------------------------------------- headings

  datatype Heading = Heading(level: nat, rung: string, title: string)

  /** Leading hashes, at most six. */
  function Hashes(s: string, limit: nat): (n: nat)
    ensures n <= limit && n <= |s|
  {
    if limit > 0 && s != "" && s[0] == '#' then 1 + Hashes(s[1..], limit - 1) else 0
  }

  function Digits(s: string): (n: nat)
    ensures n <= |s|
  {
    if s != "" && IsDigit(s[0]) then 1 + Digits(s[1..]) else 0
  }

  /** Length of the dotted number at the start of s, or 0. */
  function DottedNumber(s: string): (n: nat)
    ensures n <= |s|
    decreases |s|
  {
    var d := Digits(s);
    if d == 0 then 0
    else if d < |s| && s[d] == '.' && DottedNumber(s[d + 1..]) > 0 then d + 1 + DottedNumber(s[d + 1..])
    else d
  }

  predicate IsSeparator(c: char) {
    c == '-' || c == ':' || c as int == 0x2014 || c as int == 0x2013
  }

  function SkipRung(s: string): string {
    if |s| >= 4 && Fold(s[0]) == 'r' && Fold(s[1]) == 'u' && Fold(s[2]) == 'n' && Fold(s[3]) == 'g'
    then LStrip(s[4..]) else s
  }

  function SkipV(s: string): string {
    if s != "" && Fold(s[0]) == 'v' then s[1..] else s
  }

  /** The rung heading on a line, if it is one. */
  function ParseHeading(line: string): Option<Heading> {
    var s := Strip(line);
    var level := Hashes(s, 6);
    if level == 0 then None else
    var rest := SkipV(SkipRung(LStrip(s[level..])));
    var n := DottedNumber(rest);
    if n == 0 then None else
    var tail := LStrip(rest[n..]);
    if tail == "" then Some(Heading(level, rest[..n], ""))
    else if IsSeparator(tail[0]) && LStrip(tail[1..]) != "" then Some(Heading(level, rest[..n], LStrip(tail[1..])))
    else None
  }

  /** b is the end of s. */
  ghost predicate IsEnd(b: string, s: string) {
    |b| <= |s| && s[|s| - |b|..] == b
  }

  lemma IsEndTransitive(a: string, b: string, c: string)
    requires IsEnd(a, b) && IsEnd(b, c)
    ensures IsEnd(a, c)
  {
    assert c[|c| - |a|..] == c[|c| - |b|..][|b| - |a|..];
  }

  lemma LStripIsEnd(s: string)
    ensures IsEnd(LStrip(s), s)
  {
    LStripSplits(s);
  }

  lemma SkipsAreEnds(s: string)
    ensures IsEnd(SkipRung(s), s) && IsEnd(SkipV(s), s)
  {
    if SkipRung(s) != s {
      LStripIsEnd(s[4..]);
      IsEndTransitive(SkipRung(s), s[4..], s);
    }
  }

  lemma StrippedDropIsEnd(s: string, n: nat)
    requires n <= |s|
    ensures IsEnd(LStrip(s[n..]), s)
  {
    LStripIsEnd(s[n..]);
    IsEndTransitive(LStrip(s[n..]), s[n..], s);
  }

  lemma MarksAreBeforeRest(s: string, n: nat)
    requires n <= |s|
    ensures IsEnd(SkipV(SkipRung(LStrip(s[n..]))), s)
  {
    var s1 := LStrip(s[n..]);
    var s2 := SkipRung(s1);
    StrippedDropIsEnd(s, n);
    SkipsAreEnds(s1);
    IsEndTransitive(s2, s1, s);
    SkipsAreEnds(s2);
    IsEndTransitive(SkipV(s2), s2, s);
  }

  lemma {:induction false} TitleEndsStripped(line: string)
    requires ParseHeading(line).Some? && ParseHeading(line).value.title != ""
    ensures IsEnd(ParseHeading(line).value.title, Strip(line))
  {
    hide Strip;
    hide LStrip;
    hide DottedNumber;
    hide Hashes;
    hide SkipV;
    hide SkipRung;
    var s := Strip(line);
    var rest := SkipV(SkipRung(LStrip(s[Hashes(s, 6)..])));
    var tail := LStrip(rest[DottedNumber(rest)..]);
    StrippedDropIsEnd(rest, DottedNumber(rest));
    StrippedDropIsEnd(tail, 1);
    IsEndTransitive(LStrip(tail[1..]), tail, rest);
    MarksAreBeforeRest(s, Hashes(s, 6));
    IsEndTransitive(LStrip(tail[1..]), rest, s);
  }

  lemma EndSplits(a: string, s: string, b: string, end: string)
    requires IsEnd(end, s)
    ensures a + s + b == (a + s[..|s| - |end|]) + end + b
  {
    assert s == s[..|s| - |end|] + end;
  }

  /** The title of a heading is what its line ends with, trailing space aside. */
  lemma {:induction false} TitleEndsLine(line: string) returns (pre: string, space: string)
    requires ParseHeading(line).Some?
    ensures AllSpace(space) && line == pre + ParseHeading(line).value.title + space
  {
    var title := ParseHeading(line).value.title;
    var s := Strip(line);
    var a, b := StripSplits(line);
    if title == "" {
      pre, space := a + s, b;
      assert line == pre + "" + space;
    } else {
      TitleEndsStripped(line);
      hide *;
      pre, space := a + s[..|s| - |title|], b;
      EndSplits(a, s, b, title);
    }
  }

  // ---------------------------------------------------------------- headings as they are written

  function Marks(level: nat): (r: string)
    ensures |r| == level && forall i :: 0 <= i < level ==> r[i] == '#'
  {
    if level == 0 then "" else "#" + Marks(level - 1)
  }

  /** Groups of digits, with dots between. */
  function Dotted(groups: seq<string>): string {
    if groups == [] then "" else if |groups| == 1 then groups[0] else groups[0] + ("." + Dotted(groups[1..]))
  }

  ghost predicate DigitGroups(groups: seq<string>) {
    && groups != []
    && forall g :: g in groups ==> g != "" && forall i :: 0 <= i < |g| ==> IsDigit(g[i])
  }

  lemma {:induction false} HashesOf(level: nat, rest: string, limit: nat)
    requires level <= limit && (rest != "" ==> rest[0] != '#')
    ensures Hashes(Marks(level) + rest, limit) == level
  {
    if level == 0 {
      assert "" + rest == rest;
    } else {
      assert (Marks(level) + rest)[1..] == Marks(level - 1) + rest;
      HashesOf(level - 1, rest, limit - 1);
    }
  }

  lemma {:induction false} DigitsOf(g: string, rest: string)
    requires (forall i :: 0 <= i < |g| ==> IsDigit(g[i])) && (rest != "" ==> !IsDigit(rest[0]))
    ensures Digits(g + rest) == |g|
  {
    if g == "" {
      assert g + rest == rest;
    } else {
      assert (g + rest)[1..] == g[1..] + rest;
      DigitsOf(g[1..], rest);
    }
  }

  lemma LastGroup(g: string, rest: string)
    requires g != "" && (forall i :: 0 <= i < |g| ==> IsDigit(g[i])) && (rest != "" ==> !IsDigit(rest[0]) && rest[0] != '.')
    ensures DottedNumber(g + rest) == |g|
  {
    DigitsOf(g, rest);
    hide Digits;
  }

  lemma OneMoreGroup(g: string, tail: string)
    requires g != "" && (forall i :: 0 <= i < |g| ==> IsDigit(g[i])) && DottedNumber(tail) > 0
    ensures DottedNumber(g + ("." + tail)) == |g| + 1 + DottedNumber(tail)
  {
    var s := g + ("." + tail);
    DigitsOf(g, "." + tail);
    hide Digits;
    assert s[|g|] == '.' && s[|g| + 1..] == tail;
  }

  lemma {:induction false} DottedNumberOf(groups: seq<string>, rest: string)
    requires DigitGroups(groups) && (rest != "" ==> !IsDigit(rest[0]) && rest[0] != '.')
    ensures DottedNumber(Dotted(groups) + rest) == |Dotted(groups)| && Dotted(groups) != ""
    ensures IsDigit(Dotted(groups)[0])
    decreases |groups|
  {
    hide DottedNumber;
    hide IsDigit;
    var g := groups[0];
    assert g in groups;
    if |groups| == 1 {
      LastGroup(g, rest);
    } else {
      var more := groups[1..];
      assert forall x :: x in more ==> x in groups;
      DottedNumberOf(more, rest);
      var d := Dotted(more);
      assert Dotted(groups) == g + ("." + d);
      hide Dotted;
      OneMoreGroup(g, d + rest);
      assert (g + ("." + d)) + rest == g + ("." + (d + rest));
    }
  }

  lemma LStripSpaceBefore(m: string)
    requires m != "" && !IsSpace(m[0])
    ensures LStrip(" " + m) == m && LStrip(m) == m
  {
    assert (" " + m)[1..] == m;
  }

  /** What follows the marks of a titled heading. */
  function AfterMarks(rung: string, title: string): string {
    " Rung v" + (rung + (" - " + title))
  }

  lemma {:induction false} SkipsMarker(tail: string)
    requires tail != "" && IsDigit(tail[0])
    ensures SkipV(SkipRung(LStrip(" Rung v" + tail))) == tail
  {
    var s, v := "Rung v" + tail, "v" + tail;
    assert " Rung v" + tail == " " + s;
    LStripSpaceBefore(s);
    assert s[4..] == " " + v;
    LStripSpaceBefore(v);
    hide LStrip;
    assert s[0] == 'R' && s[1] == 'u' && s[2] == 'n' && s[3] == 'g';
    assert SkipRung(s) == v;
    assert v[1..] == tail;
  }

  lemma {:induction false} TitleIsFound(rung: string, title: string)
    requires title != "" && !IsSpace(title[0])
    ensures LStrip((rung + (" - " + title))[|rung|..]) == "- " + title && LStrip(("- " + title)[1..]) == title
  {
    var end := " - " + title;
    assert (rung + end)[|rung|..] == end && end == " " + ("- " + title);
    LStripSpaceBefore("- " + title);
    assert ("- " + title)[1..] == " " + title;
    LStripSpaceBefore(title);
    hide LStrip;
  }

  lemma TitleEndsNumber(title: string)
    ensures var end := " - " + title; !IsDigit(end[0]) && end[0] != '.'
  {
  }

  lemma AfterMarksIs(rung: string, title: string)
    ensures AfterMarks(rung, title) == " Rung v" + (rung + (" - " + title))
  {
  }

  lemma {:induction false} RungAndTitle(groups: seq<string>, title: string)
    requires DigitGroups(groups) && title != "" && !IsSpace(title[0])
    ensures var rung := Dotted(groups);
            var rest := SkipV(SkipRung(LStrip(AfterMarks(rung, title))));
            && rest == rung + (" - " + title)
            && DottedNumber(rest) == |rung| > 0
            && LStrip(rest[|rung|..]) == "- " + title
            && LStrip(("- " + title)[1..]) == title
  {
    hide *;
    var rung, end := Dotted(groups), " - " + title;
    TitleEndsNumber(title);
    DottedNumberOf(groups, end);
    assert (rung + end)[0] == rung[0];
    SkipsMarker(rung + end);
    AfterMarksIs(rung, title);
    TitleIsFound(rung, title);
  }

  lemma ParseSteps(line: string, level: nat, rest: string, n: nat, tail: string)
    requires level > 0 && Hashes(Strip(line), 6) == level && SkipV(SkipRung(LStrip(Strip(line)[level..]))) == rest
    requires 0 < n == DottedNumber(rest) && LStrip(rest[n..]) == tail
    requires tail != "" && IsSeparator(tail[0]) && LStrip(tail[1..]) != ""
    ensures ParseHeading(line) == Some(Heading(level, rest[..n], LStrip(tail[1..])))
  {
    hide Strip;
    hide LStrip;
    hide Hashes;
    hide SkipV;
    hide SkipRung;
    hide DottedNumber;
    hide IsSeparator;
  }

  lemma HeadingLineIsTrim(level: nat, rung: string, title: string)
    requires level > 0 && title != "" && Trim(title)
    ensures var line := Marks(level) + AfterMarks(rung, title); Trim(line) && Strip(line) == line
  {
    var line := Marks(level) + AfterMarks(rung, title);
    assert line[0] == '#' && line[|line| - 1] == title[|title| - 1];
    assert "" + line + "" == line;
    StripIsMiddle("", line, "");
    hide Strip;
  }

  /** A heading written with one to six marks, a rung number and a title is read back as it was meant. */
  lemma {:induction false} HeadingReadsBack(level: nat, groups: seq<string>, title: string)
    requires 1 <= level <= 6 && DigitGroups(groups) && title != "" && Trim(title)
    ensures ParseHeading(Marks(level) + AfterMarks(Dotted(groups), title)) == Some(Heading(level, Dotted(groups), title))
  {
    var rung := Dotted(groups);
    var after := AfterMarks(rung, title);
    var line := Marks(level) + after;
    assert after[0] == ' ';
    hide *;
    HeadingLineIsTrim(level, rung, title);
    TitleStartsShown(title);
    RungAndTitle(groups, title);
    HashesOf(level, after, 6);
    assert line[level..] == after;
    var rest := rung + (" - " + title);
    assert rest[..|rung|] == rung;
    DashSeparates(title);
    ParseSteps(line, level, rest, |rung|, "- " + title);
  }

  lemma TitleStartsShown(title: string)
    requires title != "" && Trim(title)
    ensures !IsSpace(title[0])
  {
  }

  lemma DashSeparates(title: string)
    ensures "- " + title != "" && IsSeparator(("- " + title)[0])
  {
  }

  /** The level of a heading is the number of marks its line starts with, one to six; its rung starts with a digit. */
  lemma {:induction false} HeadingLevelMeans(line: string)
    requires ParseHeading(line).Some?
    ensures var h, s := ParseHeading(line).value, Strip(line);
            && 1 <= h.level <= 6 && h.level <= |s| && (forall i :: 0 <= i < h.level ==> s[i] == '#')
            && (h.level < 6 && h.level < |s| ==> s[h.level] != '#')
            && h.rung != "" && IsDigit(h.rung[0])
  {
    var s := Strip(line);
    HashesMean(s, 6);
    var rest := SkipV(SkipRung(LStrip(s[Hashes(s, 6)..])));
    NumberStartsWithDigit(rest);
    hide Strip;
    hide LStrip;
    hide Hashes;
    hide DottedNumber;
    hide SkipV;
    hide SkipRung;
  }

  lemma {:induction false} HashesMean(s: string, limit: nat)
    ensures var n := Hashes(s, limit);
            && n <= limit && n <= |s| && (forall i :: 0 <= i < n ==> s[i] == '#')
            && (n < limit && n < |s| ==> s[n] != '#')
  {
    if limit > 0 && s != "" && s[0] == '#' {
      HashesMean(s[1..], limit - 1);
      assert forall i :: 1 <= i < |s| ==> s[i] == s[1..][i - 1];
    }
  }

  lemma NumberStartsWithDigit(s: string)
    requires DottedNumber(s) > 0
    ensures s != "" && IsDigit(s[0])
  {
  }

  // ---------------------------------------------------------------- section ranges

  datatype Match = Match(start: nat, level: nat, rung: string, title: string)

  function Matches(lines: seq<string>): seq<Match> {
    if lines == [] then []
    else
      var n := |lines| - 1;
      Matches(lines[..n]) +
      match ParseHeading(lines[n])
      case Some(h) => [Match(n, h.level, h.rung, h.title)]
      case None => []
  }

  /** Headings in line order, all within the text. */
  ghost predicate InOrder(ms: seq<Match>, total: nat) {
    && (forall i :: 0 <= i < |ms| ==> ms[i].start < total)
    && (forall i, j :: 0 <= i < j < |ms| ==> ms[i].start < ms[j].start)
  }

  lemma {:induction false} MatchesInOrder(lines: seq<string>)
    ensures InOrder(Matches(lines), |lines|)
    ensures forall i :: 0 <= i < |Matches(lines)| ==> IsHeadingLine(lines, Matches(lines)[i])
  {
    hide ParseHeading;
    if lines == [] {
    } else {
      var n := |lines| - 1;
      var front := lines[..n];
      MatchesInOrder(front);
      var before, all := Matches(front), Matches(lines);
      forall i | 0 <= i < |all| ensures IsHeadingLine(lines, all[i]) {
        if i < |before| { assert all[i] == before[i] && IsHeadingLine(front, before[i]); }
      }
    }
  }

  /** The line a match was made from. */
  ghost predicate IsHeadingLine(lines: seq<string>, m: Match) {
    m.start < |lines| && ParseHeading(lines[m.start]) == Some(Heading(m.level, m.rung, m.title))
  }

  /** The scan forward from p: first heading from q on that is no deeper than heading p. */
  function EndFrom(ms: seq<Match>, p: nat, q: nat, total: nat): nat
    requires p < |ms| && q <= |ms|
    decreases |ms| - q
  {
    if q == |ms| then total
    else if ms[q].level <= ms[p].level then ms[q].start
    else EndFrom(ms, p, q + 1, total)
  }

  /** The line after the section of heading p. */
  function EndOf(ms: seq<Match>, p: nat, total: nat): nat
    requires p < |ms|
  {
    EndFrom(ms, p, p + 1, total)
  }

  /** e is where heading q stands, or the end of the text. */
  ghost predicate IsStop(ms: seq<Match>, q: nat, total: nat, e: nat) {
    q <= |ms| && e == if q < |ms| then ms[q].start else total
  }

  lemma {:induction false} EndFromMeaning(ms: seq<Match>, p: nat, q: nat, total: nat) returns (stop: nat)
    requires p < |ms| && q <= |ms|
    ensures q <= stop && IsStop(ms, stop, total, EndFrom(ms, p, q, total))
    ensures stop < |ms| ==> ms[stop].level <= ms[p].level
    ensures forall r :: q <= r < stop ==> ms[r].level > ms[p].level
    decreases |ms| - q
  {
    if q == |ms| || ms[q].level <= ms[p].level {
      stop := q;
    } else {
      stop := EndFromMeaning(ms, p, q + 1, total);
    }
  }

  /**
   Sections form a laminar family: of two headings, the later one's section either lies inside the
   earlier one's or starts after it.  Which of the two holds is decided by whether every heading between
   them, and the later one itself, is deeper than the earlier one.
   */
  lemma SectionsAreLaminar(ms: seq<Match>, p: nat, q: nat, total: nat)
    requires InOrder(ms, total) && p < q < |ms|
    ensures ms[p].start < EndOf(ms, p, total) <= total
    ensures if forall r :: p < r <= q ==> ms[r].level > ms[p].level
            then ms[q].start < EndOf(ms, p, total) && EndOf(ms, q, total) <= EndOf(ms, p, total)
            else EndOf(ms, p, total) <= ms[q].start
  {
    var sp := EndFromMeaning(ms, p, p + 1, total);
    var sq := EndFromMeaning(ms, q, q + 1, total);
    if sp <= q {
      assert ms[sp].level <= ms[p].level;
    } else if sp < |ms| {
      assert ms[q].level > ms[p].level >= ms[sp].level;
    }
  }

  // ---------------------------------------------------------------- one pass with a stack

  /** Close every open heading that is no shallower than level, at line start. */
  function Close(ms: seq<Match>, open: seq<nat>, ends: map<nat, nat>, level: int, start: nat): (seq<nat>, map<nat, nat>)
    requires forall i :: 0 <= i < |open| ==> open[i] < |ms|
  {
    if open != [] && ms[open[|open| - 1]].level >= level then
      Close(ms, open[..|open| - 1], ends[open[|open| - 1] := start], level, start)
    else (open, ends)
  }

  /** Nothing before heading q closes the section of heading p. */
  ghost predicate StaysOpen(ms: seq<Match>, p: nat, q: nat)
    requires p < q <= |ms|
  {
    forall r :: p < r < q ==> ms[r].level > ms[p].level
  }

  /** After the first q headings: those still open, innermost last, and the ends found so far. */
  ghost predicate Scanned(ms: seq<Match>, q: nat, total: nat, open: seq<nat>, ends: map<nat, nat>)
    requires q <= |ms|
  {
    && (forall i :: 0 <= i < |open| ==> open[i] < q)
    && (forall i, j :: 0 <= i < j < |open| ==> open[i] < open[j])
    && (forall i :: 0 <= i < |open| ==> StaysOpen(ms, open[i], q))
    && (forall p :: p in ends ==> p < q && ends[p] == EndOf(ms, p, total))
    && (forall p: nat :: p < q ==> p in open || p in ends)
  }

  lemma {:induction false} EndAt(ms: seq<Match>, p: nat, from: nat, q: nat, total: nat)
    requires p < from <= q <= |ms|
    requires forall r :: from <= r < q ==> ms[r].level > ms[p].level
    requires q < |ms| ==> ms[q].level <= ms[p].level
    ensures IsStop(ms, q, total, EndFrom(ms, p, from, total))
    decreases q - from
  {
    if from < q { EndAt(ms, p, from + 1, q, total); }
  }

  lemma {:induction false} ClosingOneKeepsScanned(
    ms: seq<Match>, q: nat, total: nat, open: seq<nat>, ends: map<nat, nat>, start: nat)
    requires q <= |ms| && open != [] && Scanned(ms, q, total, open, ends)
    requires IsStop(ms, q, total, start)
    requires q < |ms| ==> ms[q].level <= ms[open[|open| - 1]].level
    ensures Scanned(ms, q, total, open[..|open| - 1], ends[open[|open| - 1] := start])
  {
    var p, rest := open[|open| - 1], open[..|open| - 1];
    assert open == rest + [p];
    assert StaysOpen(ms, p, q);
    EndAt(ms, p, p + 1, q, total);
  }

  lemma {:induction false} CloseKeepsScanned(
    ms: seq<Match>, q: nat, total: nat, open: seq<nat>, ends: map<nat, nat>, level: int, start: nat)
    requires q <= |ms| && Scanned(ms, q, total, open, ends)
    requires IsStop(ms, q, total, start)
    requires level == if q < |ms| then ms[q].level else 0
    ensures var (open', ends') := Close(ms, open, ends, level, start);
            && Scanned(ms, q, total, open', ends')
            && (open' != [] ==> ms[open'[|open'| - 1]].level < level)
  {
    if open != [] && ms[open[|open| - 1]].level >= level {
      ClosingOneKeepsScanned(ms, q, total, open, ends, start);
      CloseKeepsScanned(ms, q, total, open[..|open| - 1], ends[open[|open| - 1] := start], level, start);
    }
  }

  lemma {:induction false} OpeningKeepsScanned(ms: seq<Match>, q: nat, total: nat, open: seq<nat>, ends: map<nat, nat>)
    requires q < |ms| && Scanned(ms, q, total, open, ends)
    requires open != [] ==> ms[open[|open| - 1]].level < ms[q].level
    ensures Scanned(ms, q + 1, total, open + [q], ends)
  {
    var all := open + [q];
    forall i | 0 <= i < |all| ensures StaysOpen(ms, all[i], q + 1) {
      if i < |open| {
        assert StaysOpen(ms, open[i], q);
        if i < |open| - 1 { assert open[i] < open[|open| - 1] < q; }
      }
    }
  }

  datatype Scan = Scan(open: seq<nat>, ends: map<nat, nat>)

  /** Read heading q: close what it closes, then open it. */
  function Read(ms: seq<Match>, s: Scan, q: nat): Scan
    requires q < |ms| && forall i :: 0 <= i < |s.open| ==> s.open[i] < |ms|
  {
    var (open, ends) := Close(ms, s.open, s.ends, ms[q].level, ms[q].start);
    Scan(open + [q], ends)
  }

  lemma {:induction false} ReadKeepsScanned(ms: seq<Match>, s: Scan, q: nat, total: nat)
    requires q < |ms| && Scanned(ms, q, total, s.open, s.ends)
    ensures Scanned(ms, q + 1, total, Read(ms, s, q).open, Read(ms, s, q).ends)
  {
    CloseKeepsScanned(ms, q, total, s.open, s.ends, ms[q].level, ms[q].start);
    var (open, ends) := Close(ms, s.open, s.ends, ms[q].level, ms[q].start);
    OpeningKeepsScanned(ms, q, total, open, ends);
  }

  lemma {:induction false} CloseShrinks(ms: seq<Match>, open: seq<nat>, ends: map<nat, nat>, level: int, start: nat)
    requires forall i :: 0 <= i < |open| ==> open[i] < |ms|
    ensures Close(ms, open, ends, level, start).0 <= open
  {
    if open != [] && ms[open[|open| - 1]].level >= level {
      CloseShrinks(ms, open[..|open| - 1], ends[open[|open| - 1] := start], level, start);
    }
  }

  function OnePass(ms: seq<Match>, q: nat): (s: Scan)
    requires q <= |ms|
    ensures forall i :: 0 <= i < |s.open| ==> s.open[i] < q
  {
    if q == 0 then Scan([], map[])
    else
      var s := OnePass(ms, q - 1);
      CloseShrinks(ms, s.open, s.ends, ms[q - 1].level, ms[q - 1].start);
      Read(ms, s, q - 1)
  }

  lemma {:induction false} OnePassScans(ms: seq<Match>, q: nat, total: nat)
    requires q <= |ms|
    ensures Scanned(ms, q, total, OnePass(ms, q).open, OnePass(ms, q).ends)
  {
    if q == 0 {
    } else {
      hide Scanned;
      hide Close;
      hide Read;
      OnePassScans(ms, q - 1, total);
      ReadKeepsScanned(ms, OnePass(ms, q - 1), q - 1, total);
    }
  }

  /** The quadratic scan gives the same ends as one pass over the headings with a stack. */
  lemma OnePassFindsEnds(ms: seq<Match>, total: nat)
    ensures var s := OnePass(ms, |ms|);
            var found := Close(ms, s.open, s.ends, 0, total).1;
            forall p: nat :: p < |ms| ==> p in found && found[p] == EndOf(ms, p, total)
  {
    OnePassScans(ms, |ms|, total);
    var s := OnePass(ms, |ms|);
    CloseKeepsScanned(ms, |ms|, total, s.open, s.ends, 0, total);
    assert Close(ms, s.open, s.ends, 0, total).0 == [];
  }

  // ---------------------------------------------------------------- sections

  datatype Section = Section(title: string, body: string)

  /** The plan: an ordered dictionary from rung number to section. */
  type Plan = seq<(string, Section)>

  /** dict assignment: an existing key keeps its place. */
  function Put(plan: Plan, rung: string, section: Section): Plan {
    if plan == [] then [(rung, section)]
    else if plan[0].0 == rung then [(rung, section)] + plan[1..]
    else [plan[0]] + Put(plan[1..], rung, section)
  }

  function Join(lines: seq<string>): string {
    if lines == [] then ""
    else if |lines| == 1 then lines[0]
    else lines[0] + "\n" + Join(lines[1..])
  }

  /** lines[start + 1 : end]. */
  function BodyLines(lines: seq<string>, start: nat, end: nat): seq<string> {
    if start + 1 <= end <= |lines| then lines[start + 1..end] else []
  }

  function SectionOf(lines: seq<string>, ms: seq<Match>, p: nat): Section
    requires p < |ms|
  {
    Section(ms[p].title, Strip(Join(BodyLines(lines, ms[p].start, EndOf(ms, p, |lines|)))))
  }

  function PlanUpTo(lines: seq<string>, ms: seq<Match>, n: nat): Plan
    requires n <= |ms|
  {
    if n == 0 then [] else Put(PlanUpTo(lines, ms, n - 1), ms[n - 1].rung, SectionOf(lines, ms, n - 1))
  }

  function PlanOf(lines: seq<string>): Plan {
    var ms := Matches(lines);
    PlanUpTo(lines, ms, |ms|)
  }

  /** The inner loop: scan forward from one heading for the end of its section. */
  method FindEnd(matches: seq<Match>, position: nat, total: nat) returns (end: nat)
    requires position < |matches|
    ensures end == EndOf(matches, position, total)
  {
    var next := position + 1;
    while next < |matches|
      invariant position < next <= |matches|
      invariant EndFrom(matches, position, position + 1, total) == EndFrom(matches, position, next, total)
    {
      if matches[next].level <= matches[position].level {
        return matches[next].start;
      }
      next := next + 1;
    }
    return total;
  }

  /** The first loop: collect the headings. */
  method FindHeadings(lines: seq<string>) returns (matches: seq<Match>)
    ensures matches == Matches(lines)
  {
    matches := [];
    for index := 0 to |lines|
      invariant matches == Matches(lines[..index])
    {
      assert lines[..index + 1][..index] == lines[..index];
      var heading := ParseHeading(lines[index]);
      if heading.Some? {
        matches := matches + [Match(index, heading.value.level, heading.value.rung, heading.value.title)];
      }
    }
    assert lines[..|lines|] == lines;
  }

  /** The second loop: from each heading, scan forward for the end of its section. */
  method ParseReleasePlan(lines: seq<string>) returns (sections: Plan)
    ensures sections == PlanOf(lines)
  {
    hide Matches;
    hide Strip;
    hide Join;
    var matches := FindHeadings(lines);
    sections := [];
    for position := 0 to |matches|
      invariant sections == PlanUpTo(lines, matches, position)
    {
      var start := matches[position].start;
      var end := FindEnd(matches, position, |lines|);
      var body := Strip(Join(BodyLines(lines, start, end)));
      sections := Put(sections, matches[position].rung, Section(matches[position].title, body));
    }
  }

  // ---------------------------------------------------------------- who owns a term

  function Haystack(s: Section): string {
    NormalizeText(s.title + "\n" + s.body)
  }

  function FindTermOwner(plan: Plan, term: string): string {
    var needle := NormalizeText(term);
    if plan == [] then ""
    else if needle != "" && Contains(Haystack(plan[0].1), needle) then plan[0].0
    else FindTermOwner(plan[1..], term)
  }

  ghost predicate DistinctRungs(ms: seq<Match>) {
    forall i, j :: 0 <= i < j < |ms| ==> ms[i].rung != ms[j].rung
  }

  lemma {:induction false} PutNewAppends(plan: Plan, rung: string, section: Section)
    requires forall i :: 0 <= i < |plan| ==> plan[i].0 != rung
    ensures Put(plan, rung, section) == plan + [(rung, section)]
  {
    if plan == [] {
    } else {
      PutNewAppends(plan[1..], rung, section);
    }
  }

  function EntryOf(lines: seq<string>, ms: seq<Match>, i: nat): (string, Section)
    requires i < |ms|
  {
    (ms[i].rung, SectionOf(lines, ms, i))
  }

  function Entries(lines: seq<string>, ms: seq<Match>, n: nat): (r: Plan)
    requires n <= |ms|
    ensures |r| == n && forall i :: 0 <= i < n ==> r[i] == EntryOf(lines, ms, i)
  {
    if n == 0 then [] else Entries(lines, ms, n - 1) + [EntryOf(lines, ms, n - 1)]
  }

  /** A rung that is there already keeps its place and gets the new section; nothing else changes. */
  lemma {:induction false} PutReplaces(plan: Plan, rung: string, section: Section, i: nat)
    requires i < |plan| && plan[i].0 == rung && forall j :: 0 <= j < i ==> plan[j].0 != rung
    ensures Put(plan, rung, section) == plan[i := (rung, section)]
  {
    if i > 0 {
      PutReplaces(plan[1..], rung, section, i - 1);
      assert plan == [plan[0]] + plan[1..];
    }
  }

  /** The lines below a heading, up to the end of its section, make its body. */
  lemma SectionHoldsItsLines(lines: seq<string>, p: nat)
    requires p < |Matches(lines)|
    ensures var ms := Matches(lines);
            var start, end := ms[p].start, EndOf(ms, p, |lines|);
            && start < end <= |lines|
            && SectionOf(lines, ms, p) == Section(ms[p].title, Strip(Join(lines[start + 1..end])))
  {
    MatchesInOrder(lines);
    EndIsAfterStart(Matches(lines), p, |lines|);
    hide Matches;
    hide Strip;
    hide Join;
    hide EndFrom;
  }

  /** With distinct rung numbers the plan lists every heading's section in line order. */
  lemma {:induction false} PlanListsSections(lines: seq<string>, ms: seq<Match>, n: nat)
    requires n <= |ms| && DistinctRungs(ms)
    ensures PlanUpTo(lines, ms, n) == Entries(lines, ms, n)
  {
    if n == 0 {
    } else {
      PlanListsSections(lines, ms, n - 1);
      var front := Entries(lines, ms, n - 1);
      forall i | 0 <= i < |front| ensures front[i].0 != ms[n - 1].rung {
        assert front[i] == EntryOf(lines, ms, i);
      }
      PutNewAppends(front, ms[n - 1].rung, SectionOf(lines, ms, n - 1));
    }
  }

  /** The owner is the first rung in the plan whose text contains the term. */
  lemma {:induction false} OwnerIsFirst(plan: Plan, term: string) returns (k: nat)
    ensures k <= |plan|
    ensures forall i :: 0 <= i < k ==> !Contains(Haystack(plan[i].1), NormalizeText(term)) || NormalizeText(term) == ""
    ensures if k < |plan| then FindTermOwner(plan, term) == plan[k].0
                               && NormalizeText(term) != "" && Contains(Haystack(plan[k].1), NormalizeText(term))
            else FindTermOwner(plan, term) == ""
  {
    var needle := NormalizeText(term);
    if plan == [] || (needle != "" && Contains(Haystack(plan[0].1), needle)) {
      k := 0;
    } else {
      var j := OwnerIsFirst(plan[1..], term);
      k := j + 1;
    }
  }

  // ---------------------------------------------------------------- containment of sections

  lemma {:induction false} JoinConcat(a: seq<string>, b: seq<string>)
    requires a != [] && b != []
    ensures Join(a + b) == Join(a) + "\n" + Join(b)
  {
    if |a| == 1 {
      assert a + b == [a[0]] + b;
      assert (a + b)[1..] == b;
    } else {
      assert (a + b)[1..] == a[1..] + b;
      JoinConcat(a[1..], b);
    }
  }

  lemma {:induction false} JoinOfSlice(lines: seq<string>, lo: nat, hi: nat)
    requires lo < hi <= |lines|
    ensures Substring(Join(lines[lo..hi]), Join(lines))
  {
    var a, m, b := lines[..lo], lines[lo..hi], lines[hi..];
    assert lines == (a + m) + b;
    var left := if a == [] then "" else Join(a) + "\n";
    var right := if b == [] then "" else "\n" + Join(b);
    if a == [] { assert a + m == m; } else { JoinConcat(a, m); }
    if b == [] { assert (a + m) + b == a + m; } else { JoinConcat(a + m, b); }
    assert Join(lines) == left + Join(m) + right;
  }

  /** A section's haystack, from its unstripped text. */
  lemma HaystackOfText(title: string, text: string)
    ensures Haystack(Section(title, Strip(text))) == Joined(NormalizeText(title), NormalizeText(text))
  {
    NormalizeGap(title, "\n", Strip(text));
    NormalizeOfStrip(text);
  }

  lemma SubstringRefl(s: string)
    ensures Substring(s, s)
  {
    assert s == "" + s + "";
  }

  lemma EmptyIsSubstring(s: string)
    ensures Substring("", s)
  {
    assert s == "" + "" + s;
  }

  lemma JoinedHasSecond(t: string, b: string)
    ensures Substring(b, Joined(t, b))
  {
    if t == "" { SubstringRefl(b); }
    else if b == "" { EmptyIsSubstring(t); }
    else { assert Joined(t, b) == (t + " ") + b + ""; }
  }

  lemma {:induction false} TitledTextInLine(pre: string, title: string, space: string, text: string)
    requires AllSpace(space)
    ensures Substring(Joined(NormalizeText(title), NormalizeText(text)),
                      NormalizeText(pre + title + space + "\n" + text))
  {
    hide NormalizeText;
    hide Joined;
    var gap := space + "\n";
    var rest, whole := title + gap + text, pre + title + space + "\n" + text;
    NormalizeGap(title, gap, text);
    assert whole == pre + rest + "";
    NormalizeKeepsSubstring(rest, whole);
  }

  lemma {:induction false} TitleInLine(pre: string, title: string, space: string)
    ensures Substring(Joined(NormalizeText(title), NormalizeText("")), NormalizeText(pre + title + space))
  {
    assert Joined(NormalizeText(title), "") == NormalizeText(title);
    NormalizeKeepsSubstring(title, pre + title + space);
  }

  /** The heading line and the lines below it hold everything a section's haystack holds. */
  lemma {:induction false} HaystackInLines(lines: seq<string>, start: nat, end: nat, title: string)
    requires start < end <= |lines|
    requires ParseHeading(lines[start]).Some? && ParseHeading(lines[start]).value.title == title
    ensures Substring(Haystack(Section(title, Strip(Join(BodyLines(lines, start, end))))),
                      NormalizeText(Join(lines[start..end])))
  {
    hide ParseHeading;
    var body := BodyLines(lines, start, end);
    HaystackOfText(title, Join(body));
    var pre, space := TitleEndsLine(lines[start]);
    assert lines[start..end] == [lines[start]] + body;
    if body == [] {
      TitleInLine(pre, title, space);
    } else {
      JoinConcat([lines[start]], body);
      TitledTextInLine(pre, title, space, Join(body));
    }
  }

  lemma SliceOfSlice(lines: seq<string>, lo: nat, cs: nat, ce: nat, hi: nat)
    requires lo <= cs <= ce <= hi <= |lines|
    ensures lines[lo..hi][cs - lo..ce - lo] == lines[cs..ce]
  {
    var a, b := lines[lo..hi][cs - lo..ce - lo], lines[cs..ce];
    forall i | 0 <= i < |a| ensures a[i] == b[i] {
      assert a[i] == lines[lo..hi][cs - lo + i] == lines[cs + i];
    }
  }

  lemma {:induction false} LinesInLines(lines: seq<string>, lo: nat, cs: nat, ce: nat, hi: nat)
    requires lo <= cs < ce <= hi <= |lines|
    ensures Substring(NormalizeText(Join(lines[cs..ce])), NormalizeText(Join(lines[lo..hi])))
  {
    var outer := lines[lo..hi];
    SliceOfSlice(lines, lo, cs, ce, hi);
    JoinOfSlice(outer, cs - lo, ce - lo);
    NormalizeKeepsSubstring(Join(lines[cs..ce]), Join(outer));
  }

  lemma TextInHaystack(title: string, text: string)
    ensures Substring(NormalizeText(text), Haystack(Section(title, Strip(text))))
  {
    HaystackOfText(title, text);
    JoinedHasSecond(NormalizeText(title), NormalizeText(text));
  }

  lemma {:induction false} InnerRangeInOuter(
    lines: seq<string>, outer: string, inner: string, ps: nat, pe: nat, cs: nat, ce: nat)
    requires ps < cs < ce <= pe <= |lines|
    requires ParseHeading(lines[cs]).Some? && ParseHeading(lines[cs]).value.title == inner
    ensures Substring(Haystack(Section(inner, Strip(Join(BodyLines(lines, cs, ce))))),
                      Haystack(Section(outer, Strip(Join(BodyLines(lines, ps, pe))))))
  {
    hide Haystack;
    hide NormalizeText;
    hide ParseHeading;
    hide Substring;
    var h := Haystack(Section(inner, Strip(Join(BodyLines(lines, cs, ce)))));
    var below, around := Join(lines[cs..ce]), Join(lines[ps + 1..pe]);
    HaystackInLines(lines, cs, ce, inner);
    LinesInLines(lines, ps + 1, cs, ce, pe);
    TextInHaystack(outer, around);
    SubstringTransitive(h, NormalizeText(below), NormalizeText(around));
    SubstringTransitive(h, NormalizeText(around), Haystack(Section(outer, Strip(around))));
  }

  /** A section inside another adds nothing to what the outer one's haystack holds. */
  lemma {:induction false} InnerHaystackInOuter(lines: seq<string>, ms: seq<Match>, p: nat, c: nat)
    requires ms == Matches(lines) && p < c < |ms|
    requires ms[c].start < EndOf(ms, p, |lines|)
    ensures Substring(Haystack(SectionOf(lines, ms, c)), Haystack(SectionOf(lines, ms, p)))
  {
    MatchesInOrder(lines);
    SectionsAreLaminar(ms, p, c, |lines|);
    EndIsAfterStart(ms, c, |lines|);
    InnerRangeInOuter(lines, ms[p].title, ms[c].title,
                      ms[p].start, EndOf(ms, p, |lines|), ms[c].start, EndOf(ms, c, |lines|));
  }

  lemma EndIsAfterStart(ms: seq<Match>, p: nat, total: nat)
    requires InOrder(ms, total) && p < |ms|
    ensures ms[p].start < EndOf(ms, p, total) <= total
  {
    var stop := EndFromMeaning(ms, p, p + 1, total);
  }

  /** The section of heading c starts inside the section of heading p. */
  ghost predicate Inside(ms: seq<Match>, c: nat, p: nat, total: nat)
    requires c < |ms| && p < |ms|
  {
    ms[p].start < ms[c].start < EndOf(ms, p, total)
  }

  ghost predicate IsOutermost(ms: seq<Match>, c: nat, total: nat)
    requires c < |ms|
  {
    forall p: nat :: p < |ms| ==> !Inside(ms, c, p, total)
  }

  lemma ContainsInherited(inner: string, outer: string, needle: string)
    requires Substring(inner, outer) && Contains(inner, needle)
    ensures Contains(outer, needle)
  {
    ContainsMeansSubstring(inner, needle);
    SubstringTransitive(needle, inner, outer);
    ContainsMeansSubstring(outer, needle);
  }

  lemma LaterHeadingIsLater(lines: seq<string>, c: nat, p: nat)
    requires c < |Matches(lines)| && p < |Matches(lines)| && Matches(lines)[p].start < Matches(lines)[c].start
    ensures p < c
  {
    MatchesInOrder(lines);
  }

  /** The haystack of heading c holds the term. */
  ghost predicate HoldsTerm(lines: seq<string>, needle: string, c: nat) {
    c < |Matches(lines)| && Contains(Haystack(SectionOf(lines, Matches(lines), c)), needle)
  }

  /** A heading whose section lies inside another cannot be the first whose haystack holds the term. */
  lemma {:induction false} InnerIsNotFirst(lines: seq<string>, needle: string, c: nat, p: nat)
    requires HoldsTerm(lines, needle, c) && p < |Matches(lines)| && Inside(Matches(lines), c, p, |lines|)
    ensures p < c && HoldsTerm(lines, needle, p)
  {
    hide Contains;
    hide Haystack;
    hide SectionOf;
    hide Matches;
    LaterHeadingIsLater(lines, c, p);
    InnerHaystackInOuter(lines, Matches(lines), p, c);
    ContainsInherited(Haystack(SectionOf(lines, Matches(lines), c)), Haystack(SectionOf(lines, Matches(lines), p)), needle);
  }

  lemma {:induction false} FirstHolderIsOutermost(lines: seq<string>, needle: string, k: nat)
    requires HoldsTerm(lines, needle, k) && forall i: nat :: i < k ==> !HoldsTerm(lines, needle, i)
    ensures IsOutermost(Matches(lines), k, |lines|)
  {
    hide Contains;
    hide Haystack;
    hide SectionOf;
    hide Matches;
    hide Inside;
    forall p: nat | p < |Matches(lines)| ensures !Inside(Matches(lines), k, p, |lines|) {
      if Inside(Matches(lines), k, p, |lines|) {
        InnerIsNotFirst(lines, needle, k, p);
        assert false;
      }
    }
  }

  /** The rung that find_term_owner names is that of the first section holding the term. */
  lemma {:induction false} OwnerHoldsFirst(lines: seq<string>, term: string) returns (k: nat)
    requires DistinctRungs(Matches(lines)) && FindTermOwner(PlanOf(lines), term) != ""
    ensures HoldsTerm(lines, NormalizeText(term), k) && forall i: nat :: i < k ==> !HoldsTerm(lines, NormalizeText(term), i)
    ensures Matches(lines)[k].rung == FindTermOwner(PlanOf(lines), term)
  {
    var ms := Matches(lines);
    var plan := Entries(lines, ms, |ms|);
    PlanListsSections(lines, ms, |ms|);
    k := OwnerIsFirst(plan, term);
    hide Contains;
    hide Haystack;
    hide SectionOf;
    hide Matches;
    hide NormalizeText;
    hide Entries;
    hide FindTermOwner;
    assert plan[k] == EntryOf(lines, ms, k);
    forall i: nat | i < k ensures !HoldsTerm(lines, NormalizeText(term), i) {
      assert plan[i] == EntryOf(lines, ms, i);
    }
  }

  /**
   The owner of a term is always an outermost rung: with distinct rung numbers, the rung that find_term_owner
   names, if any, belongs to a heading whose section lies inside no other section of the plan.
   */
  lemma {:induction false} OwnerIsOutermost(lines: seq<string>, term: string)
    requires DistinctRungs(Matches(lines))
    ensures var ms, owner := Matches(lines), FindTermOwner(PlanOf(lines), term);
            owner == "" || exists c: nat :: c < |ms| && ms[c].rung == owner && IsOutermost(ms, c, |lines|)
  {
    if FindTermOwner(PlanOf(lines), term) != "" {
      var k := OwnerHoldsFirst(lines, term);
      FirstHolderIsOutermost(lines, NormalizeText(term), k);
    }
  }
}

/**
 The directive-bound line of run.log: how it is written, how it is found again, and when the one
 undoes the other.
 */
module BindLine {
  import opened Options
  import opened Text

  const HASH_LENGTH: nat := 64

  predicate IsHex(c: char) {
    '0' <= c <= '9' || 'a' <= c <= 'f'
  }

  predicate IsWord(c: char) {
    '0' <= c <= '9' || 'a' <= c <= 'z' || 'A' <= c <= 'Z' || c == '_'
  }

  predicate AllHex(s: string) {
    forall i :: 0 <= i < |s| ==> IsHex(s[i])
  }

  predicate IsHash(h: string) {
    |h| == HASH_LENGTH && AllHex(h)
  }

  // ---------------------------------------------------------------- reading

  /** The literal parts of the pattern; any white space may stand between two of them. */
  const PARTS: seq<string> := ["|", "directive-bound", "|", "COMPLETE", "|", "hash="]

  /** What follows the parts, when s starts with them. */
  function MatchParts(s: string, parts: seq<string>): Option<string>
    decreases |parts|
  {
    if parts == [] then Some(s)
    else if !(parts[0] <= s) then None
    else if |parts| == 1 then Some(s[|parts[0]|..])
    else MatchParts(LStrip(s[|parts[0]|..]), parts[1..])
  }

  /** Sixty-four hex digits and then a word boundary. */
  predicate StartsWithHash(r: string) {
    && HASH_LENGTH <= |r| && AllHex(r[..HASH_LENGTH])
    && (HASH_LENGTH < |r| ==> !IsWord(r[HASH_LENGTH]))
  }

  /** The hash, when the pattern matches at the start of s. */
  function MatchBind(s: string): Option<string> {
    match MatchParts(s, PARTS)
    case Some(r) => if StartsWithHash(r) then Some(r[..HASH_LENGTH]) else None
    case None => None
  }

  /** The leftmost match on a line. */
  function SearchLine(line: string): Option<string> {
    if MatchBind(line).Some? then MatchBind(line)
    else if line == "" then None
    else SearchLine(line[1..])
  }

  /** read_bound_hash: the hash of the first line that has one. */
  function BoundHash(text: string): Option<string>
    decreases |text|
  {
    var k := LineLength(text);
    if SearchLine(text[..k]).Some? then SearchLine(text[..k])
    else if k < |text| then BoundHash(text[k + 1..])
    else None
  }

  // ---------------------------------------------------------------- writing

  /** The parts with one space between each two, then r. */
  function Spaced(parts: seq<string>, r: string): string {
    if parts == [] then r
    else if |parts| == 1 then parts[0] + r
    else parts[0] + (" " + Spaced(parts[1..], r))
  }

  function BindText(timestamp: string, hash: string, author: string, authority: string): string {
    timestamp + (" " + Spaced(PARTS, hash + ("; author=" + author + "; authority=" + authority)))
  }

  lemma SpacedStep(part: string, rest: seq<string>, r: string)
    requires rest != []
    ensures Spaced([part] + rest, r) == (part + " ") + Spaced(rest, r)
  {
    assert ([part] + rest)[1..] == rest;
    var tail := Spaced(rest, r);
    hide Spaced;
    assert part + (" " + tail) == (part + " ") + tail;
  }

  lemma Prepend(a: string, b: string, r: string)
    ensures a + (b + r) == (a + b) + r
  {
  }

  lemma LastPartsSpeltOut(r: string)
    ensures Spaced(["COMPLETE", "|", "hash="], r) == "COMPLETE | hash=" + r
  {
    var p4 := ["|", "hash="];
    assert p4 == ["|"] + ["hash="] && ["COMPLETE", "|", "hash="] == ["COMPLETE"] + p4;
    assert Spaced(["hash="], r) == "hash=" + r;
    SpacedStep("|", ["hash="], r);
    SpacedStep("COMPLETE", p4, r);
    hide Spaced;
    Prepend("| ", "hash=", r);
    assert "| " + "hash=" == "| hash=";
    Prepend("COMPLETE ", "| hash=", r);
    assert "COMPLETE " + "| hash=" == "COMPLETE | hash=";
  }

  lemma MiddlePartsSpeltOut(r: string)
    ensures Spaced(["directive-bound", "|", "COMPLETE", "|", "hash="], r) == "directive-bound | COMPLETE | hash=" + r
  {
    var p3, p2 := ["COMPLETE", "|", "hash="], ["|", "COMPLETE", "|", "hash="];
    assert p2 == ["|"] + p3 && ["directive-bound", "|", "COMPLETE", "|", "hash="] == ["directive-bound"] + p2;
    LastPartsSpeltOut(r);
    SpacedStep("|", p3, r);
    SpacedStep("directive-bound", p2, r);
    hide Spaced;
    Prepend("| ", "COMPLETE | hash=", r);
    assert "| " + "COMPLETE | hash=" == "| COMPLETE | hash=";
    Prepend("directive-bound ", "| COMPLETE | hash=", r);
    assert "directive-bound " + "| COMPLETE | hash=" == "directive-bound | COMPLETE | hash=";
  }

  /** The parts, spelt out. */
  lemma PartsSpeltOut(r: string)
    ensures Spaced(PARTS, r) == "| directive-bound | COMPLETE | hash=" + r
  {
    var p1 := ["directive-bound", "|", "COMPLETE", "|", "hash="];
    assert PARTS == ["|"] + p1;
    MiddlePartsSpeltOut(r);
    SpacedStep("|", p1, r);
    hide Spaced;
    Prepend("| ", "directive-bound | COMPLETE | hash=", r);
    assert "| " + "directive-bound | COMPLETE | hash=" == "| directive-bound | COMPLETE | hash=";
  }

  /** The line that is written, spelt out. */
  lemma BindTextIs(timestamp: string, hash: string, author: string, authority: string)
    ensures BindText(timestamp, hash, author, authority)
              == timestamp + (" | directive-bound | COMPLETE | hash=" + (hash + ("; author=" + author + "; authority=" + authority)))
  {
    var r := hash + ("; author=" + author + "; authority=" + authority);
    PartsSpeltOut(r);
    hide Spaced;
    Prepend(" ", "| directive-bound | COMPLETE | hash=", r);
    assert " " + "| directive-bound | COMPLETE | hash=" == " | directive-bound | COMPLETE | hash=";
  }

  /** The digits of a hash, spelt out. */
  lemma HexDigits(c: char)
    ensures IsHex(c) <==> c in "0123456789abcdef"
  {
    var digits := "0123456789abcdef";
    if '0' <= c <= '9' { assert digits[c as int - 48] == c; }
    if 'a' <= c <= 'f' { assert digits[c as int - 87] == c; }
  }

  /** What strftime gives, as far as it matters here: a four-digit year, a hyphen, no bar, one line. */
  predicate IsTimestamp(ts: string) {
    && |ts| > 4 && IsDigit(ts[0]) && IsDigit(ts[1]) && IsDigit(ts[2]) && IsDigit(ts[3]) && ts[4] == '-'
    && '|' !in ts
    && forall i :: 0 <= i < |ts| ==> !IsLineBreak(ts[i])
  }

  predicate Terminated(text: string) {
    text == "" || IsLineBreak(text[|text| - 1])
  }

  // ---------------------------------------------------------------- the log only ever grows at the end

  lemma {:induction false} BoundHashStep(first: string, rest: string)
    requires OneLine(first) && rest != "" && IsLineBreak(rest[0])
    ensures BoundHash(first + rest) == if SearchLine(first).Some? then SearchLine(first) else BoundHash(rest[1..])
  {
    hide SearchLine;
    NoBreakNoEnd(first);
    LineLengthOfConcat(first, rest);
    var text := first + rest;
    assert text[..|first|] == first && text[|first| + 1..] == rest[1..];
  }

  lemma {:induction false} BrokenBound(first: string, c: char, tail: string, more: string)
    requires OneLine(first) && IsLineBreak(c)
    ensures BoundHash(first + [c] + tail) == if SearchLine(first).Some? then SearchLine(first) else BoundHash(tail)
    ensures BoundHash((first + [c] + tail) + more)
              == if SearchLine(first).Some? then SearchLine(first) else BoundHash(tail + more)
  {
    hide BoundHash;
    hide SearchLine;
    hide LineLength;
    assert first + [c] + tail == first + ([c] + tail) && ([c] + tail)[1..] == tail;
    BoundHashStep(first, [c] + tail);
    assert (first + [c] + tail) + more == first + ([c] + (tail + more)) && ([c] + (tail + more))[1..] == tail + more;
    BoundHashStep(first, [c] + (tail + more));
  }

  /** After whole lines, what is appended is read on its own. */
  lemma {:induction false} BoundHashOfConcat(a: string, b: string)
    requires Terminated(a)
    ensures BoundHash(a + b) == if BoundHash(a).Some? then BoundHash(a) else BoundHash(b)
    decreases |a|
  {
    if a == "" {
      assert a + b == b;
    } else {
      var k := LineLength(a);
      assert IsLineBreak(a[|a| - 1]);
      hide BoundHash;
      hide SearchLine;
      hide LineLength;
      assert a == a[..k] + [a[k]] + a[k + 1..];
      BrokenBound(a[..k], a[k], a[k + 1..], b);
      BoundHashOfConcat(a[k + 1..], b);
    }
  }

  // ---------------------------------------------------------------- finding the line just written

  lemma {:induction false} SearchSkips(a: string, b: string)
    requires '|' !in a
    ensures SearchLine(a + b) == SearchLine(b)
  {
    if a == "" {
      assert a + b == b;
    } else {
      assert (a + b)[1..] == a[1..] + b;
      SearchSkips(a[1..], b);
    }
  }

  lemma {:induction false} SpacedMatches(parts: seq<string>, r: string)
    requires parts != []
    requires forall i :: 0 <= i < |parts| ==> parts[i] != "" && !IsSpace(parts[i][0])
    ensures MatchParts(Spaced(parts, r), parts) == Some(r)
    ensures Spaced(parts, r) != "" && !IsSpace(Spaced(parts, r)[0])
    decreases |parts|
  {
    var s := Spaced(parts, r);
    if |parts| == 1 {
      assert s[|parts[0]|..] == r;
    } else {
      var rest := Spaced(parts[1..], r);
      SpacedMatches(parts[1..], r);
      assert s[|parts[0]|..] == " " + rest;
      assert LStrip(" " + rest) == rest;
    }
  }

  lemma PartsAreShown(r: string)
    ensures MatchParts(Spaced(PARTS, r), PARTS) == Some(r)
  {
    SpacedMatches(PARTS, r);
  }

  lemma {:induction false} SpacedConcat(parts: seq<string>, a: string, b: string)
    ensures Spaced(parts, a + b) == Spaced(parts, a) + b
    decreases |parts|
  {
    if |parts| == 1 {
      assert parts[0] + (a + b) == (parts[0] + a) + b;
    } else if |parts| > 1 {
      SpacedConcat(parts[1..], a, b);
      var rest := Spaced(parts[1..], a);
      assert parts[0] + (" " + (rest + b)) == (parts[0] + (" " + rest)) + b;
    }
  }

  lemma {:induction false} SpacedIsOneLine(parts: seq<string>, r: string)
    requires OneLine(r) && forall i :: 0 <= i < |parts| ==> OneLine(parts[i])
    ensures OneLine(Spaced(parts, r))
    decreases |parts|
  {
    if |parts| > 1 {
      SpacedIsOneLine(parts[1..], r);
      assert OneLine(parts[0]);
    } else if |parts| == 1 {
      assert OneLine(parts[0]);
    }
  }

  lemma {:induction false} BindTextSplits(ts: string, hash: string, author: string, authority: string) returns (rest: string)
    ensures BindText(ts, hash, author, authority) + "\n" == ts + (" " + Spaced(PARTS, hash + ";")) + rest
  {
    var more := " author=" + author + "; authority=" + authority;
    rest := more + "\n";
    assert hash + ("; author=" + author + "; authority=" + authority) == (hash + ";") + more;
    SpacedConcat(PARTS, hash + ";", more);
  }

  lemma {:induction false} HeadIsOneLine(ts: string, hash: string)
    requires IsTimestamp(ts) && IsHash(hash)
    ensures OneLine(ts + (" " + Spaced(PARTS, hash + ";")))
  {
    assert forall i :: 0 <= i < |hash| ==> IsHex(hash[i]);
    SpacedIsOneLine(PARTS, hash + ";");
  }

  lemma {:induction false} FirstLineExtends(head: string, rest: string) returns (cut: string)
    requires OneLine(head)
    ensures (head + rest)[..LineLength(head + rest)] == head + cut
  {
    NoBreakNoEnd(head);
    LineLengthOfConcat(head, rest);
    cut := rest[..LineLength(rest)];
  }

  /** The first line of what the bind step writes, and what it holds from the marker on. */
  lemma {:induction false} BindFirstLine(ts: string, hash: string, author: string, authority: string) returns (tail: string)
    requires IsTimestamp(ts) && IsHash(hash)
    ensures var text := BindText(ts, hash, author, authority) + "\n";
            text[..LineLength(text)] == ts + (" " + Spaced(PARTS, hash + tail))
    ensures tail != "" && tail[0] == ';'
  {
    var head := ts + (" " + Spaced(PARTS, hash + ";"));
    var rest := BindTextSplits(ts, hash, author, authority);
    HeadIsOneLine(ts, hash);
    var cut := FirstLineExtends(head, rest);
    tail := ";" + cut;
    SpacedConcat(PARTS, hash + ";", cut);
    assert hash + tail == (hash + ";") + cut;
  }

  lemma {:induction false} MarkerWithHash(hash: string, tail: string)
    requires IsHash(hash) && tail != "" && tail[0] == ';'
    ensures SearchLine(Spaced(PARTS, hash + tail)) == Some(hash)
  {
    PartsAreShown(hash + tail);
    assert (hash + tail)[..HASH_LENGTH] == hash;
  }

  lemma {:induction false} SearchFindsBind(ts: string, hash: string, tail: string)
    requires IsTimestamp(ts) && IsHash(hash) && tail != "" && tail[0] == ';'
    ensures SearchLine(ts + (" " + Spaced(PARTS, hash + tail))) == Some(hash)
  {
    var marker := Spaced(PARTS, hash + tail);
    assert ts + (" " + marker) == (ts + " ") + marker;
    SearchSkips(ts + " ", marker);
    MarkerWithHash(hash, tail);
  }

  /** Written after whole lines, a bind line reads back as the hash that was bound. */
  lemma {:induction false} WrittenBindReadsBack(log: string, ts: string, hash: string, author: string, authority: string)
    requires Terminated(log) && BoundHash(log) == None
    requires IsTimestamp(ts) && IsHash(hash)
    ensures BoundHash(log + (BindText(ts, hash, author, authority) + "\n")) == Some(hash)
  {
    var text := BindText(ts, hash, author, authority) + "\n";
    BoundHashOfConcat(log, text);
    var tail := BindFirstLine(ts, hash, author, authority);
    SearchFindsBind(ts, hash, tail);
  }

  // ---------------------------------------------------------------- when the log does not end in a line break

  /** The log up to and with its last line break. */
  function WholeLines(log: string): string {
    if Terminated(log) then log else WholeLines(log[..|log| - 1])
  }

  /** The unfinished last line of a log. */
  function LastLine(log: string): string {
    if Terminated(log) then "" else LastLine(log[..|log| - 1]) + [log[|log| - 1]]
  }

  lemma {:induction false} LogSplits(log: string)
    ensures log == WholeLines(log) + LastLine(log) && Terminated(WholeLines(log)) && OneLine(LastLine(log))
  {
    if !Terminated(log) { LogSplits(log[..|log| - 1]); }
  }

  /** The digits that stand after an unfinished marker: four short of a hash. */
  function Dangling(s: string): Option<string> {
    match MatchParts(s, PARTS)
    case Some(r) => if |r| == HASH_LENGTH - 4 && AllHex(r) then Some(r) else None
    case None => None
  }

  function DanglingHash(line: string): Option<string> {
    if Dangling(line).Some? then Dangling(line)
    else if line == "" then None
    else DanglingHash(line[1..])
  }

  lemma {:induction false} LStripAcross(s: string, more: string)
    requires more != "" && !IsSpace(more[0])
    ensures LStrip(s + more) == LStrip(s) + more
  {
    if s == "" {
      assert s + more == more;
    } else {
      assert (s + more)[1..] == s[1..] + more;
      if IsSpace(s[0]) { LStripAcross(s[1..], more); }
    }
  }

  /** A part that has no digit cannot reach into text that starts with one. */
  lemma {:induction false} PartStaysInside(part: string, s: string, more: string)
    requires more != "" && IsDigit(more[0]) && forall i :: 0 <= i < |part| ==> !IsDigit(part[i])
    ensures part <= s + more <==> part <= s
  {
    if |part| <= |s| {
      assert (s + more)[..|part|] == s[..|part|];
    } else {
      assert (s + more)[|s|] == more[0] && !IsDigit(part[|s|]);
    }
  }

  ghost predicate NoDigits(part: string) {
    part != "" && !IsSpace(part[0]) && forall i :: 0 <= i < |part| ==> !IsDigit(part[i])
  }

  lemma {:induction false} PartsStayInside(s: string, more: string, parts: seq<string>)
    requires more != "" && IsDigit(more[0]) && parts != []
    requires forall i :: 0 <= i < |parts| ==> NoDigits(parts[i])
    ensures MatchParts(s + more, parts)
              == (match MatchParts(s, parts) case Some(r) => Some(r + more) case None => None)
    decreases |parts|
  {
    var part := parts[0];
    assert NoDigits(part);
    PartStaysInside(part, s, more);
    if part <= s {
      var r := s[|part|..];
      assert (s + more)[|part|..] == r + more;
      if |parts| > 1 {
        LStripAcross(r, more);
        PartsStayInside(LStrip(r), more, parts[1..]);
      }
    }
  }

  /** Four digits and a hyphen complete a hash exactly when four are missing. */
  lemma {:induction false} HashCompleted(r: string, more: string)
    requires |more| > 4 && IsDigit(more[0]) && IsDigit(more[1]) && IsDigit(more[2]) && IsDigit(more[3]) && more[4] == '-'
    requires !StartsWithHash(r)
    ensures StartsWithHash(r + more) <==> |r| == HASH_LENGTH - 4 && AllHex(r)
  {
    var all, n := r + more, |r|;
    if n >= HASH_LENGTH {
      assert all[..HASH_LENGTH] == r[..HASH_LENGTH];
      if n > HASH_LENGTH { assert all[HASH_LENGTH] == r[HASH_LENGTH]; } else { assert all[HASH_LENGTH] == more[0]; }
    } else if n + 4 < HASH_LENGTH {
      if HASH_LENGTH <= |all| { assert all[..HASH_LENGTH][n + 4] == more[4]; }
    } else if n + 4 > HASH_LENGTH {
      assert all[HASH_LENGTH] == more[HASH_LENGTH - n];
    } else {
      assert all[..HASH_LENGTH] == r + more[..4];
      assert all[HASH_LENGTH] == more[4];
      assert forall i :: 0 <= i < n ==> (r + more[..4])[i] == r[i];
    }
  }

  lemma {:induction false} MatchAcross(line: string, more: string)
    requires |more| > 4 && IsDigit(more[0]) && IsDigit(more[1]) && IsDigit(more[2]) && IsDigit(more[3]) && more[4] == '-'
    requires MatchBind(line) == None
    ensures MatchBind(line + more) == (match Dangling(line) case Some(r) => Some(r + more[..4]) case None => None)
  {
    PartsStayInside(line, more, PARTS);
    hide MatchParts;
    if MatchParts(line, PARTS).Some? {
      var r := MatchParts(line, PARTS).value;
      HashCompleted(r, more);
      if |r| == HASH_LENGTH - 4 { assert (r + more)[..HASH_LENGTH] == r + more[..4]; }
    }
  }

  lemma {:induction false} SearchAcross(line: string, more: string)
    requires |more| > 4 && IsDigit(more[0]) && IsDigit(more[1]) && IsDigit(more[2]) && IsDigit(more[3]) && more[4] == '-'
    requires SearchLine(line) == None
    ensures SearchLine(line + more)
              == (match DanglingHash(line) case Some(r) => Some(r + more[..4]) case None => SearchLine(more))
  {
    if line == "" {
      assert line + more == more;
    } else {
      MatchAcross(line, more);
      assert (line + more)[1..] == line[1..] + more;
      SearchAcross(line[1..], more);
      hide MatchBind;
      hide Dangling;
    }
  }

  lemma {:induction false} LineIsNotBound(line: string)
    requires OneLine(line)
    ensures BoundHash(line) == SearchLine(line)
  {
    NoBreakNoEnd(line);
    assert line[..|line|] == line;
  }

  /** The first line after an unfinished one is read as one with it. */
  lemma {:induction false} BoundHashAcross(line: string, text: string)
    requires OneLine(line) && SearchLine(line + text[..LineLength(text)]).Some?
    ensures BoundHash(line + text) == SearchLine(line + text[..LineLength(text)])
  {
    NoBreakNoEnd(line);
    LineLengthOfConcat(line, text);
    assert (line + text)[..LineLength(line + text)] == line + text[..LineLength(text)];
  }

  /** The hash that is read back once hash is bound on a log that has none. */
  function ReadBack(log: string, ts: string, hash: string): string
    requires |ts| >= 4
  {
    match DanglingHash(LastLine(log))
    case Some(digits) => digits + ts[..4]
    case None => hash
  }

  /** What is read back after a bind, on any log without a bound hash. */
  lemma {:induction false} BindReadsBackAs(log: string, ts: string, hash: string, author: string, authority: string)
    requires BoundHash(log) == None && IsTimestamp(ts) && IsHash(hash)
    ensures BoundHash(log + (BindText(ts, hash, author, authority) + "\n")) == Some(ReadBack(log, ts, hash))
  {
    hide BoundHash;
    hide SearchLine;
    hide DanglingHash;
    hide BindText;
    hide LastLine;
    hide WholeLines;
    hide Spaced;
    var text := BindText(ts, hash, author, authority) + "\n";
    LogSplits(log);
    var whole, last := WholeLines(log), LastLine(log);
    BoundHashOfConcat(whole, last);
    LineIsNotBound(last);
    assert log + text == whole + (last + text);
    BoundHashOfConcat(whole, last + text);
    var tail := BindFirstLine(ts, hash, author, authority);
    SearchFindsBind(ts, hash, tail);
    var first := text[..LineLength(text)];
    assert first == ts + (" " + Spaced(PARTS, hash + tail));
    assert first[..4] == ts[..4];
    SearchAcross(last, first);
    BoundHashAcross(last, text);
  }

  /**
   On any log without a bound hash, the bind line reads back as the hash that was bound if and only if
   the log does not end in an unfinished bind line that lacks exactly four hex digits, or the four
   digits of the year happen to complete it to the same hash.
   */
  lemma {:induction false} BindReadsBackExactlyWhen(log: string, ts: string, hash: string, author: string, authority: string)
    requires BoundHash(log) == None && IsTimestamp(ts) && IsHash(hash)
    ensures BoundHash(log + (BindText(ts, hash, author, authority) + "\n")) == Some(hash) <==>
            DanglingHash(LastLine(log)) == None || DanglingHash(LastLine(log)).value + ts[..4] == hash
  {
    hide BoundHash;
    hide DanglingHash;
    hide BindText;
    hide ReadBack;
    BindReadsBackAs(log, ts, hash, author, authority);
    ReadBackIsHash(log, ts, hash);
  }

  lemma ReadBackIsHash(log: string, ts: string, hash: string)
    requires |ts| >= 4
    ensures ReadBack(log, ts, hash) == hash <==>
            DanglingHash(LastLine(log)) == None || DanglingHash(LastLine(log)).value + ts[..4] == hash
  {
  }

  function TotalLength(parts: seq<string>): nat {
    if parts == [] then 0 else |parts[0]| + TotalLength(parts[1..])
  }

  lemma {:induction false} MatchLeavesLess(s: string, parts: seq<string>)
    ensures MatchParts(s, parts).Some? ==> |MatchParts(s, parts).value| + TotalLength(parts) <= |s|
    decreases |parts|
  {
    if parts != [] && parts[0] <= s {
      var r := s[|parts[0]|..];
      if |parts| == 1 {
        assert parts[1..] == [];
      } else {
        LStripSplits(r);
        MatchLeavesLess(LStrip(r), parts[1..]);
      }
    }
  }

  lemma PartsLength()
    ensures TotalLength(PARTS) == 31
  {
    assert PARTS[1..] == ["directive-bound", "|", "COMPLETE", "|", "hash="];
    assert PARTS[1..][1..] == ["|", "COMPLETE", "|", "hash="];
    assert PARTS[1..][1..][1..] == ["COMPLETE", "|", "hash="];
    assert PARTS[1..][1..][1..][1..] == ["|", "hash="];
    assert PARTS[1..][1..][1..][1..][1..] == ["hash="];
    assert PARTS[1..][1..][1..][1..][1..][1..] == [];
  }

  lemma {:induction false} ShortLineHasNoBind(line: string)
    requires |line| < 31 + HASH_LENGTH
    ensures SearchLine(line) == None
  {
    PartsLength();
    MatchLeavesLess(line, PARTS);
    if line == "" {
    } else {
      ShortLineHasNoBind(line[1..]);
    }
  }

  lemma {:induction false} SpacedLength(parts: seq<string>, r: string)
    requires parts != []
    ensures |Spaced(parts, r)| == TotalLength(parts) + |parts| - 1 + |r|
    decreases |parts|
  {
    if |parts| > 1 {
      SpacedLength(parts[1..], r);
    } else {
      assert parts[1..] == [];
    }
  }

  lemma {:induction false} UnfinishedBindIsNoBind(digits: string)
    requires |digits| == HASH_LENGTH - 4
    ensures SearchLine(Spaced(PARTS, digits)) == None
  {
    var s := Spaced(PARTS, digits);
    PartsLength();
    SpacedLength(PARTS, digits);
    PartsAreShown(digits);
    assert s == "|" + (" " + Spaced(PARTS[1..], digits));
    assert s[1..][0] == ' ';
    assert MatchBind(s) == None;
    assert s[1..][1..] == s[2..];
    ShortLineHasNoBind(s[2..]);
    assert SearchLine(s[1..]) == None;
  }

  /** Such logs exist, one for every sixty digits: the hash read back is not the one bound. */
  lemma {:induction false} UnfinishedBindIsCompletedByYear(
    digits: string, ts: string, hash: string, author: string, authority: string)
    requires |digits| == HASH_LENGTH - 4 && AllHex(digits) && IsTimestamp(ts) && IsHash(hash)
    requires digits + ts[..4] != hash
    ensures BoundHash(Spaced(PARTS, digits)) == None
    ensures BoundHash(Spaced(PARTS, digits) + (BindText(ts, hash, author, authority) + "\n")) != Some(hash)
  {
    var log := Spaced(PARTS, digits);
    assert OneLine(log) by {
      assert forall i :: 0 <= i < |digits| ==> IsHex(digits[i]);
      SpacedIsOneLine(PARTS, digits);
    }
    UnfinishedBindIsNoBind(digits);
    LineIsNotBound(log);
    PartsAreShown(digits);
    assert Dangling(log) == Some(digits);
    OneLineIsLastLine(log);
    BindReadsBackExactlyWhen(log, ts, hash, author, authority);
  }

  lemma {:induction false} OneLineIsLastLine(line: string)
    requires OneLine(line)
    ensures LastLine(line) == line
  {
    if line == "" {
    } else {
      OneLineIsLastLine(line[..|line| - 1]);
    }
  }

  // ---------------------------------------------------------------- when a bound hash is bound for good

  lemma {:induction false} LStripExtends(s: string, more: string)
    requires LStrip(s) != ""
    ensures LStrip(s + more) == LStrip(s) + more
  {
    assert (s + more)[1..] == s[1..] + more;
    if IsSpace(s[0]) { LStripExtends(s[1..], more); }
  }

  /** Parts are not empty and do not start with white space. */
  ghost predicate Shown(parts: seq<string>) {
    parts != [] && forall i :: 0 <= i < |parts| ==> parts[i] != "" && !IsSpace(parts[i][0])
  }

  lemma MatchNeedsText(s: string, parts: seq<string>)
    requires Shown(parts) && MatchParts(s, parts).Some?
    ensures s != "" && !IsSpace(s[0])
  {
    assert s[0] == parts[0][0];
  }

  /** Appended text only reaches what follows the parts. */
  lemma {:induction false} MatchExtends(s: string, more: string, parts: seq<string>)
    requires Shown(parts) && MatchParts(s, parts).Some?
    ensures MatchParts(s + more, parts) == Some(MatchParts(s, parts).value + more)
    decreases |parts|
  {
    var n := |parts[0]|;
    assert (s + more)[..n] == s[..n];
    assert (s + more)[n..] == s[n..] + more;
    if |parts| > 1 {
      MatchNeedsText(LStrip(s[n..]), parts[1..]);
      LStripExtends(s[n..], more);
      MatchExtends(LStrip(s[n..]), more, parts[1..]);
    }
  }

  /** A match that ends before the appended text is there without it. */
  lemma {:induction false} MatchShrinks(s: string, more: string, parts: seq<string>)
    requires Shown(parts) && MatchParts(s + more, parts).Some? && |MatchParts(s + more, parts).value| >= |more|
    ensures MatchParts(s, parts).Some?
    decreases |parts|
  {
    var n := |parts[0]|;
    MatchLeavesLess(s + more, parts);
    assert n <= |s|;
    assert (s + more)[..n] == s[..n];
    assert (s + more)[n..] == s[n..] + more;
    if |parts| > 1 {
      var rest := LStrip(s[n..] + more);
      if LStrip(s[n..]) == "" {
        LStripAcrossSpace(s[n..], more);
        MatchLeavesLess(rest, parts[1..]);
        assert false;
      } else {
        LStripExtends(s[n..], more);
        MatchShrinks(LStrip(s[n..]), more, parts[1..]);
      }
    }
  }

  lemma {:induction false} LStripAcrossSpace(s: string, more: string)
    requires LStrip(s) == ""
    ensures LStrip(s + more) == LStrip(more) && |LStrip(more)| <= |more|
  {
    LStripSplits(more);
    if s == "" {
      assert s + more == more;
    } else {
      assert (s + more)[1..] == s[1..] + more;
      LStripAcrossSpace(s[1..], more);
    }
  }

  /** A bar whose next sign is the first letter of the marker's name. */
  predicate BarThenD(s: string) {
    s != "" && s[0] == '|' && LStrip(s[1..]) != "" && LStrip(s[1..])[0] == 'd'
  }

  lemma BarExtends(s: string, more: string)
    requires BarThenD(s)
    ensures BarThenD(s + more)
  {
    LStripExtends(s[1..], more);
    assert (s + more)[1..] == s[1..] + more;
  }

  ghost predicate QuietAt(parts: seq<string>, i: nat)
    requires i < |parts| && Shown(parts)
  {
    if parts[i] == "|" then i + 1 < |parts| && parts[i + 1][0] != 'd' else '|' !in parts[i]
  }

  /** In these parts no bar is followed by the marker's name. */
  ghost predicate Quiet(parts: seq<string>) {
    Shown(parts) && forall i :: 0 <= i < |parts| ==> QuietAt(parts, i)
  }

  /** A position in a string is in the white space it starts with, or after it. */
  lemma PastSpace(s: string, p: nat)
    requires p < |s|
    ensures |LStrip(s)| <= |s|
    ensures var w := |s| - |LStrip(s)|; if p < w then IsSpace(s[p]) else s[p..] == LStrip(s)[p - w..]
  {
    LStripSplits(s);
  }

  lemma QuietTail(parts: seq<string>)
    requires Quiet(parts) && |parts| > 1
    ensures Quiet(parts[1..])
  {
    assert Shown(parts[1..]);
    forall i | 0 <= i < |parts[1..]| ensures QuietAt(parts[1..], i) { assert QuietAt(parts, i + 1); }
  }

  lemma {:induction false} NoBarInside(s: string, parts: seq<string>, p: nat)
    requires Quiet(parts) && MatchParts(s, parts).Some? && p < |s| - |MatchParts(s, parts).value|
    ensures !BarThenD(s[p..])
    decreases |parts|
  {
    var part := parts[0];
    var n := |part|;
    assert QuietAt(parts, 0);
    if p < n {
      assert s[p..][0] == part[p];
      if part == "|" {
        MatchNeedsText(LStrip(s[1..]), parts[1..]);
        assert LStrip(s[1..])[0] == parts[1][0];
      }
    } else if |parts| > 1 {
      var rest := s[n..];
      PastSpace(rest, p - n);
      assert s[p..] == rest[p - n..];
      var w := |rest| - |LStrip(rest)|;
      QuietTail(parts);
      if p - n >= w { NoBarInside(LStrip(rest), parts[1..], p - n - w); }
    }
  }

  lemma PartsAreQuiet()
    ensures Shown(PARTS) && Quiet(PARTS[1..])
  {
    assert PARTS[1..] == ["directive-bound", "|", "COMPLETE", "|", "hash="];
  }

  lemma {:induction false} MatchStartsAtBar(s: string)
    requires MatchParts(s, PARTS).Some?
    ensures BarThenD(s)
  {
    PartsAreQuiet();
    MatchNeedsText(LStrip(s[1..]), PARTS[1..]);
    assert LStrip(s[1..])[0] == PARTS[1][0];
  }

  /** Between the start of a match and what follows its parts no other match can start. */
  lemma {:induction false} NoMatchInside(s: string, p: nat)
    requires MatchParts(s, PARTS).Some? && 0 < p < |s| - |MatchParts(s, PARTS).value|
    ensures !BarThenD(s[p..])
  {
    PartsAreQuiet();
    var rest := s[1..];
    PastSpace(rest, p - 1);
    assert s[p..] == rest[p - 1..];
    var w := |rest| - |LStrip(rest)|;
    if p - 1 >= w { NoBarInside(LStrip(rest), PARTS[1..], p - 1 - w); }
  }

  lemma {:induction false} MatchLeavesEnd(s: string, parts: seq<string>)
    requires MatchParts(s, parts).Some?
    ensures |MatchParts(s, parts).value| <= |s|
    ensures MatchParts(s, parts).value == s[|s| - |MatchParts(s, parts).value|..]
    decreases |parts|
  {
    if |parts| > 1 {
      var rest := s[|parts[0]|..];
      LStripSplits(rest);
      MatchLeavesEnd(LStrip(rest), parts[1..]);
    }
  }

  /** Before a marker, nothing that is not a match becomes one by appending text. */
  lemma {:induction false} EarlierStaysOut(s: string, more: string, q: nat)
    requires 0 < q < |s| && MatchBind(s) == None && BarThenD(s[q..])
    ensures MatchBind(s + more) == None
  {
    PartsAreQuiet();
    if MatchParts(s + more, PARTS).Some? {
      var r' := MatchParts(s + more, PARTS).value;
      if |r'| >= |more| {
        MatchShrinks(s, more, PARTS);
        MatchExtends(s, more, PARTS);
        var r := MatchParts(s, PARTS).value;
        MatchLeavesEnd(s, PARTS);
        if q < |s| - |r| { NoMatchInside(s, q); }
        var b := q - (|s| - |r|);
        assert r[b] == '|' by { assert s[q..][0] == s[q]; }
        BarBreaksHash(r, more, b);
      } else {
        BarExtends(s[q..], more);
        assert (s + more)[q..] == s[q..] + more;
        NoMatchInside(s + more, q);
        assert false;
      }
    }
  }

  lemma BarBreaksHash(r: string, more: string, b: nat)
    requires b < |r| && r[b] == '|' && !StartsWithHash(r)
    ensures !StartsWithHash(r + more)
  {
    if HASH_LENGTH <= |r + more| {
      var front := (r + more)[..HASH_LENGTH];
      if b < HASH_LENGTH {
        assert front[b] == '|';
      } else {
        assert front == r[..HASH_LENGTH];
        assert (r + more)[HASH_LENGTH] == r[HASH_LENGTH];
      }
    }
  }

  /** What follows the parts at the leftmost match on a line. */
  function BindRest(line: string): Option<string> {
    if MatchBind(line).Some? then MatchParts(line, PARTS)
    else if line == "" then None
    else BindRest(line[1..])
  }

  /** The hash on the line is followed by something. */
  predicate Closed(line: string) {
    BindRest(line).Some? && |BindRest(line).value| > HASH_LENGTH
  }

  /** The leftmost match on a line. */
  lemma {:induction false} LeftmostMatch(line: string) returns (q: nat)
    requires SearchLine(line).Some?
    ensures q < |line| && MatchBind(line[q..]) == SearchLine(line) && BarThenD(line[q..])
    ensures MatchParts(line[q..], PARTS) == BindRest(line)
    ensures forall p :: 0 <= p < q ==> MatchBind(line[p..]) == None
  {
    if MatchBind(line).Some? {
      q := 0;
      assert line[0..] == line;
      MatchStartsAtBar(line);
    } else {
      var k := LeftmostMatch(line[1..]);
      q := k + 1;
      assert line[q..] == line[1..][k..];
      forall p | 0 <= p < q ensures MatchBind(line[p..]) == None {
        if p > 0 { assert line[p..] == line[1..][p - 1..]; } else { assert line[0..] == line; }
      }
    }
  }

  lemma {:induction false} FoundAt(line: string, q: nat)
    requires q < |line| && MatchBind(line[q..]).Some? && forall p :: 0 <= p < q ==> MatchBind(line[p..]) == None
    ensures SearchLine(line) == MatchBind(line[q..]) && BindRest(line) == MatchParts(line[q..], PARTS)
  {
    assert line[0..] == line;
    if q == 0 {
    } else {
      assert MatchBind(line[0..]) == None;
      forall p | 0 <= p < q - 1 ensures MatchBind(line[1..][p..]) == None {
        assert line[1..][p..] == line[p + 1..];
      }
      assert line[1..][q - 1..] == line[q..];
      FoundAt(line[1..], q - 1);
    }
  }

  lemma {:induction false} NotFound(line: string)
    requires forall p :: 0 <= p <= |line| ==> MatchBind(line[p..]) == None
    ensures SearchLine(line) == None
  {
    assert line[0..] == line;
    if line == "" {
    } else {
      forall p | 0 <= p <= |line| - 1 ensures MatchBind(line[1..][p..]) == None {
        assert line[1..][p..] == line[p + 1..];
      }
      NotFound(line[1..]);
    }
  }

  lemma {:induction false} EarlierPositionsStayOut(line: string, more: string, q: nat)
    requires q < |line| && BarThenD(line[q..]) && forall p :: 0 <= p < q ==> MatchBind(line[p..]) == None
    ensures forall p :: 0 <= p < q ==> MatchBind((line + more)[p..]) == None
  {
    forall p | 0 <= p < q ensures MatchBind((line + more)[p..]) == None {
      assert (line + more)[p..] == line[p..] + more;
      assert line[p..][q - p..] == line[q..];
      EarlierStaysOut(line[p..], more, q - p);
    }
  }

  /** A hash that something follows is read the same whatever is appended to its line. */
  lemma {:induction false} ClosedLineIsStable(line: string, more: string)
    requires Closed(line)
    ensures SearchLine(line).Some? && SearchLine(line + more) == SearchLine(line)
  {
    FoundIsBound(line);
    var q := LeftmostMatch(line);
    PartsAreQuiet();
    EarlierPositionsStayOut(line, more, q);
    MatchExtends(line[q..], more, PARTS);
    assert (line + more)[q..] == line[q..] + more;
    var r := MatchParts(line[q..], PARTS).value;
    hide MatchParts;
    hide SearchLine;
    hide BarThenD;
    assert (r + more)[..HASH_LENGTH] == r[..HASH_LENGTH] && (r + more)[HASH_LENGTH] == r[HASH_LENGTH];
    FoundAt(line + more, q);
  }

  lemma {:induction false} FoundIsBound(line: string)
    ensures BindRest(line).Some? <==> SearchLine(line).Some?
    ensures BindRest(line).Some? ==> StartsWithHash(BindRest(line).value)
  {
    if line == "" {
    } else {
      FoundIsBound(line[1..]);
    }
  }

  /** A hash that ends its line is lost when a digit is appended. */
  lemma {:induction false} OpenLineIsLost(line: string)
    requires SearchLine(line).Some? && !Closed(line)
    ensures SearchLine(line + "0") == None
  {
    FoundIsBound(line);
    var q := LeftmostMatch(line);
    PartsAreQuiet();
    EarlierPositionsStayOut(line, "0", q);
    var s := line[q..];
    var r := MatchParts(s, PARTS).value;
    MatchExtends(s, "0", PARTS);
    MatchLeavesEnd(s, PARTS);
    assert r[..HASH_LENGTH] == r;
    var all := line + "0";
    forall p | 0 <= p <= |all| ensures MatchBind(all[p..]) == None {
      if p >= q { NoMatchAtOrAfter(s, r, p - q); assert all[p..] == (s + "0")[p - q..]; }
    }
    NotFound(all);
  }

  lemma {:induction false} NoMatchAtOrAfter(s: string, r: string, p: nat)
    requires MatchParts(s, PARTS) == Some(r) && MatchParts(s + "0", PARTS) == Some(r + "0")
    requires |r| == HASH_LENGTH && AllHex(r) && |r| <= |s| && r == s[|s| - |r|..] && p <= |s| + 1
    ensures MatchBind((s + "0")[p..]) == None
  {
    var all := s + "0";
    assert all[0..] == all;
    if p == 0 {
      assert (r + "0")[HASH_LENGTH] == '0';
    } else {
      if p < |all| - |r + "0"| {
        NoMatchInside(all, p);
      } else if p < |s| {
        assert all[p..][0] == r[p - (|s| - |r|)] && IsHex(r[p - (|s| - |r|)]);
      } else if p == |s| {
        assert all[p..] == "0";
      }
      if MatchParts(all[p..], PARTS).Some? { MatchStartsAtBar(all[p..]); }
    }
  }

  /** The bound hash stands on a finished line, or is followed by something on the last one. */
  predicate Settled(log: string) {
    BoundHash(WholeLines(log)).Some? || Closed(LastLine(log))
  }

  lemma {:induction false} SettledStays(log: string, more: string)
    requires Settled(log)
    ensures BoundHash(log).Some? && BoundHash(log + more) == BoundHash(log)
  {
    hide BoundHash;
    hide SearchLine;
    hide Closed;
    hide LastLine;
    hide WholeLines;
    LogSplits(log);
    var whole, last := WholeLines(log), LastLine(log);
    assert log + more == whole + (last + more);
    BoundHashOfConcat(whole, last);
    BoundHashOfConcat(whole, last + more);
    if BoundHash(whole) == None {
      var first := more[..LineLength(more)];
      ClosedLineIsStable(last, first);
      LineIsNotBound(last);
      BoundHashAcross(last, more);
    }
  }

  lemma {:induction false} UnsettledIsLost(log: string)
    requires BoundHash(log).Some? && !Settled(log)
    ensures BoundHash(log + "0") == None
  {
    hide BoundHash;
    hide SearchLine;
    hide Closed;
    hide LastLine;
    hide WholeLines;
    LogSplits(log);
    var whole, last := WholeLines(log), LastLine(log);
    assert log + "0" == whole + (last + "0");
    BoundHashOfConcat(whole, last);
    BoundHashOfConcat(whole, last + "0");
    LineIsNotBound(last);
    OpenLineIsLost(last);
    LineIsNotBound(last + "0");
  }

  /** A bound hash is the one read back from every extension of the log if and only if it is settled. */
  lemma {:induction false} BoundForGoodExactlyWhen(log: string)
    requires BoundHash(log).Some?
    ensures Settled(log) <==> forall more :: BoundHash(log + more) == BoundHash(log)
  {
    hide BoundHash;
    hide Settled;
    if Settled(log) {
      forall more ensures BoundHash(log + more) == BoundHash(log) { SettledStays(log, more); }
    } else {
      UnsettledIsLost(log);
      assert BoundHash(log + "0") != BoundHash(log);
    }
  }

  lemma {:induction false} SettledExtends(log: string, more: string)
    requires Settled(log)
    ensures Settled(log + more) && BoundHash(log + more) == BoundHash(log) && BoundHash(log).Some?
  {
    hide BoundHash;
    hide Settled;
    SettledStays(log, more);
    forall y ensures BoundHash((log + more) + y) == BoundHash(log + more) {
      assert (log + more) + y == log + (more + y);
      SettledStays(log, more + y);
    }
    BoundForGoodExactlyWhen(log + more);
  }
}

/** The string operations of the policy scripts' host language, on sequences of characters. */
module Text {

  /** White space in the sense of str.isspace, str.strip and the regular-expression class \s. */
  predicate IsSpace(c: char) {
    var n := c as int;
    || 9 <= n <= 13 || 28 <= n <= 32 || n == 0x85 || n == 0xA0 || n == 0x1680
    || 0x2000 <= n <= 0x200A || n == 0x2028 || n == 0x2029 || n == 0x202F || n == 0x205F || n == 0x3000
  }

  /** The characters at which str.splitlines cuts. */
  predicate IsLineBreak(c: char) {
    var n := c as int;
    10 <= n <= 13 || 28 <= n <= 30 || n == 0x85 || n == 0x2028 || n == 0x2029
  }

  predicate IsDigit(c: char) { '0' <= c <= '9' }

  function LStrip(s: string): string {
    if s != "" && IsSpace(s[0]) then LStrip(s[1..]) else s
  }

  function RStrip(s: string): string {
    if s != "" && IsSpace(s[|s| - 1]) then RStrip(s[..|s| - 1]) else s
  }

  function Strip(s: string): string {
    LStrip(RStrip(s))
  }

  ghost predicate AllSpace(s: string) {
    forall i :: 0 <= i < |s| ==> IsSpace(s[i])
  }

  /** A string that is empty or begins and ends with something other than white space. */
  ghost predicate Trim(s: string) {
    s != "" ==> !IsSpace(s[0]) && !IsSpace(s[|s| - 1])
  }

  lemma {:induction false} RStripSplits(s: string)
    ensures |RStrip(s)| <= |s| && RStrip(s) == s[..|RStrip(s)|]
    ensures AllSpace(s[|RStrip(s)|..])
    ensures RStrip(s) != "" ==> !IsSpace(RStrip(s)[|RStrip(s)| - 1])
  {
    if s != "" && IsSpace(s[|s| - 1]) {
      var front := s[..|s| - 1];
      RStripSplits(front);
      var r := RStrip(s);
      assert s[|r|..] == front[|r|..] + [s[|s| - 1]];
    }
  }

  lemma {:induction false} LStripSplits(s: string)
    ensures |LStrip(s)| <= |s| && LStrip(s) == s[|s| - |LStrip(s)|..]
    ensures AllSpace(s[..|s| - |LStrip(s)|])
    ensures LStrip(s) != "" ==> !IsSpace(LStrip(s)[0])
  {
    if s != "" && IsSpace(s[0]) {
      LStripSplits(s[1..]);
      var k := |s| - |LStrip(s)|;
      assert s[..k] == [s[0]] + s[1..][..k - 1];
    }
  }

  /** Stripping cuts white space off both ends and leaves a trim middle. */
  lemma StripSplits(s: string) returns (a: string, b: string)
    ensures s == a + Strip(s) + b && AllSpace(a) && AllSpace(b) && Trim(Strip(s))
  {
    RStripSplits(s);
    LStripSplits(RStrip(s));
    var r := RStrip(s);
    a := r[..|r| - |Strip(s)|];
    b := s[|r|..];
  }

  predicate StartsWith(s: string, prefix: string) {
    prefix <= s
  }

  predicate EndsWith(s: string, suffix: string) {
    |suffix| <= |s| && s[|s| - |suffix|..] == suffix
  }

  predicate ContainsFrom(s: string, needle: string, i: nat)
    requires i <= |s|
    decreases |s| - i
  {
    needle <= s[i..] || (i < |s| && ContainsFrom(s, needle, i + 1))
  }

  predicate Contains(s: string, needle: string) {
    ContainsFrom(s, needle, 0)
  }

  /** needle occurs in s: the meaning of Contains. */
  ghost predicate Substring(needle: string, s: string) {
    exists a, b :: s == a + needle + b
  }

  lemma {:induction false} ContainsFromMeaning(s: string, needle: string, i: nat)
    requires i <= |s|
    ensures ContainsFrom(s, needle, i) <==> exists k :: i <= k <= |s| && needle <= s[k..]
    decreases |s| - i
  {
    if i < |s| { ContainsFromMeaning(s, needle, i + 1); }
  }

  lemma OccurrenceIsSubstring(s: string, needle: string, k: nat)
    requires k <= |s| && needle <= s[k..]
    ensures Substring(needle, s)
  {
    var a, b := s[..k], s[k..][|needle|..];
    assert s[k..] == needle + b;
    assert s == a + needle + b;
  }

  lemma SubstringOccurs(s: string, needle: string) returns (k: nat)
    requires Substring(needle, s)
    ensures k <= |s| && needle <= s[k..]
  {
    var a, b :| s == a + needle + b;
    k := |a|;
    assert s == a + (needle + b);
    assert s[k..] == needle + b;
  }

  lemma ContainsMeansSubstring(s: string, needle: string)
    ensures Contains(s, needle) <==> Substring(needle, s)
  {
    ContainsFromMeaning(s, needle, 0);
    if Contains(s, needle) {
      var k :| 0 <= k <= |s| && needle <= s[k..];
      OccurrenceIsSubstring(s, needle, k);
    } else if Substring(needle, s) {
      var k := SubstringOccurs(s, needle);
    }
  }

  lemma SubstringTransitive(a: string, b: string, c: string)
    requires Substring(a, b) && Substring(b, c)
    ensures Substring(a, c)
  {
    var p, q :| b == p + a + q;
    var r, s :| c == r + b + s;
    assert c == (r + p) + a + (q + s);
  }

  function LStripQuotes(s: string): string {
    if s != "" && (s[0] == '"' || s[0] == '\'') then LStripQuotes(s[1..]) else s
  }

  function RStripQuotes(s: string): string {
    if s != "" && (s[|s| - 1] == '"' || s[|s| - 1] == '\'') then RStripQuotes(s[..|s| - 1]) else s
  }

  /** str.strip with the two quote characters. */
  function StripQuotes(s: string): string {
    LStripQuotes(RStripQuotes(s))
  }

  /** Position of the first c in s, or |s|. */
  function IndexOf(s: string, c: char): (k: nat)
    ensures k <= |s|
    ensures k < |s| ==> s[k] == c
    ensures forall i :: 0 <= i < k ==> s[i] != c
  {
    if s == "" || s[0] == c then 0 else 1 + IndexOf(s[1..], c)
  }

  /** ASCII lower case. */
  function Lower(s: string): string {
    if s == "" then "" else [if 'A' <= s[0] <= 'Z' then (s[0] as int + 32) as char else s[0]] + Lower(s[1..])
  }

  /** Capital letters become small ones; every other character stays. */
  lemma {:induction false} LowerMeans(s: string)
    ensures |Lower(s)| == |s|
    ensures forall i :: 0 <= i < |s| ==>
              Lower(s)[i] == if 'A' <= s[i] <= 'Z' then (s[i] as int + 32) as char else s[i]
  {
    if s == "" {
    } else {
      LowerMeans(s[1..]);
      assert forall i :: 1 <= i < |s| ==> s[i] == s[1..][i - 1];
    }
  }

  predicate IsQuote(c: char) {
    c == '"' || c == '\''
  }

  lemma {:induction false} RStripQuotesOf(m: string, b: string)
    requires (m != "" ==> !IsQuote(m[|m| - 1])) && forall i :: 0 <= i < |b| ==> IsQuote(b[i])
    ensures RStripQuotes(m + b) == m
  {
    if b == "" {
      assert m + b == m;
    } else {
      assert (m + b)[..|m + b| - 1] == m + b[..|b| - 1];
      RStripQuotesOf(m, b[..|b| - 1]);
    }
  }

  lemma {:induction false} LStripQuotesOf(a: string, m: string)
    requires (m != "" ==> !IsQuote(m[0])) && forall i :: 0 <= i < |a| ==> IsQuote(a[i])
    ensures LStripQuotes(a + m) == m
  {
    if a == "" {
      assert a + m == m;
    } else {
      assert (a + m)[1..] == a[1..] + m;
      LStripQuotesOf(a[1..], m);
    }
  }

  /** Quotes are taken off both ends, and only there. */
  lemma {:induction false} StripQuotesIsMiddle(a: string, m: string, b: string)
    requires m != "" ==> !IsQuote(m[0]) && !IsQuote(m[|m| - 1])
    requires (forall i :: 0 <= i < |a| ==> IsQuote(a[i])) && (forall i :: 0 <= i < |b| ==> IsQuote(b[i]))
    ensures StripQuotes(a + m + b) == m
  {
    if m == "" {
      assert a + m + b == "" + (a + b);
      RStripQuotesOf("", a + b);
      assert "" + "" == "";
      LStripQuotesOf("", "");
    } else {
      assert a + m + b == (a + m) + b;
      RStripQuotesOf(a + m, b);
      LStripQuotesOf(a, m);
    }
  }

  // ---------------------------------------------------------------- lines

  /** Length of the first line of text. */
  function LineLength(text: string): (k: nat)
    ensures k <= |text|
    ensures k < |text| ==> IsLineBreak(text[k])
    ensures forall i :: 0 <= i < k ==> !IsLineBreak(text[i])
  {
    if text == "" || IsLineBreak(text[0]) then 0 else 1 + LineLength(text[1..])
  }

  ghost predicate OneLine(s: string) {
    forall i :: 0 <= i < |s| ==> !IsLineBreak(s[i])
  }

  lemma {:induction false} LineLengthOfConcat(a: string, b: string)
    ensures LineLength(a + b) == if LineLength(a) < |a| then LineLength(a) else |a| + LineLength(b)
  {
    if a == "" {
      assert a + b == b;
    } else {
      assert (a + b)[1..] == a[1..] + b;
      LineLengthOfConcat(a[1..], b);
    }
  }

  lemma NoBreakNoEnd(s: string)
    requires OneLine(s)
    ensures LineLength(s) == |s|
  {
  }

  /** str.splitlines. */
  function Lines(text: string): seq<string>
    decreases |text|
  {
    if text == "" then []
    else
      var k := LineLength(text);
      [text[..k]] + if k < |text| then Lines(text[k + 1..]) else []
  }

  lemma {:induction false} LinesStep(first: string, rest: string)
    requires OneLine(first) && rest != "" && IsLineBreak(rest[0])
    ensures Lines(first + rest) == [first] + Lines(rest[1..])
  {
    NoBreakNoEnd(first);
    LineLengthOfConcat(first, rest);
    var text := first + rest;
    assert text[..|first|] == first && text[|first| + 1..] == rest[1..];
  }

  lemma {:induction false} LinesOfOne(line: string)
    requires OneLine(line) && line != ""
    ensures Lines(line) == [line]
  {
    NoBreakNoEnd(line);
    assert line[..|line|] == line;
  }

  lemma {:induction false} FirstLineOf(text: string)
    requires text != ""
    ensures Lines(text) != [] && Lines(text)[0] == text[..LineLength(text)]
  {
  }

  lemma {:induction false} LastLineExtends(line: string, more: string) returns (longer: string)
    requires OneLine(line) && line != ""
    ensures longer in Lines(line + more) && line <= longer
  {
    hide Lines;
    NoBreakNoEnd(line);
    LineLengthOfConcat(line, more);
    FirstLineOf(line + more);
    longer := (line + more)[..LineLength(line + more)];
  }

  lemma {:induction false} BrokenLines(first: string, c: char, tail: string, more: string)
    requires OneLine(first) && IsLineBreak(c)
    ensures Lines(first + [c] + tail) == [first] + Lines(tail)
    ensures Lines((first + [c] + tail) + more) == [first] + Lines(tail + more)
  {
    hide Lines;
    hide LineLength;
    assert first + [c] + tail == first + ([c] + tail) && ([c] + tail)[1..] == tail;
    LinesStep(first, [c] + tail);
    assert (first + [c] + tail) + more == first + ([c] + (tail + more)) && ([c] + (tail + more))[1..] == tail + more;
    LinesStep(first, [c] + (tail + more));
  }

  lemma FirstLineIsOneLine(text: string)
    ensures OneLine(text[..LineLength(text)])
  {
  }

  /** A text is its first line, or that, a line break, and the lines after it. */
  lemma {:induction false} FirstLineSplits(text: string)
    requires text != ""
    ensures var k := LineLength(text);
            if k < |text| then text == text[..k] + [text[k]] + text[k + 1..] && Lines(text) == [text[..k]] + Lines(text[k + 1..])
            else OneLine(text) && Lines(text) == [text]
  {
    var k := LineLength(text);
    FirstLineIsOneLine(text);
    hide LineLength;
    assert k == |text| ==> text[..k] == text;
  }

  lemma InFirstOrRest(line: string, first: string, rest: seq<string>)
    requires line in [first] + rest
    ensures line == first || line in rest
  {
  }

  /** Appending text keeps every line, or extends it if it was the last. */
  lemma {:induction false} LinesOfConcat(a: string, b: string, line: string) returns (longer: string)
    requires line in Lines(a)
    ensures longer in Lines(a + b) && line <= longer
    decreases |a|
  {
    assert a != "";
    FirstLineSplits(a);
    FirstLineIsOneLine(a);
    var k := LineLength(a);
    hide *;
    if k < |a| {
      var first, tail := a[..k], a[k + 1..];
      BrokenLines(first, a[k], tail, b);
      InFirstOrRest(line, first, Lines(tail));
      if line == first {
        longer := line;
      } else {
        longer := LinesOfConcat(tail, b, line);
      }
    } else {
      longer := LastLineExtends(a, b);
    }
  }
}

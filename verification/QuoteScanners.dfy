/**
 The two quote-aware line scanners: one finds a comment, the other blanks out what is quoted.
 They run the same three-flag automaton and must agree on what counts as quoted.
 */
module QuoteScanners {
  import opened Text

  datatype Quotes = Quotes(single: bool, double: bool, escaped: bool)

  const OPEN := Quotes(false, false, false)

  function Advance(q: Quotes, c: char): Quotes {
    if q.escaped then q.(escaped := false)
    else if c == '\\' && q.double then q.(escaped := true)
    else if c == '\'' && !q.double then q.(single := !q.single)
    else if c == '"' && !q.single then q.(double := !q.double)
    else q
  }

  /** The flags after the first n characters. */
  function After(line: string, n: nat): Quotes
    requires n <= |line|
  {
    if n == 0 then OPEN else Advance(After(line, n - 1), line[n - 1])
  }

  /** Quoted or quoting: the character is not shown outside quotes. */
  predicate Hides(q: Quotes, c: char) {
    q.escaped || q.single || q.double || c == '\'' || c == '"'
  }

  function OutsideUpTo(line: string, n: nat): (r: string)
    requires n <= |line|
    ensures |r| == n
    ensures forall i :: 0 <= i < n ==> r[i] == if Hides(After(line, i), line[i]) then ' ' else line[i]
  {
    if n == 0 then ""
    else OutsideUpTo(line, n - 1) + [if Hides(After(line, n - 1), line[n - 1]) then ' ' else line[n - 1]]
  }

  function Outside(line: string): string {
    OutsideUpTo(line, |line|)
  }

  /** A comment starts at i, judged on the blanked-out line. */
  predicate ShowsComment(line: string, i: nat)
    requires i < |line|
  {
    Outside(line)[i] == '#' && (i == 0 || IsSpace(line[i - 1]))
  }

  /** First position from i on at which a comment shows, or the length of the line. */
  function FirstComment(line: string, i: nat): (k: nat)
    requires i <= |line|
    ensures i <= k <= |line|
    ensures k < |line| ==> ShowsComment(line, k)
    ensures forall j :: i <= j < k ==> !ShowsComment(line, j)
    decreases |line| - i
  {
    if i == |line| || ShowsComment(line, i) then i else FirstComment(line, i + 1)
  }

  /** What stripping comments means, in terms of the other scanner. */
  function StripComment(line: string): string {
    var k := FirstComment(line, 0);
    if k < |line| then RStrip(line[..k]) else line
  }

  lemma {:induction false} FlagsAreConsistent(line: string, n: nat)
    requires n <= |line|
    ensures !(After(line, n).single && After(line, n).double)
    ensures After(line, n).escaped ==> After(line, n).double
  {
    if n == 0 {
    } else {
      FlagsAreConsistent(line, n - 1);
    }
  }

  lemma {:induction false} AfterOfPrefix(line: string, k: nat, n: nat)
    requires n <= k <= |line|
    ensures After(line[..k], n) == After(line, n)
  {
    if n == 0 {
    } else {
      AfterOfPrefix(line, k, n - 1);
    }
  }

  /** Prefixes show the same comments. */
  lemma {:induction false} PrefixShowsSame(line: string, k: nat, i: nat)
    requires i < k <= |line|
    ensures ShowsComment(line[..k], i) <==> ShowsComment(line, i)
  {
    AfterOfPrefix(line, k, i);
  }

  /** Blanking keeps the length and shows nothing that is not there. */
  lemma OutsideOnlyBlanks(line: string)
    ensures |Outside(line)| == |line|
    ensures forall i :: 0 <= i < |line| ==> Outside(line)[i] == line[i] || Outside(line)[i] == ' '
    ensures forall i :: 0 <= i < |line| && Outside(line)[i] == '#' ==> After(line, i) == OPEN
  {
  }

  /** Stripping returns a prefix, and stripping twice strips no more. */
  lemma StripCommentIdempotent(line: string)
    ensures StripComment(line) <= line
    ensures StripComment(StripComment(line)) == StripComment(line)
  {
    var k := FirstComment(line, 0);
    if k < |line| {
      RStripSplits(line[..k]);
      var n := |StripComment(line)|;
      assert StripComment(line) == line[..n];
      var j := FirstComment(line[..n], 0);
      if j < n { PrefixShowsSame(line, n, j); }
    }
  }

  /** After stripping there is no comment left to show. */
  lemma NoCommentSurvives(line: string, i: nat)
    requires i < |StripComment(line)|
    ensures !ShowsComment(StripComment(line), i)
  {
    StripCommentIdempotent(line);
    var n := |StripComment(line)|;
    var k := FirstComment(line, 0);
    if k < |line| { RStripSplits(line[..k]); }
    assert StripComment(line) == line[..n];
    PrefixShowsSame(line, n, i);
  }

  const IN_SINGLE := Quotes(true, false, false)
  const IN_DOUBLE := Quotes(false, true, false)

  lemma {:induction false} StaysQuoted(line: string, lo: nat, hi: nat, q: Quotes)
    requires lo <= hi <= |line| && After(line, lo) == q
    requires || (q == IN_SINGLE && forall i :: lo <= i < hi ==> line[i] != '\'')
             || (q == IN_DOUBLE && forall i :: lo <= i < hi ==> line[i] != '"' && line[i] != '\\')
    ensures forall n :: lo <= n <= hi ==> After(line, n) == q
    decreases hi - lo
  {
    if lo < hi { StaysQuoted(line, lo + 1, hi, q); }
  }

  /** What stands between two quotes of one kind, seen from outside any quote, is hidden, and so are they; then all is open again. */
  lemma {:induction false} QuotedIsHidden(line: string, lo: nat, hi: nat, quote: char)
    requires lo < hi < |line| && After(line, lo) == OPEN && line[lo] == quote && line[hi] == quote
    requires || (quote == '\'' && forall i :: lo < i < hi ==> line[i] != '\'')
             || (quote == '"' && forall i :: lo < i < hi ==> line[i] != '"' && line[i] != '\\')
    ensures forall i :: lo <= i <= hi ==> Outside(line)[i] == ' '
    ensures After(line, hi + 1) == OPEN
  {
    var q := if quote == '\'' then IN_SINGLE else IN_DOUBLE;
    assert After(line, lo + 1) == q;
    StaysQuoted(line, lo + 1, hi, q);
  }

  /** Inside double quotes, a backslash takes the next character with it: not even a quote ends the quotation. */
  lemma {:induction false} EscapedIsHidden(line: string, i: nat)
    requires i + 1 < |line| && After(line, i) == IN_DOUBLE && line[i] == '\\'
    ensures After(line, i + 2) == IN_DOUBLE && Outside(line)[i] == ' ' && Outside(line)[i + 1] == ' '
  {
    assert After(line, i + 1) == Quotes(false, true, true);
  }

  /** Outside quotes every character but a quote is shown, and leaves things open; the backslash among them. */
  lemma {:induction false} OpenIsShown(line: string, i: nat)
    requires i < |line| && After(line, i) == OPEN && !IsQuote(line[i])
    ensures After(line, i + 1) == OPEN && Outside(line)[i] == line[i]
  {
  }

  /** The comment scanner, flag by flag, finds the cut that the blanked-out line shows. */
  method StripYamlComment(line: string) returns (r: string)
    ensures r == StripComment(line)
  {
    var inSingle, inDouble, escaped := false, false, false;
    var index := 0;
    while index < |line|
      invariant 0 <= index <= |line|
      invariant Quotes(inSingle, inDouble, escaped) == After(line, index)
      invariant FirstComment(line, 0) == FirstComment(line, index)
    {
      FlagsAreConsistent(line, index);
      var c := line[index];
      if escaped {
        escaped := false;
      } else if c == '\\' && inDouble {
        escaped := true;
      } else if c == '\'' && !inDouble {
        inSingle := !inSingle;
      } else if c == '"' && !inSingle {
        inDouble := !inDouble;
      } else if c == '#' && !inSingle && !inDouble {
        if index == 0 || IsSpace(line[index - 1]) {
          return RStrip(line[..index]);
        }
      }
      index := index + 1;
    }
    return line;
  }

  /** The blanking scanner. */
  method OutsideQuotes(line: string) returns (chars: string)
    ensures chars == Outside(line)
  {
    var inSingle, inDouble, escaped := false, false, false;
    chars := "";
    for index := 0 to |line|
      invariant Quotes(inSingle, inDouble, escaped) == After(line, index)
      invariant chars == OutsideUpTo(line, index)
    {
      FlagsAreConsistent(line, index);
      var c := line[index];
      if escaped {
        chars := chars + [' '];
        escaped := false;
      } else if c == '\\' && inDouble {
        chars := chars + [' '];
        escaped := true;
      } else if c == '\'' && !inDouble {
        inSingle := !inSingle;
        chars := chars + [' '];
      } else if c == '"' && !inSingle {
        inDouble := !inDouble;
        chars := chars + [' '];
      } else {
        chars := chars + [if inSingle || inDouble then ' ' else c];
      }
    }
  }
}

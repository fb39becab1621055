/** Text normalisation for cross-file comparison, and why it respects containment. */
module Normalize {
  import opened Text

  /** Em and en dashes become hyphens, capitals become small letters. */
  function Fold(c: char): char {
    if c as int == 0x2014 || c as int == 0x2013 then '-'
    else if 'A' <= c <= 'Z' then ((c as int) + 32) as char
    else c
  }

  function FoldAll(s: string): string {
    if s == "" then "" else [Fold(s[0])] + FoldAll(s[1..])
  }

  /** Every run of white space becomes one space; afterSpace says that one was just written. */
  function Collapse(s: string, afterSpace: bool): string {
    if s == "" then ""
    else if IsSpace(s[0]) then (if afterSpace then "" else " ") + Collapse(s[1..], true)
    else [s[0]] + Collapse(s[1..], false)
  }

  function NormalizeText(value: string): string {
    Collapse(Strip(FoldAll(value)), false)
  }

  lemma {:induction false} FoldAllConcat(a: string, b: string)
    ensures FoldAll(a + b) == FoldAll(a) + FoldAll(b)
  {
    if a == "" {
      assert a + b == b;
    } else {
      assert (a + b)[1..] == a[1..] + b;
      FoldAllConcat(a[1..], b);
    }
  }

  lemma {:induction false} FoldAllPointwise(s: string)
    ensures |FoldAll(s)| == |s|
    ensures forall i :: 0 <= i < |s| ==> FoldAll(s)[i] == Fold(s[i])
  {
    if s == "" {
    } else {
      FoldAllPointwise(s[1..]);
    }
  }

  lemma FoldAllKeepsSpace(s: string)
    requires AllSpace(s)
    ensures AllSpace(FoldAll(s)) && |FoldAll(s)| == |s|
  {
    FoldAllPointwise(s);
  }

  lemma CollapseStep(s: string, f: bool)
    requires s != ""
    ensures Collapse(s, f) == (if IsSpace(s[0]) then (if f then "" else " ") else [s[0]]) + Collapse(s[1..], IsSpace(s[0]))
  {
    hide IsSpace;
  }

  /** Whether a space was just written, once s has been read. */
  function SpaceAfter(s: string, f: bool): bool {
    if s == "" then f else IsSpace(s[|s| - 1])
  }

  lemma SpaceAfterTail(s: string, f: bool)
    requires s != ""
    ensures SpaceAfter(s, f) == SpaceAfter(s[1..], IsSpace(s[0]))
  {
    hide IsSpace;
  }

  lemma Assoc(a: string, b: string, c: string)
    ensures a + (b + c) == (a + b) + c
  {
  }

  lemma {:induction false} CollapseConcat(a: string, b: string, f: bool)
    ensures Collapse(a + b, f) == Collapse(a, f) + Collapse(b, if a == "" then f else IsSpace(a[|a| - 1]))
  {
    hide IsSpace;
    hide Collapse;
    CollapseConcatAfter(a, b, f);
  }

  lemma {:induction false} CollapseConcatAfter(a: string, b: string, f: bool)
    ensures Collapse(a + b, f) == Collapse(a, f) + Collapse(b, SpaceAfter(a, f))
  {
    if a == "" {
      assert a + b == b && Collapse("", f) == "";
    } else {
      hide IsSpace;
      hide Collapse;
      var s := IsSpace(a[0]);
      var head := if s then (if f then "" else " ") else [a[0]];
      CollapseStep(a, f);
      CollapseStep(a + b, f);
      SpaceAfterTail(a, f);
      hide SpaceAfter;
      assert (a + b)[1..] == a[1..] + b;
      CollapseConcatAfter(a[1..], b, s);
      Assoc(head, Collapse(a[1..], s), Collapse(b, SpaceAfter(a, f)));
    }
  }

  lemma {:induction false} CollapseSpace(w: string, f: bool)
    requires AllSpace(w) && w != ""
    ensures Collapse(w, f) == if f then "" else " "
  {
    if |w| > 1 { CollapseSpace(w[1..], true); }
  }

  lemma {:induction false} LStripOfConcat(w: string, m: string)
    requires AllSpace(w) && (m != "" ==> !IsSpace(m[0]))
    ensures LStrip(w + m) == m
  {
    if w == "" {
      assert w + m == m;
    } else {
      assert (w + m)[1..] == w[1..] + m;
      LStripOfConcat(w[1..], m);
    }
  }

  lemma {:induction false} RStripOfConcat(m: string, w: string)
    requires AllSpace(w) && (m != "" ==> !IsSpace(m[|m| - 1]))
    ensures RStrip(m + w) == m
  {
    if w == "" {
      assert m + w == m;
    } else {
      assert (m + w)[..|m + w| - 1] == m + w[..|w| - 1];
      RStripOfConcat(m, w[..|w| - 1]);
    }
  }

  /** Stripping is determined by any way of cutting a trim middle out of white space. */
  lemma StripIsMiddle(a: string, m: string, b: string)
    requires AllSpace(a) && AllSpace(b) && Trim(m)
    ensures Strip(a + m + b) == m
  {
    if m == "" {
      assert a + m + b == "" + (a + b);
      RStripOfConcat("", a + b);
    } else {
      assert a + m + b == (a + m) + b;
      RStripOfConcat(a + m, b);
      LStripOfConcat(a, m);
    }
  }

  /** Around a non-empty trim middle, stripping only touches the outside. */
  lemma StripAround(p: string, m: string, q: string) returns (p': string, q': string)
    requires Trim(m) && m != ""
    ensures Strip(p + m + q) == p' + m + q'
    ensures p' != "" ==> !IsSpace(p'[0])
  {
    p', q' := LStrip(p), RStrip(q);
    LStripSplits(p);
    RStripSplits(q);
    var a, b := p[..|p| - |p'|], q[|q'|..];
    var mid := p' + m + q';
    assert p + m + q == a + mid + b;
    assert Trim(mid);
    StripIsMiddle(a, mid, b);
  }

  lemma {:induction false} CollapseOfTrim(m: string, f: bool)
    requires m != "" && !IsSpace(m[0])
    ensures Collapse(m, f) == Collapse(m, false)
  {
  }

  lemma {:induction false} CollapseMiddle(l: string, m: string, r: string)
    requires m != "" && !IsSpace(m[0])
    ensures Substring(Collapse(m, false), Collapse(l + m + r, false))
  {
    CollapseConcat(l + m, r, false);
    CollapseConcat(l, m, false);
    CollapseOfTrim(m, if l == "" then false else IsSpace(l[|l| - 1]));
    var rest := Collapse(r, IsSpace((l + m)[|l + m| - 1]));
    assert Collapse(l + m + r, false) == Collapse(l, false) + Collapse(m, false) + rest;
  }

  /** Normalising respects containment. */
  lemma {:induction false} NormalizeKeepsSubstring(x: string, y: string)
    requires Substring(x, y)
    ensures Substring(NormalizeText(x), NormalizeText(y))
  {
    hide Strip;
    hide FoldAll;
    var p, q :| y == p + x + q;
    var m := Strip(FoldAll(x));
    if m == "" {
      assert NormalizeText(y) == "" + NormalizeText(x) + NormalizeText(y);
    } else {
      var a, b := StripSplits(FoldAll(x));
      var left, right := FoldAll(p) + a, b + FoldAll(q);
      assert FoldAll(y) == left + m + right by {
        FoldAllConcat(p + x, q);
        FoldAllConcat(p, x);
      }
      var l, r := StripAround(left, m, right);
      CollapseMiddle(l, m, r);
    }
  }

  /** Two parts joined by white space: only the parts matter, not the space between or around them. */
  function Joined(t: string, b: string): string {
    if t == "" then b else if b == "" then t else t + " " + b
  }

  lemma {:induction false} CollapseNonEmpty(m: string)
    requires m != "" && !IsSpace(m[0])
    ensures Collapse(m, false) != ""
  {
  }

  lemma {:induction false} CollapseGap(m1: string, g: string, m2: string)
    requires Trim(m1) && Trim(m2) && m1 != "" && m2 != "" && AllSpace(g) && g != ""
    ensures Collapse(m1 + g + m2, false) == Collapse(m1, false) + " " + Collapse(m2, false)
  {
    CollapseConcat(m1 + g, m2, false);
    CollapseConcat(m1, g, false);
    CollapseSpace(g, false);
    CollapseOfTrim(m2, true);
  }

  lemma {:induction false} StripGap(t: string, w: string, b: string) returns (g: string)
    requires AllSpace(w) && w != ""
    ensures AllSpace(g) && g != ""
    ensures Strip(t + w + b) ==
              if Strip(t) == "" then Strip(b) else if Strip(b) == "" then Strip(t) else Strip(t) + g + Strip(b)
  {
    hide Strip;
    var a1, b1 := StripSplits(t);
    var a2, b2 := StripSplits(b);
    var m1, m2 := Strip(t), Strip(b);
    g := b1 + w + a2;
    if m1 == "" {
      assert t + w + b == (a1 + g) + m2 + b2;
      StripIsMiddle(a1 + g, m2, b2);
    } else if m2 == "" {
      assert t + w + b == a1 + m1 + (g + b2);
      StripIsMiddle(a1, m1, g + b2);
    } else {
      assert t + w + b == a1 + (m1 + g + m2) + b2;
      StripIsMiddle(a1, m1 + g + m2, b2);
    }
  }

  lemma StripIsTrim(s: string)
    ensures Trim(Strip(s))
  {
    var a, b := StripSplits(s);
  }

  lemma {:induction false} NormalizeGap(t: string, w: string, b: string)
    requires AllSpace(w) && w != ""
    ensures NormalizeText(t + w + b) == Joined(NormalizeText(t), NormalizeText(b))
  {
    FoldAllConcat(t + w, b);
    FoldAllConcat(t, w);
    FoldAllKeepsSpace(w);
    var m1, m2 := Strip(FoldAll(t)), Strip(FoldAll(b));
    var g := StripGap(FoldAll(t), FoldAll(w), FoldAll(b));
    StripIsTrim(FoldAll(t));
    StripIsTrim(FoldAll(b));
    if m1 != "" { CollapseNonEmpty(m1); }
    if m2 != "" { CollapseNonEmpty(m2); }
    if m1 != "" && m2 != "" { CollapseGap(m1, g, m2); }
  }

  lemma {:induction false} NormalizeOfStrip(s: string)
    ensures NormalizeText(Strip(s)) == NormalizeText(s)
  {
    var a, b := StripSplits(s);
    FoldAllConcat(a + Strip(s), b);
    FoldAllConcat(a, Strip(s));
    FoldAllKeepsSpace(a);
    FoldAllKeepsSpace(b);
    FoldAllPointwise(Strip(s));
    var m := FoldAll(Strip(s));
    assert Trim(m);
    StripIsMiddle(FoldAll(a), m, FoldAll(b));
    assert "" + m + "" == m;
    StripIsMiddle("", m, "");
  }

  /** The same letter, or two of the three dashes. */
  predicate SameLetter(a: char, b: char) {
    || a == b
    || ('A' <= a <= 'Z' && b as int == a as int + 32)
    || ('A' <= b <= 'Z' && a as int == b as int + 32)
    || (IsDash(a) && IsDash(b))
  }

  predicate IsDash(c: char) {
    c == '-' || c as int == 0x2013 || c as int == 0x2014
  }

  /** Folding makes two characters equal exactly when they are the same letter, or dashes. */
  lemma FoldMeans(a: char, b: char)
    ensures Fold(a) == Fold(b) <==> SameLetter(a, b)
  {
  }

  /** Case and the kind of dash do not matter to normalised texts. */
  lemma {:induction false} CaseAndDashesDoNotMatter(x: string, y: string)
    requires |x| == |y| && forall i :: 0 <= i < |x| ==> SameLetter(x[i], y[i])
    ensures NormalizeText(x) == NormalizeText(y)
  {
    FoldAllPointwise(x);
    FoldAllPointwise(y);
    forall i | 0 <= i < |x| ensures FoldAll(x)[i] == FoldAll(y)[i] { FoldMeans(x[i], y[i]); }
    hide FoldAll;
    assert FoldAll(x) == FoldAll(y);
  }

  /** Nor does white space around a text. */
  lemma {:induction false} OuterSpaceDoesNotMatter(a: string, x: string, b: string)
    requires AllSpace(a) && AllSpace(b)
    ensures NormalizeText(a + x + b) == NormalizeText(x)
  {
    var p, q := StripSplits(x);
    var m := Strip(x);
    NormalizeOfStrip(x);
    NormalizeOfStrip(a + x + b);
    assert a + x + b == (a + p) + m + (q + b);
    StripIsMiddle(a + p, m, q + b);
    hide NormalizeText;
  }
}

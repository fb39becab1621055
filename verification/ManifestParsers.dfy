/**
 Three line parsers of one small YAML subset: the manifest schema check's, the path check's and
 the scope lock's.  Each is a loop over the lines of a file; they have to read the same text alike.
 */
module ManifestParsers {
  import opened Options
  import opened Text
  import opened QuoteScanners

  datatype Field = Scalar(text: string) | List(items: seq<string>)

  /** The line each parser looks at: trailing space and comments gone. */
  function Clean(raw: string): string {
    StripComment(RStrip(raw))
  }

  predicate IsItem(stripped: string) {
    StartsWith(stripped, "- ")
  }

  function ItemOf(stripped: string): string
    requires IsItem(stripped)
  {
    StripQuotes(Strip(stripped[2..]))
  }

  predicate HasColon(stripped: string) {
    IndexOf(stripped, ':') < |stripped|
  }

  function KeyOf(stripped: string): string {
    Strip(stripped[..IndexOf(stripped, ':')])
  }

  function ValueOf(stripped: string): string
    requires HasColon(stripped)
  {
    Strip(stripped[IndexOf(stripped, ':') + 1..])
  }

  function ItemsOf(fields: map<string, Field>, key: string): seq<string> {
    if key in fields && fields[key].List? then fields[key].items else []
  }

  // ---------------------------------------------------------------- the manifest schema check's parser

  /** Fields so far, and the key that list items go to. */
  datatype Reader = Reader(fields: map<string, Field>, current: Option<string>)

  function ReadLine(r: Reader, raw: string): Reader {
    var line := Clean(raw);
    if line == "" then r else
    var stripped := Strip(line);
    if IsItem(stripped) && r.current.Some? then
      r.(fields := r.fields[r.current.value := List(ItemsOf(r.fields, r.current.value) + [ItemOf(stripped)])])
    else if !HasColon(stripped) then r.(current := None)
    else
      var key, value := KeyOf(stripped), ValueOf(stripped);
      if key == "pipeline_run" then r.(current := None)
      else if value == "[]" then Reader(r.fields[key := List([])], None)
      else if value == "" then Reader(if key in r.fields then r.fields else r.fields[key := List([])], Some(key))
      else Reader(r.fields[key := Scalar(StripQuotes(value))], None)
  }

  function ReadLines(start: map<string, Field>, lines: seq<string>): Reader {
    if lines == [] then Reader(start, None)
    else ReadLine(ReadLines(start, lines[..|lines| - 1]), lines[|lines| - 1])
  }

  /** start holds the entry under which unsupported constructs are reported, or nothing. */
  method ReadManifest(start: map<string, Field>, lines: seq<string>) returns (fields: map<string, Field>)
    ensures fields == ReadLines(start, lines).fields
  {
    fields := start;
    var current: Option<string> := None;
    for i := 0 to |lines|
      invariant Reader(fields, current) == ReadLines(start, lines[..i])
    {
      assert lines[..i + 1][..i] == lines[..i];
      var line := StripYamlComment(RStrip(lines[i]));
      if line == "" { continue; }
      var stripped := Strip(line);
      if IsItem(stripped) && current.Some? {
        var value := ItemOf(stripped);
        var existing := if current.value in fields && fields[current.value].List? then fields[current.value].items else [];
        fields := fields[current.value := List(existing + [value])];
        continue;
      }
      var key := KeyOf(stripped);
      current := None;
      if !HasColon(stripped) { continue; }
      var value := ValueOf(stripped);
      if key == "pipeline_run" { continue; }
      if value == "[]" {
        fields := fields[key := List([])];
        continue;
      }
      if value == "" {
        current := Some(key);
        if key !in fields { fields := fields[key := List([])]; }
        continue;
      }
      fields := fields[key := Scalar(StripQuotes(value))];
    }
    assert lines[..|lines|] == lines;
  }

  // ---------------------------------------------------------------- the path check's parser

  datatype Target = NoList | Allowed | Forbidden

  datatype Loader = Loader(allowed: seq<string>, forbidden: seq<string>, current: Target)

  const NOTHING_LOADED := Loader([], [], NoList)

  function LoadLine(l: Loader, raw: string): Loader {
    var line := Clean(raw);
    if line == "" then l else
    var stripped := Strip(line);
    if StartsWith(stripped, "allowed_paths:") then
      l.(current := if Contains(stripped, "[]") then NoList else Allowed)
    else if StartsWith(stripped, "forbidden_paths:") then
      l.(current := if Contains(stripped, "[]") then NoList else Forbidden)
    else if !(StartsWith(raw, " ") || StartsWith(raw, "\t")) && EndsWith(stripped, ":") then
      l.(current := NoList)
    else if IsItem(stripped) && l.current != NoList then
      if l.current == Allowed then l.(allowed := l.allowed + [ItemOf(stripped)])
      else l.(forbidden := l.forbidden + [ItemOf(stripped)])
    else if !IsItem(stripped) then l.(current := NoList)
    else l
  }

  function LoadLines(lines: seq<string>): Loader {
    if lines == [] then NOTHING_LOADED
    else LoadLine(LoadLines(lines[..|lines| - 1]), lines[|lines| - 1])
  }

  method LoadManifestLists(lines: seq<string>) returns (allowed: seq<string>, forbidden: seq<string>)
    ensures allowed == LoadLines(lines).allowed && forbidden == LoadLines(lines).forbidden
  {
    allowed, forbidden := [], [];
    var current := NoList;
    for i := 0 to |lines|
      invariant Loader(allowed, forbidden, current) == LoadLines(lines[..i])
    {
      assert lines[..i + 1][..i] == lines[..i];
      var raw := lines[i];
      var line := StripYamlComment(RStrip(raw));
      if line == "" { continue; }
      var stripped := Strip(line);
      if StartsWith(stripped, "allowed_paths:") {
        current := Allowed;
        if Contains(stripped, "[]") { current := NoList; }
        continue;
      }
      if StartsWith(stripped, "forbidden_paths:") {
        current := Forbidden;
        if Contains(stripped, "[]") { current := NoList; }
        continue;
      }
      if !(StartsWith(raw, " ") || StartsWith(raw, "\t")) && EndsWith(stripped, ":") {
        current := NoList;
        continue;
      }
      if IsItem(stripped) && current != NoList {
        var value := ItemOf(stripped);
        if current == Allowed { allowed := allowed + [value]; } else { forbidden := forbidden + [value]; }
      } else if current != NoList && !IsItem(stripped) {
        current := NoList;
      }
    }
    assert lines[..|lines|] == lines;
  }

  // ---------------------------------------------------------------- the scope lock's parser

  function ParseLine(r: Reader, raw: string): Reader {
    var line := Clean(raw);
    if Strip(line) == "" then r else
    var stripped := Strip(line);
    if IsItem(stripped) && r.current.Some? && r.current.value != "" then
      r.(fields := r.fields[r.current.value := List(ItemsOf(r.fields, r.current.value) + [ItemOf(stripped)])])
    else if !HasColon(stripped) then r.(current := None)
    else
      var key, value := KeyOf(stripped), ValueOf(stripped);
      if value == "" then Reader(if key in r.fields then r.fields else r.fields[key := List([])], Some(key))
      else if value == "[]" then Reader(r.fields[key := List([])], None)
      else Reader(r.fields[key := Scalar(StripQuotes(value))], None)
  }

  function ParseLines(lines: seq<string>): Reader {
    if lines == [] then Reader(map[], None)
    else ParseLine(ParseLines(lines[..|lines| - 1]), lines[|lines| - 1])
  }

  method ParseSimpleYaml(lines: seq<string>) returns (fields: map<string, Field>)
    ensures fields == ParseLines(lines).fields
  {
    fields := map[];
    var current: Option<string> := None;
    for i := 0 to |lines|
      invariant Reader(fields, current) == ParseLines(lines[..i])
    {
      assert lines[..i + 1][..i] == lines[..i];
      var line := StripYamlComment(RStrip(lines[i]));
      if Strip(line) == "" { continue; }
      var stripped := Strip(line);
      if IsItem(stripped) && current.Some? && current.value != "" {
        var existing := if current.value in fields && fields[current.value].List? then fields[current.value].items else [];
        fields := fields[current.value := List(existing + [ItemOf(stripped)])];
        continue;
      }
      current := None;
      if !HasColon(stripped) { continue; }
      var key, value := KeyOf(stripped), ValueOf(stripped);
      if value == "" {
        current := Some(key);
        if key !in fields { fields := fields[key := List([])]; }
        continue;
      }
      if value == "[]" {
        fields := fields[key := List([])];
        continue;
      }
      fields := fields[key := Scalar(StripQuotes(value))];
    }
    assert lines[..|lines|] == lines;
  }

  // ---------------------------------------------------------------- what a line is, to all three

  /** A list item may also read as a field: that happens when no list is open. */
  datatype Token =
    | Blank
    | Item(item: string, field: Option<(string, string)>)
    | Pair(key: string, value: string)
    | Other

  function TokenOf(raw: string): Token {
    var stripped := Strip(Clean(raw));
    if Clean(raw) == "" then Blank
    else if IsItem(stripped) then
      Item(ItemOf(stripped), if HasColon(stripped) then Some((KeyOf(stripped), ValueOf(stripped))) else None)
    else if HasColon(stripped) then Pair(KeyOf(stripped), ValueOf(stripped))
    else Other
  }

  function ReadPair(r: Reader, key: string, value: string): Reader {
    if key == "pipeline_run" then r.(current := None) else ParsePair(r, key, value)
  }

  function ParsePair(r: Reader, key: string, value: string): Reader {
    if value == "[]" then Reader(r.fields[key := List([])], None)
    else if value == "" then Reader(if key in r.fields then r.fields else r.fields[key := List([])], Some(key))
    else Reader(r.fields[key := Scalar(StripQuotes(value))], None)
  }

  function AddItem(r: Reader, key: string, item: string): Reader {
    r.(fields := r.fields[key := List(ItemsOf(r.fields, key) + [item])])
  }

  function ReadToken(r: Reader, t: Token): Reader {
    match t
    case Blank => r
    case Item(item, field) =>
      if r.current.Some? then AddItem(r, r.current.value, item)
      else if field.Some? then ReadPair(r, field.value.0, field.value.1)
      else r
    case Pair(key, value) => ReadPair(r, key, value)
    case Other => r.(current := None)
  }

  function ParseToken(r: Reader, t: Token): Reader {
    match t
    case Blank => r
    case Item(item, field) =>
      if r.current.Some? && r.current.value != "" then AddItem(r, r.current.value, item)
      else if field.Some? then ParsePair(r, field.value.0, field.value.1)
      else r.(current := None)
    case Pair(key, value) => ParsePair(r, key, value)
    case Other => r.(current := None)
  }

  function LoadToken(l: Loader, t: Token): Loader {
    match t
    case Blank => l
    case Item(item, _) =>
      if l.current == Allowed then l.(allowed := l.allowed + [item])
      else if l.current == Forbidden then l.(forbidden := l.forbidden + [item])
      else l
    case Pair("allowed_paths", value) => l.(current := if Contains(value, "[]") then NoList else Allowed)
    case Pair("forbidden_paths", value) => l.(current := if Contains(value, "[]") then NoList else Forbidden)
    case Pair(_, _) => l.(current := NoList)
    case Other => l.(current := NoList)
  }

  lemma ReadLineByToken(r: Reader, raw: string)
    ensures ReadLine(r, raw) == ReadToken(r, TokenOf(raw))
  {
  }

  lemma {:induction false} EndsShown(s: string)
    requires s != "" && !IsSpace(s[|s| - 1])
    ensures Strip(s) != ""
  {
    assert RStrip(s) == s;
    LStripSplits(s);
    assert s[..|s|] == s;
  }

  lemma BlankStaysBlank()
    ensures Strip("") == ""
  {
  }

  lemma {:induction false} CleanEndsShown(raw: string)
    ensures Clean(raw) != "" ==> !IsSpace(Clean(raw)[|Clean(raw)| - 1])
  {
    hide RStrip;
    hide FirstComment;
    var line := RStrip(raw);
    RStripSplits(raw);
    var k := FirstComment(line, 0);
    if k < |line| { RStripSplits(line[..k]); }
  }

  /** A cleaned line is blank only when it is empty, so the parsers skip the same lines. */
  lemma {:induction false} CleanIsEmptyOrShows(raw: string)
    ensures Strip(Clean(raw)) == "" <==> Clean(raw) == ""
  {
    hide *;
    CleanEndsShown(raw);
    if Clean(raw) != "" {
      EndsShown(Clean(raw));
    } else {
      assert Strip("") == "" by { BlankStaysBlank(); }
    }
  }

  lemma ParseLineByToken(r: Reader, raw: string)
    ensures ParseLine(r, raw) == ParseToken(r, TokenOf(raw))
  {
    CleanIsEmptyOrShows(raw);
  }

  /** The key of a list item, should one be read as a field, starts with the dash. */
  lemma {:induction false} KeyOfItem(stripped: string)
    requires IsItem(stripped) && HasColon(stripped)
    ensures KeyOf(stripped) != "" && KeyOf(stripped)[0] == '-'
  {
    var k := IndexOf(stripped, ':');
    assert stripped[0] == '-' && k > 0;
    var s := stripped[..k];
    RStripSplits(s);
    var r := RStrip(s);
    assert s[0..] == s;
    assert r[0] == '-';
    assert LStrip(r) == r;
  }

  // ---------------------------------------------------------------- checked lists are enforced lists

  predicate IsPathKey(key: string) {
    key == "allowed_paths" || key == "forbidden_paths"
  }

  /**
   A path key is followed at once by its colon, and a list item that ends in a colon is indented.
   */
  predicate Regular(raw: string) {
    var stripped := Strip(Clean(raw));
    && (!IsItem(stripped) && HasColon(stripped) && IsPathKey(KeyOf(stripped)) ==>
          KeyOf(stripped) == stripped[..IndexOf(stripped, ':')])
    && (IsItem(stripped) && EndsWith(stripped, ":") ==> StartsWith(raw, " ") || StartsWith(raw, "\t"))
  }

  /** A line starts with key: exactly when key is everything before its first colon. */
  lemma KeyPrefix(stripped: string, key: string)
    requires ':' !in key
    ensures StartsWith(stripped, key + ":") <==>
            HasColon(stripped) && stripped[..IndexOf(stripped, ':')] == key
  {
    var k := IndexOf(stripped, ':');
    if StartsWith(stripped, key + ":") {
      assert stripped[|key|] == ':';
      assert stripped[..|key|] == key;
      assert forall i :: 0 <= i < |key| ==> stripped[i] == key[i];
    }
    if k < |stripped| && stripped[..k] == key {
      assert stripped[..k + 1] == key + ":";
    }
  }

  /** Square brackets on a key line are in its value. */
  lemma {:induction false} BracketsAreInValue(stripped: string, key: string)
    requires '[' !in key && HasColon(stripped) && stripped[..IndexOf(stripped, ':')] == key
    ensures Contains(stripped, "[]") <==> Contains(ValueOf(stripped), "[]")
  {
    var k := IndexOf(stripped, ':');
    var a, b := StripSplits(stripped[k + 1..]);
    var value, front := ValueOf(stripped), key + [':'] + a;
    hide Strip;
    hide Contains;
    hide IndexOf;
    assert stripped == front + value + b;
    ContainsMeansSubstring(stripped, "[]");
    ContainsMeansSubstring(value, "[]");
    if Contains(value, "[]") {
      SubstringTransitive("[]", value, stripped);
    }
    if Contains(stripped, "[]") {
      BracketsInMiddle(front, value, b);
    }
  }

  lemma {:induction false} BracketsInMiddle(front: string, value: string, b: string)
    requires '[' !in front && AllSpace(b) && Substring("[]", front + value + b)
    ensures Substring("[]", value)
  {
    var s := front + value + b;
    var p, q :| s == p + "[]" + q;
    var n := |p|;
    assert s[n] == '[' && s[n + 1] == ']';
    assert n >= |front| by { assert forall i :: 0 <= i < |front| ==> s[i] == front[i]; }
    assert n + 1 < |front| + |value| by {
      assert forall i :: 0 <= i < |b| ==> s[|front| + |value| + i] == b[i] && IsSpace(b[i]);
    }
    var m := n - |front|;
    assert value[m] == '[' && value[m + 1] == ']';
    assert value == value[..m] + "[]" + value[m + 2..];
  }

  lemma PathKeyIsPlain(key: string)
    requires IsPathKey(key)
    ensures ':' !in key && '[' !in key && key != "" && key[0] != '-' && Strip(key) == key
  {
  }

  lemma {:induction false} PathKeyLine(raw: string, key: string)
    requires Regular(raw) && IsPathKey(key)
    ensures StartsWith(Strip(Clean(raw)), key + ":") <==> TokenOf(raw).Pair? && TokenOf(raw).key == key
    ensures StartsWith(Strip(Clean(raw)), key + ":") ==>
              (Contains(Strip(Clean(raw)), "[]") <==> Contains(TokenOf(raw).value, "[]"))
  {
    var stripped := Strip(Clean(raw));
    PathKeyIsPlain(key);
    hide Strip;
    hide Clean;
    hide Contains;
    hide StripQuotes;
    KeyPrefix(stripped, key);
    if StartsWith(stripped, key + ":") {
      assert stripped[0] == key[0];
      assert !IsItem(stripped);
      BracketsAreInValue(stripped, key);
    }
  }

  lemma {:induction false} LoadLineByToken(l: Loader, raw: string)
    requires Regular(raw)
    ensures LoadLine(l, raw) == LoadToken(l, TokenOf(raw))
  {
    PathKeyLine(raw, "allowed_paths");
    PathKeyLine(raw, "forbidden_paths");
    var stripped := Strip(Clean(raw));
    var allowed, forbidden := StartsWith(stripped, "allowed_paths:"), StartsWith(stripped, "forbidden_paths:");
    assert "allowed_paths:" == "allowed_paths" + ":" && "forbidden_paths:" == "forbidden_paths" + ":";
  }

  /** The line gives key another value: the empty list or a scalar. */
  predicate Overwrites(t: Token, key: string) {
    t.Pair? && t.key == key && t.value != ""
  }

  /** What the path check has collected under key. */
  function Collected(l: Loader, key: string): seq<string> {
    if key == "allowed_paths" then l.allowed else l.forbidden
  }

  function TargetOf(key: string): Target {
    if key == "allowed_paths" then Allowed else Forbidden
  }

  /** The last line that is neither blank nor an item gives key a scalar. */
  predicate UnderScalar(lines: seq<string>, key: string) {
    lines != [] &&
    match TokenOf(lines[|lines| - 1])
    case Blank => UnderScalar(lines[..|lines| - 1], key)
    case Item(_, _) => UnderScalar(lines[..|lines| - 1], key)
    case Pair(k, value) => k == key && value != "" && !Contains(value, "[]")
    case Other => false
  }

  /** key gets another value after an item was collected under it, or an item stands under a scalar of key. */
  predicate Discards(lines: seq<string>, key: string) {
    lines != [] &&
    var front, t := lines[..|lines| - 1], TokenOf(lines[|lines| - 1]);
    || Discards(front, key)
    || (Overwrites(t, key) && Collected(LoadLines(front), key) != [])
    || (t.Item? && UnderScalar(front, key))
  }

  /** One list, as the two parsers hold it. */
  ghost predicate Agree(r: Reader, l: Loader, key: string, scalar: bool, lost: bool) {
    && (l.current == TargetOf(key) <==> r.current == Some(key) || scalar)
    && !(r.current == Some(key) && scalar)
    && (if lost then |ItemsOf(r.fields, key)| < |Collected(l, key)| else ItemsOf(r.fields, key) == Collected(l, key))
  }

  predicate ScalarAfter(scalar: bool, t: Token, key: string) {
    match t
    case Blank => scalar
    case Item(_, _) => scalar
    case Pair(k, value) => k == key && value != "" && !Contains(value, "[]")
    case Other => false
  }

  lemma NamesDiffer()
    ensures "allowed_paths"[0] == 'a' && "forbidden_paths"[0] == 'f' && "pipeline_run"[0] == 'p'
    ensures !Contains("", "[]") && Contains("[]", "[]")
  {
  }

  lemma {:induction false} ItemKeepsAgreement(
    r: Reader, l: Loader, item: string, field: Option<(string, string)>, key: string, scalar: bool, lost: bool)
    requires IsPathKey(key) && Agree(r, l, key, scalar, lost)
    requires field.Some? ==> field.value.0 != "" && field.value.0[0] == '-'
    ensures Agree(ReadToken(r, Item(item, field)), LoadToken(l, Item(item, field)), key, scalar, lost || scalar)
  {
    NamesDiffer();
    hide Contains;
    hide StripQuotes;
  }

  lemma {:induction false} PairKeepsAgreement(r: Reader, l: Loader, k: string, v: string, key: string, scalar: bool, lost: bool)
    requires IsPathKey(key) && Agree(r, l, key, scalar, lost)
    ensures Agree(ReadToken(r, Pair(k, v)), LoadToken(l, Pair(k, v)), key, ScalarAfter(scalar, Pair(k, v), key),
                  lost || (Overwrites(Pair(k, v), key) && Collected(l, key) != []))
  {
    NamesDiffer();
    hide Contains;
    hide StripQuotes;
  }

  lemma {:induction false} TokenKeepsAgreement(r: Reader, l: Loader, t: Token, key: string, scalar: bool, lost: bool)
    requires IsPathKey(key) && Agree(r, l, key, scalar, lost)
    requires t.Item? && t.field.Some? ==> t.field.value.0 != "" && t.field.value.0[0] == '-'
    ensures Agree(ReadToken(r, t), LoadToken(l, t), key, ScalarAfter(scalar, t, key),
                  lost || (Overwrites(t, key) && Collected(l, key) != []) || (t.Item? && scalar))
  {
    match t
    case Blank =>
    case Item(item, field) => ItemKeepsAgreement(r, l, item, field, key, scalar, lost);
    case Pair(k, v) => PairKeepsAgreement(r, l, k, v, key, scalar, lost);
    case Other =>
  }

  lemma {:induction false} PrefixAgrees(start: map<string, Field>, lines: seq<string>, key: string)
    requires key !in start && IsPathKey(key)
    requires forall i :: 0 <= i < |lines| ==> Regular(lines[i])
    ensures Agree(ReadLines(start, lines), LoadLines(lines), key, UnderScalar(lines, key), Discards(lines, key))
  {
    if lines == [] {
    } else {
      var front, last := lines[..|lines| - 1], lines[|lines| - 1];
      PrefixAgrees(start, front, key);
      var r, l, t := ReadLines(start, front), LoadLines(front), TokenOf(last);
      ReadLineByToken(r, last);
      LoadLineByToken(l, last);
      ItemFieldHasDash(last);
      hide Regular;
      hide TokenOf;
      hide Agree;
      TokenKeepsAgreement(r, l, t, key, UnderScalar(front, key), Discards(front, key));
    }
  }

  lemma ItemFieldHasDash(raw: string)
    ensures var t := TokenOf(raw);
            t.Item? && t.field.Some? ==> t.field.value.0 != "" && t.field.value.0[0] == '-'
  {
    var stripped := Strip(Clean(raw));
    if IsItem(stripped) && HasColon(stripped) { KeyOfItem(stripped); }
  }

  /**
   The path lists that are checked are the path lists that are enforced: on every text of regular lines,
   scalars included, the two parsers agree on a key if and only if the text never gives the key another
   value after putting something in its list, and has no item under a scalar of the key.
   */
  lemma CheckedListsAreEnforced(start: map<string, Field>, lines: seq<string>, key: string)
    requires key !in start && IsPathKey(key)
    requires forall i :: 0 <= i < |lines| ==> Regular(lines[i])
    ensures Collected(LoadLines(lines), key) == ItemsOf(ReadLines(start, lines).fields, key) <==> !Discards(lines, key)
  {
    PrefixAgrees(start, lines, key);
  }

  // ---------------------------------------------------------------- every text

  /** The path check puts this line into key's list. */
  predicate LoaderTakes(l: Loader, raw: string, key: string) {
    var stripped := Strip(Clean(raw));
    && Clean(raw) != "" && IsItem(stripped) && l.current == TargetOf(key)
    && (StartsWith(raw, " ") || StartsWith(raw, "\t") || !EndsWith(stripped, ":"))
  }

  /** The manifest check puts this line into key's list. */
  predicate ReaderTakes(r: Reader, raw: string, key: string) {
    TokenOf(raw).Item? && r.current == Some(key)
  }

  lemma ItemStartsNoHeader(stripped: string)
    requires IsItem(stripped)
    ensures !StartsWith(stripped, "allowed_paths:") && !StartsWith(stripped, "forbidden_paths:")
  {
    assert stripped[0] == '-' && "allowed_paths:"[0] == 'a' && "forbidden_paths:"[0] == 'f';
  }

  lemma {:induction false} LoadLineCollects(l: Loader, raw: string, key: string)
    requires IsPathKey(key)
    ensures LoaderTakes(l, raw, key) ==> IsItem(Strip(Clean(raw)))
    ensures Collected(LoadLine(l, raw), key)
              == Collected(l, key) + if LoaderTakes(l, raw, key) then [ItemOf(Strip(Clean(raw)))] else []
  {
    hide Clean;
    hide Strip;
    hide StripQuotes;
    hide Contains;
    var stripped := Strip(Clean(raw));
    if IsItem(stripped) { ItemStartsNoHeader(stripped); }
  }

  lemma {:induction false} ReadLineCollects(r: Reader, raw: string, key: string)
    requires IsPathKey(key)
    ensures ReaderTakes(r, raw, key) ==> IsItem(Strip(Clean(raw)))
    ensures ItemsOf(ReadLine(r, raw).fields, key)
              == if Overwrites(TokenOf(raw), key) then []
                 else ItemsOf(r.fields, key) + if ReaderTakes(r, raw, key) then [ItemOf(Strip(Clean(raw)))] else []
  {
    NamesDiffer();
    ItemFieldHasDash(raw);
    ReadLineByToken(r, raw);
    hide Clean;
    hide Strip;
    hide StripQuotes;
    hide Contains;
    hide ReadLine;
  }

  /** The lines the path check holds under key, by position. */
  function LoadedLines(lines: seq<string>, key: string): seq<nat> {
    if lines == [] then []
    else
      var n := |lines| - 1;
      LoadedLines(lines[..n], key) + if LoaderTakes(LoadLines(lines[..n]), lines[n], key) then [n] else []
  }

  /** The lines the manifest check holds under key, by position. */
  function KeptLines(start: map<string, Field>, lines: seq<string>, key: string): seq<nat> {
    if lines == [] then []
    else
      var n := |lines| - 1;
      if Overwrites(TokenOf(lines[n]), key) then []
      else KeptLines(start, lines[..n], key) + if ReaderTakes(ReadLines(start, lines[..n]), lines[n], key) then [n] else []
  }

  /** Positions of item lines, in order. */
  ghost predicate ItemLines(lines: seq<string>, at: seq<nat>) {
    && (forall i :: 0 <= i < |at| ==> at[i] < |lines| && IsItem(Strip(Clean(lines[at[i]]))))
    && (forall i, j :: 0 <= i < j < |at| ==> at[i] < at[j])
  }

  function ItemsAt(lines: seq<string>, at: seq<nat>): (r: seq<string>)
    requires forall i :: 0 <= i < |at| ==> at[i] < |lines| && IsItem(Strip(Clean(lines[at[i]])))
    ensures |r| == |at| && forall i :: 0 <= i < |at| ==> r[i] == ItemOf(Strip(Clean(lines[at[i]])))
  {
    seq(|at|, i requires 0 <= i < |at| => ItemOf(Strip(Clean(lines[at[i]]))))
  }

  lemma ItemLinesExtend(lines: seq<string>, at: seq<nat>, taken: seq<nat>)
    requires lines != [] && ItemLines(lines[..|lines| - 1], at)
    requires taken == [] || (taken == [|lines| - 1] && IsItem(Strip(Clean(lines[|lines| - 1]))))
    ensures ItemLines(lines, at + taken)
    ensures ItemsAt(lines, at + taken)
              == ItemsAt(lines[..|lines| - 1], at) + if taken == [] then [] else [ItemOf(Strip(Clean(lines[|lines| - 1])))]
  {
    hide Clean;
    hide Strip;
    hide StripQuotes;
    hide ItemsAt;
    var front := lines[..|lines| - 1];
    assert forall i :: 0 <= i < |at| ==> front[at[i]] == lines[at[i]];
  }

  lemma {:induction false} LoadedLinesMean(lines: seq<string>, key: string)
    requires IsPathKey(key)
    ensures ItemLines(lines, LoadedLines(lines, key))
    ensures ItemsAt(lines, LoadedLines(lines, key)) == Collected(LoadLines(lines), key)
  {
    hide LoadLine;
    hide LoaderTakes;
    if lines == [] {
    } else {
      var n := |lines| - 1;
      LoadedLinesMean(lines[..n], key);
      LoadLineCollects(LoadLines(lines[..n]), lines[n], key);
      var taken: seq<nat> := if LoaderTakes(LoadLines(lines[..n]), lines[n], key) then [n] else [];
      ItemLinesExtend(lines, LoadedLines(lines[..n], key), taken);
    }
  }

  lemma {:induction false} KeptLinesMean(start: map<string, Field>, lines: seq<string>, key: string)
    requires IsPathKey(key) && key !in start
    ensures ItemLines(lines, KeptLines(start, lines, key))
    ensures ItemsAt(lines, KeptLines(start, lines, key)) == ItemsOf(ReadLines(start, lines).fields, key)
  {
    hide ReadLine;
    hide ReaderTakes;
    hide TokenOf;
    if lines == [] {
    } else {
      var n := |lines| - 1;
      KeptLinesMean(start, lines[..n], key);
      ReadLineCollects(ReadLines(start, lines[..n]), lines[n], key);
      var taken: seq<nat> := if ReaderTakes(ReadLines(start, lines[..n]), lines[n], key) then [n] else [];
      ItemLinesExtend(lines, KeptLines(start, lines[..n], key), taken);
    }
  }

  lemma {:induction false} LoadedLinesAre(lines: seq<string>, key: string, i: nat)
    requires i < |lines|
    ensures i in LoadedLines(lines, key) <==> LoaderTakes(LoadLines(lines[..i]), lines[i], key)
  {
    hide LoadLines;
    hide LoaderTakes;
    var n := |lines| - 1;
    var front := lines[..n];
    LoadedLinesAreBelow(front, key);
    if i < n {
      assert front[..i] == lines[..i];
      LoadedLinesAre(front, key, i);
    }
  }

  lemma {:induction false} LoadedLinesAreBelow(lines: seq<string>, key: string)
    ensures forall i :: i in LoadedLines(lines, key) ==> i < |lines|
  {
    hide LoadLines;
    hide LoaderTakes;
    if lines == [] {
    } else {
      LoadedLinesAreBelow(lines[..|lines| - 1], key);
    }
  }

  lemma {:induction false} KeptLinesAreBelow(start: map<string, Field>, lines: seq<string>, key: string)
    ensures forall i :: i in KeptLines(start, lines, key) ==> i < |lines|
  {
    hide ReadLines;
    hide ReaderTakes;
    hide Overwrites;
    if lines == [] {
    } else {
      KeptLinesAreBelow(start, lines[..|lines| - 1], key);
    }
  }

  /** Line i is put into key's list and key gets no other value after it. */
  ghost predicate ReaderKeeps(start: map<string, Field>, lines: seq<string>, key: string, i: nat)
    requires i < |lines|
  {
    && ReaderTakes(ReadLines(start, lines[..i]), lines[i], key)
    && forall j :: i < j < |lines| ==> !Overwrites(TokenOf(lines[j]), key)
  }

  lemma {:induction false} KeptLinesAre(start: map<string, Field>, lines: seq<string>, key: string, i: nat)
    requires i < |lines|
    ensures i in KeptLines(start, lines, key) <==> ReaderKeeps(start, lines, key, i)
  {
    hide ReadLines;
    hide TokenOf;
    var n := |lines| - 1;
    var front := lines[..n];
    KeptLinesAreBelow(start, front, key);
    if i < n {
      assert front[..i] == lines[..i];
      KeptLinesAre(start, front, key, i);
      assert ReaderKeeps(start, lines, key, i) <==> ReaderKeeps(start, front, key, i) && !Overwrites(TokenOf(lines[n]), key) by {
        assert forall j :: i < j < n ==> front[j] == lines[j];
      }
    } else {
      assert ReaderTakes(ReadLines(start, lines[..n]), lines[n], key) ==> !Overwrites(TokenOf(lines[n]), key);
    }
  }

  ghost predicate Increasing(a: seq<nat>) {
    forall i, j :: 0 <= i < j < |a| ==> a[i] < a[j]
  }

  /** An increasing sequence is its front and its greatest element. */
  lemma IncreasingLast(a: seq<nat>)
    requires Increasing(a) && a != []
    ensures Increasing(a[..|a| - 1]) && a == a[..|a| - 1] + [a[|a| - 1]]
    ensures forall x :: x in a ==> x <= a[|a| - 1]
    ensures forall x :: x in a[..|a| - 1] <==> x in a && x != a[|a| - 1]
  {
    var front, last := a[..|a| - 1], a[|a| - 1];
    assert a == front + [last];
  }

  lemma {:induction false} IncreasingSame(a: seq<nat>, b: seq<nat>)
    requires Increasing(a) && Increasing(b)
    requires forall x :: x in a <==> x in b
    ensures a == b
  {
    assert a != [] ==> a[0] in a && a[0] in b;
    assert b != [] ==> b[0] in b && b[0] in a;
    if a == [] {
    } else {
      IncreasingLast(a);
      IncreasingLast(b);
      var la, lb := a[|a| - 1], b[|b| - 1];
      assert la in a && lb in b;
      assert la in b && lb in a;
      assert la == lb;
      var fa, fb := a[..|a| - 1], b[..|b| - 1];
      forall x: nat ensures x in fa <==> x in fb {
        assert x in a <==> x in b;
        assert x in fa <==> x in a && x != la;
        assert x in fb <==> x in b && x != lb;
      }
      IncreasingSame(fa, fb);
    }
  }

  /** Every line is held by both parsers or by neither. */
  ghost predicate HeldByBoth(start: map<string, Field>, lines: seq<string>, key: string) {
    forall i :: 0 <= i < |lines| ==>
      (LoaderTakes(LoadLines(lines[..i]), lines[i], key) <==> ReaderKeeps(start, lines, key, i))
  }

  ghost predicate NoItemTwice(lines: seq<string>) {
    forall i, j :: 0 <= i < j < |lines| && IsItem(Strip(Clean(lines[i]))) && IsItem(Strip(Clean(lines[j]))) ==>
      ItemOf(Strip(Clean(lines[i]))) != ItemOf(Strip(Clean(lines[j])))
  }

  lemma {:induction false} SamePositions(start: map<string, Field>, lines: seq<string>, key: string)
    requires IsPathKey(key) && key !in start
    ensures LoadedLines(lines, key) == KeptLines(start, lines, key) <==> HeldByBoth(start, lines, key)
  {
    LoadedLinesMean(lines, key);
    KeptLinesMean(start, lines, key);
    LoadedLinesAreBelow(lines, key);
    KeptLinesAreBelow(start, lines, key);
    var a, b := LoadedLines(lines, key), KeptLines(start, lines, key);
    forall i | 0 <= i < |lines|
      ensures i in a <==> LoaderTakes(LoadLines(lines[..i]), lines[i], key)
      ensures i in b <==> ReaderKeeps(start, lines, key, i)
    {
      LoadedLinesAre(lines, key, i);
      KeptLinesAre(start, lines, key, i);
    }
    hide LoadedLines;
    hide KeptLines;
    hide LoaderTakes;
    hide ReaderKeeps;
    hide ItemsAt;
    if HeldByBoth(start, lines, key) { IncreasingSame(a, b); }
  }

  lemma {:induction false} DistinctItemsTellLines(lines: seq<string>, a: seq<nat>, b: seq<nat>)
    requires ItemLines(lines, a) && ItemLines(lines, b) && NoItemTwice(lines) && ItemsAt(lines, a) == ItemsAt(lines, b)
    ensures a == b
  {
    hide Clean;
    hide Strip;
    hide StripQuotes;
    var x, y := ItemsAt(lines, a), ItemsAt(lines, b);
    hide ItemsAt;
    assert |x| == |a| == |y| == |b|;
    forall i | 0 <= i < |a| ensures a[i] == b[i] {
      assert x[i] == y[i];
    }
  }

  /**
   On every text whatever, the checked list of a path key is the enforced one whenever each line is held by both
   parsers or by neither; and, where no item is repeated, only then.
   */
  lemma ListsAgreeExactlyWhen(start: map<string, Field>, lines: seq<string>, key: string)
    requires IsPathKey(key) && key !in start
    ensures var same := Collected(LoadLines(lines), key) == ItemsOf(ReadLines(start, lines).fields, key);
            && (HeldByBoth(start, lines, key) ==> same)
            && (NoItemTwice(lines) ==> (same <==> HeldByBoth(start, lines, key)))
  {
    SamePositions(start, lines, key);
    LoadedLinesMean(lines, key);
    KeptLinesMean(start, lines, key);
    var a, b := LoadedLines(lines, key), KeptLines(start, lines, key);
    hide LoadedLines;
    hide KeptLines;
    hide HeldByBoth;
    hide Collected;
    hide ItemsOf;
    if NoItemTwice(lines) && ItemsAt(lines, a) == ItemsAt(lines, b) { DistinctItemsTellLines(lines, a, b); }
  }

  lemma {:induction false} PlainLineIsClean(raw: string)
    requires '#' !in raw && RStrip(raw) == raw
    ensures Clean(raw) == raw
  {
    OutsideOnlyBlanks(raw);
  }

  lemma ItemLineA()
    ensures Clean("  - a") == "  - a" && Strip("  - a") == "- a" && ItemOf("- a") == "a" && !HasColon("- a")
  {
    var s := "  - a";
    assert RStrip(s) == s;
    PlainLineIsClean(s);
    assert s[1..] == " - a" && s[1..][1..] == "- a";
    assert LStrip(s) == "- a";
    assert "- a"[2..] == "a";
    assert Strip("a") == "a" && StripQuotes("a") == "a";
  }

  lemma ItemAIsIndented()
    ensures IsIndentedItem("  - a", "a")
  {
    ItemLineA();
    hide Clean;
    hide Strip;
    hide ItemOf;
    assert "  - a"[..1] == " ";
  }

  lemma {:induction false} HeaderLine(raw: string, key: string, value: string, k: nat)
    requires '#' !in raw && raw != "" && !IsSpace(raw[0]) && !IsSpace(raw[|raw| - 1]) && raw[0] != '-'
    requires k < |raw| && raw[k] == ':' && ':' !in raw[..k]
    requires Strip(raw[..k]) == key && Strip(raw[k + 1..]) == value
    ensures Clean(raw) == raw && Strip(raw) == raw && TokenOf(raw) == Pair(key, value)
    ensures IndexOf(raw, ':') == k && !IsItem(raw)
  {
    assert RStrip(raw) == raw && LStrip(raw) == raw;
    PlainLineIsClean(raw);
    hide LStrip;
    hide RStrip;
    assert forall i :: 0 <= i < k ==> raw[i] == raw[..k][i] && raw[i] != ':';
    assert IndexOf(raw, ':') == k;
  }

  predicate IsIndentedItem(raw: string, item: string) {
    && Clean(raw) != "" && IsItem(Strip(Clean(raw))) && StartsWith(raw, " ")
    && ItemOf(Strip(Clean(raw))) == item
  }

  lemma TwoLines(start: map<string, Field>, first: string, second: string)
    ensures LoadLines([first, second]) == LoadLine(LoadLine(NOTHING_LOADED, first), second)
    ensures ReadLines(start, [first, second]) == ReadLine(ReadLine(Reader(start, None), first), second)
  {
    hide LoadLine;
    hide ReadLine;
    var lines := [first, second];
    assert lines[..1] == [first] && [first][..0] == [];
    assert LoadLines([first]) == LoadLine(NOTHING_LOADED, first);
    assert ReadLines(start, [first]) == ReadLine(Reader(start, None), first);
  }

  lemma {:induction false} ScalarHeaderSplits(header: string, value: string, raw: string, item: string)
    requires Regular(header) && TokenOf(header) == Pair("allowed_paths", value) && value != "" && !Contains(value, "[]")
    requires IsIndentedItem(raw, item)
    ensures Collected(LoadLines([header, raw]), "allowed_paths") == [item]
    ensures ItemsOf(ReadLines(map[], [header, raw]).fields, "allowed_paths") == []
  {
    TwoLines(map[], header, raw);
    LoadLineByToken(NOTHING_LOADED, header);
    ReadLineByToken(Reader(map[], None), header);
    NamesDiffer();
    var l, r := LoadLine(NOTHING_LOADED, header), ReadLine(Reader(map[], None), header);
    LoadLineCollects(l, raw, "allowed_paths");
    ReadLineCollects(r, raw, "allowed_paths");
    hide LoadLine;
    hide ReadLine;
    hide LoadLines;
    hide ReadLines;
    hide Strip;
    hide Clean;
    hide Contains;
    hide StripQuotes;
  }

  /** A text on which the lists differ: the path check collects what stands under a scalar. */
  lemma {:induction false} ScalarHeaderSplitsLists()
    ensures var lines := ["allowed_paths: x", "  - a"];
            && Collected(LoadLines(lines), "allowed_paths") == ["a"]
            && ItemsOf(ReadLines(map[], lines).fields, "allowed_paths") == []
  {
    ItemAIsIndented();
    OneLetterHasNoBrackets();
    ScalarHeaderLine();
    hide Contains;
    hide Strip;
    hide Clean;
    hide TokenOf;
    hide Regular;
    hide ItemOf;
    hide LoadLines;
    hide ReadLines;
    hide ItemsOf;
    hide IsIndentedItem;
    ScalarHeaderSplits("allowed_paths: x", "x", "  - a", "a");
  }

  lemma OneLetterHasNoBrackets()
    ensures !Contains("x", "[]")
  {
  }

  lemma SomeStrips()
    ensures Strip(" x") == "x" && Strip("") == ""
    ensures Strip("allowed_paths") == "allowed_paths" && Strip("allowed_paths ") == "allowed_paths"
  {
    assert " x"[1..] == "x";
    assert "allowed_paths "[..13] == "allowed_paths";
  }

  lemma {:induction false} ScalarHeaderLine()
    ensures TokenOf("allowed_paths: x") == Pair("allowed_paths", "x") && Regular("allowed_paths: x")
  {
    var header := "allowed_paths: x";
    SomeStrips();
    hide Strip;
    hide Clean;
    assert header[..13] == "allowed_paths" && header[14..] == " x";
    HeaderLine(header, "allowed_paths", "x", 13);
    hide IndexOf;
    hide IsItem;
    hide TokenOf;
  }

  /** allowed_paths, a space, a colon, and nothing else. */
  ghost predicate IsSpacedHeader(header: string) {
    && TokenOf(header) == Pair("allowed_paths", "") && Clean(header) == header && Strip(header) == header
    && !IsItem(header) && HasColon(header) && header[..IndexOf(header, ':')] == "allowed_paths "
  }

  lemma {:induction false} SpacedHeaderSplits(header: string, raw: string, item: string)
    requires IsSpacedHeader(header) && IsIndentedItem(raw, item)
    ensures Collected(LoadLines([header, raw]), "allowed_paths") == []
    ensures ItemsOf(ReadLines(map[], [header, raw]).fields, "allowed_paths") == [item]
  {
    TwoLines(map[], header, raw);
    NoPathHeader(header);
    assert LoadLine(NOTHING_LOADED, header) == NOTHING_LOADED;
    ReadLineByToken(Reader(map[], None), header);
    NamesDiffer();
    var r := ReadLine(Reader(map[], None), header);
    assert r == Reader(map["allowed_paths" := List([])], Some("allowed_paths"));
    LoadLineCollects(NOTHING_LOADED, raw, "allowed_paths");
    ReadLineCollects(r, raw, "allowed_paths");
    hide LoadLine;
    hide ReadLine;
    hide LoadLines;
    hide ReadLines;
    hide Strip;
    hide Clean;
    hide Contains;
    hide StripQuotes;
  }

  /** A text on which they differ the other way: a space before the colon opens only the manifest check's list. */
  lemma {:induction false} SpacedHeaderSplitsLists()
    ensures var lines := ["allowed_paths :", "  - a"];
            && Collected(LoadLines(lines), "allowed_paths") == []
            && ItemsOf(ReadLines(map[], lines).fields, "allowed_paths") == ["a"]
  {
    hide *;
    hide IsSpacedHeader;
    hide IsIndentedItem;
    ItemAIsIndented();
    SpacedHeaderToken();
    SpacedHeaderSplits("allowed_paths :", "  - a", "a");
  }

  lemma {:induction false} SpacedHeaderToken()
    ensures IsSpacedHeader("allowed_paths :")
  {
    var header := "allowed_paths :";
    SomeStrips();
    hide Strip;
    hide Clean;
    assert header[..14] == "allowed_paths " && header[15..] == "";
    HeaderLine(header, "allowed_paths", "", 14);
    hide IndexOf;
    hide TokenOf;
    hide IsItem;
  }

  /** A header with a space before its colon is none to the path check. */
  lemma {:induction false} NoPathHeader(line: string)
    requires HasColon(line) && line[..IndexOf(line, ':')] == "allowed_paths "
    ensures !StartsWith(line, "allowed_paths:") && !StartsWith(line, "forbidden_paths:")
  {
    PathKeyIsPlain("allowed_paths");
    PathKeyIsPlain("forbidden_paths");
    KeyPrefix(line, "allowed_paths");
    KeyPrefix(line, "forbidden_paths");
    hide IndexOf;
    hide StartsWith;
    assert "allowed_paths:" == "allowed_paths" + ":" && "forbidden_paths:" == "forbidden_paths" + ":";
    assert |"allowed_paths "| == 14 && |"allowed_paths"| == 13 && |"forbidden_paths"| == 15;
  }

  // ---------------------------------------------------------------- manifest and scope lock read alike

  /** Keys that a person would write: not empty, not the block marker, not a list item in disguise. */
  predicate Ordinary(key: string) {
    key != "" && key != "pipeline_run" && key[0] != '-'
  }

  ghost predicate SameOnOrdinary(r: Reader, p: Reader) {
    && (forall key :: Ordinary(key) ==> (key in r.fields <==> key in p.fields))
    && (forall key :: Ordinary(key) && key in r.fields ==> r.fields[key] == p.fields[key])
    && (forall key :: Ordinary(key) ==> (r.current == Some(key) <==> p.current == Some(key)))
  }

  lemma {:induction false} TokenKeepsSame(r: Reader, p: Reader, t: Token)
    requires SameOnOrdinary(r, p)
    requires t.Item? && t.field.Some? ==> t.field.value.0 != "" && t.field.value.0[0] == '-'
    ensures SameOnOrdinary(ReadToken(r, t), ParseToken(p, t))
  {
  }

  /**
   The manifest parser and the scope-lock parser read every text alike, on every ordinary key.
   */
  lemma {:induction false} ReadersAgree(lines: seq<string>)
    ensures SameOnOrdinary(ReadLines(map[], lines), ParseLines(lines))
  {
    if lines == [] {
    } else {
      var front, last := lines[..|lines| - 1], lines[|lines| - 1];
      ReadersAgree(front);
      var r, p := ReadLines(map[], front), ParseLines(front);
      ReadLineByToken(r, last);
      ParseLineByToken(p, last);
      var stripped := Strip(Clean(last));
      if IsItem(stripped) && HasColon(stripped) { KeyOfItem(stripped); }
      TokenKeepsSame(r, p, TokenOf(last));
    }
  }

  // ---------------------------------------------------------------- exactly when they read every key alike

  /** The last line that is neither blank nor an item is a colon and nothing else. */
  predicate UnderNoKey(lines: seq<string>) {
    lines != [] &&
    match TokenOf(lines[|lines| - 1])
    case Blank => UnderNoKey(lines[..|lines| - 1])
    case Item(_, _) => UnderNoKey(lines[..|lines| - 1])
    case Pair(key, value) => key == "" && value == ""
    case Other => false
  }

  /** The block marker, or an item under a colon that has no key. */
  predicate SplitsReaders(front: seq<string>, raw: string) {
    match TokenOf(raw)
    case Pair(key, _) => key == "pipeline_run"
    case Item(_, _) => UnderNoKey(front)
    case _ => false
  }

  ghost predicate NothingSplits(lines: seq<string>) {
    forall n :: 0 <= n < |lines| ==> !SplitsReaders(lines[..n], lines[n])
  }

  /** After every line the two readers hold the same fields. */
  ghost predicate ReadAlikeThroughout(lines: seq<string>) {
    forall n :: 0 <= n <= |lines| ==> ReadLines(map[], lines[..n]).fields == ParseLines(lines[..n]).fields
  }

  /** While nothing splits them, the readers are in one state, with no marker read and the open key as the text has it. */
  ghost predicate InStep(r: Reader, p: Reader, underNoKey: bool) {
    r == p && "pipeline_run" !in r.fields && (r.current == Some("") <==> underNoKey)
  }

  lemma {:induction false} TokenKeepsStep(r: Reader, p: Reader, t: Token, under: bool)
    requires InStep(r, p, under) && r.current != Some("pipeline_run")
    requires t.Pair? ==> t.key != "pipeline_run"
    requires t.Item? ==> !under && (t.field.Some? ==> t.field.value.0 != "" && t.field.value.0[0] == '-')
    ensures var under' := match t case Pair(key, value) => key == "" && value == "" case Other => false case _ => under;
            InStep(ReadToken(r, t), ParseToken(p, t), under') && ReadToken(r, t).current != Some("pipeline_run")
  {
    NamesDiffer();
    hide Contains;
    hide StripQuotes;
  }

  lemma {:induction false} SplitMakesDifference(r: Reader, p: Reader, t: Token, under: bool)
    requires InStep(r, p, under)
    requires (t.Pair? && t.key == "pipeline_run") || (t.Item? && under)
    requires t.Item? && t.field.Some? ==> t.field.value.0 != "" && t.field.value.0[0] == '-'
    ensures ReadToken(r, t).fields != ParseToken(p, t).fields
  {
    hide Contains;
    hide StripQuotes;
    if t.Pair? {
      assert "pipeline_run" in ParseToken(p, t).fields && "pipeline_run" !in ReadToken(r, t).fields;
    } else {
      var before, after := ItemsOf(r.fields, ""), ItemsOf(ReadToken(r, t).fields, "");
      assert |after| == |before| + 1;
      assert ItemsOf(ParseToken(p, t).fields, "") == before;
    }
  }

  lemma {:induction false} UnsplitInStep(lines: seq<string>)
    requires NothingSplits(lines)
    ensures InStep(ReadLines(map[], lines), ParseLines(lines), UnderNoKey(lines))
    ensures ReadLines(map[], lines).current != Some("pipeline_run")
  {
    if lines == [] {
    } else {
      var n := |lines| - 1;
      var front, last := lines[..n], lines[n];
      FrontUnsplit(lines);
      UnsplitInStep(front);
      var r, p := ReadLines(map[], front), ParseLines(front);
      ReadLineByToken(r, last);
      ParseLineByToken(p, last);
      ItemFieldHasDash(last);
      assert !SplitsReaders(front, last);
      hide TokenOf;
      hide InStep;
      hide ReadLine;
      hide ParseLine;
      TokenKeepsStep(r, p, TokenOf(last), UnderNoKey(front));
    }
  }

  lemma FrontUnsplit(lines: seq<string>)
    requires lines != [] && NothingSplits(lines)
    ensures NothingSplits(lines[..|lines| - 1])
  {
    hide SplitsReaders;
    var front := lines[..|lines| - 1];
    forall n | 0 <= n < |front| ensures !SplitsReaders(front[..n], front[n]) {
      assert front[..n] == lines[..n] && front[n] == lines[n];
    }
  }

  /** The first line that splits the readers leaves them with different fields. */
  lemma {:induction false} FirstSplitShows(lines: seq<string>, n: nat)
    requires n < |lines| && SplitsReaders(lines[..n], lines[n]) && NothingSplits(lines[..n])
    ensures ReadLines(map[], lines[..n + 1]).fields != ParseLines(lines[..n + 1]).fields
  {
    var front, last := lines[..n], lines[n];
    assert lines[..n + 1][..n] == front && lines[..n + 1][n] == last;
    UnsplitInStep(front);
    var r, p := ReadLines(map[], front), ParseLines(front);
    ReadLineByToken(r, last);
    ParseLineByToken(p, last);
    ItemFieldHasDash(last);
    hide TokenOf;
    hide InStep;
    hide ReadLine;
    hide ParseLine;
    SplitMakesDifference(r, p, TokenOf(last), UnderNoKey(front));
  }

  lemma {:induction false} FirstSplit(lines: seq<string>) returns (n: nat)
    requires !NothingSplits(lines)
    ensures n < |lines| && SplitsReaders(lines[..n], lines[n]) && NothingSplits(lines[..n])
    decreases |lines|
  {
    hide SplitsReaders;
    var m := |lines| - 1;
    var front := lines[..m];
    assert lines != [];
    if NothingSplits(front) {
      n := m;
      forall k | 0 <= k < m ensures !SplitsReaders(lines[..k], lines[k]) {
        assert front[..k] == lines[..k] && front[k] == lines[k];
      }
    } else {
      n := FirstSplit(front);
      assert front[..n] == lines[..n] && front[n] == lines[n];
    }
  }

  /**
   The two readers hold the same fields after every line of a text, on every key whatever, if and only if the text has
   no block marker and no item under a colon without a key.
   */
  lemma {:induction false} ReadersAlikeExactlyWhen(lines: seq<string>)
    ensures ReadAlikeThroughout(lines) <==> NothingSplits(lines)
  {
    hide ReadLines;
    hide ParseLines;
    hide SplitsReaders;
    if NothingSplits(lines) {
      forall n | 0 <= n <= |lines| ensures ReadLines(map[], lines[..n]).fields == ParseLines(lines[..n]).fields {
        PrefixUnsplit(lines, n);
        UnsplitInStep(lines[..n]);
      }
    } else {
      var n := FirstSplit(lines);
      FirstSplitShows(lines, n);
      assert ReadLines(map[], lines[..n + 1]).fields != ParseLines(lines[..n + 1]).fields;
    }
  }

  lemma PrefixUnsplit(lines: seq<string>, n: nat)
    requires n <= |lines| && NothingSplits(lines)
    ensures NothingSplits(lines[..n])
  {
    hide SplitsReaders;
    var front := lines[..n];
    forall k | 0 <= k < n ensures !SplitsReaders(front[..k], front[k]) {
      assert front[..k] == lines[..k] && front[k] == lines[k];
    }
  }

  /** A text on which they differ: the block marker alone. */
  lemma {:induction false} MarkerSplitsReaders()
    ensures !ReadAlikeThroughout(["pipeline_run:"])
  {
    MarkerLine();
    hide TokenOf;
    hide ReadAlikeThroughout;
    var lines := ["pipeline_run:"];
    assert SplitsReaders(lines[..0], lines[0]);
    ReadersAlikeExactlyWhen(lines);
  }

  lemma ItemAIsItem()
    ensures TokenOf("  - a").Item?
  {
    ItemLineA();
    hide Clean;
    hide Strip;
    hide ItemOf;
    hide HasColon;
  }

  lemma ColonOpensNoKey()
    ensures UnderNoKey([":"])
  {
    ColonLine();
    hide TokenOf;
  }

  /** Another: an item under a colon. */
  lemma {:induction false} ColonSplitsReaders()
    ensures !ReadAlikeThroughout([":", "  - a"])
  {
    ColonOpensNoKey();
    ItemAIsItem();
    hide TokenOf;
    hide UnderNoKey;
    hide ReadAlikeThroughout;
    var lines := [":", "  - a"];
    assert lines[..1] == [":"];
    assert SplitsReaders(lines[..1], lines[1]);
    ReadersAlikeExactlyWhen(lines);
  }

  lemma {:induction false} MarkerLine()
    ensures TokenOf("pipeline_run:") == Pair("pipeline_run", "")
  {
    var line := "pipeline_run:";
    MarkerStrips();
    hide Strip;
    hide Clean;
    assert line[..12] == "pipeline_run" && line[13..] == "";
    HeaderLine(line, "pipeline_run", "", 12);
    hide TokenOf;
    hide IndexOf;
  }

  lemma MarkerStrips()
    ensures Strip("pipeline_run") == "pipeline_run" && Strip("") == ""
  {
  }

  lemma {:induction false} ColonLine()
    ensures TokenOf(":") == Pair("", "")
  {
    var line := ":";
    MarkerStrips();
    hide Strip;
    hide Clean;
    assert line[..0] == "" && line[1..] == "";
    HeaderLine(line, "", "", 0);
    hide TokenOf;
    hide IndexOf;
  }
}

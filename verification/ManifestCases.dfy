/** Lists and scalars as they are written: all three parsers read them back. */
module ManifestCases {
  import opened Options
  import opened Text
  import opened Normalize
  import opened QuoteScanners
  import opened ManifestParsers

  predicate IsWordChar(c: char) {
    !IsSpace(c) && c != '#' && c != ':' && !IsQuote(c)
  }

  /** Something between white space: no space, quote, colon or hash mark in it. */
  ghost predicate Word(w: string) {
    w != "" && forall i :: 0 <= i < |w| ==> IsWordChar(w[i])
  }

  lemma PlainChars()
    ensures !IsSpace('-') && !IsSpace(':') && IsSpace(' ')
  {
  }

  lemma {:induction false} WordIsPlain(w: string)
    requires Word(w)
    ensures Trim(w) && '#' !in w && ':' !in w && Strip(w) == w && StripQuotes(w) == w
  {
    assert "" + w + "" == w;
    StripIsMiddle("", w, "");
    StripQuotesIsMiddle("", w, "");
  }

  lemma LastShownIsRStripped(s: string)
    requires s != "" && !IsSpace(s[|s| - 1])
    ensures RStrip(s) == s
  {
  }

  // ---------------------------------------------------------------- items

  function ItemLine(w: string): string {
    "  - " + w
  }

  lemma {:induction false} ItemLineShape(w: string)
    requires Word(w)
    ensures Clean(ItemLine(w)) == ItemLine(w) && Strip(ItemLine(w)) == "- " + w
  {
    var line := ItemLine(w);
    WordIsPlain(w);
    PlainChars();
    hide IsSpace;
    assert line[|line| - 1] == w[|w| - 1];
    assert '#' !in line;
    LastShownIsRStripped(line);
    PlainLineIsClean(line);
    var m := "- " + w;
    assert Trim(m) by { assert m[0] == '-' && m[|m| - 1] == w[|w| - 1]; }
    assert "  " + m + "" == line;
    StripIsMiddle("  ", m, "");
    hide Strip;
    hide Clean;
  }

  lemma {:induction false} ItemLineReads(w: string)
    requires Word(w)
    ensures TokenOf(ItemLine(w)) == Item(w, None) && Regular(ItemLine(w))
  {
    ItemLineShape(w);
    WordIsPlain(w);
    var s := "- " + w;
    assert s[2..] == " "[1..] + w;
    assert ' ' == s[1] && s[..2] == "- ";
    assert s[2..] == w;
    assert ':' !in s;
    assert !HasColon(s);
    hide Strip;
    hide Clean;
    hide StripQuotes;
    assert StartsWith(ItemLine(w), " ") by { assert ItemLine(w)[..1] == " "; }
  }

  // ---------------------------------------------------------------- headers

  lemma {:induction false} OpenHeaderReads(key: string)
    requires Word(key) && key[0] != '-'
    ensures TokenOf(key + ":") == Pair(key, "")
  {
    var line := key + ":";
    WordIsPlain(key);
    PlainChars();
    SomeStrips();
    hide IsSpace;
    hide Strip;
    assert line[..|key|] == key && line[|key| + 1..] == "" && line[|key|] == ':' && line[0] == key[0];
    HeaderLine(line, key, "", |key|);
    hide TokenOf;
  }

  lemma {:induction false} ScalarReads(key: string, value: string)
    requires Word(key) && key[0] != '-' && Word(value)
    ensures TokenOf(key + (": " + value)) == Pair(key, value)
  {
    var line := key + (": " + value);
    WordIsPlain(key);
    WordIsPlain(value);
    PlainChars();
    assert " " + value + "" == " " + value;
    StripIsMiddle(" ", value, "");
    hide IsSpace;
    hide Strip;
    assert line[..|key|] == key && line[|key| + 1..] == " " + value && line[|key|] == ':' && line[0] == key[0];
    assert line[|line| - 1] == value[|value| - 1];
    HeaderLine(line, key, value, |key|);
    hide TokenOf;
  }

  /** A scalar is read as written, without its quotes, by the manifest parser and the scope-lock parser. */
  lemma {:induction false} ScalarReadsBack(r: Reader, key: string, value: string)
    requires Word(key) && key[0] != '-' && key != "pipeline_run" && Word(value) && value != "[]"
    ensures ReadLine(r, key + (": " + value)).fields == r.fields[key := Scalar(value)]
    ensures ParseLine(r, key + (": " + value)).fields == r.fields[key := Scalar(value)]
  {
    ScalarReads(key, value);
    WordIsPlain(value);
    ReadLineByToken(r, key + (": " + value));
    ParseLineByToken(r, key + (": " + value));
    hide TokenOf;
    hide ReadLine;
    hide ParseLine;
    hide StripQuotes;
  }

  // ---------------------------------------------------------------- lists

  /** The key, and an indented line for each item. */
  function ListLines(key: string, items: seq<string>): (lines: seq<string>)
    ensures |lines| == |items| + 1
  {
    if items == [] then [key + ":"]
    else ListLines(key, items[..|items| - 1]) + [ItemLine(items[|items| - 1])]
  }

  lemma ListLinesStep(key: string, items: seq<string>)
    requires items != []
    ensures var lines := ListLines(key, items);
            lines[..|lines| - 1] == ListLines(key, items[..|items| - 1]) && lines[|lines| - 1] == ItemLine(items[|items| - 1])
  {
  }

  lemma ReadsOn(lines: seq<string>, n: nat)
    requires |lines| == n + 1
    ensures ReadLines(map[], lines) == ReadLine(ReadLines(map[], lines[..n]), lines[n])
    ensures ParseLines(lines) == ParseLine(ParseLines(lines[..n]), lines[n])
    ensures LoadLines(lines) == LoadLine(LoadLines(lines[..n]), lines[n])
  {
    hide ReadLine;
    hide ParseLine;
    hide LoadLine;
  }

  lemma HeaderOpensList(key: string)
    requires Word(key) && key[0] != '-' && key != "pipeline_run"
    ensures ReadLine(Reader(map[], None), key + ":") == Reader(map[key := List([])], Some(key))
    ensures ParseLine(Reader(map[], None), key + ":") == Reader(map[key := List([])], Some(key))
  {
    OpenHeaderReads(key);
    ReadLineByToken(Reader(map[], None), key + ":");
    ParseLineByToken(Reader(map[], None), key + ":");
    hide TokenOf;
    hide ReadLine;
    hide ParseLine;
    hide Word;
  }

  lemma ItemGoesToList(key: string, front: seq<string>, last: string)
    requires key != "" && Word(last)
    ensures var r, r' := Reader(map[key := List(front)], Some(key)), Reader(map[key := List(front + [last])], Some(key));
            ReadLine(r, ItemLine(last)) == r' && ParseLine(r, ItemLine(last)) == r'
  {
    var r := Reader(map[key := List(front)], Some(key));
    ItemLineReads(last);
    ReadLineByToken(r, ItemLine(last));
    ParseLineByToken(r, ItemLine(last));
    hide TokenOf;
    hide ReadLine;
    hide ParseLine;
    hide Word;
    hide ItemLine;
    assert map[key := List(front)][key := List(front + [last])] == map[key := List(front + [last])];
  }

  lemma EmptyListReads(key: string)
    requires Word(key) && key[0] != '-' && key != "pipeline_run"
    ensures ReadLines(map[], ListLines(key, [])) == Reader(map[key := List([])], Some(key))
    ensures ParseLines(ListLines(key, [])) == Reader(map[key := List([])], Some(key))
  {
    hide ReadLine;
    hide ParseLine;
    hide Word;
    var lines := ListLines(key, []);
    assert lines == [key + ":"] && lines[..0] == [];
    HeaderOpensList(key);
  }

  ghost predicate Words(items: seq<string>) {
    forall i :: 0 <= i < |items| ==> Word(items[i])
  }

  /** A key that is neither the block marker nor a list item in disguise. */
  ghost predicate ListKey(key: string) {
    Word(key) && key[0] != '-' && key != "pipeline_run"
  }

  lemma WordsFront(items: seq<string>)
    requires items != [] && Words(items)
    ensures Words(items[..|items| - 1]) && Word(items[|items| - 1])
    ensures items[..|items| - 1] + [items[|items| - 1]] == items
  {
    hide Word;
  }

  /** A list of words under a key is read back by the manifest parser and the scope-lock parser. */
  lemma {:induction false} ListReadsBack(key: string, items: seq<string>)
    requires ListKey(key) && Words(items)
    ensures ReadLines(map[], ListLines(key, items)) == Reader(map[key := List(items)], Some(key))
    ensures ParseLines(ListLines(key, items)) == Reader(map[key := List(items)], Some(key))
    decreases |items|, 1
  {
    hide *;
    if items == [] {
      ListKeyIsKey(key);
      EmptyListReads(key);
    } else {
      ListGrows(key, items);
    }
  }

  lemma ListKeyIsKey(key: string)
    requires ListKey(key)
    ensures Word(key) && key != "" && key[0] != '-' && key != "pipeline_run"
  {
  }

  lemma {:induction false} ListGrows(key: string, items: seq<string>)
    requires ListKey(key) && Words(items) && items != []
    ensures ReadLines(map[], ListLines(key, items)) == Reader(map[key := List(items)], Some(key))
    ensures ParseLines(ListLines(key, items)) == Reader(map[key := List(items)], Some(key))
    decreases |items|, 0
  {
    hide *;
    var front, last := items[..|items| - 1], items[|items| - 1];
    WordsFront(items);
    ListReadsBack(key, front);
    ListLinesStep(key, items);
    ReadsOn(ListLines(key, items), |items|);
    ListKeyIsKey(key);
    ItemGoesToList(key, front, last);
  }

  lemma {:induction false} OpenHeaderIsRegular(key: string)
    requires Word(key) && key[0] != '-'
    ensures Regular(key + ":")
  {
    var line := key + ":";
    WordIsPlain(key);
    PlainChars();
    SomeStrips();
    hide IsSpace;
    hide Strip;
    assert line[..|key|] == key && line[|key| + 1..] == "" && line[|key|] == ':' && line[0] == key[0];
    HeaderLine(line, key, "", |key|);
    hide TokenOf;
    hide Clean;
  }

  /** A list of the path check: that of key, and the other one. */
  function Loaded(key: string, items: seq<string>): Loader {
    if key == "allowed_paths" then Loader(items, [], Allowed) else Loader([], items, Forbidden)
  }

  lemma PathHeaderOpensList(key: string)
    requires IsPathKey(key) && Word(key)
    ensures LoadLine(NOTHING_LOADED, key + ":") == Loaded(key, [])
  {
    PathKeyIsPlain(key);
    NamesDiffer();
    OpenHeaderReads(key);
    OpenHeaderIsRegular(key);
    LoadLineByToken(NOTHING_LOADED, key + ":");
    hide TokenOf;
    hide LoadLine;
    hide Regular;
    hide Contains;
    hide Strip;
    hide Word;
  }

  lemma ItemGoesToPaths(key: string, front: seq<string>, last: string)
    requires IsPathKey(key) && Word(last)
    ensures LoadLine(Loaded(key, front), ItemLine(last)) == Loaded(key, front + [last])
  {
    ItemLineReads(last);
    LoadLineByToken(Loaded(key, front), ItemLine(last));
    hide TokenOf;
    hide LoadLine;
    hide Regular;
    hide Word;
    hide ItemLine;
  }

  lemma EmptyPathListReads(key: string)
    requires IsPathKey(key) && Word(key)
    ensures LoadLines(ListLines(key, [])) == Loaded(key, [])
  {
    hide LoadLine;
    hide Word;
    var lines := ListLines(key, []);
    assert lines == [key + ":"] && lines[..0] == [];
    PathHeaderOpensList(key);
  }

  /** Under a path key, by the path check too; and nothing goes to the other list. */
  lemma {:induction false} PathListReadsBack(key: string, items: seq<string>)
    requires IsPathKey(key) && Word(key) && Words(items)
    ensures LoadLines(ListLines(key, items)) == Loaded(key, items)
    decreases |items|, 1
  {
    hide *;
    if items == [] {
      EmptyPathListReads(key);
    } else {
      PathListGrows(key, items);
    }
  }

  lemma {:induction false} PathListGrows(key: string, items: seq<string>)
    requires IsPathKey(key) && Word(key) && Words(items) && items != []
    ensures LoadLines(ListLines(key, items)) == Loaded(key, items)
    decreases |items|, 0
  {
    hide *;
    var front, last := items[..|items| - 1], items[|items| - 1];
    WordsFront(items);
    PathListReadsBack(key, front);
    ListLinesStep(key, items);
    ReadsOn(ListLines(key, items), |items|);
    ItemGoesToPaths(key, front, last);
  }
}

/** The text that the panel prints for a tree is the rendering of its `Lines`, so a reader sees exactly those. */
module YamlLines {
  import opened Text
  import opened Yaml
  import opened YamlReader

  // ---------------------------------------------------------------- what is printed, line by line

  /** What `String(n)` gives for a finite number. */
  predicate JsNumeral(s: string) {
    s != "" && (forall c | c in s :: IsDigit(c) || c in "+-.e") && IsNumeral(s)
  }

  /** A JavaScript tree: numbers are numerals, and no object has a key twice. */
  predicate JsTree(v: Value) {
    match v
    case Num(repr) => JsNumeral(repr)
    case List(items) => forall x | x in items :: JsTree(x)
    case Obj(entries) =>
      && (forall e | e in entries :: JsTree(e.value))
      && (forall i, j | 0 <= i < j < |entries| :: entries[i].key != entries[j].key)
    case _ => true
  }

  predicate PlainKeys(v: Value) {
    match v
    case List(items) => forall x | x in items :: PlainKeys(x)
    case Obj(entries) => forall e | e in entries :: PlainKey(e.key) && PlainKeys(e.value)
    case _ => true
  }

  /** A JavaScript tree whose keys YAML reads back. */
  predicate Tree(v: Value) {
    match v
    case Num(repr) => JsNumeral(repr)
    case List(items) => forall x | x in items :: Tree(x)
    case Obj(entries) =>
      && (forall e | e in entries :: PlainKey(e.key) && Tree(e.value))
      && (forall i, j | 0 <= i < j < |entries| :: entries[i].key != entries[j].key)
    case _ => true
  }

  predicate BreakFree(v: Value) {
    match v
    case Txt(s) => NoBreak(s)
    case List(items) => forall x | x in items :: BreakFree(x)
    case Obj(entries) => forall e | e in entries :: BreakFree(e.value)
    case _ => true
  }

  /** The printed lines, with the repetition that the array branch makes. */
  function Lines(v: Value, level: nat): (ls: seq<Line>)
    ensures |ls| >= 1
    ensures ls[0].indent == 2 * level
    decreases v, 0
  {
    match v
    case List(items) => if items == [] then [Line(2 * level, "[]")] else ItemLines(items, level)
    case Obj(entries) => if entries == [] then [Line(2 * level, "")] else EntryLines(entries, level)
    case _ => [Line(2 * level, YamlScalar(v))]
  }

  function ItemLines(items: seq<Value>, level: nat): (ls: seq<Line>)
    ensures items != [] ==> |ls| >= 1 && ls[0].indent == 2 * level
    decreases items, 0
  {
    if items == [] then []
    else
      var block := Lines(items[0], level + 1);
      [Dashed(block, level)] + block[1..] + block[1..] + ItemLines(items[1..], level)
  }

  /** An element's first line, from which the code strips what JavaScript takes for white space. */
  function Dashed(block: seq<Line>, level: nat): Line
    requires block != []
  {
    Line(2 * level, "- " + TrimStart(block[0].content))
  }

  /** The part of an entry's first line after its colon, when the value fits on it. */
  function InlineText(v: Value): Option<string> {
    match v
    case List(items) => if items == [] then Some("[]") else None
    case Obj(entries) => if entries == [] then Some("{}") else None
    case _ => Some(YamlScalar(v))
  }

  function EntryLine(e: Entry, level: nat): Line {
    Line(2 * level, e.key + ":" + if InlineText(e.value).Some? then " " + InlineText(e.value).value else "")
  }

  function EntryLines(entries: seq<Entry>, level: nat): (ls: seq<Line>)
    ensures entries != [] ==> |ls| >= 1 && ls[0].indent == 2 * level
    decreases entries, 0
  {
    if entries == [] then []
    else
      var e := entries[0];
      [EntryLine(e, level)] + (if InlineText(e.value).Some? then [] else Lines(e.value, level + 1))
        + EntryLines(entries[1..], level)
  }

  function Render(ls: seq<Line>): (ss: seq<string>)
    ensures |ss| == |ls|
  {
    if ls == [] then [] else [Repeat(' ', ls[0].indent) + ls[0].content] + Render(ls[1..])
  }

  predicate Tidy(l: Line) {
    NoBreak(l.content) && (l.content == "" || (l.content[0] != ' ' && HasVisible(l.content)))
  }

  predicate AllTidy(ls: seq<Line>) { forall l | l in ls :: Tidy(l) }

  lemma {:induction false} KeyShape(k: string)
    requires PlainKey(k)
    ensures k != "" && NoBreak(k) && !IsWhite(k[0]) && k[0] !in "'["
  {
    var c := k + ":";
    forall x | x in k ensures !IsBreak(x) {
      var i: nat :| i < |k| && k[i] == x;
      assert PlainAt(c, i) && c[i] == x;
    }
    assert c[0] == k[0];
  }

  lemma {:induction false} ScalarTidy(v: Value)
    requires !IsBlock(v) && JsTree(v) && BreakFree(v)
    ensures NoBreak(YamlScalar(v))
    ensures YamlScalar(v) != "" && !IsSpace(YamlScalar(v)[0])
  {
    ScalarFirst(v);
    match v
    case Txt(s) => TextTidy(s);
    case Num(repr) => NumeralTidy(repr);
    case _ =>
  }

  lemma {:induction false} TextTidy(s: string)
    requires NoBreak(s)
    ensures NoBreak(YamlScalar(Txt(s)))
  {
    if !PrintsPlain(s) { DoubleQuotesFree(s); }
  }

  lemma {:induction false} NumeralTidy(s: string)
    requires JsNumeral(s)
    ensures NoBreak(s)
  {
  }

  lemma {:induction false} SafeFirst(s: string)
    requires PlainSafe(s)
    ensures !IsSpace(s[0])
  {
    assert s[0] in s;
  }

  lemma {:induction false} NumeralSafe(s: string)
    requires JsNumeral(s)
    ensures PlainSafe(s)
  {
  }

  lemma {:induction false} ScalarFirst(v: Value)
    requires !IsBlock(v) && JsTree(v)
    ensures YamlScalar(v) != "" && !IsSpace(YamlScalar(v)[0])
  {
    match v
    case Txt(s) => if PrintsPlain(s) { SafeFirst(s); }
    case Num(repr) => NumeralSafe(repr); SafeFirst(repr);
    case _ =>
  }

  lemma {:induction false} DoubleQuotesFree(s: string)
    requires NoBreak(s)
    ensures NoBreak(DoubleQuotes(s))
  {
    if s != "" {
      assert s[0] in s;
      DoubleQuotesFree(s[1..]);
    }
  }

  lemma {:induction false} LinesTidy(v: Value, level: nat)
    requires Tree(v) && BreakFree(v)
    ensures AllTidy(Lines(v, level))
    decreases v, 0
  {
    match v
    case List(items) => if items != [] { ItemLinesTidy(items, level); }
    case Obj(entries) => if entries != [] { EntryLinesTidy(entries, level); }
    case _ => ScalarTidy(v);
  }

  lemma {:induction false} ItemLinesTidy(items: seq<Value>, level: nat)
    requires forall x | x in items :: Tree(x) && BreakFree(x)
    ensures AllTidy(ItemLines(items, level))
    decreases items, 0
  {
    if items != [] {
      LinesTidy(items[0], level + 1);
      ItemLinesTidy(items[1..], level);
      var block := Lines(items[0], level + 1);
      assert block[0] in block;
      TrimStartFirst(block[0].content);
      assert Tidy(Dashed(block, level));
    }
  }

  lemma {:induction false} EntryLinesTidy(entries: seq<Entry>, level: nat)
    requires forall e | e in entries :: PlainKey(e.key) && Tree(e.value) && BreakFree(e.value)
    ensures AllTidy(EntryLines(entries, level))
    decreases entries, 0
  {
    if entries != [] {
      var e := entries[0];
      EntryLinesTidy(entries[1..], level);
      if InlineText(e.value).None? { LinesTidy(e.value, level + 1); }
      EntryLineTidy(e, level);
    }
  }

  lemma {:induction false} EntryLineTidy(e: Entry, level: nat)
    requires PlainKey(e.key) && Tree(e.value) && BreakFree(e.value)
    ensures Tidy(EntryLine(e, level))
  {
    KeyShape(e.key);
    if !IsBlock(e.value) { ScalarTidy(e.value); }
    VisibleAt(EntryLine(e, level).content, |e.key|);
  }

  // ---------------------------------------------------------------- the printed text is those lines

  lemma {:induction false} RenderConcat(a: seq<Line>, b: seq<Line>)
    ensures Render(a + b) == Render(a) + Render(b)
  {
    if a == [] {
      assert a + b == b;
    } else {
      RenderConcat(a[1..], b);
      assert (a + b)[1..] == a[1..] + b && (a + b)[0] == a[0];
    }
  }

  lemma {:induction false} RenderFree(ls: seq<Line>)
    requires AllTidy(ls)
    ensures forall s | s in Render(ls) :: NoBreak(s)
  {
    if ls != [] {
      RenderFree(ls[1..]);
      assert ls[0] in ls;
      assert NoBreak(Repeat(' ', ls[0].indent));
    }
  }

  lemma {:induction false} MeasureRender(l: Line)
    requires Tidy(l)
    ensures Measure(Repeat(' ', l.indent) + l.content) == l
    decreases l.indent
  {
    var s := Repeat(' ', l.indent) + l.content;
    if l.indent > 0 {
      var shorter := Line(l.indent - 1, l.content);
      MeasureRender(shorter);
      assert s[1..] == Repeat(' ', shorter.indent) + shorter.content;
    } else {
      assert s == l.content;
    }
  }

  lemma {:induction false} MeasureAllRender(ls: seq<Line>)
    requires AllTidy(ls)
    ensures MeasureAll(Render(ls)) == ls
  {
    if ls != [] {
      MeasureRender(ls[0]);
      MeasureAllRender(ls[1..]);
      assert [ls[0]] + ls[1..] == ls;
    }
  }

  /** `ToYaml` prints `Lines`, except that an empty object is printed without padding. */
  lemma {:induction false} PrintedLines(v: Value, level: nat)
    requires Tree(v) && BreakFree(v) && v != Obj([])
    ensures ToYaml(v, level) == Join(Render(Lines(v, level)), '\n')
    decreases v, 1
  {
    match v
    case List(items) => if items != [] { PrintedItems(items, level); }
    case Obj(entries) => PrintedEntries(entries, level);
    case _ =>
  }

  lemma {:induction false} StrippedBlock(n: nat, c: string, tail: string)
    requires HasVisible(c)
    ensures TrimStart(Repeat(' ', n) + c) == TrimStart(c)
    ensures TrimStart(Repeat(' ', n) + (c + tail)) == TrimStart(c) + tail
  {
    TrimStartSpaces(n, c);
    TrimStartSpaces(n, c + tail);
    TrimStartFront(c, tail);
  }

  lemma {:induction false} RenderFirst(first: Line, pad: string, c: string)
    requires Repeat(' ', first.indent) == pad && first.content == "- " + c
    ensures Render([first]) == [pad + "- " + c]
  {
    assert pad + ("- " + c) == pad + "- " + c;
  }

  lemma {:induction false} BlockTexts(block: seq<Line>)
    requires block != [] && AllTidy(block)
    ensures Split(Join(Render(block), '\n'), '\n')[1..] == Render(block[1..])
    ensures var head := Repeat(' ', block[0].indent) + block[0].content;
            Join(Render(block), '\n') == if |block| == 1 then head else head + "\n" + Join(Render(block[1..]), '\n')
  {
    RenderFree(block);
    SplitJoin(Render(block), '\n');
  }

  /** The text of a block of several lines, stripped at the front. */
  lemma {:induction false} StrippedText(block: seq<Line>, rest: string)
    requires |block| > 1 && AllTidy(block) && HasVisible(block[0].content) && rest == Join(Render(block[1..]), '\n')
    ensures TrimStart(Join(Render(block), '\n')) == TrimStart(block[0].content) + ("\n" + rest)
  {
    var pad, c := Repeat(' ', block[0].indent), block[0].content;
    BlockTexts(block);
    StrippedBlock(block[0].indent, c, "\n" + rest);
    AssociativeText(pad + c, "\n", rest);
    AssociativeText(pad, c, "\n" + rest);
  }

  lemma {:induction false} RepeatedLines(block: seq<Line>, pad: string, first: Line, c: string, rest: string)
    requires |block| > 1 && block[1].indent > 0 && rest == Join(Render(block[1..]), '\n')
    requires Repeat(' ', first.indent) == pad && first.content == "- " + c
    ensures rest != ""
    ensures Join(Render([first] + block[1..] + block[1..]), '\n') == pad + "- " + c + "\n" + rest + "\n" + rest
  {
    RenderFirst(first, pad, c);
    RenderTwice(first, block[1..]);
  }

  lemma {:induction false} SingleBlock(block: seq<Line>, pad: string, first: Line)
    requires |block| == 1 && AllTidy(block) && HasVisible(block[0].content)
    requires Repeat(' ', first.indent) == pad && first.content == "- " + TrimStart(block[0].content)
    ensures Join(Render([first]), '\n') == BlockItemText(Join(Render(block), '\n'), pad)
  {
    BlockTexts(block);
    RenderFirst(first, pad, TrimStart(block[0].content));
    StrippedBlock(block[0].indent, block[0].content, "");
  }

  /** The array branch on the text of any tidy block: every line after the first comes out twice. */
  lemma {:induction false} RepeatedBlock(block: seq<Line>, pad: string, first: Line)
    requires block != [] && AllTidy(block) && block[0].content != "" && forall l | l in block :: l.indent > 0
    requires Repeat(' ', first.indent) == pad && first.content == "- " + TrimStart(block[0].content)
    ensures Join(Render([first] + block[1..] + block[1..]), '\n') == BlockItemText(Join(Render(block), '\n'), pad)
  {
    var c, rest := TrimStart(block[0].content), Join(Render(block[1..]), '\n');
    assert block[0] in block;
    if |block| == 1 {
      SingleBlock(block, pad, first);
      assert [first] + block[1..] + block[1..] == [first];
    } else {
      assert block[1] in block;
      BlockTexts(block);
      StrippedText(block, rest);
      RepeatedLines(block, pad, first, c, rest);
      assert pad + "- " + (c + ("\n" + rest)) == pad + "- " + c + "\n" + rest;
    }
  }

  lemma {:induction false} RenderTwice(first: Line, rest: seq<Line>)
    requires rest != []
    ensures
      var text := Join(Render(rest), '\n');
      Join(Render([first] + rest + rest), '\n') == Join(Render([first]), '\n') + "\n" + text + "\n" + text
  {
    RenderConcat([first] + rest, rest);
    RenderConcat([first], rest);
    JoinConcat(Render([first] + rest), Render(rest), '\n');
    JoinConcat(Render([first]), Render(rest), '\n');
  }

  lemma {:induction false} PrintedItem(item: Value, level: nat)
    requires Tree(item) && BreakFree(item)
    ensures
      var block := Lines(item, level + 1);
      ItemText(item, level) == Join(Render([Dashed(block, level)] + block[1..] + block[1..]), '\n')
    decreases item, 2
  {
    var block := Lines(item, level + 1);
    var first, pad := Dashed(block, level), Repeat(' ', 2 * level);
    if !IsBlock(item) || item == Obj([]) {
      PrintedShortItem(item, level);
    } else {
      PrintedLines(item, level + 1);
      LinesTidy(item, level + 1);
      ContinuationIndent(item, level + 1);
      RepeatedBlock(block, pad, first);
    }
  }

  lemma {:induction false} PrintedShortItem(item: Value, level: nat)
    requires JsTree(item) && (!IsBlock(item) || item == Obj([]))
    ensures
      var block := Lines(item, level + 1);
      ItemText(item, level) == Join(Render([Dashed(block, level)] + block[1..] + block[1..]), '\n')
  {
    var c := if IsBlock(item) then "" else YamlScalar(item);
    var block := [Line(2 * level + 2, c)];
    if !IsBlock(item) { ScalarFirst(item); }
    assert [Dashed(block, level)] + block[1..] + block[1..] == [Dashed(block, level)];
    RenderFirst(Dashed(block, level), Repeat(' ', 2 * level), c);
  }

  /** Every line of a block is at least as deep as its first. */
  lemma {:induction false} ContinuationIndent(v: Value, level: nat)
    ensures forall l | l in Lines(v, level) :: l.indent >= 2 * level
    decreases v, 0
  {
    match v
    case List(items) => ItemIndent(items, level);
    case Obj(entries) => EntryIndent(entries, level);
    case _ =>
  }

  lemma {:induction false} ItemIndent(items: seq<Value>, level: nat)
    ensures forall l | l in ItemLines(items, level) :: l.indent >= 2 * level
    decreases items, 0
  {
    if items != [] {
      ContinuationIndent(items[0], level + 1);
      ItemIndent(items[1..], level);
    }
  }

  lemma {:induction false} EntryIndent(entries: seq<Entry>, level: nat)
    ensures forall l | l in EntryLines(entries, level) :: l.indent >= 2 * level
    decreases entries, 0
  {
    if entries != [] {
      ContinuationIndent(entries[0].value, level + 1);
      EntryIndent(entries[1..], level);
    }
  }

  lemma {:induction false} PrintedItems(items: seq<Value>, level: nat)
    requires items != [] && forall x | x in items :: Tree(x) && BreakFree(x)
    ensures Join(ItemTexts(items, level), '\n') == Join(Render(ItemLines(items, level)), '\n')
    decreases items, 0
  {
    PrintedItem(items[0], level);
    var block := Lines(items[0], level + 1);
    var lines := [Dashed(block, level)] + block[1..] + block[1..];
    if |items| > 1 {
      PrintedItems(items[1..], level);
      var others := ItemLines(items[1..], level);
      RenderConcat(lines, others);
      JoinConcat(Render(lines), Render(others), '\n');
    } else {
      assert ItemLines(items, level) == lines;
    }
  }

  /** What an entry prints is its own line and, below it, those of its value. */
  function EntryBlock(e: Entry, level: nat): seq<Line> {
    [EntryLine(e, level)] + if InlineText(e.value).Some? then [] else Lines(e.value, level + 1)
  }

  lemma {:induction false} InlineEntry(e: Entry, level: nat)
    requires InlineText(e.value).Some?
    ensures EntryText(e, level) == Render(EntryBlock(e, level))
  {
    var pad, value := Repeat(' ', 2 * level), InlineText(e.value).value;
    assert EntryBlock(e, level) == [EntryLine(e, level)];
    assert pad + (e.key + ":" + (" " + value)) == pad + e.key + ": " + value;
    assert pad + e.key + ": " + "[]" == pad + e.key + ": []";
    assert pad + e.key + ": " + "{}" == pad + e.key + ": {}";
  }

  lemma {:induction false} PrintedEntry(e: Entry, level: nat)
    requires Tree(e.value) && BreakFree(e.value)
    ensures Join(EntryText(e, level), '\n') == Join(Render(EntryBlock(e, level)), '\n')
    decreases e, 0
  {
    if InlineText(e.value).Some? {
      InlineEntry(e, level);
    } else {
      var first, block := EntryLine(e, level), Lines(e.value, level + 1);
      PrintedLines(e.value, level + 1);
      RenderConcat([first], block);
      JoinConcat(Render([first]), Render(block), '\n');
      assert Repeat(' ', 2 * level) + first.content == Repeat(' ', 2 * level) + e.key + ":";
      assert EntryText(e, level)[1..] == [ToYaml(e.value, level + 1)];
    }
  }

  lemma {:induction false} PrintedEntries(entries: seq<Entry>, level: nat)
    requires entries != [] && forall e | e in entries :: Tree(e.value) && BreakFree(e.value)
    ensures Join(EntryTexts(entries, level), '\n') == Join(Render(EntryLines(entries, level)), '\n')
    decreases entries, 0
  {
    var texts, others := EntryText(entries[0], level), EntryTexts(entries[1..], level);
    var block, rest := EntryBlock(entries[0], level), EntryLines(entries[1..], level);
    PrintedEntry(entries[0], level);
    assert EntryLines(entries, level) == block + rest;
    if |entries| > 1 {
      PrintedEntries(entries[1..], level);
      EntryTextsNonEmpty(entries[1..], level);
      JoinConcat(texts, others, '\n');
      RenderConcat(block, rest);
      JoinConcat(Render(block), Render(rest), '\n');
    } else {
      assert texts + others == texts && block + rest == block;
    }
  }

  lemma {:induction false} EntryTextsNonEmpty(entries: seq<Entry>, level: nat)
    requires entries != []
    ensures EntryTexts(entries, level) != []
  {
  }

  lemma {:induction false} BreakOne(a: string)
    requires NoBreak(a)
    ensures BreakLines(a) == [a]
  {
    if a != "" {
      assert a[0] in a;
      BreakOne(a[1..]);
      assert [a[0]] + a[1..] == a;
    }
  }

  lemma {:induction false} BreakFirst(a: string, b: string)
    requires NoBreak(a)
    ensures BreakLines(a + "\n" + b) == [a] + BreakLines(b)
  {
    var s := a + "\n" + b;
    if a == "" {
      assert s[1..] == b;
    } else {
      assert a[0] in a;
      BreakFirst(a[1..], b);
      assert s[1..] == a[1..] + "\n" + b;
      assert [a[0]] + a[1..] == a;
    }
  }

  lemma {:induction false} BreakJoin(ss: seq<string>)
    requires ss != [] && forall s | s in ss :: NoBreak(s)
    ensures BreakLines(Join(ss, '\n')) == ss
  {
    if |ss| == 1 {
      BreakOne(ss[0]);
    } else {
      BreakJoin(ss[1..]);
      BreakFirst(ss[0], Join(ss[1..], '\n'));
    }
  }

  /** A reader sees the printed lines, and refuses them if one is a document marker. */
  lemma {:induction false} ReadsPrintedLines(v: Value)
    requires Tree(v) && BreakFree(v)
    ensures Read(ToYaml(v, 0)) == if Unmarked(Lines(v, 0)) then ReadNode(Lines(v, 0)) else None
  {
    var ls := Lines(v, 0);
    if v == Obj([]) {
      assert ToYaml(v, 0) == "";
      assert MeasureAll([""]) == ls;
    } else {
      PrintedLines(v, 0);
      LinesTidy(v, 0);
      RenderFree(ls);
      BreakJoin(Render(ls));
      MeasureAllRender(ls);
    }
  }
}

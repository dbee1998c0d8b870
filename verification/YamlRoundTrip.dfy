/** When a printed tree reads back as itself: exactly when it is `Faithful`. */
module YamlRoundTrip {
  import opened Text
  import opened Yaml
  import opened YamlReader
  import opened YamlLines

  /** Trees that print on one line. */
  predicate OneLine(v: Value) {
    match v
    case List(items) => items == [] || (|items| == 1 && OneLine(items[0]))
    case Obj(entries) => entries == [] || (|entries| == 1 && InlineText(entries[0].value).Some?)
    case _ => true
  }

  predicate Quotable(s: string) { forall c | c in s :: IsQuotable(c) }

  /** The characters of `[A-Za-z0-9_./:@+-]`. */
  predicate IsBare(c: char) {
    'A' <= c <= 'Z' || 'a' <= c <= 'z' || '0' <= c <= '9' || c in {'_', '.', '/', ':', '@', '+', '-'}
  }

  predicate Bare(s: string) { s != "" && forall c | c in s :: IsBare(c) }

  /** Strings whose printed form YAML gives back.  They hold no line breaks and control characters; and those of bare
      characters only do not start with `@`, end in a colon or look like a sequence dash, nor like a number, unless that
      is one of digits only.  All others are safe in their quotes: words such as `true`, digits, blanks. */
  predicate FaithfulText(s: string) {
    && Quotable(s)
    && (Bare(s) ==> s[0] != '@' && s[|s| - 1] != ':' && s != "-"
                    && (IsNumeral(s) ==> forall c | c in s :: '0' <= c <= '9'))
  }

  /** An array element whose first line has nothing in front that JavaScript takes for white space: the code would
      strip it from the key there. */
  predicate VisibleItem(v: Value) {
    v.Obj? && v.entries != [] && v.entries[0].key != "" ==> !IsSpace(v.entries[0].key[0])
  }

  predicate FaithfulItem(v: Value) { v != Obj([]) && OneLine(v) && VisibleItem(v) }

  /** The trees that survive printing and reading. */
  predicate Faithful(v: Value) {
    match v
    case Txt(s) => FaithfulText(s)
    case List(items) => forall x | x in items :: FaithfulItem(x) && Faithful(x)
    case Obj(entries) => forall e | e in entries :: PlainKey(e.key) && Faithful(e.value)
    case _ => true
  }

  /** A key that makes its line a document marker. */
  predicate MarkedKey(k: string) { |k| > 3 && k[..3] in {"---", "..."} && IsWhite(k[3]) }

  /** Trees that print a document marker. */
  predicate Marked(v: Value) {
    match v
    case Txt(s) => s == "---" || s == "..."
    case Obj(entries) => exists e | e in entries :: MarkedKey(e.key)
    case _ => false
  }

  // ---------------------------------------------------------------- counting dashes and keys

  /** The sequence dashes and mapping keys that one line opens. */
  function LineTokens(c: string): nat
    decreases |c|
  {
    if IsDash(c) then 1 + LineTokens(Measure(c[1..]).content)
    else if IsKey(c) then 1
    else 0
  }

  function Tokens(ls: seq<Line>): nat {
    if ls == [] then 0 else LineTokens(ls[0].content) + Tokens(ls[1..])
  }

  /** The array elements and object entries of a tree. */
  function Count(v: Value): nat
    decreases v, 0
  {
    match v
    case List(items) => CountItems(items)
    case Obj(entries) => CountEntries(entries)
    case _ => 0
  }

  function CountItems(items: seq<Value>): nat
    decreases items, 0
  {
    if items == [] then 0 else 1 + Count(items[0]) + CountItems(items[1..])
  }

  function CountEntries(entries: seq<Entry>): nat
    decreases entries, 0
  {
    if entries == [] then 0 else 1 + Count(entries[0].value) + CountEntries(entries[1..])
  }

  lemma {:induction false} TokensConcat(a: seq<Line>, b: seq<Line>)
    ensures Tokens(a + b) == Tokens(a) + Tokens(b)
  {
    if a == [] {
      assert a + b == b;
    } else {
      TokensConcat(a[1..], b);
      assert (a + b)[1..] == a[1..] + b;
    }
  }

  /** Whatever the reader accepts has as many elements and entries as its lines have dashes and keys. */
  lemma {:induction false} ReadCounts(ls: seq<Line>)
    requires ReadNode(ls).Some?
    ensures Tokens(ls) == Count(ReadNode(ls).value)
    decreases Weight(ls), 1
  {
    var c := ls[0].content;
    if IsDash(c) {
      ReadItemsCounts(ls, ls[0].indent);
    } else if IsKey(c) {
      ReadEntriesCounts(ls, ls[0].indent);
    } else {
      assert ls == [ls[0]];
    }
  }

  /** One step of `ReadItems`, taken apart. */
  lemma {:induction false} ReadItemsStep(ls: seq<Line>, ind: nat) returns (body: seq<Line>, rest: seq<Line>)
    requires ls != [] && ReadItems(ls, ind).Some?
    ensures IsDash(ls[0].content) && body != [] && body[0] == AfterDash(ls[0])
    ensures ls == [ls[0]] + body[1..] + rest
    ensures Weight(body) < Weight(ls) && Weight(rest) < Weight(ls)
    ensures ReadNode(body).Some? && ReadItems(rest, ind).Some?
    ensures ReadItems(ls, ind).value == [ReadNode(body).value] + ReadItems(rest, ind).value
  {
    body, rest := [AfterDash(ls[0])] + Nested(ls, ind).0, Nested(ls, ind).1;
    assert body[1..] == Nested(ls, ind).0;
  }

  lemma {:induction false} ReadItemsCounts(ls: seq<Line>, ind: nat)
    requires ReadItems(ls, ind).Some?
    ensures Tokens(ls) == CountItems(ReadItems(ls, ind).value)
    decreases Weight(ls), 0
  {
    if ls != [] {
      var body, rest := ReadItemsStep(ls, ind);
      ReadCounts(body);
      ReadItemsCounts(rest, ind);
      ItemCountsStep(ls, body, rest, ReadNode(body).value, ReadItems(rest, ind).value);
    }
  }

  lemma {:induction false} ItemCountsStep(ls: seq<Line>, body: seq<Line>, rest: seq<Line>, head: Value,
      tail: seq<Value>)
    requires ls != [] && body != [] && ls == [ls[0]] + body[1..] + rest
    requires IsDash(ls[0].content) && body[0] == AfterDash(ls[0])
    ensures Tokens(ls) == 1 + Tokens(body) + Tokens(rest)
    ensures CountItems([head] + tail) == 1 + Count(head) + CountItems(tail)
  {
    assert ls[1..] == body[1..] + rest;
    TokensConcat(body[1..], rest);
    assert ([head] + tail)[1..] == tail;
  }

  lemma {:induction false} ReadValueCounts(inline: string, inner: seq<Line>)
    requires ReadValue(inline, inner).Some?
    ensures Tokens(inner) == Count(ReadValue(inline, inner).value)
    decreases Weight(inner), 2
  {
    if inline == "" && inner != [] { ReadCounts(inner); }
  }

  /** One step of `ReadEntries`, taken apart. */
  lemma {:induction false} ReadEntriesStep(ls: seq<Line>, ind: nat)
      returns (key: string, inline: string, inner: seq<Line>, rest: seq<Line>)
    requires ls != [] && ReadEntries(ls, ind).Some?
    ensures ls == [ls[0]] + inner + rest
    ensures Weight(ls) == 1 + |ls[0].content| + Weight(inner) + Weight(rest)
    ensures LineTokens(ls[0].content) == 1
    ensures PlainKey(key) && key == ls[0].content[..FindColon(ls[0].content)]
    ensures inline == Measure(ls[0].content[FindColon(ls[0].content) + 1..]).content
    ensures ReadValue(inline, inner).Some? && ReadEntries(rest, ind).Some?
    ensures ReadEntries(ls, ind).value == [Entry(key, ReadValue(inline, inner).value)] + ReadEntries(rest, ind).value
  {
    inner, rest := Nested(ls, ind).0, Nested(ls, ind).1;
    var i := FindColon(ls[0].content);
    key := ls[0].content[..i];
    inline := Measure(ls[0].content[i + 1..]).content;
  }

  lemma {:induction false} ReadEntriesCounts(ls: seq<Line>, ind: nat)
    requires ReadEntries(ls, ind).Some?
    ensures Tokens(ls) == CountEntries(ReadEntries(ls, ind).value)
    decreases Weight(ls), 0
  {
    if ls != [] {
      var key, inline, inner, rest := ReadEntriesStep(ls, ind);
      var entry := Entry(key, ReadValue(inline, inner).value);
      ReadValueCounts(inline, inner);
      ReadEntriesCounts(rest, ind);
      CountsStep(ls, ls[0], inner, rest, entry, ReadEntries(rest, ind).value);
    }
  }

  lemma {:induction false} CountsStep(ls: seq<Line>, first: Line, inner: seq<Line>, rest: seq<Line>, e: Entry,
      tail: seq<Entry>)
    requires ls == [first] + inner + rest
    ensures Tokens(ls) == LineTokens(first.content) + Tokens(inner) + Tokens(rest)
    ensures CountEntries([e] + tail) == 1 + Count(e.value) + CountEntries(tail)
  {
    assert ls[1..] == inner + rest;
    TokensConcat(inner, rest);
    assert ([e] + tail)[1..] == tail;
  }

  // ---------------------------------------------------------------- the printed lines have at least as many

  lemma {:induction false} DashLine(l: nat, c: string)
    requires c == "" || c[0] != ' '
    ensures IsDash("- " + c) && AfterDash(Line(l, "- " + c)) == Line(l + 2, c)
  {
    assert ("- " + c)[1..] == " " + c;
    MeasureSpace(c);
  }

  lemma {:induction false} KeyText(k: string, rest: string)
    requires PlainKey(k) && (rest == "" || rest[0] == ' ')
    ensures var c := k + ":" + rest; IsKey(c) && FindColon(c) == |k| && c[..|k|] == k && c[|k| + 1..] == rest
  {
    var c := k + ":" + rest;
    KeyShape(k);
    assert (k + ":")[0] == c[0] == k[0];
    forall j: nat | j < |k| ensures !ColonAt(c, j) {
      assert PlainAt(k + ":", j) && (k + ":")[j] == c[j] && (k + ":")[j + 1] == c[j + 1];
    }
    assert ColonAt(c, |k|);
  }

  lemma {:induction false} KeyLine(e: Entry, level: nat)
    requires PlainKey(e.key) && Tree(e.value)
    ensures
      var c := EntryLine(e, level).content;
      var inline := InlineText(e.value);
      && IsKey(c) && FindColon(c) == |e.key| && c[..|e.key|] == e.key
      && Measure(c[|e.key| + 1..]).content == if inline.Some? then inline.value else ""
  {
    var inline := InlineText(e.value);
    var rest := if inline.Some? then " " + inline.value else "";
    assert EntryLine(e, level).content == e.key + ":" + rest;
    KeyText(e.key, rest);
    if inline.Some? {
      FirstVisible(e.value, 0);
      MeasureSpace(inline.value);
    }
  }

  lemma {:induction false} MeasureSpace(c: string)
    requires c == "" || c[0] != ' '
    ensures Measure(" " + c) == Line(1, c)
  {
  }

  lemma {:induction false} FirstVisible(v: Value, level: nat)
    requires Tree(v)
    ensures var c := Lines(v, level)[0].content; c == "" || c[0] != ' '
  {
    if v.Obj? && v.entries != [] {
      assert v.entries[0] in v.entries;
      KeyShape(v.entries[0].key);
    } else if !IsBlock(v) {
      ScalarFirst(v);
    }
  }

  /** What is not stripped from an element's first line. */
  lemma {:induction false} FirstSolid(v: Value, level: nat)
    requires Tree(v) && VisibleItem(v)
    ensures TrimStart(Lines(v, level)[0].content) == Lines(v, level)[0].content
  {
    if v.Obj? && v.entries != [] {
      assert v.entries[0] in v.entries;
      KeyShape(v.entries[0].key);
    } else if !IsBlock(v) {
      ScalarFirst(v);
    }
  }

  /** No element of an array loses anything of its first key. */
  predicate Visible(v: Value) {
    match v
    case List(items) => forall x | x in items :: VisibleItem(x) && Visible(x)
    case Obj(entries) => forall e | e in entries :: Visible(e.value)
    case _ => true
  }

  lemma {:induction false} OneLineIsOne(v: Value, level: nat)
    ensures OneLine(v) <==> |Lines(v, level)| == 1
    decreases v
  {
    match v
    case List(items) =>
      if items != [] {
        OneLineIsOne(items[0], level + 1);
        assert items[1..] != [] ==> |ItemLines(items[1..], level)| >= 1;
      }
    case Obj(entries) =>
      if entries != [] {
        assert entries[1..] != [] ==> |EntryLines(entries[1..], level)| >= 1;
      }
    case _ =>
  }

  predicate Opens(ls: seq<Line>) { forall l | l in ls :: LineTokens(l.content) >= 1 }

  lemma {:induction false} OpensCounts(ls: seq<Line>)
    requires Opens(ls)
    ensures Tokens(ls) >= |ls|
  {
    if ls != [] { assert ls[0] in ls; OpensCounts(ls[1..]); }
  }

  /** No array element anywhere prints on more than one line. */
  predicate SingleItems(v: Value) {
    match v
    case List(items) => forall x | x in items :: OneLine(x) && SingleItems(x)
    case Obj(entries) => forall e | e in entries :: SingleItems(e.value)
    case _ => true
  }

  /** Printing writes every element's dash and every entry's key, and more when an element takes several lines. */
  lemma {:induction false} PrintedTokens(v: Value, level: nat)
    requires Tree(v) && Visible(v)
    ensures Opens(Lines(v, level)[1..])
    ensures IsBlock(v) && v != List([]) && v != Obj([]) ==> Opens(Lines(v, level))
    ensures Tokens(Lines(v, level)) >= Count(v)
    ensures !SingleItems(v) ==> Tokens(Lines(v, level)) > Count(v)
    decreases v, 0
  {
    match v
    case List(items) => if items != [] { PrintedItemTokens(items, level); }
    case Obj(entries) => if entries != [] { PrintedEntryTokens(entries, level); }
    case _ =>
  }

  lemma {:induction false} PrintedItemTokens(items: seq<Value>, level: nat)
    requires forall x | x in items :: Tree(x) && VisibleItem(x) && Visible(x)
    ensures Opens(ItemLines(items, level))
    ensures Tokens(ItemLines(items, level)) >= CountItems(items)
    ensures (exists x | x in items :: !OneLine(x) || !SingleItems(x))
            ==> Tokens(ItemLines(items, level)) > CountItems(items)
    decreases items, 0
  {
    if items != [] {
      var block, others := Lines(items[0], level + 1), ItemLines(items[1..], level);
      PrintedTokens(items[0], level + 1);
      PrintedItemTokens(items[1..], level);
      FirstVisible(items[0], level + 1);
      FirstSolid(items[0], level + 1);
      DashLine(2 * level, block[0].content);
      OneLineIsOne(items[0], level + 1);
      ItemTokensStep(Dashed(block, level), block, others, ItemLines(items, level));
    }
  }

  lemma {:induction false} ItemTokensStep(first: Line, block: seq<Line>, others: seq<Line>, ls: seq<Line>)
    requires block != [] && ls == [first] + block[1..] + block[1..] + others && Opens(block[1..]) && Opens(others)
    requires first.content == "- " + block[0].content && IsDash(first.content)
             && Measure(first.content[1..]).content == block[0].content
    ensures Opens(ls)
    ensures Tokens(ls) >= 1 + Tokens(block) + (|block| - 1) + Tokens(others)
  {
    OpensCounts(block[1..]);
    assert ([first] + block[1..])[1..] == block[1..];
    TokensConcat([first] + block[1..], block[1..]);
    TokensConcat([first] + block[1..] + block[1..], others);
  }

  lemma {:induction false} EntryTokensStep(entries: seq<Entry>, first: Line, block: seq<Line>, others: seq<Line>,
      ls: seq<Line>)
    requires entries != [] && ls == [first] + block + others
    requires LineTokens(first.content) == 1 && Opens(block) && Opens(others)
    requires Tokens(block) >= Count(entries[0].value)
    requires Tokens(others) >= CountEntries(entries[1..])
    ensures Opens(ls)
    ensures Tokens(ls) - CountEntries(entries)
        == (Tokens(block) - Count(entries[0].value)) + (Tokens(others) - CountEntries(entries[1..]))
  {
    assert ([first] + block)[1..] == block;
    TokensConcat([first] + block, others);
  }

  lemma {:induction false} PrintedEntryTokens(entries: seq<Entry>, level: nat)
    requires forall e | e in entries :: PlainKey(e.key) && Tree(e.value) && Visible(e.value)
    ensures Opens(EntryLines(entries, level))
    ensures Tokens(EntryLines(entries, level)) >= CountEntries(entries)
    ensures (exists e | e in entries :: !SingleItems(e.value))
            ==> Tokens(EntryLines(entries, level)) > CountEntries(entries)
    decreases entries, 0
  {
    if entries != [] {
      var e := entries[0];
      var first, others := EntryLine(e, level), EntryLines(entries[1..], level);
      PrintedEntryTokens(entries[1..], level);
      KeyLine(e, level);
      assert LineTokens(first.content) == 1;
      var block := if InlineText(e.value).Some? then [] else Lines(e.value, level + 1);
      if InlineText(e.value).None? { PrintedTokens(e.value, level + 1); }
      assert EntryLines(entries, level) == [first] + block + others;
      EntryTokensStep(entries, first, block, others, EntryLines(entries, level));
    }
  }

  // ---------------------------------------------------------------- scalars

  lemma {:induction false} UnquoteDoubled(s: string)
    ensures Unquote(DoubleQuotes(s) + "'") == if Quotable(s) then Some(s) else None
  {
    var q := DoubleQuotes(s) + "'";
    if s != "" {
      var inner := DoubleQuotes(s[1..]) + "'";
      UnquoteDoubled(s[1..]);
      assert [s[0]] + s[1..] == s;
      assert Quotable(s) <==> IsQuotable(s[0]) && Quotable(s[1..]);
      if s[0] == '\'' {
        assert q == "''" + inner;
        assert q[2..] == inner;
      } else {
        assert q == [s[0]] + inner;
        assert q[1..] == inner;
      }
    }
  }

  lemma {:induction false} NoColonNoKey(c: string)
    requires ':' !in c
    ensures !IsKey(c)
  {
  }

  /** A scalar's text: either it looks like a block collection and the scalar is unfaithful, or reading it decides. */
  lemma {:induction false} ScalarReads(v: Value)
    requires !IsBlock(v) && JsTree(v)
    ensures
      var c := YamlScalar(v);
      if IsDash(c) || IsKey(c) then !Faithful(v) else ReadScalar(c) == Some(v) <==> Faithful(v)
  {
    match v
    case Null => WordReads("null");
    case Bool(b) => WordReads(if b then "true" else "false");
    case Num(repr) => NumeralReads(repr);
    case Txt(s) =>
      if PrintsPlain(s) {
        PlainText(s);
        PlainReads(s);
      } else {
        QuotedText(s);
        QuotedReads(s);
      }
  }

  lemma {:induction false} BareSafe(s: string)
    ensures Bare(s) <==> PlainSafe(s)
  {
    forall c ensures IsBare(c) <==> IsLetter(c) || IsDigit(c) || c in "_./:@+-" {}
  }

  lemma {:induction false} SafeQuotable(s: string)
    requires PlainSafe(s)
    ensures Quotable(s)
  {
    forall c | c in s ensures IsQuotable(c) { var i: nat :| i < |s| && s[i] == c; SafeAt(s, i); }
  }

  lemma {:induction false} PlainText(s: string)
    requires PrintsPlain(s)
    ensures FaithfulText(s) <==> s[0] != '@' && s[|s| - 1] != ':' && s != "-" && !IsNumeral(s)
  {
    BareSafe(s);
    SafeQuotable(s);
  }

  /** A number starts with a digit or a dot, behind a sign perhaps. */
  lemma {:induction false} LetterNoNumeral(s: string)
    requires s != "" && IsLetter(s[0])
    ensures !IsNumeral(s)
  {
    var m := s[..IndexOfAny(s, {'e', 'E'})];
    assert DropSign(s) == s;
    if m != "" { assert m[0] == s[0] && m[0] in m; }
    if IsMantissa(m) { FirstOfMantissa(m); }
    assert |s| > 2 ==> s[..2][0] == s[0];
  }

  lemma {:induction false} FirstOfMantissa(m: string)
    requires IsMantissa(m)
    ensures m != "" && (IsDigit(m[0]) || m[0] == '.')
  {
    var d := IndexOfAny(m, {'.'});
    if d > 0 { assert m[..d][0] == m[0] && m[0] in m[..d]; }
  }

  lemma {:induction false} LowerLetter(s: string)
    requires s != "" && IsLetter(ToLower(s)[0])
    ensures IsLetter(s[0])
  {
  }

  /** What is quoted although it needs no quotes to be one scalar: a word or digits. */
  lemma {:induction false} WordOrDigits(s: string)
    requires PlainSafe(s) && !PrintsPlain(s)
    ensures s[0] != '@' && s[|s| - 1] != ':' && s != "-" && (IsNumeral(s) ==> AllDigits(s))
  {
    if AllDigits(s) {
      assert s[0] in s && s[|s| - 1] in s;
    } else {
      var low := ToLower(s);
      assert low != "" && s[0] in s;
      assert low != "~" && low[|s| - 1] != ':';
      LowerLetter(s);
      LetterNoNumeral(s);
    }
  }

  lemma {:induction false} QuotedText(s: string)
    requires !PrintsPlain(s)
    ensures FaithfulText(s) <==> Quotable(s)
  {
    BareSafe(s);
    if PlainSafe(s) { WordOrDigits(s); }
  }

  lemma {:induction false} WordReads(s: string)
    requires s in {"null", "true", "false"}
    ensures !IsDash(s) && !IsKey(s) && ReadScalar(s) == Some(ResolvePlain(s))
  {
    SafePlain(s);
    PlainShape(s);
  }

  lemma {:induction false} NumeralReads(s: string)
    requires JsNumeral(s)
    ensures !IsDash(s) && !IsKey(s) && ReadScalar(s) == Some(Num(s))
  {
    assert s != "-" by { assert IndexOfAny("", {'e', 'E'}) == 0; assert DropSign("-") == ""; }
    NumeralSafe(s);
    NumeralShape(s);
    SafePlain(s);
    PlainShape(s);
  }

  lemma {:induction false} NumeralShape(s: string)
    requires s != "" && s != "-" && forall c | c in s :: IsDigit(c) || c in "+-.e"
    ensures s[0] !in "'[{@" && s[|s| - 1] != ':'
    ensures !IsNullWord(s) && !IsTrueWord(s) && !IsFalseWord(s)
  {
    assert s[0] in s && s[|s| - 1] in s && (|s| > 1 ==> s[1] in s);
  }

  lemma {:induction false} QuotedReads(s: string)
    requires !PrintsPlain(s)
    ensures var c := YamlScalar(Txt(s)); !IsDash(c) && !IsKey(c) && (ReadScalar(c) == Some(Txt(s)) <==> Quotable(s))
  {
    var c := YamlScalar(Txt(s));
    assert c == "'" + (DoubleQuotes(s) + "'");
    assert c[1..] == DoubleQuotes(s) + "'";
    UnquoteDoubled(s);
  }

  lemma {:induction false} PlainReads(s: string)
    requires PrintsPlain(s)
    ensures if IsDash(s) || IsKey(s) then !FaithfulText(s) else ReadScalar(s) == Some(Txt(s)) <==> FaithfulText(s)
  {
    PlainText(s);
    PlainShape(s);
    SafePlain(s);
    NotResolvedWord(s);
  }

  lemma {:induction false} SafeAt(s: string, i: nat)
    requires PlainSafe(s) && i < |s|
    ensures IsPrintable(s[i]) && !IsWhite(s[i]) && s[i] !in "#,[]{}&*!|>\"%`'?"
  {
    assert s[i] in s;
  }

  /** The texts that the code prints plain and YAML reads plain. */
  lemma {:induction false} SafePlain(s: string)
    requires PlainSafe(s)
    ensures PlainIn(s, |s|) <==> s[0] != '@' && s != "-" && s[|s| - 1] != ':'
  {
    forall i: nat | i < |s| ensures PlainAt(s, i) <==> (s[i] == ':' ==> i + 1 < |s|) {
      SafeAt(s, i);
      if i + 1 < |s| { SafeAt(s, i + 1); }
    }
    SafeAt(s, 0);
    SafeAt(s, |s| - 1);
    if |s| > 1 { SafeAt(s, 1); }
    assert s[0] in s;
    if s[|s| - 1] == ':' { assert !PlainAt(s, |s| - 1); }
  }

  lemma {:induction false} PlainShape(s: string)
    requires PlainSafe(s)
    ensures s[0] !in "'[{"
    ensures IsDash(s) <==> s == "-"
    ensures StartsWithIndicator(s) <==> s[0] == '@'
    ensures IsKey(s) <==> s[0] != '@' && s != "-" && s[|s| - 1] == ':'
  {
    assert forall j | 0 <= j < |s| :: s[j] in s;
    assert forall j | 0 <= j < |s| :: ColonAt(s, j) <==> s[j] == ':' && j + 1 == |s|;
  }

  lemma {:induction false} NotResolvedWord(s: string)
    requires !Reserved(s)
    ensures !IsNullWord(s) && !IsTrueWord(s) && !IsFalseWord(s)
  {
    if IsNullWord(s) { LowerNull(s); }
    if IsTrueWord(s) { LowerTrue(s); }
    if IsFalseWord(s) { LowerFalse(s); }
  }

  lemma {:induction false} LowerNull(s: string)
    requires IsNullWord(s)
    ensures ToLower(s) == "null" || ToLower(s) == "~" || ToLower(s) == ""
  {
  }

  lemma {:induction false} LowerTrue(s: string)
    requires IsTrueWord(s)
    ensures ToLower(s) == "true"
  {
  }

  lemma {:induction false} LowerFalse(s: string)
    requires IsFalseWord(s)
    ensures ToLower(s) == "false"
  {
  }

  // ---------------------------------------------------------------- reading back the printed lines

  lemma {:induction false} DeeperConcat(a: seq<Line>, b: seq<Line>, ind: nat)
    requires forall l | l in a :: l.indent > ind
    ensures Deeper(a + b, ind) == |a| + Deeper(b, ind)
  {
    if a == [] {
      assert a + b == b;
    } else {
      DeeperConcat(a[1..], b, ind);
      assert (a + b)[1..] == a[1..] + b;
    }
  }

  /** Deep lines after the first are nested, and so are those that happen to follow. */
  lemma {:induction false} NestedDeep(ls: seq<Line>, deep: seq<Line>, after: seq<Line>, ind: nat)
    requires ls != [] && ls[1..] == deep + after && forall l | l in deep :: l.indent > ind
    ensures Nested(ls, ind) == (deep + after[..Deeper(after, ind)], after[Deeper(after, ind)..])
  {
    DeeperConcat(deep, after, ind);
    var d := Deeper(after, ind);
    assert (deep + after)[..|deep| + d] == deep + after[..d] && (deep + after)[|deep| + d..] == after[d..];
  }

  /** No blank is left in front. */
  lemma {:induction false} StrippedFirst(c: string)
    ensures TrimStart(c) == "" || TrimStart(c)[0] != ' '
  {
    TrimStartFirst(c);
  }

  /** The lines of an array's elements, and whatever follows them, are read as elements. */
  lemma {:induction false} ListNode(items: seq<Value>, level: nat, ls: seq<Line>)
    requires items != [] && ls != [] && ls[0] == ItemLines(items, level)[0]
    ensures ReadNode(ls) == if ReadItems(ls, 2 * level).Some? then Some(List(ReadItems(ls, 2 * level).value)) else None
  {
    var c := TrimStart(Lines(items[0], level + 1)[0].content);
    StrippedFirst(Lines(items[0], level + 1)[0].content);
    DashLine(2 * level, c);
  }

  /** Those of an object's entries as entries. */
  lemma {:induction false} ObjNode(entries: seq<Entry>, level: nat, ls: seq<Line>)
    requires entries != [] && ls != [] && ls[0] == EntryLine(entries[0], level) && PlainKey(entries[0].key)
             && Tree(entries[0].value)
    ensures ReadNode(ls) == if ReadEntries(ls, 2 * level).Some? then Some(Obj(ReadEntries(ls, 2 * level).value))
            else None
  {
    KeyLine(entries[0], level);
  }

  /** With single-line elements the lines read back as the tree exactly when it is faithful. */
  lemma {:induction false} LinesReadBack(v: Value, level: nat)
    requires Printable(v)
    ensures ReadNode(Lines(v, level)) == Some(v) <==> Faithful(v) && v != Obj([])
    decreases v, 1
  {
    match v
    case List(items) =>
      if items == [] {
        assert ReadScalar("[]") == Some(List([]));
      } else {
        ItemsReadBack(items, level);
        ListNode(items, level, ItemLines(items, level));
      }
    case Obj(entries) =>
      if entries == [] {
        assert ReadScalar("") == Some(Null);
      } else {
        EntriesReadBack(entries, level);
        assert entries[0] in entries;
        ObjNode(entries, level, EntryLines(entries, level));
      }
    case _ => ScalarReads(v);
  }

  lemma {:induction false} ConsItemSome(head: Option<Value>, tail: Option<seq<Value>>, all: seq<Value>)
    requires all != []
    ensures ConsItem(head, tail) == Some(all) <==> head == Some(all[0]) && tail == Some(all[1..])
  {
    if head.Some? && tail.Some? {
      var s := [head.value] + tail.value;
      assert s[0] == head.value && s[1..] == tail.value;
      assert all == [all[0]] + all[1..];
    }
  }

  predicate FaithfulItems(items: seq<Value>) { forall x | x in items :: FaithfulItem(x) && Faithful(x) }

  predicate FaithfulEntries(entries: seq<Entry>) { forall e | e in entries :: PlainKey(e.key) && Faithful(e.value) }

  lemma {:induction false} ReadOneItem(ls: seq<Line>, block: seq<Line>, others: seq<Line>, ind: nat)
    requires |block| == 1 && block[0].indent == ind + 2 && (block[0].content == "" || block[0].content[0] != ' ')
    requires ls != [] && ls[0] == Line(ind, "- " + block[0].content) && ls[1..] == others
    requires others == [] || others[0].indent <= ind
    ensures ReadItems(ls, ind) == ConsItem(ReadNode(block), ReadItems(others, ind))
  {
    DashLine(ind, block[0].content);
    assert others[..0] == [] && others[0..] == others;
    assert [AfterDash(ls[0])] + others[..0] == block;
  }

  predicate Printable(v: Value) { Tree(v) && SingleItems(v) && Visible(v) }

  predicate PrintableItems(items: seq<Value>) { forall x | x in items :: Printable(x) && OneLine(x) && VisibleItem(x) }

  lemma {:induction false} ReadFirstItem(items: seq<Value>, level: nat)
    requires items != [] && Tree(items[0]) && OneLine(items[0]) && VisibleItem(items[0])
    ensures
      var tail := ReadItems(ItemLines(items[1..], level), 2 * level);
      ReadItems(ItemLines(items, level), 2 * level) == ConsItem(ReadNode(Lines(items[0], level + 1)), tail)
  {
    var block, others := Lines(items[0], level + 1), ItemLines(items[1..], level);
    var ls := ItemLines(items, level);
    OneLineIsOne(items[0], level + 1);
    FirstVisible(items[0], level + 1);
    FirstSolid(items[0], level + 1);
    assert block[1..] == [] && ls == [Dashed(block, level)] + [] + [] + others;
    ReadOneItem(ls, block, others, 2 * level);
  }

  lemma {:induction false} ItemsReadBack(items: seq<Value>, level: nat)
    requires PrintableItems(items)
    ensures ReadItems(ItemLines(items, level), 2 * level) == Some(items) <==> FaithfulItems(items)
    decreases items, 0
  {
    if items != [] {
      var head, tail := ReadNode(Lines(items[0], level + 1)), ReadItems(ItemLines(items[1..], level), 2 * level);
      ConsItemSome(head, tail, items);
      assert head == Some(items[0]) <==> FaithfulItem(items[0]) && Faithful(items[0])
          by { LinesReadBack(items[0], level + 1); }
      assert tail == Some(items[1..]) <==> FaithfulItems(items[1..]) by { ItemsReadBack(items[1..], level); }
      ReadFirstItem(items, level);
    }
  }

  lemma {:induction false} ValueReadsBack(v: Value, level: nat)
    requires Printable(v)
    ensures ReadPrintedValue(v, level) == Some(v) <==> Faithful(v)
    decreases v, 2
  {
    match v
    case List(items) => if items == [] { NoColonNoKey("[]"); } else { LinesReadBack(v, level); }
    case Obj(entries) => if entries == [] { NoColonNoKey("{}"); } else { LinesReadBack(v, level); }
    case _ => ScalarReads(v); ScalarFirst(v);
  }

  lemma {:induction false} ReadOneEntry(ls: seq<Line>, key: string, inline: string, block: seq<Line>, others: seq<Line>)
    requires ls != [] && ls[1..] == block + others
    requires IsKey(ls[0].content) && FindColon(ls[0].content) == |key| && ls[0].content[..|key|] == key
    requires Measure(ls[0].content[|key| + 1..]).content == inline
    requires forall l | l in block :: l.indent > ls[0].indent
    requires others == [] || others[0].indent <= ls[0].indent
    ensures
      ReadEntries(ls, ls[0].indent) == ConsEntry(key, ReadValue(inline, block), ReadEntries(others, ls[0].indent))
  {
    NestedDeep(ls, block, others, ls[0].indent);
    assert others[..0] == [] && block + [] == block && others[0..] == others;
  }

  predicate PrintableEntries(entries: seq<Entry>) {
    && (forall e | e in entries :: PlainKey(e.key) && Printable(e.value))
    && (forall i, j | 0 <= i < j < |entries| :: entries[i].key != entries[j].key)
  }

  lemma {:induction false} ConsEntryParts(key: string, value: Option<Value>, tail: Option<seq<Entry>>,
      entries: seq<Entry>)
    requires entries != []
    ensures ConsEntry(key, value, tail) == Some(entries) <==>
            && entries[0].key == key && value == Some(entries[0].value) && tail == Some(entries[1..])
            && PlainKey(key) && !HasKey(entries[1..], key)
  {
    assert entries == [entries[0]] + entries[1..];
    if value.Some? && tail.Some? {
      var s := [Entry(key, value.value)] + tail.value;
      assert s[0] == Entry(key, value.value) && s[1..] == tail.value;
    }
  }

  lemma {:induction false} PrintableParts(entries: seq<Entry>)
    requires entries != [] && PrintableEntries(entries)
    ensures PlainKey(entries[0].key) && Printable(entries[0].value) && !HasKey(entries[1..], entries[0].key)
    ensures PrintableEntries(entries[1..])
    ensures FaithfulEntries(entries) <==> Faithful(entries[0].value) && FaithfulEntries(entries[1..])
  {
    assert entries == [entries[0]] + entries[1..];
    assert entries[0] in entries;
    forall e | e in entries[1..] ensures e in entries {}
  }

  /** What the reader makes of a printed entry's value, on the key's line or below it. */
  function ReadPrintedValue(v: Value, level: nat): Option<Value> {
    var inline := InlineText(v);
    if inline.Some? then ReadValue(inline.value, []) else ReadValue("", Lines(v, level))
  }

  lemma {:induction false} EntryTail(entries: seq<Entry>, level: nat, block: seq<Line>)
    requires entries != [] && block == if InlineText(entries[0].value).Some? then []
             else Lines(entries[0].value, level + 1)
    ensures var ls, others := EntryLines(entries, level), EntryLines(entries[1..], level);
            && ls == [EntryLine(entries[0], level)] + block + others && ls[1..] == block + others
            && (others == [] || others[0].indent == 2 * level)
    ensures forall l | l in block :: l.indent > 2 * level
  {
    ContinuationIndent(entries[0].value, level + 1);
    EntryUnfolds(entries, level, block);
    TailOf1(EntryLine(entries[0], level), block, EntryLines(entries[1..], level));
  }

  lemma {:induction false} EntryUnfolds(entries: seq<Entry>, level: nat, block: seq<Line>)
    requires entries != [] && block == if InlineText(entries[0].value).Some? then []
             else Lines(entries[0].value, level + 1)
    ensures EntryLines(entries, level) == [EntryLine(entries[0], level)] + block + EntryLines(entries[1..], level)
  {
  }

  lemma {:induction false} TailOf1(first: Line, block: seq<Line>, others: seq<Line>)
    ensures ([first] + block + others)[1..] == block + others
  {
  }

  lemma {:induction false} ReadFirstEntry(entries: seq<Entry>, level: nat)
    requires entries != [] && PlainKey(entries[0].key) && Tree(entries[0].value)
    ensures
      var e := entries[0];
      var value := ReadPrintedValue(e.value, level + 1);
      var tail := ReadEntries(EntryLines(entries[1..], level), 2 * level);
      ReadEntries(EntryLines(entries, level), 2 * level) == ConsEntry(e.key, value, tail)
  {
    var e, others := entries[0], EntryLines(entries[1..], level);
    var block := if InlineText(e.value).Some? then [] else Lines(e.value, level + 1);
    EntryTail(entries, level, block);
    KeyLine(e, level);
    ReadOneEntry(EntryLines(entries, level), e.key, InlineText(e.value).GetOr(""), block, others);
  }

  lemma {:induction false} EntriesReadBack(entries: seq<Entry>, level: nat)
    requires PrintableEntries(entries)
    ensures ReadEntries(EntryLines(entries, level), 2 * level) == Some(entries) <==> FaithfulEntries(entries)
    decreases entries, 0
  {
    if entries != [] {
      var e := entries[0];
      var value := ReadPrintedValue(e.value, level + 1);
      var tail := ReadEntries(EntryLines(entries[1..], level), 2 * level);
      PrintableParts(entries);
      ConsEntryParts(e.key, value, tail, entries);
      assert value == Some(e.value) <==> Faithful(e.value) by { ValueReadsBack(e.value, level + 1); }
      assert tail == Some(entries[1..]) <==> FaithfulEntries(entries[1..]) by { EntriesReadBack(entries[1..], level); }
      ReadFirstEntry(entries, level);
    }
  }

  // ---------------------------------------------------------------- what every reading is like

  lemma {:induction false} UnquoteFree(s: string)
    requires NoBreak(s) && Unquote(s).Some?
    ensures NoBreak(Unquote(s).value)
  {
    if s != "" && s[0] == '\'' {
      if |s| > 1 && s[1] == '\'' { UnquoteFree(s[2..]); }
    } else if s != "" {
      UnquoteFree(s[1..]);
      assert s[0] in s;
    }
  }

  /** No string holds a line break, and every key is plain. */
  predicate Readable(v: Value) { BreakFree(v) && PlainKeys(v) }

  lemma {:induction false} ScalarFree(c: string)
    requires NoBreak(c) && ReadScalar(c).Some?
    ensures Readable(ReadScalar(c).value)
  {
    if c != "" && c[0] == '\'' && Unquote(c[1..]).Some? { UnquoteFree(c[1..]); }
  }

  predicate NoBreaks(ls: seq<Line>) { forall l | l in ls :: NoBreak(l.content) }

  lemma {:induction false} ReadFree(ls: seq<Line>)
    requires NoBreaks(ls) && ReadNode(ls).Some?
    ensures Readable(ReadNode(ls).value)
    decreases Weight(ls), 1
  {
    var c := ls[0].content;
    assert ls[0] in ls;
    if IsDash(c) { ReadItemsFree(ls, ls[0].indent); }
    else if IsKey(c) { ReadEntriesFree(ls, ls[0].indent); }
    else { ScalarFree(c); }
  }

  lemma {:induction false} ReadItemsFree(ls: seq<Line>, ind: nat)
    requires NoBreaks(ls) && ReadItems(ls, ind).Some?
    ensures forall x | x in ReadItems(ls, ind).value :: Readable(x)
    decreases Weight(ls), 0
  {
    if ls != [] {
      var body, rest := ReadItemsStep(ls, ind);
      assert ls[0] in ls;
      MeasureFree(ls[0].content[1..]);
      assert body == [body[0]] + body[1..];
      assert forall l | l in body[1..] || l in rest :: l in ls;
      ReadFree(body);
      ReadItemsFree(rest, ind);
    }
  }

  lemma {:induction false} MeasureFree(s: string)
    requires NoBreak(s)
    ensures NoBreak(Measure(s).content)
  {
    if s != "" { MeasureFree(s[1..]); }
  }

  lemma {:induction false} ReadValueFree(inline: string, inner: seq<Line>)
    requires NoBreak(inline) && NoBreaks(inner) && ReadValue(inline, inner).Some?
    ensures Readable(ReadValue(inline, inner).value)
    decreases Weight(inner), 2
  {
    if inline != "" { ScalarFree(inline); }
    else if inner != [] { ReadFree(inner); }
  }

  predicate ReadableEntries(entries: seq<Entry>) { forall e | e in entries :: PlainKey(e.key) && Readable(e.value) }

  lemma {:induction false} ReadEntriesFree(ls: seq<Line>, ind: nat)
    requires NoBreaks(ls) && ReadEntries(ls, ind).Some?
    ensures ReadableEntries(ReadEntries(ls, ind).value)
    decreases Weight(ls), 0
  {
    if ls != [] {
      var key, inline, inner, rest := ReadEntriesStep(ls, ind);
      assert ls[0] in ls && NoBreaks(inner) && NoBreaks(rest);
      MeasureFree(ls[0].content[FindColon(ls[0].content) + 1..]);
      ReadValueFree(inline, inner);
      ReadEntriesFree(rest, ind);
    }
  }

  lemma {:induction false} TextLinesFree(ss: seq<string>)
    requires forall s | s in ss :: NoBreak(s)
    ensures NoBreaks(MeasureAll(ss))
  {
    if ss != [] {
      assert ss[0] in ss;
      MeasureFree(ss[0]);
      TextLinesFree(ss[1..]);
    }
  }

  lemma {:induction false} BreakLinesFree(s: string)
    ensures forall line | line in BreakLines(s) :: NoBreak(line)
  {
    if s != "" {
      BreakLinesFree(s[1..]);
      if |s| > 1 && s[0] == '\r' && s[1] == '\n' {
        BreakLinesFree(s[2..]);
      } else {
        assert BreakLines(s[1..])[0] in BreakLines(s[1..]);
      }
    }
  }

  /** Whatever is read from a text has no line breaks in its strings, and plain keys. */
  lemma {:induction false} TextReadable(text: string)
    requires Read(text).Some?
    ensures Readable(Read(text).value)
  {
    BreakLinesFree(text);
    TextLinesFree(BreakLines(text));
    ReadFree(MeasureAll(BreakLines(text)));
  }

  // ---------------------------------------------------------------- what is stripped is lost

  /** The first key of a mapping starts its first line. */
  lemma {:induction false} FirstKey(ls: seq<Line>)
    requires ReadNode(ls).Some? && ReadNode(ls).value.Obj? && ReadNode(ls).value.entries != []
    ensures var k := ReadNode(ls).value.entries[0].key; k != "" && ls[0].content != "" && k[0] == ls[0].content[0]
  {
    var c := ls[0].content;
    if IsKey(c) {
      var key, inline, inner, rest := ReadEntriesStep(ls, ls[0].indent);
      KeyShape(key);
    }
  }

  predicate ReadsAs(ls: seq<Line>, v: Value) { ReadNode(ls) == Some(v) }

  predicate ItemsReadAs(ls: seq<Line>, ind: nat, items: seq<Value>) { ReadItems(ls, ind) == Some(items) }

  predicate EntriesReadAs(ls: seq<Line>, ind: nat, entries: seq<Entry>) { ReadEntries(ls, ind) == Some(entries) }

  /** Printed lines that read back as their tree, whatever lines follow them, have lost nothing of a key. */
  lemma {:induction false} NothingLost(v: Value, level: nat, ls: seq<Line>, extra: seq<Line>)
    requires Tree(v) && ls == Lines(v, level) + extra && ReadsAs(ls, v)
    ensures Visible(v)
    decreases v, 0
  {
    if v.List? && v.items != [] {
      ListNode(v.items, level, ls);
      NoItemLost(v.items, level, ls, extra);
    } else if v.Obj? && v.entries != [] {
      assert v.entries[0] in v.entries;
      ObjNode(v.entries, level, ls);
      NoEntryLost(v.entries, level, ls, extra);
    }
  }

  lemma {:induction false} ReadItemsSome(ls: seq<Line>, ind: nat, items: seq<Value>, c: string, body: seq<Line>,
      inner: seq<Line>, rest: seq<Line>)
    requires items != [] && ItemsReadAs(ls, ind, items) && ls != [] && Nested(ls, ind) == (inner, rest)
    requires ls[0] == Line(ind, "- " + c) && (c == "" || c[0] != ' ') && body == [Line(ind + 2, c)] + inner
    ensures ReadsAs(body, items[0]) && ItemsReadAs(rest, ind, items[1..])
  {
    DashLine(ind, c);
    ConsItemSome(ReadNode(body), ReadItems(rest, ind), items);
  }

  lemma {:induction false} Regroup(block: seq<Line>, first: Line, rest: seq<Line>, more: seq<Line>)
    requires block == [first] + rest
    ensures [first] + (rest + rest + more) == block + (rest + more)
  {
  }

  lemma {:induction false} TailOf(all: seq<Line>, first: Line, deep: seq<Line>, others: seq<Line>, extra: seq<Line>)
    requires all == [first] + deep + others
    ensures (all + extra)[0] == first && (all + extra)[1..] == deep + (others + extra)
  {
  }

  lemma {:induction false} ItemParts(items: seq<Value>, level: nat, block: seq<Line>, deep: seq<Line>)
    requires items != [] && block == Lines(items[0], level + 1) && deep == block[1..] + block[1..]
    ensures ItemLines(items, level) == [Dashed(block, level)] + deep + ItemLines(items[1..], level)
    ensures forall l | l in deep :: l.indent > 2 * level
  {
    ContinuationIndent(items[0], level + 1);
    assert [Dashed(block, level)] + block[1..] + block[1..] == [Dashed(block, level)] + deep;
  }

  lemma {:induction false} NextItemLine(items: seq<Value>, level: nat, extra: seq<Line>, after: seq<Line>)
    requires items != [] && after == ItemLines(items, level) + extra
    ensures Deeper(after, 2 * level) == 0 && after[0..] == after
  {
  }

  lemma {:induction false} ItemShape(items: seq<Value>, level: nat, ls: seq<Line>, extra: seq<Line>,
      block: seq<Line>, deep: seq<Line>)
      returns (more: seq<Line>, rest: seq<Line>)
    requires items != [] && ls == ItemLines(items, level) + extra
    requires block == Lines(items[0], level + 1) && deep == block[1..] + block[1..]
    ensures ls != [] && ls[0] == Dashed(block, level) && Nested(ls, 2 * level) == (deep + more, rest)
    ensures |items| > 1 ==> rest == ItemLines(items[1..], level) + extra
  {
    var after := ItemLines(items[1..], level) + extra;
    ItemParts(items, level, block, deep);
    TailOf(ItemLines(items, level), Dashed(block, level), deep, ItemLines(items[1..], level), extra);
    NestedDeep(ls, deep, after, 2 * level);
    more, rest := after[..Deeper(after, 2 * level)], after[Deeper(after, 2 * level)..];
    if |items| > 1 { NextItemLine(items[1..], level, extra, after); }
  }

  /** What the reader takes for the first element: its own lines, and such of those after them as happen to be
      deeper. */
  lemma {:induction false} FirstItemLost(items: seq<Value>, level: nat, ls: seq<Line>, block: seq<Line>,
      more: seq<Line>, rest: seq<Line>)
    requires items != [] && Tree(items[0]) && block == Lines(items[0], level + 1) && ItemsReadAs(ls, 2 * level, items)
    requires ls != [] && ls[0] == Dashed(block, level)
             && Nested(ls, 2 * level) == (block[1..] + block[1..] + more, rest)
    ensures VisibleItem(items[0]) && Visible(items[0]) && ItemsReadAs(rest, 2 * level, items[1..])
    decreases items[0], 2
  {
    var c, inner := TrimStart(block[0].content), block[1..] + block[1..] + more;
    var body := [Line(2 * level + 2, c)] + inner;
    StrippedFirst(block[0].content);
    ReadItemsSome(ls, 2 * level, items, c, body, inner, rest);
    FirstItemVisible(items[0], level, block, more, body);
  }

  lemma {:induction false} NoItemLost(items: seq<Value>, level: nat, ls: seq<Line>, extra: seq<Line>)
    requires items != [] && (forall x | x in items :: Tree(x))
    requires ls == ItemLines(items, level) + extra && ItemsReadAs(ls, 2 * level, items)
    ensures forall x | x in items :: VisibleItem(x) && Visible(x)
    decreases items, 0
  {
    var block := Lines(items[0], level + 1);
    var more, rest := ItemShape(items, level, ls, extra, block, block[1..] + block[1..]);
    FirstItemLost(items, level, ls, block, more, rest);
    if |items| > 1 { NoItemLost(items[1..], level, rest, extra); }
  }

  lemma {:induction false} LostKey(x: Value, ls: seq<Line>, c: string)
    requires ls != [] && ls[0].content == TrimStart(c) && ReadsAs(ls, x)
    ensures VisibleItem(x)
  {
    TrimStartFirst(c);
    if x.Obj? && x.entries != [] { FirstKey(ls); }
  }

  lemma {:induction false} FirstItemVisible(x: Value, level: nat, block: seq<Line>, more: seq<Line>, body: seq<Line>)
    requires Tree(x) && block == Lines(x, level + 1) && ReadsAs(body, x)
    requires body == [Line(2 * level + 2, TrimStart(block[0].content))] + (block[1..] + block[1..] + more)
    ensures VisibleItem(x) && Visible(x)
    decreases x, 1
  {
    LostKey(x, body, block[0].content);
    FirstKept(x, level, block, more, body);
    NothingLost(x, level + 1, body, block[1..] + more);
  }

  lemma {:induction false} FirstKept(x: Value, level: nat, block: seq<Line>, more: seq<Line>, body: seq<Line>)
    requires Tree(x) && VisibleItem(x) && block == Lines(x, level + 1)
    requires body == [Line(2 * level + 2, TrimStart(block[0].content))] + (block[1..] + block[1..] + more)
    ensures body == block + (block[1..] + more)
  {
    FirstSolid(x, level + 1);
    SameBody(block, Line(2 * level + 2, TrimStart(block[0].content)), more, body);
  }

  lemma {:induction false} SameBody(block: seq<Line>, first: Line, more: seq<Line>, body: seq<Line>)
    requires block != [] && block[0] == first && body == [first] + (block[1..] + block[1..] + more)
    ensures body == block + (block[1..] + more)
  {
    Regroup(block, first, block[1..], more);
  }

  lemma {:induction false} NextEntryLine(entries: seq<Entry>, level: nat, extra: seq<Line>, after: seq<Line>)
    requires entries != [] && after == EntryLines(entries, level) + extra
    ensures Deeper(after, 2 * level) == 0 && after[0..] == after
  {
  }

  lemma {:induction false} ReadEntriesSome(ls: seq<Line>, ind: nat, entries: seq<Entry>, inline: string,
      inner: seq<Line>, rest: seq<Line>)
    requires entries != [] && ls != [] && EntriesReadAs(ls, ind, entries) && Nested(ls, ind) == (inner, rest)
    requires inline == Measure(ls[0].content[FindColon(ls[0].content) + 1..]).content
    ensures ReadValue(inline, inner) == Some(entries[0].value) && EntriesReadAs(rest, ind, entries[1..])
  {
    ConsEntryParts(ls[0].content[..FindColon(ls[0].content)], ReadValue(inline, inner), ReadEntries(rest, ind),
        entries);
  }

  lemma {:induction false} EntryShape(entries: seq<Entry>, level: nat, ls: seq<Line>, extra: seq<Line>,
      block: seq<Line>)
      returns (more: seq<Line>, rest: seq<Line>)
    requires entries != [] && ls == EntryLines(entries, level) + extra
    requires block == (if InlineText(entries[0].value).Some? then [] else Lines(entries[0].value, level + 1))
    ensures ls != [] && ls[0] == EntryLine(entries[0], level) && Nested(ls, 2 * level) == (block + more, rest)
    ensures |entries| > 1 ==> rest == EntryLines(entries[1..], level) + extra
  {
    var after := EntryLines(entries[1..], level) + extra;
    EntryTail(entries, level, block);
    TailOf(EntryLines(entries, level), EntryLine(entries[0], level), block, EntryLines(entries[1..], level), extra);
    NestedDeep(ls, block, after, 2 * level);
    more, rest := after[..Deeper(after, 2 * level)], after[Deeper(after, 2 * level)..];
    if |entries| > 1 { NextEntryLine(entries[1..], level, extra, after); }
  }

  /** The same for the first entry. */
  lemma {:induction false} EntrySplit(entries: seq<Entry>, level: nat, ls: seq<Line>, extra: seq<Line>,
      block: seq<Line>)
      returns (more: seq<Line>, rest: seq<Line>)
    requires entries != [] && PlainKey(entries[0].key) && Tree(entries[0].value)
             && ls == EntryLines(entries, level) + extra
    requires block == (if InlineText(entries[0].value).Some? then [] else Lines(entries[0].value, level + 1))
    requires EntriesReadAs(ls, 2 * level, entries)
    ensures ReadValue(InlineText(entries[0].value).GetOr(""), block + more) == Some(entries[0].value)
    ensures EntriesReadAs(rest, 2 * level, entries[1..])
    ensures |entries| > 1 ==> rest == EntryLines(entries[1..], level) + extra
  {
    KeyLine(entries[0], level);
    more, rest := EntryShape(entries, level, ls, extra, block);
    ReadEntriesSome(ls, 2 * level, entries, InlineText(entries[0].value).GetOr(""), block + more, rest);
  }

  lemma {:induction false} NoEntryLost(entries: seq<Entry>, level: nat, ls: seq<Line>, extra: seq<Line>)
    requires entries != [] && (forall e | e in entries :: PlainKey(e.key) && Tree(e.value))
    requires ls == EntryLines(entries, level) + extra && EntriesReadAs(ls, 2 * level, entries)
    ensures forall e | e in entries :: Visible(e.value)
    decreases entries, 0
  {
    var value := entries[0].value;
    var block := if InlineText(value).Some? then [] else Lines(value, level + 1);
    var more, rest := EntrySplit(entries, level, ls, extra, block);
    if InlineText(value).None? { NothingLost(value, level + 1, block + more, more); }
    if |entries| > 1 { NoEntryLost(entries[1..], level, rest, extra); }
  }

  // ---------------------------------------------------------------- document markers

  lemma {:induction false} MarkerPlain(s: string)
    requires s == "---" || s == "..."
    ensures PrintsPlain(s)
  {
    assert s[0] in s && ToLower(s)[0] == s[0];
  }

  lemma {:induction false} DashesNoNumeral()
    ensures !IsNumeral("---")
  {
    var u := "--";
    assert DropSign("---") == u && u[0] in u;
    assert IndexOfAny(u, {'e', 'E'}) == 2 && IndexOfAny(u, {'.'}) == 2 && u[..2] == u;
  }

  lemma {:induction false} DotsNoNumeral()
    ensures !IsNumeral("...")
  {
    var u := "...";
    assert DropSign(u) == u && u[1..][0] in u[1..];
    assert IndexOfAny(u, {'e', 'E'}) == 3 && IndexOfAny(u, {'.'}) == 0 && u[..3] == u;
  }

  lemma {:induction false} NumeralMarker(s: string)
    requires JsNumeral(s)
    ensures !IsMarker(Line(0, s))
  {
    NumeralSafe(s);
    SafeMarker(s);
    DashesNoNumeral();
    DotsNoNumeral();
  }

  lemma {:induction false} ScalarMarker(v: Value)
    requires !IsBlock(v) && JsTree(v)
    ensures IsMarker(Line(0, YamlScalar(v))) <==> Marked(v)
  {
    match v
    case Txt(s) => if PrintsPlain(s) { SafeMarker(s); } else { QuotedMarker(s); }
    case Num(repr) => NumeralMarker(repr);
    case Null => SafeMarker("null");
    case Bool(b) => SafeMarker(if b then "true" else "false");
  }

  lemma {:induction false} QuotedMarker(s: string)
    requires !PrintsPlain(s)
    ensures s != "---" && s != "..." && !IsMarker(Line(0, YamlScalar(Txt(s))))
  {
    var c := YamlScalar(Txt(s));
    if s == "---" || s == "..." { MarkerPlain(s); }
    if |c| >= 3 { assert c[..3][0] == '\''; }
  }

  lemma {:induction false} SafeMarker(s: string)
    requires PlainSafe(s)
    ensures IsMarker(Line(0, s)) <==> s == "---" || s == "..."
  {
    if |s| > 3 { SafeAt(s, 3); } else if |s| == 3 { assert s[..3] == s; }
  }

  lemma {:induction false} EntryMarker(e: Entry)
    requires PlainKey(e.key)
    ensures IsMarker(EntryLine(e, 0)) <==> MarkedKey(e.key)
  {
    var k, c := e.key, EntryLine(e, 0).content;
    assert c[|k|] == ':' && forall i | 0 <= i < |k| :: c[i] == k[i];
    if |k| >= 3 {
      assert c[..3] == k[..3];
    } else if |c| >= 3 {
      assert c[..3][|k|] == ':';
    }
  }

  lemma {:induction false} DeepUnmarked(ls: seq<Line>)
    requires forall l | l in ls :: l.indent > 0
    ensures Unmarked(ls)
  {
  }

  lemma {:induction false} ItemsUnmarked(items: seq<Value>)
    ensures Unmarked(ItemLines(items, 0))
  {
    if items != [] {
      var block := Lines(items[0], 1);
      ContinuationIndent(items[0], 1);
      ItemsUnmarked(items[1..]);
      assert Dashed(block, 0).content[1] == ' ';
    }
  }

  lemma {:induction false} EntriesMarked(entries: seq<Entry>)
    requires forall e | e in entries :: PlainKey(e.key)
    ensures Unmarked(EntryLines(entries, 0)) <==> !(exists e | e in entries :: MarkedKey(e.key))
  {
    if entries != [] {
      var e, rest := entries[0], EntryLines(entries[1..], 0);
      var block := if InlineText(e.value).Some? then [] else Lines(e.value, 1);
      ContinuationIndent(e.value, 1);
      EntryMarker(e);
      EntriesMarked(entries[1..]);
      DeepUnmarked(block);
      assert EntryLines(entries, 0) == [EntryLine(e, 0)] + block + rest;
      assert entries == [e] + entries[1..];
    }
  }

  /** The lines hold a marker exactly when the tree prints one. */
  lemma {:induction false} MarkerLines(v: Value)
    requires Tree(v)
    ensures Unmarked(Lines(v, 0)) <==> !Marked(v)
  {
    match v
    case List(items) => if items != [] { ItemsUnmarked(items); }
    case Obj(entries) => if entries != [] { EntriesMarked(entries); }
    case _ => ScalarMarker(v);
  }

  // ---------------------------------------------------------------- main results

  lemma {:induction false} TextFree(s: string)
    requires FaithfulText(s)
    ensures NoBreak(s)
  {
    forall c | c in s ensures !IsBreak(c) {}
  }

  lemma {:induction false} FaithfulShape(v: Value)
    requires Faithful(v)
    ensures Readable(v) && SingleItems(v) && Visible(v)
  {
    match v
    case Txt(s) => TextFree(s);
    case List(items) =>
      forall x | x in items ensures Readable(x) && SingleItems(x) && Visible(x) { FaithfulShape(x); }
    case Obj(entries) =>
      forall e | e in entries
        ensures Readable(e.value) && SingleItems(e.value) && Visible(e.value)
      {
        FaithfulShape(e.value);
      }
    case _ =>
  }

  lemma {:induction false} PlainTree(v: Value)
    requires JsTree(v) && PlainKeys(v)
    ensures Tree(v)
  {
    match v
    case List(items) => forall x | x in items ensures Tree(x) { PlainTree(x); }
    case Obj(entries) => forall e | e in entries ensures Tree(e.value) { PlainTree(e.value); }
    case _ =>
  }

  lemma {:induction false} ReadIsPrintable(v: Value)
    requires Tree(v) && ReadNode(Lines(v, 0)) == Some(v)
    ensures Printable(v)
  {
    assert Lines(v, 0) + [] == Lines(v, 0);
    NothingLost(v, 0, Lines(v, 0), []);
    ReadCounts(Lines(v, 0));
    PrintedTokens(v, 0);
  }

  /** What the panel prints for a tree reads back as that tree if and only if the tree is faithful: every array element
      prints on a single line, is not an empty object and has no white space stripped from its first key, every key is a
      plain scalar that is a string, every string is one YAML gives back, and no line is a document marker. */
  lemma {:induction false} RoundTrip(v: Value)
    requires JsTree(v)
    ensures Read(ToYaml(v, 0)) == Some(v) <==> Faithful(v) && v != Obj([]) && !Marked(v)
  {
    if Faithful(v) { FaithfulShape(v); }
    if Read(ToYaml(v, 0)) == Some(v) { TextReadable(ToYaml(v, 0)); }
    if Readable(v) {
      PlainTree(v);
      ReadsPrintedLines(v);
      MarkerLines(v);
      if ReadNode(Lines(v, 0)) == Some(v) { ReadIsPrintable(v); }
      if Printable(v) { LinesReadBack(v, 0); }
    }
  }

  /** So for a single string.  In particular what has a character that is not bare is safe, digits are, and of the bare
      texts that start with a letter, words such as `true` among them, all that do not end in a colon. */
  lemma {:induction false} TextReads(s: string)
    ensures Read(ToYaml(Txt(s), 0)) == Some(Txt(s)) <==> FaithfulText(s) && s != "---" && s != "..."
    ensures Quotable(s) && !Bare(s) ==> Read(ToYaml(Txt(s), 0)) == Some(Txt(s))
    ensures AllDigits(s) ==> Read(ToYaml(Txt(s), 0)) == Some(Txt(s))
    ensures Bare(s) && IsLetter(s[0]) ==> (Read(ToYaml(Txt(s), 0)) == Some(Txt(s)) <==> s[|s| - 1] != ':')
  {
    RoundTrip(Txt(s));
    SafeTexts(s);
  }

  lemma {:induction false} SafeTexts(s: string)
    ensures Quotable(s) && !Bare(s) ==> FaithfulText(s)
    ensures AllDigits(s) ==> FaithfulText(s)
    ensures Bare(s) && IsLetter(s[0]) ==> (FaithfulText(s) <==> s[|s| - 1] != ':')
    ensures s == "---" || s == "..." ==> Bare(s) && !AllDigits(s) && !IsLetter(s[0])
  {
    BareSafe(s);
    if s == "---" || s == "..." {
      assert s[0] in s;
      SafeMarks(s);
    }
    if AllDigits(s) { assert s[0] in s && s[|s| - 1] in s; }
    if Bare(s) { SafeQuotable(s); }
    if Bare(s) && IsLetter(s[0]) { LetterNoNumeral(s); }
  }

  lemma {:induction false} SafeMarks(s: string)
    requires s == "---" || s == "..."
    ensures Bare(s)
  {
  }

  /** Exactly which strings are printed in quotes: those with a character that is not bare, those of digits only, and
      eight words in any case. */
  lemma {:induction false} QuotedIff(s: string)
    ensures YamlScalar(Txt(s)) != "" && (YamlScalar(Txt(s))[0] == '\'' <==>
            !Bare(s) || (forall c | c in s :: '0' <= c <= '9')
            || ToLower(s) in {"true", "false", "null", "yes", "no", "on", "off", "~"})
    ensures YamlScalar(Txt(s))[0] != '\'' ==> YamlScalar(Txt(s)) == s
  {
    BareSafe(s);
    if s != "" { assert s[0] in s; }
    if ToLower(s) == "" { assert s == ""; }
  }

  /** Words that YAML 1.1 takes for truth values, besides those of one letter and those of YAML 1.2. */
  predicate IsOldWord(s: string) {
    s == "yes" || s == "Yes" || s == "YES" || s == "no" || s == "No" || s == "NO"
    || s == "on" || s == "On" || s == "ON" || s == "off" || s == "Off" || s == "OFF"
  }

  lemma {:induction false} OldLower(s: string)
    requires IsOldWord(s)
    ensures ToLower(s) == "yes" || ToLower(s) == "no" || ToLower(s) == "on" || ToLower(s) == "off"
  {
  }

  lemma {:induction false} UnquotedStays(s: string)
    requires '\'' !in s
    ensures DoubleQuotes(s) == s
  {
    if s != "" { UnquotedStays(s[1..]); }
  }

  lemma {:induction false} ReservedQuoted(s: string)
    requires Reserved(s)
    ensures ToYaml(Txt(s), 0) == "'" + s + "'"
  {
    forall c | c in s ensures c != '\'' {
      var i: nat :| i < |s| && s[i] == c;
      assert ToLower(s)[i] == ToLowerChar(c);
    }
    UnquotedStays(s);
    assert Repeat(' ', 0) == "";
  }

  /** All the words that some version of YAML resolves to a truth value or null are printed in quotes, but for `y` and
      `n`. */
  lemma {:induction false} WordsQuoted(s: string)
    requires IsOldWord(s) || IsNullWord(s) || IsTrueWord(s) || IsFalseWord(s)
    ensures ToYaml(Txt(s), 0) == "'" + s + "'"
  {
    if IsOldWord(s) { OldLower(s); }
    if IsNullWord(s) { LowerNull(s); }
    if IsTrueWord(s) { LowerTrue(s); }
    if IsFalseWord(s) { LowerFalse(s); }
    ReservedQuoted(s);
  }

  /** An array element with a second entry is enough: the printer repeats that entry's line and YAML rejects or
      misreads the result.  Every proxy in a Clash document is such an element. */
  lemma {:induction false} TwoEntryElement(items: seq<Value>, x: Value)
    requires JsTree(List(items)) && x in items && x.Obj? && |x.entries| >= 2
    ensures Read(ToYaml(List(items), 0)) != Some(List(items))
  {
    RoundTrip(List(items));
  }

  lemma {:induction false} OneElement(item: Value, first: string, rest: seq<Line>, ls: seq<Line>)
    requires Tree(item) && VisibleItem(item) && BreakFree(item)
    requires Lines(item, 1) == [Line(2, first)] + rest
    requires ls == [Line(0, "- " + first)] + rest + rest
    ensures Split(ToYaml(List([item]), 0), '\n') == Render(ls)
  {
    FirstSolid(item, 1);
    assert [item][1..] == [] && Lines(item, 1)[1..] == rest;
    assert ItemLines([item], 0) == ls + [];
    assert ls + [] == ls;
    PrintedLines(List([item]), 0);
    LinesTidy(List([item]), 0);
    RenderFree(ls);
    SplitJoin(Render(ls), '\n');
  }

  /** The smallest failures: for any two scalar entries the line of the second comes out twice. */
  lemma {:induction false} SecondLineTwice(e: Entry, f: Entry)
    requires Tree(Obj([e, f])) && VisibleItem(Obj([e, f])) && BreakFree(Obj([e, f])) && !IsBlock(e.value)
             && !IsBlock(f.value)
    ensures
      var first, again := Line(0, "- " + EntryLine(e, 1).content), EntryLine(f, 1);
      Split(ToYaml(List([Obj([e, f])]), 0), '\n') == Render([first, again, again])
    ensures Read(ToYaml(List([Obj([e, f])]), 0)) != Some(List([Obj([e, f])]))
  {
    var pair := Obj([e, f]);
    TwoEntryLines(e, f, 1);
    PairElement(pair, EntryLine(e, 1).content, EntryLine(f, 1));
    TwoEntryElement([pair], pair);
  }

  lemma {:induction false} PairElement(pair: Value, first: string, again: Line)
    requires Tree(pair) && VisibleItem(pair) && BreakFree(pair) && Lines(pair, 1) == [Line(2, first)] + [again]
    ensures Split(ToYaml(List([pair]), 0), '\n') == Render([Line(0, "- " + first), again, again])
  {
    OneElement(pair, first, [again], [Line(0, "- " + first), again, again]);
  }

  lemma {:induction false} TwoEntryLines(e: Entry, f: Entry, level: nat)
    requires !IsBlock(e.value) && !IsBlock(f.value)
    ensures Lines(Obj([e, f]), level) == [EntryLine(e, level)] + [EntryLine(f, level)]
  {
    assert [e, f][1..] == [f] && [f][1..] == [];
    assert EntryLines([f], level) == [EntryLine(f, level)];
  }
}

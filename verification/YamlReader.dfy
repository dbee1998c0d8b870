/**
 A reference reader for the block subset of YAML 1.2.2 that the panel's printer aims at: sections 5.1 and 5.4
 (characters and line breaks), 7.3.2 and 7.3.3 (single-quoted and plain scalars on one line), 8.2 (block collections),
 9.1 (document markers) and 10.3.2 (core schema).  It is written from those rules, not from the printer.  What it does
 not know, such as comments, anchors, scalars of several lines and keys that are no strings, it refuses.
 */
module YamlReader {
  import opened Text
  import opened Yaml

  // ---------------------------------------------------------------- characters and lines

  /** Section 5.4: a carriage return breaks a line as a line feed does. */
  predicate IsBreak(c: char) { c == '\n' || c == '\r' }

  predicate NoBreak(s: string) { forall c | c in s :: !IsBreak(c) }

  predicate IsWhite(c: char) { c == ' ' || c == '\t' }

  /** Section 5.1: the characters of a line outside quotes; a byte order mark is not one. */
  predicate IsPrintable(c: char) {
    c == '\t' || ' ' <= c <= '~' || c == '\U{85}' || ('\U{A0}' <= c && c !in {'\U{FEFF}', '\U{FFFE}', '\U{FFFF}'})
  }

  /** The characters of a line inside quotes: all but the C0 controls. */
  predicate IsQuotable(c: char) { c == '\t' || ' ' <= c }

  function BreakLines(s: string): (ss: seq<string>)
    ensures |ss| >= 1
  {
    if s == "" then [""]
    else if |s| > 1 && s[0] == '\r' && s[1] == '\n' then [""] + BreakLines(s[2..])
    else
      var rest := BreakLines(s[1..]);
      if IsBreak(s[0]) then [""] + rest else [[s[0]] + rest[0]] + rest[1..]
  }

  datatype Line = Line(indent: nat, content: string)

  /** A line's leading spaces, and what follows them. */
  function Measure(s: string): (l: Line)
    ensures |l.content| <= |s|
  {
    if s != "" && s[0] == ' ' then
      var l := Measure(s[1..]);
      Line(l.indent + 1, l.content)
    else Line(0, s)
  }

  function MeasureAll(ss: seq<string>): (ls: seq<Line>)
    ensures |ls| == |ss|
  {
    if ss == [] then [] else [Measure(ss[0])] + MeasureAll(ss[1..])
  }

  /** A block sequence entry: `-` and then a space or the end of the line. */
  predicate IsDash(c: string) { c != "" && c[0] == '-' && (|c| == 1 || c[1] == ' ') }

  predicate ColonAt(c: string, i: nat)
    requires i < |c|
  {
    c[i] == ':' && (i + 1 == |c| || c[i + 1] == ' ')
  }

  /** The first `:` that is followed by a space or ends the line, or `|c|`. */
  function FindColon(c: string): (i: nat)
    ensures i <= |c|
    ensures i < |c| ==> ColonAt(c, i)
    ensures forall j | 0 <= j < i :: !ColonAt(c, j)
  {
    if c == "" || ColonAt(c, 0) then 0
    else
      assert forall j | 1 <= j < |c| :: ColonAt(c, j) == ColonAt(c[1..], j - 1);
      1 + FindColon(c[1..])
  }

  /** Indicators that no plain scalar may start with. */
  predicate StartsWithIndicator(c: string) { c != "" && c[0] in ",[]{}#&*!|>\"%@`" }

  /** A character within a plain scalar: printable, and neither the `:` that ends it nor the `#` of a comment. */
  predicate PlainAt(line: string, i: nat)
    requires i < |line|
  {
    && IsPrintable(line[i])
    && (line[i] == ':' ==> i + 1 < |line| && !IsWhite(line[i + 1]))
    && (line[i] == '#' && i > 0 ==> !IsWhite(line[i - 1]))
  }

  /** Section 7.3.3: the first `n` characters of the line are a plain scalar, which white space neither starts nor
      ends. */
  predicate PlainIn(line: string, n: nat)
    requires n <= |line|
  {
    && n > 0 && !IsWhite(line[0]) && !IsWhite(line[n - 1]) && line[0] != '\'' && !StartsWithIndicator(line)
    && (line[0] in "?-" ==> |line| > 1 && !IsWhite(line[1]))
    && forall i: nat | i < n :: PlainAt(line, i)
  }

  /** A block mapping entry with a plain key. */
  predicate IsKey(c: string) {
    c != "" && c[0] != '\'' && !IsDash(c) && !StartsWithIndicator(c) && FindColon(c) < |c|
  }

  /** The inside of a single-quoted scalar, up to the quote that must end `s`. */
  function Unquote(s: string): Option<string> {
    if s == "" then None
    else if s[0] == '\'' then
      if |s| == 1 then Some("")
      else if s[1] == '\'' then var r :- Unquote(s[2..]); Some("'" + r)
      else None
    else if !IsQuotable(s[0]) then None
    else var r :- Unquote(s[1..]); Some([s[0]] + r)
  }

  function DropSign(s: string): string { if s != "" && s[0] in "+-" then s[1..] else s }

  predicate IsMantissa(m: string) {
    var d := IndexOfAny(m, {'.'});
    if d == |m| then AllDigits(m)
    else if d == 0 then AllDigits(m[1..])
    else AllDigits(m[..d]) && (d + 1 == |m| || AllDigits(m[d + 1..]))
  }

  /** The integers and floats of the core schema. */
  predicate IsNumeral(s: string) {
    var u := DropSign(s);
    var e := IndexOfAny(u, {'e', 'E'});
    || (IsMantissa(u[..e]) && (e == |u| || AllDigits(DropSign(u[e + 1..]))))
    || (|s| > 2 && s[..2] == "0x" && forall c | c in s[2..] :: IsHex(c))
    || (|s| > 2 && s[..2] == "0o" && forall c | c in s[2..] :: '0' <= c <= '7')
    || u in {".inf", ".Inf", ".INF"}
    || s in {".nan", ".NaN", ".NAN"}
  }

  predicate IsNullWord(c: string) { c == "null" || c == "Null" || c == "NULL" || c == "~" || c == "" }
  predicate IsTrueWord(c: string) { c == "true" || c == "True" || c == "TRUE" }
  predicate IsFalseWord(c: string) { c == "false" || c == "False" || c == "FALSE" }

  function ResolvePlain(c: string): Value {
    if IsNullWord(c) then Null
    else if IsTrueWord(c) then Bool(true)
    else if IsFalseWord(c) then Bool(false)
    else if IsNumeral(c) then Num(c)
    else Txt(c)
  }

  function ReadScalar(c: string): Option<Value> {
    if c == "" then Some(Null)
    else if c == "[]" then Some(List([]))
    else if c == "{}" then Some(Obj([]))
    else if c[0] == '\'' then var s :- Unquote(c[1..]); Some(Txt(s))
    else if !PlainIn(c, |c|) then None
    else Some(ResolvePlain(c))
  }

  /** A key on the line of its `:` that is a string: plain, of at most 1024 characters, and not a number, truth value or
      null (sections 7.4.2 and 10.3.2). */
  predicate PlainKey(k: string) { PlainIn(k + ":", |k|) && |k| <= 1024 && ResolvePlain(k).Txt? }

  /** A value on the same line as its key: no block collection may start there. */
  function ReadInline(c: string): Option<Value> {
    if IsDash(c) || IsKey(c) then None else ReadScalar(c)
  }

  function Weight(ls: seq<Line>): nat {
    if ls == [] then 0 else 1 + |ls[0].content| + Weight(ls[1..])
  }

  /** How many of the first lines are indented deeper than `ind`. */
  function Deeper(ls: seq<Line>, ind: nat): (k: nat)
    ensures k <= |ls|
    ensures forall j | 0 <= j < k :: ls[j].indent > ind
    ensures k < |ls| ==> ls[k].indent <= ind
  {
    if ls == [] || ls[0].indent <= ind then 0 else 1 + Deeper(ls[1..], ind)
  }

  lemma {:induction false} WeightSplit(ls: seq<Line>, k: nat)
    requires k <= |ls|
    ensures Weight(ls) == Weight(ls[..k]) + Weight(ls[k..])
  {
    if k > 0 {
      WeightSplit(ls[1..], k - 1);
      assert ls[..k][1..] == ls[1..][..k - 1];
      assert ls[k..] == ls[1..][k - 1..];
    } else {
      assert ls[k..] == ls;
    }
  }

  /** The line left of a sequence entry once its dash is taken off, at the column where it stands. */
  function AfterDash(l: Line): (r: Line)
    requires IsDash(l.content)
    ensures |r.content| < |l.content|
  {
    var m := Measure(l.content[1..]);
    Line(l.indent + 1 + m.indent, m.content)
  }

  /** One block node made of all the lines of `ls`. */
  function ReadNode(ls: seq<Line>): Option<Value>
    decreases Weight(ls), 1
  {
    if ls == [] then None
    else
      var c := ls[0].content;
      if IsDash(c) then
        var items :- ReadItems(ls, ls[0].indent); Some(List(items))
      else if IsKey(c) then
        var entries :- ReadEntries(ls, ls[0].indent); Some(Obj(entries))
      else if |ls| == 1 then ReadScalar(c)
      else None
  }

  function ConsItem(head: Option<Value>, tail: Option<seq<Value>>): Option<seq<Value>> {
    if head.Some? && tail.Some? then Some([head.value] + tail.value) else None
  }

  /** The lines nested below the first one, and those after them. */
  function Nested(ls: seq<Line>, ind: nat): (r: (seq<Line>, seq<Line>))
    requires ls != []
    ensures ls == [ls[0]] + r.0 + r.1
    ensures Weight(ls) == 1 + |ls[0].content| + Weight(r.0) + Weight(r.1)
  {
    var k := Deeper(ls[1..], ind);
    WeightSplit(ls[1..], k);
    (ls[1..][..k], ls[1..][k..])
  }

  function ReadItems(ls: seq<Line>, ind: nat): Option<seq<Value>>
    decreases Weight(ls), 0
  {
    if ls == [] then Some([])
    else if ls[0].indent != ind || !IsDash(ls[0].content) then None
    else
      var (inner, rest) := Nested(ls, ind);
      var body := [AfterDash(ls[0])] + inner;
      assert body[1..] == inner;
      ConsItem(ReadNode(body), ReadItems(rest, ind))
  }

  predicate HasKey(entries: seq<Entry>, key: string) { exists e :: e in entries && e.key == key }

  /** A repeated key is an error (section 3.2.1.1). */
  function ConsEntry(key: string, value: Option<Value>, tail: Option<seq<Entry>>): Option<seq<Entry>> {
    if PlainKey(key) && value.Some? && tail.Some? && !HasKey(tail.value, key)
        then Some([Entry(key, value.value)] + tail.value) else None
  }

  /** A block mapping. */
  function ReadEntries(ls: seq<Line>, ind: nat): Option<seq<Entry>>
    decreases Weight(ls), 0
  {
    if ls == [] then Some([])
    else if ls[0].indent != ind || !IsKey(ls[0].content) then None
    else
      var (inner, rest) := Nested(ls, ind);
      var i := FindColon(ls[0].content);
      var inline := Measure(ls[0].content[i + 1..]).content;
      ConsEntry(ls[0].content[..i], ReadValue(inline, inner), ReadEntries(rest, ind))
  }

  /** An entry's value: on the line of its key, nothing at all, or the deeper lines below. */
  function ReadValue(inline: string, inner: seq<Line>): Option<Value>
    decreases Weight(inner), 2
  {
    if inline != "" then (if inner == [] then ReadInline(inline) else None)
    else if inner == [] then Some(Null)
    else ReadNode(inner)
  }

  /** Section 9.1: `---` and `...` at the start of a line end the document. */
  predicate IsMarker(l: Line) {
    l.indent == 0 && |l.content| >= 3 && l.content[..3] in {"---", "..."} && (|l.content| == 3 || IsWhite(l.content[3]))
  }

  predicate Unmarked(ls: seq<Line>) { forall l | l in ls :: !IsMarker(l) }

  function Read(text: string): Option<Value> {
    var ls := MeasureAll(BreakLines(text));
    if Unmarked(ls) then ReadNode(ls) else None
  }
}

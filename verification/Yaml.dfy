/** The YAML block printer behind the Clash subscription, as the code prints. */
module Yaml {
  import opened Text

  /** A JSON-like tree.  A finite number is kept as its numeral, an object as its entries in order. */
  datatype Value =
    | Null
    | Bool(b: bool)
    | Num(repr: string)
    | Txt(text: string)
    | List(items: seq<Value>)
    | Obj(entries: seq<Entry>)
  datatype Entry = Entry(key: string, value: Value)

  predicate IsLetter(c: char) { 'a' <= c <= 'z' || 'A' <= c <= 'Z' }

  /** `PLAIN_SAFE` */
  predicate PlainSafe(s: string) {
    |s| > 0 && forall c | c in s :: IsLetter(c) || IsDigit(c) || c in "_./:@+-"
  }

  /** `YAML_RESERVED` */
  predicate Reserved(s: string) {
    ToLower(s) in {"true", "false", "null", "yes", "no", "on", "off", "~", ""}
  }

  /** `text.replace(/'/g, "''")` */
  function DoubleQuotes(s: string): string {
    if s == "" then "" else (if s[0] == '\'' then "''" else [s[0]]) + DoubleQuotes(s[1..])
  }

  predicate PrintsPlain(s: string) { PlainSafe(s) && !Reserved(s) && !AllDigits(s) }

  predicate IsBlock(v: Value) { v.List? || v.Obj? }

  function YamlScalar(v: Value): string
    requires !IsBlock(v)
  {
    match v
    case Null => "null"
    case Bool(b) => if b then "true" else "false"
    case Num(repr) => repr
    case Txt(s) => if PrintsPlain(s) then s else "'" + DoubleQuotes(s) + "'"
  }

  /** `toYaml(value, indentLevel)` */
  function ToYaml(v: Value, level: nat): string
    decreases v, 0
  {
    var pad := Repeat(' ', 2 * level);
    match v
    case List(items) => if items == [] then pad + "[]" else Join(ItemTexts(items, level), '\n')
    case Obj(entries) => Join(EntryTexts(entries, level), '\n')
    case _ => pad + YamlScalar(v)
  }

  /** The array branch on an element's text.  Note that `trimmed` is the whole block without its leading white space,
      and that every line of the block but the first is then appended once more. */
  function BlockItemText(block: string, pad: string): string {
    var trimmed := TrimStart(block);
    var rest := Join(Split(block, '\n')[1..], '\n');
    if rest != "" then pad + "- " + trimmed + "\n" + rest else pad + "- " + trimmed
  }

  function ItemText(item: Value, level: nat): string
    decreases item, 1
  {
    var pad := Repeat(' ', 2 * level);
    if IsBlock(item) then BlockItemText(ToYaml(item, level + 1), pad) else pad + "- " + YamlScalar(item)
  }

  function ItemTexts(items: seq<Value>, level: nat): seq<string>
    decreases items, 0
  {
    if items == [] then [] else [ItemText(items[0], level)] + ItemTexts(items[1..], level)
  }

  /** What one entry pushes onto `lines`. */
  function EntryText(e: Entry, level: nat): seq<string>
    decreases e, 0
  {
    var pad := Repeat(' ', 2 * level);
    match e.value
    case List(items) => if items == [] then [pad + e.key + ": []"] else [pad + e.key + ":", ToYaml(e.value, level + 1)]
    case Obj(entries) => if entries == [] then [pad + e.key + ": {}"]
        else [pad + e.key + ":", ToYaml(e.value, level + 1)]
    case _ => [pad + e.key + ": " + YamlScalar(e.value)]
  }

  function EntryTexts(entries: seq<Entry>, level: nat): seq<string>
    decreases entries, 0
  {
    if entries == [] then [] else EntryText(entries[0], level) + EntryTexts(entries[1..], level)
  }

  lemma {:induction false} ItemTextsSnoc(items: seq<Value>, k: nat, level: nat)
    requires k < |items|
    ensures ItemTexts(items[..k + 1], level) == ItemTexts(items[..k], level) + [ItemText(items[k], level)]
  {
    if k > 0 {
      ItemTextsSnoc(items[1..], k - 1, level);
      assert items[1..][..k] == items[..k + 1][1..] && items[1..][..k - 1] == items[..k][1..];
    }
  }

  lemma {:induction false} EntryTextsSnoc(entries: seq<Entry>, k: nat, level: nat)
    requires k < |entries|
    ensures EntryTexts(entries[..k + 1], level) == EntryTexts(entries[..k], level) + EntryText(entries[k], level)
  {
    if k > 0 {
      EntryTextsSnoc(entries[1..], k - 1, level);
      assert entries[1..][..k] == entries[..k + 1][1..] && entries[1..][..k - 1] == entries[..k][1..];
    } else {
      assert entries[..1] == [entries[0]] && entries[..0] == [] && [entries[0]][1..] == [];
    }
  }

  /** `toYaml` as it runs: the array branch maps its items, the object branch pushes onto `lines`. */
  method Print(v: Value, level: nat) returns (text: string)
    ensures text == ToYaml(v, level)
    decreases v
  {
    var pad := Repeat(' ', 2 * level);
    match v {
      case List(items) =>
        if items == [] { return pad + "[]"; }
        var texts := [];
        for i := 0 to |items|
          invariant texts == ItemTexts(items[..i], level)
        {
          var item := items[i];
          ItemTextsSnoc(items, i, level);
          if IsBlock(item) {
            var block := Print(item, level + 1);
            var trimmed := TrimStart(block);
            var rest := Join(Split(block, '\n')[1..], '\n');
            texts := texts + [if rest != "" then pad + "- " + trimmed + "\n" + rest else pad + "- " + trimmed];
          } else {
            texts := texts + [pad + "- " + YamlScalar(item)];
          }
        }
        assert items[..|items|] == items;
        text := Join(texts, '\n');
      case Obj(entries) =>
        var lines := [];
        for i := 0 to |entries|
          invariant lines == EntryTexts(entries[..i], level)
        {
          var e := entries[i];
          EntryTextsSnoc(entries, i, level);
          if e.value.List? && e.value.items == [] {
            lines := lines + [pad + e.key + ": []"];
          } else if e.value.Obj? && e.value.entries == [] {
            lines := lines + [pad + e.key + ": {}"];
          } else if IsBlock(e.value) {
            lines := lines + [pad + e.key + ":"];
            var block := Print(e.value, level + 1);
            lines := lines + [block];
          } else {
            lines := lines + [pad + e.key + ": " + YamlScalar(e.value)];
          }
        }
        assert entries[..|entries|] == entries;
        text := Join(lines, '\n');
      case _ =>
        text := pad + YamlScalar(v);
    }
  }
}

/** Strings as the panel's code uses them: `split`, `join`, and stripping at the front. */
module Text {

  datatype Option<+T> = None | Some(value: T) {
    predicate IsFailure() { None? }
    function PropagateFailure<U>(): Option<U> requires None? { None }
    function Extract(): T requires Some? { value }
    function GetOr(default: T): T { if Some? then value else default }
  }

  /** `c.repeat(n)` */
  function Repeat(c: char, n: nat): (s: string)
    ensures |s| == n && forall i | 0 <= i < n :: s[i] == c
  {
    seq(n, _ => c)
  }

  /** `s.split(sep)` for a one-character separator; never empty. */
  function Split(s: string, sep: char): (parts: seq<string>)
    ensures |parts| >= 1
  {
    if s == "" then [""]
    else
      var rest := Split(s[1..], sep);
      if s[0] == sep then [""] + rest else [[s[0]] + rest[0]] + rest[1..]
  }

  /** `parts.join(sep)` for a one-character separator. */
  function Join(parts: seq<string>, sep: char): string
  {
    if parts == [] then ""
    else if |parts| == 1 then parts[0]
    else parts[0] + [sep] + Join(parts[1..], sep)
  }

  lemma {:induction false} SplitFree(a: string, sep: char)
    requires sep !in a
    ensures Split(a, sep) == [a]
  {
    if a != "" {
      SplitFree(a[1..], sep);
      assert [a[0]] + a[1..] == a;
    }
  }

  lemma {:induction false} SplitFirst(a: string, sep: char, b: string)
    requires sep !in a
    ensures Split(a + [sep] + b, sep) == [a] + Split(b, sep)
  {
    var s := a + [sep] + b;
    if a == "" {
      assert s[1..] == b;
    } else {
      SplitFirst(a[1..], sep, b);
      assert s[1..] == a[1..] + [sep] + b;
      assert [a[0]] + a[1..] == a;
    }
  }

  /** Splitting undoes joining when no part holds the separator. */
  lemma {:induction false} SplitJoin(parts: seq<string>, sep: char)
    requires parts != []
    requires forall p | p in parts :: sep !in p
    ensures Split(Join(parts, sep), sep) == parts
  {
    if |parts| == 1 {
      SplitFree(parts[0], sep);
    } else {
      SplitJoin(parts[1..], sep);
      SplitFirst(parts[0], sep, Join(parts[1..], sep));
    }
  }

  lemma {:induction false} JoinCons(c: char, parts: seq<string>, sep: char)
    requires parts != []
    ensures Join([""] + parts, sep) == [sep] + Join(parts, sep)
    ensures Join([[c] + parts[0]] + parts[1..], sep) == [c] + Join(parts, sep)
  {
    assert ([""] + parts)[1..] == parts;
    if |parts| > 1 { assert ([[c] + parts[0]] + parts[1..])[1..] == parts[1..]; }
  }

  /** Joining undoes splitting for every string. */
  lemma {:induction false} JoinSplit(s: string, sep: char)
    ensures Join(Split(s, sep), sep) == s
  {
    if s != "" {
      JoinSplit(s[1..], sep);
      JoinCons(s[0], Split(s[1..], sep), sep);
    }
  }

  lemma {:induction false} SplitPartsFree(s: string, sep: char)
    ensures forall p | p in Split(s, sep) :: sep !in p
    ensures forall p, c | p in Split(s, sep) && c in p :: c in s
  {
    if s != "" {
      SplitPartsFree(s[1..], sep);
      var rest := Split(s[1..], sep);
      forall p | p in Split(s, sep)
        ensures sep !in p && forall c | c in p :: c in s
      {
        if p !in rest && s[0] != sep { assert p == [s[0]] + rest[0]; assert rest[0] in rest; }
      }
    }
  }

  lemma {:induction false} PartsConcat(x: string, a: seq<string>, b: seq<string>)
    requires a != []
    ensures [x] + (a + b) == [x] + a + b && [x + (a + b)[0]] + (a + b)[1..] == [x + a[0]] + a[1..] + b
  {
  }

  lemma {:induction false} SplitConcat(a: string, sep: char, b: string)
    ensures Split(a + [sep] + b, sep) == Split(a, sep) + Split(b, sep)
  {
    var s := a + [sep] + b;
    if a == "" {
      assert s[1..] == b;
    } else {
      SplitConcat(a[1..], sep, b);
      assert s[1..] == a[1..] + [sep] + b && s[0] == a[0];
      PartsConcat(if a[0] == sep then "" else [a[0]], Split(a[1..], sep), Split(b, sep));
    }
  }

  /** A string is cut wherever it holds the separator. */
  lemma {:induction false} SplitCuts(s: string, sep: char)
    ensures sep in s <==> |Split(s, sep)| > 1
  {
    if sep !in s {
      SplitFree(s, sep);
    } else {
      SplitPartsFree(s, sep);
      JoinSplit(s, sep);
    }
  }

  lemma {:induction false} JoinConcat(a: seq<string>, b: seq<string>, sep: char)
    requires a != [] && b != []
    ensures Join(a + b, sep) == Join(a, sep) + [sep] + Join(b, sep)
  {
    if |a| == 1 {
      assert (a + b)[1..] == b;
    } else {
      JoinConcat(a[1..], b, sep);
      assert (a + b)[1..] == a[1..] + b;
    }
  }

  /** White space as `\s` in a JavaScript regular expression and `trim` see it. */
  predicate IsSpace(c: char) {
    || c == ' ' || '\t' <= c <= '\r' || c == '\U{A0}' || c == '\U{1680}' || '\U{2000}' <= c <= '\U{200A}'
    || c == '\U{2028}' || c == '\U{2029}' || c == '\U{202F}' || c == '\U{205F}' || c == '\U{3000}' || c == '\U{FEFF}'
  }

  /** `s.replace(/^\s+/, '')` */
  function TrimStart(s: string): string {
    if s != "" && IsSpace(s[0]) then TrimStart(s[1..]) else s
  }

  /** Something is left when the front is stripped. */
  predicate HasVisible(s: string) { s != "" && (!IsSpace(s[0]) || HasVisible(s[1..])) }

  lemma {:induction false} TrimStartSpaces(n: nat, s: string)
    ensures TrimStart(Repeat(' ', n) + s) == TrimStart(s)
  {
    var t := Repeat(' ', n) + s;
    if n == 0 {
      assert t == s;
    } else {
      TrimStartSpaces(n - 1, s);
      assert t[1..] == Repeat(' ', n - 1) + s;
    }
  }

  lemma {:induction false} TrimStartCons(c: char, s: string)
    ensures TrimStart([c] + s) == if IsSpace(c) then TrimStart(s) else [c] + s
  {
    assert ([c] + s)[1..] == s;
  }

  lemma {:induction false} TrimStartFront(s: string, tail: string)
    requires HasVisible(s)
    ensures TrimStart(s + tail) == TrimStart(s) + tail
  {
    TrimStartCons(s[0], s[1..] + tail);
    assert s + tail == [s[0]] + (s[1..] + tail);
    if IsSpace(s[0]) { TrimStartFront(s[1..], tail); }
  }

  lemma {:induction false} VisibleAt(s: string, i: nat)
    requires i < |s| && !IsSpace(s[i])
    ensures HasVisible(s)
    decreases |s|
  {
    if i > 0 { VisibleAt(s[1..], i - 1); }
  }

  /** The index of the first character of `s` that is in `cs`, or `|s|`. */
  function IndexOfAny(s: string, cs: set<char>): (i: nat)
    ensures i <= |s|
    ensures i < |s| ==> s[i] in cs
    ensures forall j | 0 <= j < i :: s[j] !in cs
  {
    if s == "" || s[0] in cs then 0 else 1 + IndexOfAny(s[1..], cs)
  }

  predicate IsDigit(c: char) { '0' <= c <= '9' }

  predicate IsHex(c: char) { IsDigit(c) || 'a' <= c <= 'f' || 'A' <= c <= 'F' }

  predicate AllDigits(s: string) { |s| > 0 && forall c | c in s :: IsDigit(c) }

  function Range(c: char, n: nat): (s: string)
    requires c as int + n < 0x80
    ensures |s| == n && forall i | 0 <= i < n :: s[i] as int == c as int + i
  {
    seq(n, i requires 0 <= i < n => (c as int + i) as char)
  }

  /** The concatenation of what `f` makes of the characters. */
  function FlatMap<T>(s: string, f: char -> seq<T>): seq<T> { if s == "" then [] else f(s[0]) + FlatMap(s[1..], f) }

  lemma {:induction false} FlatMapConcat<T>(a: string, b: string, f: char -> seq<T>)
    ensures FlatMap(a + b, f) == FlatMap(a, f) + FlatMap(b, f)
  {
    if a == "" {
      assert a + b == b;
    } else {
      FlatMapConcat(a[1..], b, f);
      assert (a + b)[1..] == a[1..] + b && (a + b)[0] == a[0];
    }
  }

  function MapChars(s: string, f: char -> char): (r: string)
    ensures |r| == |s| && forall i | 0 <= i < |s| :: r[i] == f(s[i])
  {
    if s == "" then "" else [f(s[0])] + MapChars(s[1..], f)
  }

  /** `s.replace(/=+$/, '')` */
  function StripPad(s: string): string {
    if s != "" && s[|s| - 1] == '=' then StripPad(s[..|s| - 1]) else s
  }

  lemma {:induction false} StripPrefix(s: string)
    ensures StripPad(s) <= s
  {
    if s != "" && s[|s| - 1] == '=' { StripPrefix(s[..|s| - 1]); }
  }

  lemma {:induction false} AssociativeText(a: string, b: string, c: string)
    ensures a + b + c == a + (b + c)
  {
  }

  function TrimEnd(s: string): string {
    if s != "" && IsSpace(s[|s| - 1]) then TrimEnd(s[..|s| - 1]) else s
  }

  /** `s.trim()` */
  function Trim(s: string): string { TrimEnd(TrimStart(s)) }

  /** Nothing to trim. */
  predicate Trimmed(s: string) { s == "" || (!IsSpace(s[0]) && !IsSpace(s[|s| - 1])) }

  lemma {:induction false} TrimStartFirst(s: string)
    ensures TrimStart(s) == "" || !IsSpace(TrimStart(s)[0])
    ensures forall c | c in TrimStart(s) :: c in s
  {
    if s != "" && IsSpace(s[0]) { TrimStartFirst(s[1..]); }
  }

  lemma {:induction false} TrimEndLast(s: string)
    ensures TrimEnd(s) <= s && (TrimEnd(s) == "" || !IsSpace(TrimEnd(s)[|TrimEnd(s)| - 1]))
  {
    if s != "" && IsSpace(s[|s| - 1]) { TrimEndLast(s[..|s| - 1]); }
  }

  lemma {:induction false} TrimTrims(s: string)
    ensures Trimmed(Trim(s)) && forall c | c in Trim(s) :: c in s
  {
    TrimStartFirst(s);
    TrimEndLast(TrimStart(s));
  }

  lemma {:induction false} TrimmedTrims(s: string)
    requires Trimmed(s)
    ensures Trim(s) == s
  {
  }

  predicate Blank(s: string) { forall c | c in s :: IsSpace(c) }

  /** `typed` is `text` with white space around it. */
  ghost predicate Around(typed: string, text: string) {
    Trimmed(text) && exists front, back :: Blank(front) && Blank(back) && typed == front + text + back
  }

  lemma {:induction false} TrimStartAway(front: string, s: string)
    requires Blank(front) && (s == "" || !IsSpace(s[0]))
    ensures TrimStart(front + s) == s
  {
    if front == "" {
      assert front + s == s;
    } else {
      assert front[0] in front && (front + s)[1..] == front[1..] + s;
      TrimStartAway(front[1..], s);
    }
  }

  lemma {:induction false} TrimEndAway(s: string, back: string)
    requires Blank(back) && (s == "" || !IsSpace(s[|s| - 1]))
    ensures TrimEnd(s + back) == s
  {
    if back == "" {
      assert s + back == s;
    } else {
      var n := |back| - 1;
      assert back[n] in back && (s + back)[..|s| + n] == s + back[..n];
      TrimEndAway(s, back[..n]);
    }
  }

  lemma {:induction false} TrimAway(front: string, text: string, back: string)
    requires Blank(front) && Blank(back) && Trimmed(text)
    ensures Trim(front + text + back) == text
  {
    if text == "" {
      assert front + text + back == (front + back) + "";
      TrimStartAway(front + back, "");
    } else {
      assert front + text + back == front + (text + back);
      TrimStartAway(front, text + back);
      TrimEndAway(text, back);
    }
  }

  lemma {:induction false} TrimStartSplit(s: string) returns (front: string)
    ensures Blank(front) && s == front + TrimStart(s)
  {
    front := "";
    if s != "" && IsSpace(s[0]) {
      front := TrimStartSplit(s[1..]);
      front := [s[0]] + front;
    }
  }

  lemma {:induction false} TrimEndSplit(s: string) returns (back: string)
    ensures Blank(back) && s == TrimEnd(s) + back
  {
    back := "";
    if s != "" && IsSpace(s[|s| - 1]) {
      back := TrimEndSplit(s[..|s| - 1]);
      back := back + [s[|s| - 1]];
    }
  }

  /** `trim` takes exactly the white space at the ends away. */
  lemma {:induction false} TrimIff(typed: string, text: string)
    ensures Around(typed, text) <==> Trim(typed) == text
  {
    if Around(typed, text) {
      var front, back :| Blank(front) && Blank(back) && typed == front + text + back;
      TrimAway(front, text, back);
    }
    if Trim(typed) == text {
      TrimTrims(typed);
      var front := TrimStartSplit(typed);
      var back := TrimEndSplit(TrimStart(typed));
      assert typed == front + text + back;
    }
  }

  /** `s.endsWith(suffix)` */
  predicate EndsWith(s: string, suffix: string) { |suffix| <= |s| && s[|s| - |suffix|..] == suffix }

  /** `s.includes(part)` */
  predicate Includes(s: string, part: string) { part <= s || (s != "" && Includes(s[1..], part)) }

  lemma {:induction false} IncludedAt(front: string, part: string, back: string)
    ensures Includes(front + part + back, part)
  {
    var s := front + part + back;
    if front == "" {
      assert part <= s;
    } else {
      IncludedAt(front[1..], part, back);
      assert s[1..] == front[1..] + part + back;
    }
  }

  lemma {:induction false} IncludesIff(s: string, part: string)
    ensures Includes(s, part) <==> exists front, back :: s == front + part + back
  {
    if Includes(s, part) { var front, back := WhereIncluded(s, part); }
    if front, back :| s == front + part + back { IncludedAt(front, part, back); }
  }

  lemma {:induction false} WhereIncluded(s: string, part: string) returns (front: string, back: string)
    requires Includes(s, part)
    ensures s == front + part + back
  {
    if part <= s {
      front, back := "", s[|part|..];
    } else {
      front, back := WhereIncluded(s[1..], part);
      front := [s[0]] + front;
    }
  }

  lemma {:induction false} EndsWithIff(s: string, suffix: string)
    ensures EndsWith(s, suffix) <==> exists front :: s == front + suffix
  {
    if EndsWith(s, suffix) { assert s == s[..|s| - |suffix|] + suffix; }
    if front :| s == front + suffix { assert s[|s| - |suffix|..] == suffix; }
  }

  lemma {:induction false} IncludesLength(s: string, part: string)
    requires Includes(s, part)
    ensures |part| <= |s|
  {
    if !(part <= s) { IncludesLength(s[1..], part); }
  }

  /** Every character is the separator or in some part. */
  lemma {:induction false} SplitCovers(s: string, sep: char, c: char) returns (part: string)
    requires c in s && c != sep
    ensures part in Split(s, sep) && c in part
  {
    var rest := Split(s[1..], sep);
    if s[0] == c {
      part := Split(s, sep)[0];
    } else {
      part := SplitCovers(s[1..], sep, c);
      if s[0] != sep && part == rest[0] { part := [s[0]] + rest[0]; assert part == Split(s, sep)[0]; }
      else {
        var i :| 0 <= i < |rest| && rest[i] == part;
        if s[0] == sep { assert Split(s, sep)[i + 1] == part; } else { assert i > 0 && Split(s, sep)[i] == part; }
      }
    }
  }

  function ToLowerChar(c: char): char { if 'A' <= c <= 'Z' then (c as int + 32) as char else c }

  /** `toLowerCase` on ASCII. */
  function ToLower(s: string): (r: string)
    ensures |r| == |s| && forall i | 0 <= i < |s| :: r[i] == ToLowerChar(s[i])
  {
    MapChars(s, ToLowerChar)
  }
}

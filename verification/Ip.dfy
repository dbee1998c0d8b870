/** IP addresses and blocks as the routing rules read them. */
module Ip {
  import opened Text
  import opened Arith

  function DigitOf(c: char): nat { if IsDigit(c) then c as int - '0' as int else 0 }

  /** The value of a text of decimal digits. */
  function DecValue(s: string): nat {
    if s == "" then 0 else DecValue(s[..|s| - 1]) * 10 + DigitOf(s[|s| - 1])
  }

  // ---------------------------------------------------------------- IPv4

  /** `/^[0-9]{1,3}$/.test(p) && Number(p) <= 255` */
  predicate IsOctet(p: string) {
    AllDigits(p) && |p| <= 3 && DecValue(p) <= 255
  }

  /** `isIpv4` */
  predicate IsIpv4(value: string) {
    var parts := Split(value, '.');
    |parts| == 4 && forall p | p in parts :: IsOctet(p)
  }

  /** The number that dotted octets spell, most significant first. */
  function OctetsNumber(parts: seq<string>): nat {
    if parts == [] then 0 else OctetsNumber(parts[..|parts| - 1]) * Pow2(8) + DecValue(parts[|parts| - 1])
  }

  /** `ipv4ToInt`; `>>> 0` takes the number modulo `2^32`. */
  function Ipv4ToInt(ip: string): nat
    requires IsIpv4(ip)
  {
    OctetsNumber(Split(ip, '.')) % 0x1_0000_0000
  }

  lemma {:induction false} OctetsBound(parts: seq<string>)
    requires forall p | p in parts :: IsOctet(p)
    ensures OctetsNumber(parts) < Pow2(8 * |parts|)
  {
    if parts != [] {
      var init := parts[..|parts| - 1];
      OctetsBound(init);
      assert IsOctet(parts[|parts| - 1]);
      DigitBound(OctetsNumber(init), 8 * |init|, DecValue(parts[|parts| - 1]), 8);
    }
  }

  lemma {:induction false} Pow2At32()
    ensures Pow2(32) == 0x1_0000_0000
  {
    assert Pow2(8) == 0x100;
    PowAdd(8, 8);
    PowAdd(16, 16);
  }

  /** The unsigned shift never cuts anything off. */
  lemma {:induction false} Ipv4Exact(ip: string)
    requires IsIpv4(ip)
    ensures Ipv4ToInt(ip) == OctetsNumber(Split(ip, '.')) < 0x1_0000_0000
  {
    OctetsBound(Split(ip, '.'));
    Pow2At32();
  }

  /** An octet as `String(n)` prints it. */
  predicate CanonicalOctet(p: string) { IsOctet(p) && (p[0] == '0' ==> |p| == 1) }

  predicate CanonicalIpv4(ip: string) {
    IsIpv4(ip) && forall p | p in Split(ip, '.') :: CanonicalOctet(p)
  }

  lemma {:induction false} OctetValue(p: string)
    requires 0 < |p| <= 3
    ensures |p| == 1 ==> DecValue(p) == DigitOf(p[0])
    ensures |p| == 2 ==> DecValue(p) == DigitOf(p[0]) * 10 + DigitOf(p[1])
    ensures |p| == 3 ==> DecValue(p) == (DigitOf(p[0]) * 10 + DigitOf(p[1])) * 10 + DigitOf(p[2])
  {
    if |p| > 1 { OctetValue(p[..|p| - 1]); }
  }

  /** How many digits a canonical octet has follows from its value. */
  lemma {:induction false} OctetLength(p: string)
    requires CanonicalOctet(p)
    ensures (|p| == 1 <==> DecValue(p) < 10) && (|p| == 3 <==> DecValue(p) >= 100)
  {
    OctetValue(p);
    assert p[0] in p;
  }

  lemma {:induction false} DigitInjective(c: char, d: char)
    requires IsDigit(c) && IsDigit(d) && DigitOf(c) == DigitOf(d)
    ensures c == d
  {
  }

  lemma {:induction false} OctetInjective(p: string, q: string)
    requires CanonicalOctet(p) && CanonicalOctet(q) && DecValue(p) == DecValue(q)
    ensures p == q
  {
    OctetLength(p);
    OctetLength(q);
    DigitsInjective(p, q);
  }

  lemma {:induction false} DigitsInjective(p: string, q: string)
    requires |p| == |q| && (forall c | c in p :: IsDigit(c)) && (forall c | c in q :: IsDigit(c))
             && DecValue(p) == DecValue(q)
    ensures p == q
  {
    if p != "" {
      var i := |p| - 1;
      assert p[i] in p && q[i] in q && p == p[..i] + [p[i]] && q == q[..i] + [q[i]];
      QuotientUnique(10, DecValue(p[..i]), DigitOf(p[i]), DecValue(q[..i]), DigitOf(q[i]));
      DigitInjective(p[i], q[i]);
      DigitsInjective(p[..i], q[..i]);
    }
  }

  lemma {:induction false} PartsInjective(a: seq<string>, b: seq<string>)
    requires |a| == |b| && (forall p | p in a :: CanonicalOctet(p)) && (forall p | p in b :: CanonicalOctet(p))
    requires OctetsNumber(a) == OctetsNumber(b)
    ensures a == b
  {
    if a != [] {
      var i := |a| - 1;
      assert CanonicalOctet(a[i]) && CanonicalOctet(b[i]);
      assert a == a[..i] + [a[i]] && b == b[..i] + [b[i]];
      QuotientUnique(Pow2(8), OctetsNumber(a[..i]), DecValue(a[i]), OctetsNumber(b[..i]), DecValue(b[i]));
      OctetInjective(a[i], b[i]);
      PartsInjective(a[..i], b[..i]);
    }
  }

  /** `ipv4ToInt` tells canonical addresses apart. */
  lemma {:induction false} Ipv4Injective(a: string, b: string)
    requires CanonicalIpv4(a) && CanonicalIpv4(b)
    ensures Ipv4ToInt(a) == Ipv4ToInt(b) <==> a == b
  {
    if Ipv4ToInt(a) == Ipv4ToInt(b) {
      Ipv4Exact(a);
      Ipv4Exact(b);
      PartsInjective(Split(a, '.'), Split(b, '.'));
      JoinSplit(a, '.');
      JoinSplit(b, '.');
    }
  }

  // ---------------------------------------------------------------- IPv6

  /** `isIpv6` */
  predicate IsIpv6(value: string) {
    value != "" && (forall c | c in value :: IsHex(c) || c == ':') && ':' in value
  }

  function HexDigit(c: char): (d: nat)
    ensures d < 16
  {
    if '0' <= c <= '9' then c as int - '0' as int
    else if 'A' <= c <= 'F' then c as int - 'A' as int + 10
    else if 'a' <= c <= 'f' then c as int - 'a' as int + 10
    else 0
  }

  /** `parseInt(s, 16)`, with 0 for the empty text. */
  function HexValue(s: string): nat {
    if s == "" then 0 else HexValue(s[..|s| - 1]) * Pow2(4) + HexDigit(s[|s| - 1])
  }

  lemma {:induction false} HexBound(s: string)
    ensures HexValue(s) < Pow2(4 * |s|)
  {
    if s != "" {
      HexBound(s[..|s| - 1]);
      DigitBound(HexValue(s[..|s| - 1]), 4 * (|s| - 1), HexDigit(s[|s| - 1]), 4);
    }
  }

  /** `/^[0-9a-fA-F]{0,4}$/` */
  predicate IsGroup(g: string) { |g| <= 4 && forall c | c in g :: IsHex(c) }

  predicate AllGroups(groups: seq<string>) { forall g | g in groups :: IsGroup(g) }

  /** Groups as one big-endian number. */
  function GroupsNumber(groups: seq<string>): nat {
    if groups == [] then 0 else GroupsNumber(groups[..|groups| - 1]) * Pow2(16) + HexValue(groups[|groups| - 1])
  }

  /** `s.split('::')` */
  function SplitGap(s: string): (parts: seq<string>)
    ensures |parts| >= 1
  {
    if |s| < 2 then [s]
    else if s[0] == ':' && s[1] == ':' then [""] + SplitGap(s[2..])
    else
      var rest := SplitGap(s[1..]);
      [[s[0]] + rest[0]] + rest[1..]
  }

  function GroupTexts(half: string): seq<string> { if half == "" then [] else Split(half, ':') }

  /** The eight groups of an address, before their digits are looked at. */
  function GroupsOf(ip: string): (r: Option<seq<string>>)
    ensures r.Some? ==> |r.value| == 8
  {
    var halves := SplitGap(Split(ip, '%')[0]);
    if |halves| > 2 then None
    else
      var head := GroupTexts(halves[0]);
      var tail := if |halves| == 2 then GroupTexts(halves[1]) else [];
      var missing := 8 - |head| - |tail|;
      if |halves| == 1 && |head| != 8 then None
      else if missing < 0 then None
      else
        var groups := head + (if |halves| == 2 then seq(missing, _ => "0") else []) + tail;
        if |groups| != 8 then None else Some(groups)
  }

  /** What `expandIpv6` returns, as a function. */
  function Expanded(ip: string): Option<nat> {
    var groups := GroupsOf(ip);
    if groups.None? || !AllGroups(groups.value) then None else Some(GroupsNumber(groups.value))
  }

  lemma {:induction false} NextGroup(groups: seq<string>, i: nat)
    requires i < |groups| && AllGroups(groups[..i]) && IsGroup(groups[i])
    ensures AllGroups(groups[..i + 1])
    ensures GroupsNumber(groups[..i + 1]) == GroupsNumber(groups[..i]) * Pow2(16) + HexValue(groups[i])
  {
    var upto := groups[..i + 1];
    assert upto[..i] == groups[..i];
    forall g | g in upto ensures IsGroup(g) { if g !in groups[..i] { assert g == groups[i]; } }
  }

  /** `expandIpv6`, whose loop shifts the groups in and gives up at the first that is not one. */
  method ExpandIpv6(ip: string) returns (r: Option<nat>)
    ensures r == Expanded(ip)
  {
    var groups := GroupsOf(ip);
    if groups.None? { return None; }
    var result := 0;
    for i := 0 to |groups.value|
      invariant AllGroups(groups.value[..i]) && result == GroupsNumber(groups.value[..i])
    {
      if !IsGroup(groups.value[i]) { return None; }
      NextGroup(groups.value, i);
      result := result * Pow2(16) + HexValue(groups.value[i]);
    }
    assert groups.value[..|groups.value|] == groups.value;
    return Some(result);
  }

  // ---------------------------------------------------------------- case

  function LowerAll(parts: seq<string>): (r: seq<string>)
    ensures |r| == |parts| && forall i | 0 <= i < |parts| :: r[i] == ToLower(parts[i])
  {
    seq(|parts|, i requires 0 <= i < |parts| => ToLower(parts[i]))
  }

  lemma {:induction false} LowerCons(s: string)
    requires s != ""
    ensures ToLower(s) == [ToLowerChar(s[0])] + ToLower(s[1..]) && ToLower(s)[1..] == ToLower(s[1..])
  {
  }

  lemma {:induction false} SplitLower(s: string, sep: char)
    requires sep == ':' || sep == '%'
    ensures Split(ToLower(s), sep) == LowerAll(Split(s, sep))
  {
    if s != "" {
      LowerCons(s);
      SplitLower(s[1..], sep);
      SplitFirstLower(s[0], Split(s[1..], sep), Split(ToLower(s[1..]), sep));
      assert ToLowerChar(s[0]) == sep <==> s[0] == sep;
    }
  }

  lemma {:induction false} SplitFirstLower(c: char, rest: seq<string>, lower: seq<string>)
    requires rest != [] && lower == LowerAll(rest)
    ensures [""] + lower == LowerAll([""] + rest)
    ensures [[ToLowerChar(c)] + lower[0]] + lower[1..] == LowerAll([[c] + rest[0]] + rest[1..])
  {
    LowerCons([c] + rest[0]);
    assert ([c] + rest[0])[1..] == rest[0];
  }

  lemma {:induction false} GapLower(s: string)
    ensures SplitGap(ToLower(s)) == LowerAll(SplitGap(s))
  {
    if |s| >= 2 {
      LowerCons(s);
      assert ToLower(s)[1] == ToLowerChar(s[1]);
      if s[0] == ':' && s[1] == ':' {
        LowerCons(s[1..]);
        assert s[1..][1..] == s[2..] && ToLower(s)[1..][1..] == ToLower(s)[2..];
        GapLower(s[2..]);
        SplitFirstLower(s[0], SplitGap(s[2..]), SplitGap(ToLower(s[2..])));
      } else {
        GapLower(s[1..]);
        SplitFirstLower(s[0], SplitGap(s[1..]), SplitGap(ToLower(s[1..])));
      }
    }
  }

  lemma {:induction false} TextsLower(half: string)
    ensures GroupTexts(ToLower(half)) == LowerAll(GroupTexts(half))
  {
    SplitLower(half, ':');
  }

  lemma {:induction false} ZerosLower(head: seq<string>, tail: seq<string>, n: nat)
    ensures LowerAll(head) + seq(n, _ => "0") + LowerAll(tail) == LowerAll(head + seq(n, _ => "0") + tail)
    ensures LowerAll(head) + [] + LowerAll(tail) == LowerAll(head + [] + tail)
  {
    assert ToLower("0") == "0";
  }

  lemma {:induction false} GroupsLower(ip: string)
    ensures GroupsOf(ToLower(ip)) == if GroupsOf(ip).None? then None else Some(LowerAll(GroupsOf(ip).value))
  {
    SplitLower(ip, '%');
    var clean := Split(ip, '%')[0];
    GapLower(clean);
    var halves := SplitGap(clean);
    TextsLower(halves[0]);
    if |halves| == 2 {
      TextsLower(halves[1]);
      var head, tail := GroupTexts(halves[0]), GroupTexts(halves[1]);
      if |head| + |tail| <= 8 { ZerosLower(head, tail, 8 - |head| - |tail|); }
    } else if |halves| == 1 {
      ZerosLower(GroupTexts(halves[0]), [], 0);
    }
  }

  lemma {:induction false} HexLower(g: string)
    requires forall c | c in g :: IsHex(c)
    ensures HexValue(ToLower(g)) == HexValue(g)
  {
    if g != "" {
      var n := |g| - 1;
      HexLower(g[..n]);
      assert g[n] in g && ToLower(g)[..n] == ToLower(g[..n]);
    }
  }

  lemma {:induction false} GroupLower(g: string)
    ensures IsGroup(ToLower(g)) <==> IsGroup(g)
    ensures IsGroup(g) ==> HexValue(ToLower(g)) == HexValue(g)
  {
    if IsGroup(g) {
      HexLower(g);
      forall c | c in ToLower(g) ensures IsHex(c) { var i :| 0 <= i < |g| && ToLower(g)[i] == c; assert g[i] in g; }
    }
    if IsGroup(ToLower(g)) {
      forall c | c in g ensures IsHex(c) {
        var i :| 0 <= i < |g| && g[i] == c;
        assert ToLower(g)[i] in ToLower(g);
      }
    }
  }

  lemma {:induction false} NumberLower(groups: seq<string>)
    ensures AllGroups(LowerAll(groups)) <==> AllGroups(groups)
    ensures AllGroups(groups) ==> GroupsNumber(LowerAll(groups)) == GroupsNumber(groups)
  {
    if groups != [] {
      var n := |groups| - 1;
      NumberLower(groups[..n]);
      GroupLower(groups[n]);
      assert LowerAll(groups)[..n] == LowerAll(groups[..n]);
      assert groups == groups[..n] + [groups[n]] && LowerAll(groups) == LowerAll(groups[..n]) + [ToLower(groups[n])];
    }
  }

  /** Capitals and small letters are the same digits. */
  lemma {:induction false} CaseFree(ip: string)
    ensures Expanded(ToLower(ip)) == Expanded(ip)
  {
    GroupsLower(ip);
    if GroupsOf(ip).Some? { NumberLower(GroupsOf(ip).value); }
  }

  /** Groups that a text form may hold: one to four hexadecimal digits. */
  predicate Solid(groups: seq<string>) { forall g | g in groups :: IsGroup(g) && g != "" }

  lemma {:induction false} GroupFree(groups: seq<string>)
    requires Solid(groups)
    ensures forall g | g in groups :: ':' !in g && '%' !in g
  {
  }

  lemma {:induction false} JoinedFree(groups: seq<string>)
    requires Solid(groups)
    ensures '%' !in Join(groups, ':')
  {
    GroupFree(groups);
    if |groups| > 1 { JoinedFree(groups[1..]); }
  }

  predicate NoGap(s: string) { forall i | 0 <= i < |s| - 1 :: !(s[i] == ':' && s[i + 1] == ':') }

  lemma {:induction false} JoinedNoGap(groups: seq<string>)
    requires Solid(groups) && groups != []
    ensures var s := Join(groups, ':'); NoGap(s) && s != "" && s[0] != ':' && s[|s| - 1] != ':'
  {
    var s, g := Join(groups, ':'), groups[0];
    assert IsGroup(g) && g != "";
    assert g[0] in g && g[|g| - 1] in g;
    if |groups| == 1 {
      forall i | 0 <= i < |s| ensures s[i] != ':' { assert s[i] in g; }
    } else {
      var t := Join(groups[1..], ':');
      JoinedNoGap(groups[1..]);
      forall i | 0 <= i < |s| - 1 ensures !(s[i] == ':' && s[i + 1] == ':') {
        if i < |g| { assert s[i] == g[i] && g[i] in g; }
        else if i == |g| { assert s[i + 1] == t[0]; }
        else { assert s[i] == t[i - |g| - 1] && s[i + 1] == t[i - |g|]; }
      }
    }
  }

  lemma {:induction false} SplitNoGap(s: string)
    requires NoGap(s)
    ensures SplitGap(s) == [s]
  {
    if |s| >= 2 {
      SplitNoGap(s[1..]);
      assert [s[0]] + s[1..] == s;
    }
  }

  lemma {:induction false} SplitAtGap(a: string, b: string)
    requires NoGap(a) && (a != "" ==> a[|a| - 1] != ':') && NoGap(b)
    ensures SplitGap(a + "::" + b) == [a, b]
  {
    var s := a + "::" + b;
    if a == "" {
      assert s[2..] == b;
      SplitNoGap(b);
    } else {
      assert s[1..] == a[1..] + "::" + b;
      assert a[1..] != "" ==> a[1..][|a| - 2] == a[|a| - 1];
      SplitAtGap(a[1..], b);
      assert s[0] == a[0] && (s[1] == ':' && |a| == 1 ==> a[0] != ':');
      assert |a| > 1 ==> s[1] == a[1];
      assert [a[0]] + a[1..] == a;
    }
  }

  lemma {:induction false} TextsOfJoined(groups: seq<string>)
    requires Solid(groups)
    ensures GroupTexts(Join(groups, ':')) == groups && NoGap(Join(groups, ':'))
    ensures var s := Join(groups, ':'); s != "" ==> s[|s| - 1] != ':'
  {
    if groups != [] {
      JoinedNoGap(groups);
      GroupFree(groups);
      SplitJoin(groups, ':');
    }
  }

  /** RFC 4291 section 2.2, form 1: eight groups read as one big-endian number. */
  lemma {:induction false} FullForm(groups: seq<string>)
    requires Solid(groups) && |groups| == 8
    ensures Expanded(Join(groups, ':')) == Some(GroupsNumber(groups))
  {
    var s := Join(groups, ':');
    TextsOfJoined(groups);
    JoinedNoGap(groups);
    JoinedFree(groups);
    SplitFree(s, '%');
    SplitNoGap(s);
    assert groups + [] + [] == groups;
    assert GroupsOf(s) == Some(groups);
  }

  function ZeroGroups(n: nat): (z: seq<string>)
    ensures |z| == n && Solid(z)
  {
    seq(n, _ => "0")
  }

  function WithZeros(head: seq<string>, tail: seq<string>): (groups: seq<string>)
    requires |head| + |tail| <= 8
    ensures |groups| == 8
  {
    head + ZeroGroups(8 - |head| - |tail|) + tail
  }

  lemma {:induction false} GroupsOfHalves(ip: string, a: string, b: string, head: seq<string>, tail: seq<string>)
    requires '%' !in ip && SplitGap(ip) == [a, b] && GroupTexts(a) == head && GroupTexts(b) == tail
    ensures GroupsOf(ip) == if |head| + |tail| > 8 then None else Some(WithZeros(head, tail))
  {
    SplitFree(ip, '%');
    if |head| + |tail| <= 8 {
      assert seq(8 - |head| - |tail|, _ => "0") == ZeroGroups(8 - |head| - |tail|);
    }
  }

  /** RFC 4291 section 2.2, form 2: `::` stands for the zero groups that are missing.  Where none is missing the code
      still accepts it. */
  lemma {:induction false} CompressedForm(head: seq<string>, tail: seq<string>)
    requires Solid(head) && Solid(tail)
    ensures var ip := Join(head, ':') + "::" + Join(tail, ':');
            if |head| + |tail| > 8 then Expanded(ip) == None
            else Solid(WithZeros(head, tail)) && Expanded(ip) == Some(GroupsNumber(WithZeros(head, tail)))
  {
    var a, b := Join(head, ':'), Join(tail, ':');
    TextsOfJoined(head);
    TextsOfJoined(tail);
    JoinedFree(head);
    JoinedFree(tail);
    SplitAtGap(a, b);
    GroupsOfHalves(a + "::" + b, a, b, head, tail);
  }

  // ---------------------------------------------------------------- numbers as text

  predicate IsLowerHex(c: char) { IsHex(c) && ToLowerChar(c) == c }

  function HexChar(d: int): (c: char)
    requires 0 <= d < 16
    ensures IsHex(c) && ToLowerChar(c) == c && HexDigit(c) == d
  {
    if d < 10 then ('0' as int + d) as char else ('a' as int + d - 10) as char
  }

  /** `n.toString(16)` */
  function ToHex(n: nat): (s: string)
    ensures s != ""
  {
    if n < 16 then [HexChar(n)] else ToHex(n / 16) + [HexChar(n % 16)]
  }

  /** `n.toString(10)` of an octet. */
  function ToDecimal(n: nat): (s: string)
    ensures s != ""
  {
    if n < 10 then [('0' as int + n) as char] else ToDecimal(n / 10) + [('0' as int + n % 10) as char]
  }

  lemma {:induction false} ToHexReads(n: nat, w: nat)
    requires n < Pow2(4 * w) && w > 0
    ensures HexValue(ToHex(n)) == n && |ToHex(n)| <= w && forall c | c in ToHex(n) :: IsLowerHex(c)
  {
    if n < 16 {
      assert [HexChar(n)][..0] == "";
      assert HexValue([HexChar(n)]) == HexValue("") * Pow2(4) + HexDigit(HexChar(n));
    } else {
      Quarter(n, w);
      ToHexReads(n / 16, w - 1);
      assert Pow2(4) == 16;
    }
  }

  lemma {:induction false} Quarter(n: nat, w: nat)
    requires n < Pow2(4 * w) && w > 1
    ensures n / 16 < Pow2(4 * (w - 1))
  {
    PowAdd(4, 4 * (w - 1));
    assert Pow2(4) == 16;
  }

  lemma {:induction false} Pow2At16()
    ensures Pow2(16) == 65536
  {
    assert Pow2(8) == 256;
    PowAdd(8, 8);
  }

  lemma {:induction false} ToDecimalReads(n: nat)
    requires n < 256
    ensures CanonicalOctet(ToDecimal(n)) && DecValue(ToDecimal(n)) == n
  {
    var s := ToDecimal(n);
    if n < 10 {
      OctetValue(s);
    } else if n < 100 {
      assert s == ToDecimal(n / 10) + [('0' as int + n % 10) as char];
      OctetValue(s);
    } else {
      assert n / 10 / 10 < 10 && n / 10 >= 10;
      assert ToDecimal(n / 10) == ToDecimal(n / 10 / 10) + [('0' as int + n / 10 % 10) as char];
      assert s == ToDecimal(n / 10) + [('0' as int + n % 10) as char];
      OctetValue(s);
    }
  }

  // ---------------------------------------------------------------- blocks

  /** What `Number` makes of a prefix text: a whole number (the infinities behave as large ones), a number strictly
      between two whole ones, or NaN. */
  datatype JsNumber = Whole(n: int) | Between(floor: int) | NaN

  /** `x << n` on 32-bit words, read unsigned: only the low five bits of the count are used. */
  function Shl32(x: nat, n: nat): nat { x * Pow2(n % 32) % 0x1_0000_0000 }

  /** The shift count that `32 - bits` becomes. */
  function ShiftCount(bits: JsNumber): nat
    requires bits.Whole? ==> bits.n <= 32
    requires bits.Between? ==> bits.floor <= 31
  {
    match bits
    case Whole(n) => 32 - n
    case Between(f) => 31 - f
    case NaN => 0
  }

  /** `bits < lo`, `bits > hi` and `bits === 0`: false for NaN. */
  predicate OutOfRange(bits: JsNumber, hi: nat) {
    match bits
    case Whole(n) => n < 0 || n > hi
    case Between(f) => f < 0 || f >= hi
    case NaN => false
  }

  function Mask(bits: JsNumber): nat
    requires !OutOfRange(bits, 32)
  {
    if bits == Whole(32) then 0xffff_ffff else Shl32(0xffff_ffff, ShiftCount(bits))
  }

  /** The IPv4 comparison, once the range is checked. */
  predicate Masked4(a: nat, b: nat, bits: JsNumber)
    requires !OutOfRange(bits, 32)
  {
    bits == Whole(0) || And(a, Mask(bits)) == And(b, Mask(bits))
  }

  /** The IPv4 half of `ipInCidr`. */
  predicate InCidr4(ip: string, range: string, bits: JsNumber)
    requires IsIpv4(ip) && IsIpv4(range)
  {
    !OutOfRange(bits, 32) && Masked4(Ipv4ToInt(ip), Ipv4ToInt(range), bits)
  }

  /** The IPv6 half, once both addresses are read; `BigInt` of a number that is not whole throws. */
  function Shifted6(a: nat, b: nat, bits: JsNumber): Option<bool>
    requires !OutOfRange(bits, 128)
  {
    match bits
    case Whole(n) => Some(n == 0 || a / Pow2(128 - n) == b / Pow2(128 - n))
    case _ => None
  }

  /** The IPv6 half of `ipInCidr`. */
  function InCidr6(ip: string, range: string, bits: JsNumber): Option<bool> {
    var a, b := Expanded(ip), Expanded(range);
    if OutOfRange(bits, 128) || a.None? || b.None? then Some(false) else Shifted6(a.value, b.value, bits)
  }

  /** `ipInCidr`, over what `Number` is; `None` is a thrown error. */
  function IpInCidr(ip: string, cidr: string, number: string -> JsNumber): Option<bool> {
    var parts := Split(cidr, '/');
    var range := parts[0];
    if range == "" then Some(false)
    else
      var prefix := if |parts| == 1 then None else Some(number(parts[1]));
      if IsIpv4(range) && IsIpv4(ip) then Some(InCidr4(ip, range, prefix.GetOr(Whole(32))))
      else if IsIpv6(range) && IsIpv6(ip) then InCidr6(ip, range, prefix.GetOr(Whole(128)))
      else Some(false)
  }

  /** The whole prefix length that the mask amounts to. */
  function Effective4(bits: JsNumber): (k: nat)
    requires !OutOfRange(bits, 32)
    ensures k <= 32
  {
    match bits
    case Whole(n) => n
    case Between(f) => f + 1
    case NaN => 32
  }

  lemma {:induction false} ShlIs(n: nat, m: nat, p: nat)
    requires n < 32 && p == Pow2(n) && m == 0x1_0000_0000 && (m - 1) * p % m == m - p
    ensures Shl32(0xffff_ffff, n) == m - p
  {
  }

  lemma {:induction false} MaskIs(bits: JsNumber, w: nat)
    requires w == 32 && Pow2(w) == 0x1_0000_0000 && !OutOfRange(bits, w) && bits != Whole(0)
    ensures Pow2(w - Effective4(bits)) <= Pow2(w)
    ensures Mask(bits) == Pow2(w) - Pow2(w - Effective4(bits))
  {
    var k := w - Effective4(bits);
    ShiftedOnes(k, w);
    if bits != Whole(w) { ShlIs(k, Pow2(w), Pow2(k)); }
  }

  /** The masked comparison is equality after integer division.  A prefix between two whole numbers counts as the upper
      one, and one that is no number as 32. */
  lemma {:induction false} Cidr4Meaning(ip: string, range: string, bits: JsNumber)
    requires IsIpv4(ip) && IsIpv4(range)
    ensures var a, b := Ipv4ToInt(ip), Ipv4ToInt(range);
            InCidr4(ip, range, bits) <==>
            match bits
            case Whole(n) => 0 <= n <= 32 && SamePrefix(a, b, 32, n)
            case Between(f) => 0 <= f < 32 && SamePrefix(a, b, 32, f + 1)
            case NaN => a == b
  {
    if !OutOfRange(bits, 32) {
      Ipv4Exact(ip);
      Ipv4Exact(range);
      Pow2At32();
      Masked4Meaning(Ipv4ToInt(ip), Ipv4ToInt(range), bits, 32);
    }
  }

  lemma {:induction false} EqualUnder(a: nat, b: nat, mask: nat, w: nat, prefix: nat)
    requires a < Pow2(w) && b < Pow2(w) && prefix <= w && mask == Pow2(w) - Pow2(w - prefix)
    ensures And(a, mask) == And(b, mask) <==> SamePrefix(a, b, w, prefix)
  {
    MaskedEqual(a, b, w, w - prefix);
  }

  lemma {:induction false} Masked4Meaning(a: nat, b: nat, bits: JsNumber, w: nat)
    requires w == 32 && Pow2(w) == 0x1_0000_0000 && !OutOfRange(bits, w) && a < Pow2(w) && b < Pow2(w)
    ensures Masked4(a, b, bits) == SamePrefix(a, b, w, Effective4(bits))
  {
    if bits == Whole(0) {
      NoPrefix(a, b, w);
    } else {
      MaskIs(bits, w);
      EqualUnder(a, b, Mask(bits), w, Effective4(bits));
    }
  }

  /** An address as a number of its family. */
  datatype Address = V4(n: nat) | V6(n: nat)

  function AddressOf(text: string): Option<Address> {
    if IsIpv4(text) then Some(V4(Ipv4ToInt(text)))
    else if IsIpv6(text) && Expanded(text).Some? then Some(V6(Expanded(text).value))
    else None
  }

  function Width(a: Address): nat { if a.V4? then 32 else 128 }

  /** Membership in a block: same family, and equal after integer division by `2^(width - prefix)`. */
  predicate InBlock(a: Address, base: Address, prefix: nat) {
    a.V4? == base.V4? && prefix <= Width(a) && SamePrefix(a.n, base.n, Width(a), prefix)
  }

  lemma {:induction false} NotBoth(text: string)
    requires IsIpv4(text)
    ensures !IsIpv6(text)
  {
    if forall c | c in text :: IsHex(c) || c == ':' {
      SplitFree(text, '.');
    }
  }

  lemma {:induction false} GroupsBound(groups: seq<string>)
    requires AllGroups(groups)
    ensures GroupsNumber(groups) < Pow2(16 * |groups|)
  {
    if groups != [] {
      var init, g := groups[..|groups| - 1], groups[|groups| - 1];
      GroupsBound(init);
      assert IsGroup(g);
      HexBound(g);
      PowMonotone(4 * |g|, 16);
      DigitBound(GroupsNumber(init), 16 * |init|, HexValue(g), 16);
    }
  }

  lemma {:induction false} ExpandedBound(ip: string, w: nat)
    requires w == 128
    ensures Expanded(ip).Some? ==> Expanded(ip).value < Pow2(w)
  {
    if Expanded(ip).Some? { GroupsBound(GroupsOf(ip).value); }
  }

  lemma {:induction false} Shifted6Meaning(a: nat, b: nat, prefix: nat, w: nat)
    requires w == 128 && a < Pow2(w) && b < Pow2(w) && prefix <= w
    ensures Shifted6(a, b, Whole(prefix)) == Some(SamePrefix(a, b, w, prefix))
  {
    if prefix == 0 { NoPrefix(a, b, w); }
  }

  lemma {:induction false} Cidr6Meaning(ip: string, range: string, prefix: int, w: nat, a: Option<nat>, b: Option<nat>)
    requires w == 128 && a == Expanded(ip) && b == Expanded(range)
    requires a.Some? ==> a.value < Pow2(w)
    requires b.Some? ==> b.value < Pow2(w)
    ensures InCidr6(ip, range, Whole(prefix)) ==
            Some(a.Some? && b.Some? && 0 <= prefix <= w && SamePrefix(a.value, b.value, w, prefix))
  {
    if a.Some? && b.Some? && 0 <= prefix <= w {
      Shifted6Meaning(a.value, b.value, prefix, w);
    }
  }

  /** For whole prefixes `ipInCidr` never throws, and is membership in the block. */
  lemma {:induction false} CidrMeaning(ip: string, cidr: string, number: string -> JsNumber, range: string, prefix: int)
    requires var parts := Split(cidr, '/');
             && range == parts[0]
             && (|parts| > 1 ==> number(parts[1]) == Whole(prefix))
             && (|parts| == 1 ==> AddressOf(range).Some? && prefix == Width(AddressOf(range).value))
    ensures IpInCidr(ip, cidr, number) ==
            Some(AddressOf(ip).Some? && AddressOf(range).Some? && prefix >= 0
                && InBlock(AddressOf(ip).value, AddressOf(range).value, prefix))
  {
    if IsIpv4(range) { NotBoth(range); }
    if IsIpv4(ip) { NotBoth(ip); }
    if IsIpv4(range) && IsIpv4(ip) {
      Cidr4Meaning(ip, range, Whole(prefix));
    } else if IsIpv6(range) && IsIpv6(ip) {
      ExpandedBound(ip, 128);
      ExpandedBound(range, 128);
      Cidr6Meaning(ip, range, prefix, 128, Expanded(ip), Expanded(range));
    }
  }

  /** Exactly when `ipInCidr` throws. */
  lemma {:induction false} CidrThrows(ip: string, cidr: string, number: string -> JsNumber)
    ensures var parts := Split(cidr, '/');
            IpInCidr(ip, cidr, number).None? <==>
            && |parts| > 1 && IsIpv6(parts[0]) && Expanded(parts[0]).Some? && IsIpv6(ip) && Expanded(ip).Some?
            && match number(parts[1])
               case Whole(_) => false
               case Between(f) => 0 <= f < 128
               case NaN => true
  {
    var range := Split(cidr, '/')[0];
    if IsIpv4(range) { NotBoth(range); }
  }

  /** Blocks of one family are nested or disjoint: with one address in common, the longer prefix is inside. */
  lemma {:induction false} NestedOrDisjoint(x: Address, y: Address, base1: Address, p1: nat, base2: Address, p2: nat)
    requires p1 <= p2 && InBlock(x, base1, p1) && InBlock(x, base2, p2) && InBlock(y, base2, p2)
    ensures InBlock(y, base1, p1)
  {
    var w := Width(x);
    Coarser(x.n, base2.n, w - p2, w - p1);
    Coarser(y.n, base2.n, w - p2, w - p1);
  }
}

/** The texts of addresses in RFC 4291 section 2.2, what `expandIpv6` reads beyond them, and how a number is written. */
module Rfc4291 {
  import opened Text
  import opened Arith
  import opened Ip

  // ---------------------------------------------------------------- hexadecimal texts

  /** Form 1: eight groups. */
  predicate FullText(groups: seq<string>, text: string) {
    Solid(groups) && |groups| == 8 && text == Join(groups, ':')
  }

  /** Form 2: `::` for one group of zeros or more. */
  predicate GapText(head: seq<string>, tail: seq<string>, text: string) {
    Solid(head) && Solid(tail) && |head| + |tail| <= 7 && text == Join(head, ':') + "::" + Join(tail, ':')
  }

  ghost predicate IsHexText(text: string) {
    (exists groups :: FullText(groups, text)) || (exists head, tail :: GapText(head, tail, text))
  }

  /** The groups around the gaps of a text. */
  function GroupsAround(text: string): (seq<string>, seq<string>) {
    var halves := SplitGap(text);
    (GroupTexts(halves[0]), if |halves| > 1 then GroupTexts(halves[1]) else [])
  }

  /** The same as `IsHexText`, by cutting the text up. */
  predicate ReadsStrictly(text: string) {
    var halves := SplitGap(text);
    var (head, tail) := GroupsAround(text);
    |halves| <= 2 && Solid(head) && Solid(tail) && if |halves| == 1 then |head| == 8 else |head| + |tail| <= 7
  }

  lemma {:induction false} GapCons(c: char, a: string, b: string)
    ensures [c] + (a + "::" + b) == [c] + a + "::" + b
  {
  }

  lemma {:induction false} GapParts(s: string)
    ensures |SplitGap(s)| == 1 ==> SplitGap(s)[0] == s
    ensures |SplitGap(s)| == 2 ==> s == SplitGap(s)[0] + "::" + SplitGap(s)[1]
  {
    if |s| >= 2 && s[0] == ':' && s[1] == ':' {
      GapParts(s[2..]);
      assert s == "" + "::" + s[2..];
    } else if |s| >= 2 {
      var rest := SplitGap(s[1..]);
      GapParts(s[1..]);
      assert s == [s[0]] + s[1..];
      if |rest| == 2 { GapCons(s[0], rest[0], rest[1]); }
    }
  }

  lemma {:induction false} JoinedTexts(half: string)
    ensures Join(GroupTexts(half), ':') == half
  {
    if half != "" { JoinSplit(half, ':'); }
  }

  lemma {:induction false} FullReads(groups: seq<string>, text: string)
    requires FullText(groups, text)
    ensures SplitGap(text) == [text] && GroupTexts(text) == groups && ReadsStrictly(text)
  {
    TextsOfJoined(groups);
    SplitNoGap(text);
  }

  lemma {:induction false} GapReads(head: seq<string>, tail: seq<string>, text: string)
    requires GapText(head, tail, text)
    ensures SplitGap(text) == [Join(head, ':'), Join(tail, ':')] && GroupsAround(text) == (head, tail)
    ensures ReadsStrictly(text)
  {
    TextsOfJoined(head);
    TextsOfJoined(tail);
    SplitAtGap(Join(head, ':'), Join(tail, ':'));
  }

  /** A text that reads strictly is of one of the two forms. */
  lemma {:induction false} StrictForm(text: string)
    requires ReadsStrictly(text)
    ensures var (head, tail) := GroupsAround(text);
            if |SplitGap(text)| == 1 then FullText(head, text) else GapText(head, tail, text)
  {
    GapParts(text);
    JoinedTexts(SplitGap(text)[0]);
    if |SplitGap(text)| == 2 { JoinedTexts(SplitGap(text)[1]); }
  }

  lemma {:induction false} ReadsStrictlyIff(text: string)
    ensures ReadsStrictly(text) <==> IsHexText(text)
  {
    if ReadsStrictly(text) { StrictForm(text); }
    if groups :| FullText(groups, text) { FullReads(groups, text); }
    if head, tail :| GapText(head, tail, text) { GapReads(head, tail, text); }
  }

  lemma {:induction false} JoinedHex(groups: seq<string>)
    requires Solid(groups)
    ensures forall c | c in Join(groups, ':') :: IsHex(c) || c == ':'
    ensures |groups| > 1 ==> ':' in Join(groups, ':')
  {
    if groups != [] {
      assert IsGroup(groups[0]);
      if |groups| > 1 { JoinedHex(groups[1..]); }
    }
  }

  /** The panel reads all of them. */
  lemma {:induction false} StrictExpands(text: string)
    requires ReadsStrictly(text)
    ensures IsIpv6(text) && Expanded(text).Some?
  {
    var (head, tail) := GroupsAround(text);
    StrictForm(text);
    JoinedHex(head);
    JoinedHex(tail);
    if |SplitGap(text)| == 1 {
      FullForm(head);
    } else {
      CompressedForm(head, tail);
      assert text[|Join(head, ':')|] == ':';
    }
  }

  /** What it reads besides: an empty group that is no part of `::`, or a `::` next to eight groups. */
  predicate Lenient(text: string) {
    var halves := SplitGap(text);
    var groups := GroupsAround(text).0 + GroupsAround(text).1;
    && |halves| <= 2 && AllGroups(groups) && |groups| <= 8 && (|halves| == 1 ==> |groups| == 8)
    && ("" in groups || (|halves| == 2 && |groups| == 8))
  }

  /** Exactly which texts of hexadecimal digits and colons `expandIpv6` reads although the RFC has no such form. */
  lemma {:induction false} ReadBeyond(text: string)
    requires IsIpv6(text)
    ensures Expanded(text).Some? && !IsHexText(text) <==> Lenient(text)
  {
    var (head, tail) := GroupsAround(text);
    var groups := head + tail;
    ReadsStrictlyIff(text);
    SplitFree(text, '%');
    if |SplitGap(text)| <= 2 {
      assert AllGroups(groups) <==> AllGroups(head) && AllGroups(tail);
      assert Solid(head) && Solid(tail) <==> AllGroups(groups) && "" !in groups;
      GapsFilled(head, tail, 8 - |groups|);
    }
  }

  lemma {:induction false} GapsFilled(head: seq<string>, tail: seq<string>, missing: int)
    ensures missing >= 0 ==> (AllGroups(head + seq(missing, _ => "0") + tail) <==> AllGroups(head) && AllGroups(tail))
    ensures AllGroups(head + [] + tail) <==> AllGroups(head) && AllGroups(tail)
  {
    if missing >= 0 {
      var all := head + seq(missing, _ => "0") + tail;
      forall g | g in head || g in tail ensures g in all {}
    }
    assert head + [] + tail == head + tail;
  }

  // ---------------------------------------------------------------- texts that end in dotted decimals

  /** A text with two groups of zeros for what stands behind its last colon. */
  function ZerosAtEnd(text: string): string {
    var parts := Split(text, ':');
    Join(parts[..|parts| - 1] + ["0", "0"], ':')
  }

  function LastPart(text: string): string { var parts := Split(text, ':'); parts[|parts| - 1] }

  /** Form 3: the last two groups as an IPv4 address. */
  predicate IsMixed(text: string) {
    |Split(text, ':')| > 1 && CanonicalIpv4(LastPart(text)) && ReadsStrictly(ZerosAtEnd(text))
  }

  function MixedNumber(text: string): nat
    requires IsMixed(text)
  {
    StrictExpands(ZerosAtEnd(text));
    Expanded(ZerosAtEnd(text)).value + Ipv4ToInt(LastPart(text))
  }

  /** The address that a text stands for. */
  function StrictAddress(text: string): Option<Address> {
    if IsIpv4(text) then (if CanonicalIpv4(text) then Some(V4(Ipv4ToInt(text))) else None)
    else if ReadsStrictly(text) then
      StrictExpands(text);
      Some(V6(Expanded(text).value))
    else if IsMixed(text) then Some(V6(MixedNumber(text)))
    else None
  }

  lemma {:induction false} Ipv4Chars(ip: string)
    requires IsIpv4(ip)
    ensures Trimmed(ip) && '/' !in ip && ':' !in ip && ip != ""
    ensures forall c | c in ip :: ToLowerChar(c) == c
  {
    forall c | c in ip ensures c == '.' || IsDigit(c) {
      if c != '.' { var part := SplitCovers(ip, '.', c); assert IsOctet(part); }
    }
    if ip != "" { assert ip[0] in ip && ip[|ip| - 1] in ip; }
  }

  lemma {:induction false} MixedLast(text: string)
    requires IsMixed(text)
    ensures '.' in text && !IsIpv6(text) && !IsIpv4(text)
  {
    var last := LastPart(text);
    assert last in Split(text, ':');
    SplitPartsFree(text, ':');
    SplitCuts(last, '.');
    assert '.' in last;
    if IsIpv4(text) {
      Ipv4Chars(text);
      SplitCuts(text, ':');
    }
  }

  /** Where the panel and the RFC differ about a text: zeros in front of an octet, lenient IPv6 texts, and form 3,
      which the panel does not know. */
  lemma {:induction false} StrictDiffers(text: string)
    ensures StrictAddress(text) != AddressOf(text) <==>
            (IsIpv4(text) && !CanonicalIpv4(text)) || (IsIpv6(text) && Lenient(text)) || IsMixed(text)
  {
    ReadsStrictlyIff(text);
    if IsIpv4(text) { NotBoth(text); }
    if ReadsStrictly(text) { StrictExpands(text); }
    if IsIpv6(text) { ReadBeyond(text); }
    if IsMixed(text) { MixedLast(text); }
  }

  // ---------------------------------------------------------------- bounds

  lemma {:induction false} SplitAroundGap(a: string, b: string)
    ensures Split(a + "::" + b, ':') == Split(a, ':') + [""] + Split(b, ':')
  {
    SplitConcat(a, ':', ":" + b);
    assert a + [':'] + (":" + b) == a + "::" + b;
    assert (":" + b)[1..] == b;
  }

  lemma {:induction false} FullGroups(text: string)
    requires '%' !in text && |SplitGap(text)| == 1 && |GroupTexts(text)| == 8
    ensures GroupsOf(text) == Some(GroupTexts(text))
  {
    GapParts(text);
    SplitFree(text, '%');
    assert GroupTexts(text) + [] + [] == GroupTexts(text);
  }

  predicate EndsInZeros(groups: seq<string>) {
    |groups| >= 2 && groups[|groups| - 2] == "0" && groups[|groups| - 1] == "0"
  }

  lemma {:induction false} GapZeros(text: string, head: seq<string>, tail: seq<string>)
    requires '%' !in text && |SplitGap(text)| == 2 && GroupsAround(text) == (head, tail) && |head| + |tail| <= 7
    requires EndsInZeros(tail)
    ensures GroupsOf(text).Some? && EndsInZeros(GroupsOf(text).value)
  {
    GroupsOfHalves(text, SplitGap(text)[0], SplitGap(text)[1], head, tail);
  }

  /** A strict text whose last two parts are zeros ends in two groups of zeros. */
  lemma {:induction false} ZerosLast(text: string)
    requires ReadsStrictly(text) && EndsInZeros(Split(text, ':'))
    ensures GroupsOf(text).Some? && EndsInZeros(GroupsOf(text).value)
  {
    StrictExpands(text);
    if |SplitGap(text)| == 1 {
      GapParts(text);
      FullGroups(text);
    } else {
      var a, b := SplitGap(text)[0], SplitGap(text)[1];
      GapParts(text);
      SplitAroundGap(a, b);
      TailHasTwo(Split(a, ':'), Split(b, ':'));
      GapZeros(text, GroupsAround(text).0, GroupsAround(text).1);
    }
  }

  lemma {:induction false} EndsOf(a: seq<string>, b: seq<string>)
    requires b != []
    ensures var all := a + [""] + b;
            |all| >= 2 && all[|all| - 1] == b[|b| - 1] && all[|all| - 2] == if |b| == 1 then "" else b[|b| - 2]
  {
  }

  lemma {:induction false} TailHasTwo(a: seq<string>, b: seq<string>)
    requires b != [] && EndsInZeros(a + [""] + b)
    ensures EndsInZeros(b)
  {
    EndsOf(a, b);
  }

  lemma {:induction false} LowBitsFree(groups: seq<string>, d: nat, w: nat)
    requires w == 128 && |groups| == 8 && AllGroups(groups) && groups[6] == "0" && groups[7] == "0" && d < Pow2(w - 96)
    ensures GroupsNumber(groups) + d < Pow2(w)
  {
    var six, x := groups[..6], GroupsNumber(groups[..6]);
    GroupsBound(six);
    assert groups[..7][..6] == six && groups[..8] == groups && groups[..8][..7] == groups[..7];
    assert HexValue("0") == 0 by { assert "0"[..0] == ""; }
    assert GroupsNumber(groups[..7]) == x * Pow2(16);
    PowAdd(16, 16);
    Regrouped(x, Pow2(16), Pow2(w - 96));
    DigitBound(x, 96, d, w - 96);
  }

  lemma {:induction false} Regrouped(x: nat, p: nat, q: nat)
    requires p * p == q
    ensures x * p * p == x * q
  {
  }

  lemma {:induction false} MixedBound(text: string, w: nat)
    requires IsMixed(text) && w == 128
    ensures MixedNumber(text) < Pow2(w)
  {
    var zeros := ZerosAtEnd(text);
    var parts := Split(text, ':');
    var front := parts[..|parts| - 1];
    SplitPartsFree(text, ':');
    SplitJoin(front + ["0", "0"], ':');
    StrictExpands(zeros);
    ZerosLast(zeros);
    Ipv4Exact(LastPart(text));
    Pow2At32();
    LowBitsFree(GroupsOf(zeros).value, Ipv4ToInt(LastPart(text)), w);
  }

  lemma {:induction false} Ipv4Bound(text: string, w: nat)
    requires IsIpv4(text) && w == 32
    ensures Ipv4ToInt(text) < Pow2(w)
  {
    Ipv4Exact(text);
    Pow2At32();
  }

  lemma {:induction false} StrictBound(text: string, w: nat)
    requires StrictAddress(text).Some? && w == Width(StrictAddress(text).value)
    ensures StrictAddress(text).value.n < Pow2(w)
  {
    if IsIpv4(text) { Ipv4Bound(text, w); }
    else if ReadsStrictly(text) { StrictExpands(text); ExpandedBound(text, w); }
    else { MixedBound(text, w); }
  }

  lemma {:induction false} PanelBound(text: string, w: nat)
    requires AddressOf(text).Some? && w == Width(AddressOf(text).value)
    ensures AddressOf(text).value.n < Pow2(w)
  {
    if IsIpv4(text) { Ipv4Bound(text, w); } else { ExpandedBound(text, w); }
  }

  // ---------------------------------------------------------------- writing a number

  function OctetsFor(n: nat, k: nat): (octets: seq<string>)
    ensures |octets| == k
  {
    if k == 0 then [] else OctetsFor(n / 256, k - 1) + [ToDecimal(n % 256)]
  }

  function GroupsFor(n: nat, k: nat): (groups: seq<string>)
    ensures |groups| == k
  {
    if k == 0 then [] else GroupsFor(n / 65536, k - 1) + [ToHex(n % 65536)]
  }

  /** An address in dotted decimals, or in eight groups without zeros in front. */
  function AddressText(a: Address): string {
    match a
    case V4(n) => Join(OctetsFor(n, 4), '.')
    case V6(n) => Join(GroupsFor(n, 8), ':')
  }

  lemma {:induction false} Shorter(n: nat, p: nat, w: nat, k: nat)
    requires p == Pow2(w) && n < Pow2(k + w)
    ensures n / p < Pow2(k)
  {
    PowAdd(k, w);
    if n / p >= Pow2(k) { MulGe(n / p, Pow2(k), p); }
  }

  lemma {:induction false} OctetLess(n: nat, k: nat)
    requires k > 0 && n < Pow2(8 * k)
    ensures n / 256 < Pow2(8 * (k - 1)) && Pow2(8) == 256
  {
    assert Pow2(8) == 256;
    Shorter(n, 256, 8, 8 * (k - 1));
  }

  lemma {:induction false} OctetsRead(n: nat, k: nat)
    requires n < Pow2(8 * k)
    ensures OctetsNumber(OctetsFor(n, k)) == n && forall p | p in OctetsFor(n, k) :: CanonicalOctet(p)
  {
    if k > 0 {
      OctetLess(n, k);
      OctetsRead(n / 256, k - 1);
      ToDecimalReads(n % 256);
    }
  }

  /** A group as `toString(16)` prints it: in lower case, without zeros in front. */
  predicate IsSpelled(g: string) { 0 < |g| <= 4 && forall c | c in g :: IsLowerHex(c) }

  predicate Spelled(groups: seq<string>) { forall g | g in groups :: IsSpelled(g) }

  lemma {:induction false} HexFour(g: string)
    requires |g| == 4
    ensures HexValue(g) == ((HexDigit(g[0]) * 16 + HexDigit(g[1])) * 16 + HexDigit(g[2])) * 16 + HexDigit(g[3])
  {
    var a, b, c := g[..1], g[..2], g[..3];
    assert Pow2(4) == 16;
    assert a[..0] == "" && HexValue(a) == HexDigit(g[0]);
    assert b[..1] == a && HexValue(b) == HexValue(a) * 16 + HexDigit(g[1]);
    assert c[..2] == b && HexValue(c) == HexValue(b) * 16 + HexDigit(g[2]);
  }

  lemma {:induction false} Pow2At12()
    ensures Pow2(12) == 4096
  {
    assert Pow2(4) == 16;
    PowAdd(4, 4);
    PowAdd(8, 4);
  }

  /** So printed, small numbers are short. */
  predicate Printed(groups: seq<string>) {
    forall g | g in groups :: IsSpelled(g) && (HexValue(g) < 4096 ==> |g| < 4)
  }

  lemma {:induction false} GroupRead(d: nat)
    requires d < 65536
    ensures HexValue(ToHex(d)) == d && IsSpelled(ToHex(d)) && (d < 4096 ==> |ToHex(d)| < 4)
  {
    Pow2At16();
    ToHexReads(d, 4);
    Pow2At12();
    if d < 4096 { ToHexReads(d, 3); }
  }

  lemma {:induction false} GroupsAppend(init: seq<string>, d: nat)
    requires Printed(init) && d < 65536
    ensures var all := init + [ToHex(d)]; Printed(all) && GroupsNumber(all) == GroupsNumber(init) * 65536 + d
  {
    var all := init + [ToHex(d)];
    Pow2At16();
    GroupRead(d);
    assert all[..|init|] == init;
  }

  lemma {:induction false} GroupLess(n: nat, k: nat)
    requires k > 0 && n < Pow2(16 * k)
    ensures n / 65536 < Pow2(16 * (k - 1))
  {
    Pow2At16();
    Shorter(n, 65536, 16, 16 * (k - 1));
  }

  lemma {:induction false} GroupsRead(n: nat, k: nat)
    requires n < Pow2(16 * k)
    ensures GroupsNumber(GroupsFor(n, k)) == n && Printed(GroupsFor(n, k))
  {
    if k > 0 {
      GroupLess(n, k);
      GroupsRead(n / 65536, k - 1);
      GroupsAppend(GroupsFor(n / 65536, k - 1), n % 65536);
    }
  }

  lemma {:induction false} SpelledSolid(groups: seq<string>)
    requires Spelled(groups)
    ensures Solid(groups)
  {
    forall g | g in groups ensures IsGroup(g) && g != "" { assert IsSpelled(g); }
  }

  /** Eight groups read as their number. */
  lemma {:induction false} SpelledReads(groups: seq<string>, text: string)
    requires Spelled(groups) && |groups| == 8 && text == Join(groups, ':')
    ensures ReadsStrictly(text) && IsIpv6(text) && !IsIpv4(text)
    ensures StrictAddress(text) == AddressOf(text) == Some(V6(GroupsNumber(groups)))
  {
    SpelledSolid(groups);
    FullReads(groups, text);
    StrictExpands(text);
    FullForm(groups);
    if IsIpv4(text) { NotBoth(text); }
  }

  lemma {:induction false} OctetsTextReads(octets: seq<string>, text: string)
    requires |octets| == 4 && (forall p | p in octets :: CanonicalOctet(p)) && text == Join(octets, '.')
    requires OctetsNumber(octets) < Pow2(32)
    ensures CanonicalIpv4(text) && Ipv4ToInt(text) == OctetsNumber(octets)
  {
    SplitJoin(octets, '.');
    Pow2At32();
  }

  /** Every number of its width can be written. */
  lemma {:induction false} AddressTextReads(a: Address)
    requires a.n < Pow2(Width(a))
    ensures StrictAddress(AddressText(a)) == AddressOf(AddressText(a)) == Some(a)
    ensures a.V4? ==> CanonicalIpv4(AddressText(a))
    ensures a.V6? ==> Spelled(GroupsFor(a.n, 8)) && ReadsStrictly(AddressText(a)) && IsIpv6(AddressText(a))
  {
    match a
    case V4(n) =>
      OctetsRead(n, 4);
      OctetsTextReads(OctetsFor(n, 4), AddressText(a));
    case V6(n) =>
      GroupsRead(n, 8);
      SpelledReads(GroupsFor(n, 8), AddressText(a));
  }

  // ---------------------------------------------------------------- addresses with one spelling

  /** Eight groups of four digits each, none with a zero in front: nothing can be left out, and nothing put in front. */
  predicate OneSpelling(text: string) {
    var groups := Split(text, ':');
    |groups| == 8 && Spelled(groups) && forall g | g in groups :: |g| == 4 && g[0] != '0'
  }

  /** Such groups are those from 0x1000 on. */
  lemma {:induction false} LongGroup(g: string)
    requires IsSpelled(g)
    ensures |g| == 4 && g[0] != '0' <==> HexValue(g) >= 4096
  {
    Pow2At12();
    if |g| < 4 {
      HexBound(g);
      PowMonotone(4 * |g|, 12);
    } else {
      HexFour(g);
      assert g[0] in g;
    }
  }

  lemma {:induction false} OneSpellingReads(text: string)
    requires OneSpelling(text)
    ensures FullText(Split(text, ':'), text) && ReadsStrictly(text)
    ensures Expanded(text) == Some(GroupsNumber(Split(text, ':')))
  {
    JoinSplit(text, ':');
    SpelledSolid(Split(text, ':'));
    FullReads(Split(text, ':'), text);
    FullForm(Split(text, ':'));
  }

  lemma {:induction false} SameGroups(a: seq<string>, b: seq<string>)
    requires |a| == |b| && AllGroups(a) && AllGroups(b) && GroupsNumber(a) == GroupsNumber(b)
    ensures forall i | 0 <= i < |a| :: HexValue(a[i]) == HexValue(b[i])
  {
    if a != [] {
      var n := |a| - 1;
      assert IsGroup(a[n]) && IsGroup(b[n]);
      HexBound(a[n]);
      HexBound(b[n]);
      PowMonotone(4 * |a[n]|, 16);
      PowMonotone(4 * |b[n]|, 16);
      QuotientUnique(Pow2(16), GroupsNumber(a[..n]), HexValue(a[n]), GroupsNumber(b[..n]), HexValue(b[n]));
      SameGroups(a[..n], b[..n]);
      forall i | 0 <= i < |a| ensures HexValue(a[i]) == HexValue(b[i]) {
        if i < n { assert a[..n][i] == a[i] && b[..n][i] == b[i]; }
      }
    }
  }

  lemma {:induction false} SameNumber(a: seq<string>, b: seq<string>)
    requires |a| == |b| && forall i | 0 <= i < |a| :: HexValue(a[i]) == HexValue(b[i])
    ensures GroupsNumber(a) == GroupsNumber(b)
  {
    if a != [] { SameNumber(a[..|a| - 1], b[..|b| - 1]); }
  }

  lemma {:induction false} HexLast(s: string, n: nat)
    requires |s| == n + 1 && forall c | c in s :: IsLowerHex(c)
    ensures HexValue(s) == HexValue(s[..n]) * 16 + HexDigit(s[n]) && s == s[..n] + [s[n]] && IsLowerHex(s[n])
  {
    assert Pow2(4) == 16;
    assert s[n] in s;
  }

  lemma {:induction false} SameDigit(c: char, d: char)
    requires IsLowerHex(c) && IsLowerHex(d) && HexDigit(c) == HexDigit(d)
    ensures c == d
  {
  }

  lemma {:induction false} HexSame(a: string, b: string)
    requires |a| == |b| && HexValue(a) == HexValue(b)
    requires (forall c | c in a :: IsLowerHex(c)) && (forall c | c in b :: IsLowerHex(c))
    ensures a == b
  {
    if a != "" {
      var n := |a| - 1;
      HexLast(a, n);
      HexLast(b, n);
      QuotientUnique(16, HexValue(a[..n]), HexDigit(a[n]), HexValue(b[..n]), HexDigit(b[n]));
      SameDigit(a[n], b[n]);
      HexSame(a[..n], b[..n]);
    }
  }

  predicate InLower(text: string) { forall c | c in text :: ToLowerChar(c) == c }

  /** The characters of a group are in the text. */
  lemma {:induction false} GroupInText(groups: seq<string>, text: string, g: string)
    requires Solid(groups) && groups != [] && text == Join(groups, ':') && g in groups && InLower(text)
    ensures forall c | c in g :: IsLowerHex(c)
  {
    assert IsGroup(g);
    GroupFree(groups);
    SplitJoin(groups, ':');
    SplitPartsFree(text, ':');
  }

  lemma {:induction false} FilledIn(head: seq<string>, tail: seq<string>)
    requires |head| + |tail| <= 7
    ensures "0" in WithZeros(head, tail) && HexValue("0") == 0
  {
    assert WithZeros(head, tail)[|head|] == "0";
    assert "0"[..0] == "";
  }

  /** A text either spells its groups out or has a group of zeros. */
  lemma {:induction false} GapOrFull(text: string, groups: seq<string>)
    requires ReadsStrictly(text) && GroupsOf(text) == Some(groups)
    ensures FullText(groups, text) || exists g :: g in groups && HexValue(g) == 0
  {
    var (head, tail) := GroupsAround(text);
    StrictExpands(text);
    StrictForm(text);
    GapParts(text);
    if |SplitGap(text)| == 1 {
      FullGroups(text);
    } else {
      GroupsOfHalves(text, SplitGap(text)[0], SplitGap(text)[1], head, tail);
      FilledIn(head, tail);
    }
  }

  predicate Long(groups: seq<string>) { forall g | g in groups :: HexValue(g) >= 4096 }

  lemma {:induction false} LongGroups(groups: seq<string>, like: seq<string>)
    requires |groups| == |like| && Long(like) && forall i | 0 <= i < |groups| ::
             HexValue(like[i]) == HexValue(groups[i])
    ensures Long(groups)
  {
    forall g | g in groups ensures HexValue(g) >= 4096 {
      var i :| 0 <= i < |groups| && groups[i] == g;
      assert like[i] in like;
    }
  }

  lemma {:induction false} OneSpellingLong(groups: seq<string>)
    requires Spelled(groups) && forall g | g in groups :: |g| == 4 && g[0] != '0'
    ensures Long(groups)
  {
    forall g | g in groups ensures HexValue(g) >= 4096 { LongGroup(g); }
  }

  lemma {:induction false} SameText(a: seq<string>, b: seq<string>, text: string)
    requires |a| == |b| == 8 && Spelled(a) && Long(a) && Long(b) && FullText(b, text) && InLower(text)
    requires forall i | 0 <= i < |a| :: HexValue(a[i]) == HexValue(b[i])
    ensures a == b
  {
    forall i | 0 <= i < |a| ensures a[i] == b[i] {
      assert a[i] in a && b[i] in b && IsSpelled(a[i]) && IsGroup(b[i]);
      GroupInText(b, text, b[i]);
      LongGroup(a[i]);
      LongGroup(b[i]);
      HexSame(a[i], b[i]);
    }
  }

  /** No other text in lower case stands for the same address. */
  lemma {:induction false} OneSpellingOnly(text: string, other: string)
    requires OneSpelling(text) && ReadsStrictly(other) && InLower(other) && Expanded(other) == Expanded(text)
    ensures other == text
  {
    var g := Split(text, ':');
    OneSpellingReads(text);
    StrictExpands(other);
    var h := GroupsOf(other).value;
    SpelledSolid(g);
    SameGroups(g, h);
    OneSpellingLong(g);
    LongGroups(h, g);
    GapOrFull(other, h);
    SameText(g, h, other);
  }

  lemma {:induction false} ZeroBefore(g: string)
    ensures HexValue("0" + g) == HexValue(g)
  {
    if g == "" {
      assert "0" + g == "0" && "0"[..0] == "";
    } else {
      var i := |g| - 1;
      ZeroBefore(g[..i]);
      assert ("0" + g)[..i + 1] == "0" + g[..i];
    }
  }

  lemma {:induction false} SpelledLower(groups: seq<string>)
    requires Spelled(groups)
    ensures InLower(Join(groups, ':')) && forall c | c in Join(groups, ':') :: IsHex(c) || c == ':'
  {
    if groups != [] {
      assert IsSpelled(groups[0]);
      if |groups| > 1 { SpelledLower(groups[1..]); }
    }
  }

  lemma {:induction false} Padded(groups: seq<string>, i: nat) returns (more: seq<string>)
    requires Spelled(groups) && i < |groups| && |groups[i]| < 4
    ensures |more| == |groups| && Spelled(more) && GroupsNumber(more) == GroupsNumber(groups) && more != groups
  {
    var g := "0" + groups[i];
    more := groups[i := g];
    assert groups[i] in groups && IsSpelled(groups[i]);
    ZeroBefore(groups[i]);
    SameNumber(more, groups);
    assert |more[i]| == |groups[i]| + 1;
  }

  lemma {:induction false} ShortGroup(groups: seq<string>, text: string) returns (i: nat)
    requires Printed(groups) && |groups| == 8 && text == Join(groups, ':') && !OneSpelling(text)
    ensures i < |groups| && |groups[i]| < 4
  {
    SpelledSolid(groups);
    GroupFree(groups);
    SplitJoin(groups, ':');
    i :| 0 <= i < |groups| && !(|groups[i]| == 4 && groups[i][0] != '0');
    assert groups[i] in groups && IsSpelled(groups[i]);
    LongGroup(groups[i]);
  }

  lemma {:induction false} JoinTells(a: seq<string>, b: seq<string>)
    requires Spelled(a) && Spelled(b) && a != [] && b != [] && a != b
    ensures Join(a, ':') != Join(b, ':')
  {
    SpelledSolid(a);
    SpelledSolid(b);
    GroupFree(a);
    GroupFree(b);
    SplitJoin(a, ':');
    SplitJoin(b, ':');
  }

  /** Every other text has a second spelling. */
  lemma {:induction false} OtherSpelling(text: string) returns (other: string)
    requires ReadsStrictly(text) && !OneSpelling(text)
    ensures ReadsStrictly(other) && InLower(other) && IsIpv6(other) && StrictAddress(other) == StrictAddress(text)
    ensures other != text
  {
    StrictOf(text);
    var n := Expanded(text).value;
    ExpandedBound(text, 128);
    GroupsRead(n, 8);
    var groups := GroupsFor(n, 8);
    if Join(groups, ':') == text {
      var i := ShortGroup(groups, text);
      var more := Padded(groups, i);
      JoinTells(groups, more);
      groups := more;
    }
    other := Join(groups, ':');
    SpelledReads(groups, other);
    SpelledLower(groups);
  }

  lemma {:induction false} StrictOf(text: string)
    requires ReadsStrictly(text)
    ensures Expanded(text).Some? && StrictAddress(text) == Some(V6(Expanded(text).value))
  {
    StrictExpands(text);
    if IsIpv4(text) { NotBoth(text); }
  }
}

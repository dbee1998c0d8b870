/** The VLESS request header: its parser, a reference encoder, and the text forms of what it carries. */
module Vless {
  import opened Text
  import opened Arith
  import opened Ip
  import Allowlist
  import Rfc4291

  /** An element of a `Uint8Array`. */
  type Octet = n: int | 0 <= n < 256

  /** `byte.toString(16).padStart(2, '0')` */
  function HexPair(b: Octet): (s: string)
    ensures |s| == 2 && IsHex(s[0]) && IsHex(s[1])
  {
    [HexChar(b / 16), HexChar(b % 16)]
  }

  function HexText(bytes: seq<Octet>): (s: string)
    ensures |s| == 2 * |bytes|
  {
    if bytes == [] then "" else HexText(bytes[..|bytes| - 1]) + HexPair(bytes[|bytes| - 1])
  }

  /** A UUID's 32 digits in their five groups. */
  function Dashed(hex: string): string
    requires |hex| == 32
  {
    hex[..8] + "-" + hex[8..12] + "-" + hex[12..16] + "-" + hex[16..20] + "-" + hex[20..]
  }

  /** What `bytesToUuid` returns. */
  function UuidText(bytes: seq<Octet>): string
    requires |bytes| == 16
  {
    Dashed(HexText(bytes))
  }

  /** `bytesToUuid` */
  method BytesToUuid(bytes: seq<Octet>) returns (s: string)
    requires |bytes| == 16
    ensures s == UuidText(bytes)
  {
    var hex := "";
    for i := 0 to |bytes|
      invariant hex == HexText(bytes[..i])
    {
      assert bytes[..i + 1][..i] == bytes[..i];
      hex := hex + HexPair(bytes[i]);
    }
    assert bytes[..|bytes|] == bytes;
    s := hex[..8] + "-" + hex[8..12] + "-" + hex[12..16] + "-" + hex[16..20] + "-" + hex[20..32];
  }

  /** `(hi << 8) | lo` for octets. */
  function Uint16(hi: Octet, lo: Octet): (n: nat)
    ensures n < 65536
  {
    hi * 256 + lo
  }

  function Decimals(bytes: seq<Octet>): seq<string> {
    if bytes == [] then [] else [ToDecimal(bytes[0])] + Decimals(bytes[1..])
  }

  /** The 16-bit groups of an even number of octets, in hexadecimal. */
  function GroupTexts6(bytes: seq<Octet>): (groups: seq<string>)
    requires |bytes| % 2 == 0
    ensures |groups| == |bytes| / 2
  {
    if bytes == [] then []
    else GroupTexts6(bytes[..|bytes| - 2]) + [ToHex(Uint16(bytes[|bytes| - 2], bytes[|bytes| - 1]))]
  }

  datatype Header = Header(version: Octet, uuid: string, command: Octet, port: nat, address: string,
      payload: seq<Octet>)

  datatype Error = TooShort | Truncated | Ipv4Truncated | DomainTruncated | Ipv6Truncated |
      UnsupportedType(addressType: Octet)

  datatype Parsed = Ok(header: Header) | Err(error: Error)

  /** `TextDecoder.decode` */
  type Decode = seq<Octet> -> string

  datatype AddressResult = Address(text: string, payload: seq<Octet>) | Bad(error: Error)

  /** The address of one type at the head of `rest`, the part of the buffer behind the type's octet.  If the length of a
      domain is missing, JavaScript counts with NaN: the address is empty and the payload the whole buffer. */
  function ReadAddress(addressType: Octet, rest: seq<Octet>, buffer: seq<Octet>, decode: Decode): AddressResult {
    if addressType == 1 then
      if |rest| < 4 then Bad(Ipv4Truncated) else Address(Join(Decimals(rest[..4]), '.'), rest[4..])
    else if addressType == 2 then
      if rest == [] then Address(decode([]), buffer)
      else if |rest| < 1 + rest[0] as int then Bad(DomainTruncated)
      else Address(decode(rest[1..1 + rest[0] as int]), rest[1 + rest[0] as int..])
    else if addressType == 3 then
      if |rest| < 16 then Bad(Ipv6Truncated) else Address(Join(GroupTexts6(rest[..16]), ':'), rest[16..])
    else Bad(UnsupportedType(addressType))
  }

  /** What `parseVlessHeader` returns or throws. */
  function Parse(buffer: seq<Octet>, decode: Decode): Parsed {
    if |buffer| < 24 then Err(TooShort)
    else
      var at := 18 + buffer[17] as int;
      if |buffer| < at + 4 then Err(Truncated)
      else
        Assembled(buffer, at, ReadAddress(buffer[at + 3], buffer[at + 4..], buffer, decode))
  }

  /** The header around an address. */
  function Assembled(buffer: seq<Octet>, at: nat, address: AddressResult): Parsed
    requires 18 <= at && at + 4 <= |buffer|
  {
    match address
    case Bad(e) => Err(e)
    case Address(text, payload) =>
      Ok(Header(buffer[0], UuidText(buffer[1..17]), buffer[at], Uint16(buffer[at + 1], buffer[at + 2]), text, payload))
  }

  lemma {:induction false} NextGroup6(bytes: seq<Octet>, i: nat)
    requires 2 * i + 2 <= |bytes|
    ensures GroupTexts6(bytes[..2 * i + 2]) ==
            GroupTexts6(bytes[..2 * i]) + [ToHex(Uint16(bytes[2 * i], bytes[2 * i + 1]))]
  {
    assert bytes[..2 * i + 2][..2 * i] == bytes[..2 * i];
  }

  /** The loop that reads eight groups from a view of the buffer. */
  method ReadGroups(view: seq<Octet>) returns (groups: seq<string>)
    requires |view| == 16
    ensures groups == GroupTexts6(view)
  {
    groups := [];
    for i := 0 to 8
      invariant groups == GroupTexts6(view[..2 * i])
    {
      NextGroup6(view, i);
      groups := groups + [ToHex(Uint16(view[i * 2], view[i * 2 + 1]))];
    }
    assert view[..16] == view;
  }

  /** What lies `n` behind the cursor, seen from the cursor. */
  lemma {:induction false} Behind(buffer: seq<Octet>, cursor: nat, a: nat, b: nat)
    requires cursor + a <= cursor + b <= |buffer|
    ensures buffer[cursor..][a..b] == buffer[cursor + a..cursor + b]
    ensures buffer[cursor..][b..] == buffer[cursor + b..]
  {
  }

  /** The branches of `parseVlessHeader` on the address type, with the cursor behind the type's octet. */
  method ParseAddress(addressType: Octet, buffer: seq<Octet>, at: nat, decode: Decode) returns (r: AddressResult)
    requires at <= |buffer|
    ensures r == ReadAddress(addressType, buffer[at..], buffer, decode)
  {
    var address, cursor := "", at;
    if addressType == 1 {
      if |buffer| < cursor + 4 { return Bad(Ipv4Truncated); }
      Behind(buffer, at, 0, 4);
      address := Join(Decimals(buffer[cursor..cursor + 4]), '.');
      cursor := cursor + 4;
    } else if addressType == 2 {
      if cursor == |buffer| { return Address(decode([]), buffer); }
      var length := buffer[cursor] as int;
      cursor := cursor + 1;
      if |buffer| < cursor + length { return Bad(DomainTruncated); }
      Behind(buffer, at, 1, 1 + length);
      address := decode(buffer[cursor..cursor + length]);
      cursor := cursor + length;
    } else if addressType == 3 {
      if |buffer| < cursor + 16 { return Bad(Ipv6Truncated); }
      Behind(buffer, at, 0, 16);
      var groups := ReadGroups(buffer[cursor..cursor + 16]);
      address := Join(groups, ':');
      cursor := cursor + 16;
    } else {
      return Bad(UnsupportedType(addressType));
    }
    return Address(address, buffer[cursor..]);
  }

  /** `parseVlessHeader`, whose cursor moves over the buffer. */
  method ParseVlessHeader(buffer: seq<Octet>, decode: Decode) returns (r: Parsed)
    ensures r == Parse(buffer, decode)
  {
    if |buffer| < 24 { return Err(TooShort); }
    var version := buffer[0];
    var uuid := BytesToUuid(buffer[1..17]);
    var optionsLength := buffer[17] as int;
    var commandIndex := 18 + optionsLength;
    if |buffer| < commandIndex + 4 { return Err(Truncated); }
    var command := buffer[commandIndex];
    var port := Uint16(buffer[commandIndex + 1], buffer[commandIndex + 2]);
    var address := ParseAddress(buffer[commandIndex + 3], buffer, commandIndex + 4, decode);
    match address
    case Bad(e) => return Err(e);
    case Address(text, payload) => return Ok(Header(version, uuid, command, port, text, payload));
  }

  // ---------------------------------------------------------------- the reference encoder

  datatype Destination = V4Bytes(v4: seq<Octet>) | Domain(name: seq<Octet>) | V6Bytes(v6: seq<Octet>) {
    predicate Valid() {
      match this
      case V4Bytes(b) => |b| == 4
      case Domain(n) => |n| < 256
      case V6Bytes(b) => |b| == 16
    }
  }

  datatype Request = Request(version: Octet, uuid: seq<Octet>, options: seq<Octet>, command: Octet, port: nat,
      to: Destination) {
    predicate Valid() { |uuid| == 16 && |options| < 256 && port < 65536 && to.Valid() }
  }

  function EncodeDestination(to: Destination): seq<Octet>
    requires to.Valid()
  {
    match to
    case V4Bytes(b) => b
    case Domain(n) => [|n|] + n
    case V6Bytes(b) => b
  }

  function TypeOf(to: Destination): Octet {
    match to
    case V4Bytes(_) => 1
    case Domain(_) => 2
    case V6Bytes(_) => 3
  }

  /** The header as the protocol lays it out. */
  function Encode(q: Request): seq<Octet>
    requires q.Valid()
  {
    [q.version] + q.uuid + [|q.options|] + q.options + [q.command, q.port / 256, q.port % 256,
        TypeOf(q.to)] + EncodeDestination(q.to)
  }

  function AddressText(to: Destination, decode: Decode): string
    requires to.Valid()
  {
    match to
    case V4Bytes(b) => Join(Decimals(b), '.')
    case Domain(n) => decode(n)
    case V6Bytes(b) => Join(GroupTexts6(b), ':')
  }

  function HeaderOf(q: Request, payload: seq<Octet>, decode: Decode): Header
    requires q.Valid()
  {
    Header(q.version, UuidText(q.uuid), q.command, q.port, AddressText(q.to, decode), payload)
  }

  // ---------------------------------------------------------------- round trip

  lemma {:induction false} AddressReads(to: Destination, payload: seq<Octet>, buffer: seq<Octet>, decode: Decode)
    requires to.Valid()
    ensures ReadAddress(TypeOf(to), EncodeDestination(to) + payload, buffer, decode) ==
            Address(AddressText(to, decode), payload)
  {
  }

  /** Where the fields of an encoded header are. */
  lemma {:induction false} Layout(q: Request, payload: seq<Octet>)
    requires q.Valid()
    ensures var b := Encode(q) + payload; var at := 18 + |q.options|;
            && |b| >= at + 4 && b[0] == q.version && b[1..17] == q.uuid && b[17] == |q.options|
            && b[at] == q.command && b[at + 1] == q.port / 256 && b[at + 2] == q.port % 256 && b[at + 3] == TypeOf(q.to)
            && b[at + 4..] == EncodeDestination(q.to) + payload
  {
  }

  /** Parsing gives back exactly the fields and the payload of an encoded header, for every decoder of names, unless the
      whole is shorter than 24 octets: an empty name without options and payload. */
  lemma {:induction false} RoundTrip(q: Request, payload: seq<Octet>, decode: Decode)
    requires q.Valid()
    ensures Parse(Encode(q) + payload, decode) == Ok(HeaderOf(q, payload, decode)) <==> |Encode(q) + payload| >= 24
    ensures |Encode(q) + payload| < 24 <==> q.to == Domain([]) && q.options == [] && payload == []
  {
    var b := Encode(q) + payload;
    Layout(q, payload);
    AddressReads(q.to, payload, b, decode);
  }

  /** What a buffer holds, read back into a request; for buffers whose address is complete. */
  lemma {:induction false} OnlyEncodings(buffer: seq<Octet>, decode: Decode) returns (q: Request, payload: seq<Octet>)
    requires Parse(buffer, decode).Ok? && !NameLengthMissing(buffer)
    ensures q.Valid() && buffer == Encode(q) + payload && Parse(buffer, decode) == Ok(HeaderOf(q, payload, decode))
  {
    var at := 18 + buffer[17] as int;
    var rest := buffer[at + 4..];
    var to;
    to, payload := SplitAddress(buffer[at + 3], rest, buffer, decode);
    var port := Uint16(buffer[at + 1], buffer[at + 2]);
    q := Request(buffer[0], buffer[1..17], buffer[18..at], buffer[at], port, to);
    DivUnique(port, 256, buffer[at + 1], buffer[at + 2]);
    Reassemble(buffer, at, q, payload);
    RoundTrip(q, payload, decode);
  }

  lemma {:induction false} Reassemble(buffer: seq<Octet>, at: nat, q: Request, payload: seq<Octet>)
    requires q.Valid() && |buffer| >= at + 4 && at == 18 + |q.options| && |q.options| == buffer[17]
    requires q.version == buffer[0] && q.uuid == buffer[1..17] && q.options == buffer[18..at] && q.command == buffer[at]
    requires q.port / 256 == buffer[at + 1] && q.port % 256 == buffer[at + 2] && TypeOf(q.to) == buffer[at + 3]
    requires EncodeDestination(q.to) + payload == buffer[at + 4..]
    ensures buffer == Encode(q) + payload
  {
  }

  lemma {:induction false} SplitAddress(addressType: Octet, rest: seq<Octet>, buffer: seq<Octet>, decode: Decode)
      returns (to: Destination, payload: seq<Octet>)
    requires ReadAddress(addressType, rest, buffer, decode).Address? && (addressType == 2 ==> rest != [])
    ensures to.Valid() && TypeOf(to) == addressType && rest == EncodeDestination(to) + payload
  {
    if addressType == 1 {
      to, payload := V4Bytes(rest[..4]), rest[4..];
    } else if addressType == 2 {
      var n := rest[0] as int;
      to, payload := Domain(rest[1..1 + n]), rest[1 + n..];
      assert |rest[1..1 + n]| == n;
      assert rest == [rest[0]] + rest[1..1 + n] + rest[1 + n..];
    } else {
      to, payload := V6Bytes(rest[..16]), rest[16..];
    }
  }

  /** The error for a header of which only the first octets are there: by what is missing. */
  predicate CutError(q: Request, n: nat, e: Error)
    requires q.Valid()
  {
    if n < 24 then e == TooShort
    else if n < 22 + |q.options| then e == Truncated
    else match q.to
      case V4Bytes(_) => e == Ipv4Truncated
      case Domain(_) => e == DomainTruncated
      case V6Bytes(_) => e == Ipv6Truncated
  }

  lemma {:induction false} CutAddress(to: Destination, k: nat, buffer: seq<Octet>, decode: Decode)
    requires to.Valid() && k < |EncodeDestination(to)| && (to.Domain? ==> k > 0)
    ensures var r := ReadAddress(TypeOf(to), EncodeDestination(to)[..k], buffer, decode);
            r == Bad(match to case V4Bytes(_) => Ipv4Truncated case Domain(_) => DomainTruncated
                     case V6Bytes(_) => Ipv6Truncated)
  {
  }

  /** Where the octets of a cut header are, as far as they are there. */
  lemma {:induction false} CutLayout(q: Request, n: nat, b: seq<Octet>)
    requires q.Valid() && 18 <= n <= |Encode(q)| && b == Encode(q)[..n]
    ensures |b| == n && b[17] == |q.options|
    ensures var at := 18 + |q.options|;
            n >= at + 4 ==> b[at + 3] == TypeOf(q.to) && b[at + 4..] == EncodeDestination(q.to)[..n - at - 4]
  {
    Layout(q, []);
    assert Encode(q) + [] == Encode(q) && EncodeDestination(q.to) + [] == EncodeDestination(q.to);
    var at := 18 + |q.options|;
    if n >= at + 4 { assert b[at + 4..] == Encode(q)[at + 4..][..n - at - 4]; }
  }

  /** Every header that is cut off is refused with the error for its missing part, but for the one that ends behind the
      octet that announces a name. */
  lemma {:induction false} CutRefused(q: Request, n: nat, decode: Decode)
    requires q.Valid() && n < |Encode(q)|
    ensures var r := Parse(Encode(q)[..n], decode);
            if n >= 24 && n == 22 + |q.options| && q.to.Domain? then r.Ok? else r.Err? && CutError(q, n, r.error)
  {
    var b, at := Encode(q)[..n], 18 + |q.options|;
    if n >= 24 {
      CutLayout(q, n, b);
      if n >= at + 4 && !(n == at + 4 && q.to.Domain?) { CutAddress(q.to, n - at - 4, b, decode); }
    }
  }

  /** A type of address that the protocol does not have is refused. */
  lemma {:induction false} TypeRefused(buffer: seq<Octet>, decode: Decode)
    requires |buffer| >= 24 && |buffer| >= 22 + buffer[17] as int
    ensures Parse(buffer, decode).Err? && Parse(buffer, decode).error.UnsupportedType? <==>
            buffer[21 + buffer[17] as int] !in {1, 2, 3}
    ensures Parse(buffer, decode) == Err(UnsupportedType(buffer[21 + buffer[17] as int])) <==>
            buffer[21 + buffer[17] as int] !in {1, 2, 3}
  {
  }

  /** The buffer ends behind the octet that announces a name. */
  predicate NameLengthMissing(buffer: seq<Octet>)
    requires |buffer| >= 24
  {
    |buffer| == 18 + buffer[17] as int + 4 && buffer[18 + buffer[17] as int + 3] == 2
  }

  /** Such a buffer is accepted, with the empty name's text and the whole buffer as its payload. */
  lemma {:induction false} MissingLengthAccepted(buffer: seq<Octet>, decode: Decode)
    requires |buffer| >= 24 && NameLengthMissing(buffer)
    ensures Parse(buffer, decode).Ok? && Parse(buffer, decode).header.address == decode([])
            && Parse(buffer, decode).header.payload == buffer
  {
  }

  // ---------------------------------------------------------------- the text of an IPv6 address

  /** Octets as one big-endian number. */
  function BigEndian(bytes: seq<Octet>): nat {
    if bytes == [] then 0 else BigEndian(bytes[..|bytes| - 1]) * Pow2(8) + bytes[|bytes| - 1]
  }

  lemma {:induction false} BigEndianTwo(bytes: seq<Octet>)
    requires |bytes| >= 2
    ensures BigEndian(bytes) == BigEndian(bytes[..|bytes| - 2]) * Pow2(16) + Uint16(bytes[|bytes| - 2],
            bytes[|bytes| - 1])
  {
    var init := bytes[..|bytes| - 1];
    assert init[..|init| - 1] == bytes[..|bytes| - 2];
    PowAdd(8, 8);
    assert Pow2(8) == 256;
  }

  lemma {:induction false} GroupsAreHex(bytes: seq<Octet>)
    requires |bytes| % 2 == 0
    ensures Solid(GroupTexts6(bytes)) && GroupsNumber(GroupTexts6(bytes)) == BigEndian(bytes)
  {
    if bytes != [] {
      var init := bytes[..|bytes| - 2];
      var n := Uint16(bytes[|bytes| - 2], bytes[|bytes| - 1]);
      GroupsAreHex(init);
      Pow2At16();
      ToHexReads(n, 4);
      BigEndianTwo(bytes);
    }
  }

  lemma {:induction false} HexShort(n: nat)
    ensures n > 0 ==> ToHex(n)[0] != '0'
    ensures n == 0 ==> ToHex(n) == "0"
  {
    if n >= 16 { HexShort(n / 16); }
  }

  lemma {:induction false} GroupsShort(bytes: seq<Octet>)
    requires |bytes| % 2 == 0
    ensures forall g | g in GroupTexts6(bytes) :: IsLowerText(g) && g != "" && (g[0] == '0' ==> g == "0")
  {
    if bytes != [] {
      var n := Uint16(bytes[|bytes| - 2], bytes[|bytes| - 1]);
      GroupsShort(bytes[..|bytes| - 2]);
      Pow2At16();
      ToHexReads(n, 4);
      HexShort(n);
    }
  }

  /** The text of an IPv6 destination, read as an address, is its 16 octets as one big-endian number; it has eight
      groups in lower case without zeros in front. */
  lemma {:induction false} Ipv6TextReads(bytes: seq<Octet>)
    requires |bytes| == 16
    ensures Expanded(Join(GroupTexts6(bytes), ':')) == Some(BigEndian(bytes))
    ensures |Split(Join(GroupTexts6(bytes), ':'), ':')| == 8
    ensures forall g | g in Split(Join(GroupTexts6(bytes), ':'), ':') ::
              IsLowerText(g) && g != "" && (g[0] == '0' ==> g == "0")
  {
    GroupsAreHex(bytes);
    FullForm(GroupTexts6(bytes));
    GroupFree(GroupTexts6(bytes));
    SplitJoin(GroupTexts6(bytes), ':');
    GroupsShort(bytes);
  }

  // ---------------------------------------------------------------- the text of an IPv4 address

  lemma {:induction false} DecimalsRead(bytes: seq<Octet>)
    ensures |Decimals(bytes)| == |bytes| && forall i | 0 <= i < |bytes| :: Decimals(bytes)[i] == ToDecimal(bytes[i])
  {
    if bytes != [] { DecimalsRead(bytes[1..]); }
  }

  lemma {:induction false} DecimalsNumber(parts: seq<string>, bytes: seq<Octet>)
    requires |parts| == |bytes| && forall i | 0 <= i < |bytes| :: parts[i] == ToDecimal(bytes[i])
    ensures OctetsNumber(parts) == BigEndian(bytes)
  {
    if bytes != [] {
      var i := |bytes| - 1;
      ToDecimalReads(bytes[i]);
      DecimalsNumber(parts[..i], bytes[..i]);
    }
  }

  /** The text of an IPv4 destination is canonical, and its number is its four octets. */
  lemma {:induction false} Ipv4TextReads(bytes: seq<Octet>)
    requires |bytes| == 4
    ensures CanonicalIpv4(Join(Decimals(bytes), '.')) && Ipv4ToInt(Join(Decimals(bytes), '.')) == BigEndian(bytes)
  {
    var parts := Decimals(bytes);
    DecimalsRead(bytes);
    forall p | p in parts ensures CanonicalOctet(p) && '.' !in p {
      var i :| 0 <= i < |parts| && parts[i] == p;
      ToDecimalReads(bytes[i]);
    }
    SplitJoin(parts, '.');
    DecimalsNumber(parts, bytes);
    Ipv4Exact(Join(parts, '.'));
  }

  // ---------------------------------------------------------------- the text of a UUID

  lemma {:induction false} HexTextDigits(bytes: seq<Octet>)
    ensures forall i | 0 <= i < |HexText(bytes)| ::
              IsHex(HexText(bytes)[i]) && ToLowerChar(HexText(bytes)[i]) == HexText(bytes)[i]
  {
    if bytes != [] { HexTextDigits(bytes[..|bytes| - 1]); }
  }

  lemma {:induction false} HexTextInjective(a: seq<Octet>, b: seq<Octet>)
    requires HexText(a) == HexText(b)
    ensures a == b
  {
    if a != [] && b != [] {
      var i, j := |a| - 1, |b| - 1;
      assert i == j;
      var s := HexText(a);
      assert HexText(a[..i]) == s[..2 * i] == HexText(b[..i]);
      HexTextInjective(a[..i], b[..i]);
      assert HexPair(a[i]) == s[2 * i..] == HexPair(b[i]);
      assert a == a[..i] + [a[i]] && b == b[..i] + [b[i]];
    }
  }

  lemma {:induction false} DashedAt(hex: string)
    requires |hex| == 32
    ensures var s := Dashed(hex);
            && |s| == 36 && s[8] == s[13] == s[18] == s[23] == '-'
            && s[..8] == hex[..8] && s[9..13] == hex[8..12] && s[14..18] == hex[12..16] && s[19..23] == hex[16..20]
               && s[24..] == hex[20..]
  {
  }

  lemma {:induction false} LowerAlready(s: string)
    requires forall i | 0 <= i < |s| :: ToLowerChar(s[i]) == s[i]
    ensures ToLower(s) == s
  {
    if s != "" {
      LowerAlready(s[1..]);
      assert s == [s[0]] + s[1..];
    }
  }

  /** Where the characters of a UUID's text come from. */
  function HexIndex(i: nat): nat {
    if i < 8 then i else if i < 13 then i - 1 else if i < 18 then i - 2 else if i < 23 then i - 3 else i - 4
  }

  lemma {:induction false} DashedChar(hex: string, i: nat)
    requires |hex| == 32 && i < 36
    ensures |Dashed(hex)| == 36 && HexIndex(i) <= 32
    ensures if i in {8, 13, 18, 23} then Dashed(hex)[i] == '-'
            else HexIndex(i) < 32 && Dashed(hex)[i] == hex[HexIndex(i)]
  {
  }

  /** The text has the form that `authorizeUuid` asks for, and is in lower case. */
  lemma {:induction false} UuidWellFormed(bytes: seq<Octet>)
    requires |bytes| == 16
    ensures Allowlist.IsUuid(UuidText(bytes)) && ToLower(UuidText(bytes)) == UuidText(bytes)
  {
    var hex, s := HexText(bytes), UuidText(bytes);
    HexTextDigits(bytes);
    DashedAt(hex);
    forall i | 0 <= i < 36
      ensures (if i in {8, 13, 18, 23} then s[i] == '-' else IsHex(s[i])) && ToLowerChar(s[i]) == s[i]
    {
      DashedChar(hex, i);
    }
    LowerAlready(s);
  }

  predicate IsLowerText(s: string) { forall c | c in s :: IsLowerHex(c) }

  lemma {:induction false} HexAppend(s: string, b: Octet)
    ensures HexValue(s + HexPair(b)) == HexValue(s) * 256 + b && IsLowerText(HexPair(b))
  {
    var pair := HexPair(b);
    assert s + pair == s + [pair[0]] + [pair[1]];
    assert (s + pair)[..|s| + 1] == s + [pair[0]] && (s + [pair[0]])[..|s|] == s;
    assert Pow2(4) == 16;
  }

  lemma {:induction false} HexTextReads(bytes: seq<Octet>)
    ensures HexValue(HexText(bytes)) == BigEndian(bytes) && IsLowerText(HexText(bytes))
  {
    if bytes != [] {
      var init, b := bytes[..|bytes| - 1], bytes[|bytes| - 1];
      HexTextReads(init);
      HexAppend(HexText(init), b);
      assert Pow2(8) == 256;
    }
  }

  /** The characters of a text but for the four where a UUID has dashes. */
  function WithoutDashes(s: string): (hex: string)
    requires |s| == 36
    ensures |hex| == 32
  {
    s[..8] + s[9..13] + s[14..18] + s[19..23] + s[24..]
  }

  /** A text spells 16 octets as a UUID does: 32 digits in lower case that are their number to the base 16, most
      significant first, with dashes behind the 8th, 12th, 16th and 20th. */
  predicate SpellsUuid(s: string, bytes: seq<Octet>) {
    && |s| == 36 && s[8] == '-' && s[13] == '-' && s[18] == '-' && s[23] == '-'
    && IsLowerText(WithoutDashes(s)) && HexValue(WithoutDashes(s)) == BigEndian(bytes)
  }

  lemma {:induction false} Redashed(s: string)
    requires |s| == 36 && s[8] == '-' && s[13] == '-' && s[18] == '-' && s[23] == '-'
    ensures Dashed(WithoutDashes(s)) == s
  {
    var hex := WithoutDashes(s);
    assert hex[..8] == s[..8] && hex[8..12] == s[9..13] && hex[12..16] == s[14..18] && hex[16..20] == s[19..23];
    assert hex[20..] == s[24..];
  }

  lemma {:induction false} Undashed(hex: string)
    requires |hex| == 32
    ensures WithoutDashes(Dashed(hex)) == hex
  {
    DashedAt(hex);
    assert hex == hex[..8] + hex[8..12] + hex[12..16] + hex[16..20] + hex[20..];
  }

  /** The text that `bytesToUuid` returns is the one that spells the octets. */
  lemma {:induction false} UuidSpells(bytes: seq<Octet>, s: string)
    requires |bytes| == 16
    ensures SpellsUuid(s, bytes) <==> s == UuidText(bytes)
  {
    var hex := HexText(bytes);
    HexTextReads(bytes);
    DashedAt(hex);
    Undashed(hex);
    if SpellsUuid(s, bytes) {
      Redashed(s);
      Rfc4291.HexSame(WithoutDashes(s), hex);
    }
  }

  /** And it tells the octets apart. */
  lemma {:induction false} UuidInjective(a: seq<Octet>, b: seq<Octet>)
    requires |a| == 16 && |b| == 16 && UuidText(a) == UuidText(b)
    ensures a == b
  {
    DashedAt(HexText(a));
    DashedAt(HexText(b));
    HexTextInjective(a, b);
  }
}

/** The panel's base64 codec (RFC 4648 sections 4 and 5), in both its padded and its URL-safe form. */
module Base64 {
  import opened Text
  import opened Bits

  /** `B64_CHARS` */
  function Alphabet(): (s: string)
    ensures |s| == 64
  {
    Range('A', 26) + Range('a', 26) + Range('0', 10) + "+/"
  }

  /** The position of a character in the alphabet. */
  function Position(c: char): Option<nat> {
    if 'A' <= c <= 'Z' then Some(c as int - 'A' as int)
    else if 'a' <= c <= 'z' then Some(c as int - 'a' as int + 26)
    else if '0' <= c <= '9' then Some(c as int - '0' as int + 52)
    else if c == '+' then Some(62)
    else if c == '/' then Some(63)
    else None
  }

  lemma {:induction false} AlphabetPosition(i: nat, c: char)
    ensures i < 64 ==> (Alphabet()[i] == c <==> Position(c) == Some(i))
    ensures Position(c).Some? ==> Position(c).value < 64
  {
  }

  function CharOf(d: bv32): char
    requires d < 64
  {
    Alphabet()[d as int]
  }

  predicate Small(digits: seq<bv32>) { forall i | 0 <= i < |digits| :: digits[i] < 64 }

  function Chars(digits: seq<bv32>): (s: string)
    requires Small(digits)
    ensures |s| == |digits|
  {
    if digits == [] then "" else [CharOf(digits[0])] + Chars(digits[1..])
  }

  /** `lookup.get(ch)` */
  function Lookup(c: char): (d: Option<bv32>)
    ensures d.Some? ==> d.value < 64
  {
    AlphabetPosition(0, c);
    if Position(c).Some? then Some(Position(c).value as bv32) else None
  }

  lemma {:induction false} LookupCharOf(d: bv32)
    requires d < 64
    ensures Lookup(CharOf(d)) == Some(d)
  {
    AlphabetPosition(d as int, CharOf(d));
  }

  /** How the URL-safe alphabet is read. */
  function FromUrl(c: char): char { if c == '-' then '+' else if c == '_' then '/' else c }

  function ToUrl(c: char): char { if c == '+' then '-' else if c == '/' then '_' else c }

  /** The 6-bit digits that a text holds in either alphabet; every other character is skipped. */
  function Sextets(text: string): (digits: seq<bv32>)
    ensures Small(digits)
  {
    if text == "" then [] else Sextet(text[0]) + Sextets(text[1..])
  }

  /** RFC 4648 section 4: 6-bit groups of the octets' bit stream, filled up with `=` to a multiple of four. */
  function Encoded(bytes: seq<Byte>): string {
    DigitsFit(Flat(8, bytes));
    Padded(Digits(6, Flat(8, bytes)))
  }

  function Padded(digits: seq<bv32>): string
    requires Small(digits)
  {
    Chars(digits) + Repeat('=', (4 - |digits| % 4) % 4)
  }

  lemma {:induction false} DigitsFit(bits: seq<bool>)
    ensures Small(Digits(6, bits))
  {
    var _ := FlatOfDigits(6, bits);
    var digits := Digits(6, bits);
    forall i | 0 <= i < |digits| ensures digits[i] < 64 { assert digits[i] in digits; FitsByte(digits[i]); }
  }

  /** The octets that the digits of a text fill. */
  function Decoded(text: string): seq<bv32> { Octets(Flat(6, Sextets(text))) }

  /** `bytesToBase64Url` */
  function EncodedUrl(bytes: seq<Byte>): string {
    StripPad(MapChars(Encoded(bytes), ToUrl))
  }

  // ---------------------------------------------------------------- encoding

  /** `w`-bit digits and octets cut the same 24 bits. */
  lemma {:induction false} Glue(b: seq<bv32>, d: seq<bv32>, w: nat, o: nat)
    requires |b| == 3 && |d| == 4 && w == 6 && o == 8
    requires Low(b[0], o) == Low(d[0], w) + Low(b[0], 2)
    requires Low(d[1], w) == Low(b[0], 2) + Low(Shr(b[1], 4), 4)
    requires Low(b[1], o) == Low(Shr(b[1], 4), 4) + Low(b[1], 4)
    requires Low(d[2], w) == Low(b[1], 4) + Low(Shr(b[2], 6), 2)
    requires Low(b[2], o) == Low(Shr(b[2], 6), 2) + Low(d[3], w)
    ensures Flat(w, d) == Flat(o, b)
  {
    FlatFour(w, d);
    FlatThree(o, b);
    GlueBits(Low(d[0], w), Low(b[0], 2), Low(Shr(b[1], 4), 4), Low(b[1], 4), Low(Shr(b[2], 6), 2), Low(d[3], w));
  }

  lemma {:induction false} FlatThree(k: nat, s: seq<bv32>)
    requires |s| == 3
    ensures Flat(k, s) == Low(s[0], k) + (Low(s[1], k) + Low(s[2], k))
  {
    assert s[2..] == [s[2]] && s[1..][1..] == s[2..];
    FlatOne(k, s[2]);
  }

  lemma {:induction false} FlatFour(k: nat, s: seq<bv32>)
    requires |s| == 4
    ensures Flat(k, s) == Low(s[0], k) + (Low(s[1], k) + (Low(s[2], k) + Low(s[3], k)))
  {
    FlatThree(k, s[1..]);
  }

  lemma {:induction false} GlueBits(d0: seq<bool>, p: seq<bool>, q: seq<bool>, r: seq<bool>, s: seq<bool>,
      d3: seq<bool>)
    ensures d0 + ((p + q) + ((r + s) + d3)) == (d0 + p) + ((q + r) + (s + d3))
  {
  }

  lemma {:induction false} SecondDigit(b0: bv32, b1: bv32, d: bv32)
    requires b1 < 256 && d == ((b0 & 3) << 4) | (b1 >> 4)
    ensures d < 64 && Low(d, 6) == Low(b0, 2) + Low(Shr(b1, 4), 4)
  {
  }

  lemma {:induction false} ThirdDigit(b1: bv32, b2: bv32, d: bv32)
    requires b2 < 256 && d == ((b1 & 15) << 2) | (b2 >> 6)
    ensures d < 64 && Low(d, 6) == Low(b1, 4) + Low(Shr(b2, 6), 2)
  {
  }

  lemma {:induction false} OuterDigits(b0: bv32, b2: bv32)
    requires b0 < 256
    ensures b0 >> 2 < 64 && Low(b0, 8) == Low(b0 >> 2, 6) + Low(b0, 2)
    ensures b2 & 63 < 64 && Low(b2, 6) == Low(b2 & 63, 6)
  {
  }

  /** The four table indices that the encoder computes from three octets. */
  function FourDigits(b0: bv32, b1: bv32, b2: bv32): (d: seq<bv32>)
    ensures |d| == 4
  {
    [b0 >> 2, ((b0 & 3) << 4) | (b1 >> 4), ((b1 & 15) << 2) | (b2 >> 6), b2 & 63]
  }

  lemma {:induction false} OctetSplit(b1: bv32, b2: bv32, o: nat)
    requires o == 8
    ensures Low(b1, o) == Low(Shr(b1, 4), 4) + Low(b1, 4)
    ensures Low(b2, o) == Low(Shr(b2, 6), 2) + Low(b2, 6)
  {
    LowSplit(b1, 4, 4);
    LowSplit(b2, 2, 6);
  }

  /** Four 6-bit digits for three octets: the second and third join the end of one octet to the start of the next. */
  lemma {:induction false} Chunk(b: seq<bv32>)
    requires |b| == 3 && b[0] < 256 && b[1] < 256 && b[2] < 256
    ensures var d := FourDigits(b[0], b[1], b[2]); Small(d) && Flat(6, d) == Flat(8, b)
  {
    var d := FourDigits(b[0], b[1], b[2]);
    ChunkAt(b, d, 6, 8);
  }

  lemma {:induction false} ChunkAt(b: seq<bv32>, d: seq<bv32>, w: nat, o: nat)
    requires w == 6 && o == 8
    requires |b| == 3 && |d| == 4 && b[0] < 256 && b[1] < 256 && b[2] < 256
    requires d[0] == b[0] >> 2 && d[1] == ((b[0] & 3) << 4) | (b[1] >> 4)
    requires d[2] == ((b[1] & 15) << 2) | (b[2] >> 6) && d[3] == b[2] & 63
    ensures d[0] < 64 && d[1] < 64 && d[2] < 64 && d[3] < 64 && Flat(w, d) == Flat(o, b)
  {
    OuterDigits(b[0], b[2]);
    SecondDigit(b[0], b[1], d[1]);
    ThirdDigit(b[1], b[2], d[2]);
    OctetSplit(b[1], b[2], o);
    Glue(b, d, w, o);
  }

  lemma {:induction false} SmallFits(digits: seq<bv32>)
    requires Small(digits)
    ensures AllFit(digits, 6)
  {
  }

  lemma {:induction false} SmallConcat(a: seq<bv32>, b: seq<bv32>)
    requires Small(a) && Small(b)
    ensures Small(a + b)
  {
    forall i | 0 <= i < |a + b| ensures (a + b)[i] < 64 {
      assert (a + b)[i] == if i < |a| then a[i] else b[i - |a|];
    }
  }

  lemma {:induction false} CharsConcat(a: seq<bv32>, b: seq<bv32>)
    requires Small(a) && Small(b)
    ensures Small(a + b) && Chars(a + b) == Chars(a) + Chars(b)
  {
    SmallConcat(a, b);
    if a == [] {
      assert a + b == b;
    } else {
      CharsConcat(a[1..], b);
      assert (a + b)[1..] == a[1..] + b && (a + b)[0] == a[0];
    }
  }

  lemma {:induction false} LowZero(n: nat)
    ensures Low(0, n) == Zeros(n)
  {
    if n > 0 { LowZero(n - 1); }
  }

  lemma {:induction false} ShrZero(n: nat)
    ensures Shr(0, n) == 0
  {
    if n > 0 { ShrZero(n - 1); }
  }

  /** One octet left: two digits, and four bits of padding. */
  lemma {:induction false} OneLeft(b: seq<bv32>, d: seq<bv32>, w: nat, o: nat)
    requires w == 6 && o == 8 && |b| == 1 && |d| == 2 && b[0] < 256
    requires d[0] == b[0] >> 2 && d[1] == ((b[0] & 3) << 4) | (0 >> 4)
    ensures Flat(w, d) == Flat(o, b) + Zeros(4)
  {
    OuterDigits(b[0], 0);
    SecondDigit(b[0], 0, d[1]);
    ShrZero(4);
    LowZero(4);
    FlatTwo(w, d);
    FlatTwo(o, b + [0]);
    assert Flat(o, b) == Low(b[0], o) by { assert b == [b[0]]; FlatOne(o, b[0]); }
    Associative(Low(d[0], w), Low(b[0], 2), Zeros(4));
  }

  lemma {:induction false} PaddedDigit(b1: bv32, d: bv32)
    requires d == ((b1 & 15) << 2) | (0 >> 6)
    ensures Low(d, 6) == Low(b1, 4) + Zeros(2)
  {
    ThirdDigit(b1, 0, d);
    ShrZero(6);
    LowZero(2);
  }

  lemma {:induction false} TwoLeftAt(b0: bv32, b1: bv32, d0: bv32, d1: bv32, d2: bv32, o: nat)
    requires o == 8 && b0 < 256 && b1 < 256
    requires d0 == b0 >> 2 && d1 == ((b0 & 3) << 4) | (b1 >> 4) && d2 == ((b1 & 15) << 2) | (0 >> 6)
    ensures Low(d1, 6) == Low(b0, 2) + Low(Shr(b1, 4), 4) && Low(d2, 6) == Low(b1, 4) + Zeros(2)
    ensures Low(b0, o) == Low(d0, 6) + Low(b0, 2) && Low(b1, o) == Low(Shr(b1, 4), 4) + Low(b1, 4)
  {
    OuterDigits(b0, 0);
    SecondDigit(b0, b1, d1);
    PaddedDigit(b1, d2);
    OctetSplit(b1, 0, o);
  }

  /** Two octets left: three digits, and two bits of padding. */
  lemma {:induction false} TwoLeft(b: seq<bv32>, d: seq<bv32>, w: nat, o: nat)
    requires w == 6 && o == 8 && |b| == 2 && |d| == 3 && b[0] < 256 && b[1] < 256
    requires d[0] == b[0] >> 2 && d[1] == ((b[0] & 3) << 4) | (b[1] >> 4) && d[2] == ((b[1] & 15) << 2) | (0 >> 6)
    ensures Flat(w, d) == Flat(o, b) + Zeros(2)
  {
    TwoLeftAt(b[0], b[1], d[0], d[1], d[2], o);
    TwoLeftJoin(b, d, w, o, Low(d[0], w), Low(b[0], 2), Low(Shr(b[1], 4), 4), Low(b[1], 4), Zeros(2));
  }

  lemma {:induction false} TwoLeftJoin(b: seq<bv32>, d: seq<bv32>, w: nat, o: nat, d0: seq<bool>, p: seq<bool>,
      q: seq<bool>,
      r: seq<bool>, z: seq<bool>)
    requires |b| == 2 && |d| == 3 && Low(d[0], w) == d0 && Low(d[1], w) == p + q && Low(d[2], w) == r + z
    requires Low(b[0], o) == d0 + p && Low(b[1], o) == q + r
    ensures Flat(w, d) == Flat(o, b) + z
  {
    FlatThree(w, d);
    FlatTwo(o, b);
    TwoLeftBits(d0, p, q, r, z);
  }

  lemma {:induction false} TwoLeftBits(d0: seq<bool>, p: seq<bool>, q: seq<bool>, r: seq<bool>, z: seq<bool>)
    ensures d0 + ((p + q) + (r + z)) == (d0 + p) + (q + r) + z
  {
  }

  lemma {:induction false} FlatTwo(k: nat, s: seq<bv32>)
    requires |s| == 2
    ensures Flat(k, s) == Low(s[0], k) + Low(s[1], k)
  {
    assert s[1..] == [s[1]];
    FlatOne(k, s[1]);
  }

  /** Adding the last, short chunk to the digits of the full ones completes the text. */
  lemma {:induction false} LastChunk(front: seq<Byte>, back: seq<Byte>, digits: seq<bv32>, last: seq<bv32>, w: nat,
      o: nat, pad: nat)
    requires 1 <= |back| <= 2 && |digits| % 4 == 0 && |last| == |back| + 1
    requires w == 6 && o == 8 && pad == 6 - 2 * |back| && Small(digits) && Small(last)
    requires Flat(w, digits) == Flat(o, front) && Flat(w, last) == Flat(o, back) + Zeros(pad)
    ensures Encoded(front + back) == Chars(digits) + Chars(last) + Repeat('=', 3 - |back|)
  {
    CharsConcat(digits, last);
    ShortBits(digits, last, front, back, Zeros(pad), w, o);
    ShortEnd(front + back, digits + last, |back|, w, o, pad);
  }

  lemma {:induction false} ShortBits(digits: seq<bv32>, last: seq<bv32>, front: seq<bv32>, back: seq<bv32>,
      z: seq<bool>,
      w: nat, o: nat)
    requires Flat(w, digits) == Flat(o, front) && Flat(w, last) == Flat(o, back) + z
    ensures Flat(w, digits + last) == Flat(o, front + back) + z
  {
    FlatConcat(w, digits, last);
    FlatConcat(o, front, back);
    Associative(Flat(o, front), Flat(o, back), z);
  }

  lemma {:induction false} ShortEnd(bytes: seq<Byte>, digits: seq<bv32>, n: nat, w: nat, o: nat, pad: nat)
    requires 1 <= n <= 2 && w == 6 && o == 8 && pad == 6 - 2 * n && Small(digits) && |digits| % 4 == n + 1
    requires Flat(w, digits) == Flat(o, bytes) + Zeros(pad)
    ensures Encoded(bytes) == Chars(digits) + Repeat('=', 3 - n)
  {
    SmallFits(digits);
    DigitsOfFlat(w, digits, Flat(o, bytes), pad);
  }

  lemma {:induction false} NoPadding(digits: seq<bv32>)
    requires Small(digits) && |digits| % 4 == 0
    ensures Padded(digits) == Chars(digits)
  {
    assert Chars(digits) + Repeat('=', 0) == Chars(digits);
  }

  lemma {:induction false} WholeChunks(bytes: seq<Byte>, digits: seq<bv32>, w: nat, o: nat)
    requires w == 6 && o == 8 && Small(digits) && |digits| % 4 == 0 && Flat(w, digits) == Flat(o, bytes)
    ensures Encoded(bytes) == Chars(digits)
  {
    SmallFits(digits);
    assert Flat(o, bytes) + Zeros(0) == Flat(o, bytes);
    DigitsOfFlat(w, digits, Flat(o, bytes), 0);
    NoPadding(digits);
  }

  lemma {:induction false} FourChars(d: seq<bv32>)
    requires |d| == 4 && Small(d)
    ensures Chars(d) == [CharOf(d[0]), CharOf(d[1]), CharOf(d[2]), CharOf(d[3])]
    ensures Chars(d[..3]) == [CharOf(d[0]), CharOf(d[1]), CharOf(d[2])]
    ensures Chars(d[..2]) == [CharOf(d[0]), CharOf(d[1])]
  {
    TwoChars(d[0], d[1]);
    TwoChars(d[2], d[3]);
    CharsConcat(d[..2], d[2..3]);
    CharsConcat(d[..2], d[2..]);
    assert d[..2] == [d[0], d[1]] && d[2..] == [d[2], d[3]] && d[2..3] == [d[2]];
    assert d[..3] == d[..2] + d[2..3] && d == d[..2] + d[2..];
  }

  lemma {:induction false} TwoChars(x: bv32, y: bv32)
    requires x < 64 && y < 64
    ensures Chars([x]) == [CharOf(x)] && Chars([x, y]) == [CharOf(x), CharOf(y)]
  {
    assert [x, y][1..] == [y] && [x][1..] == [] && [y][1..] == [];
  }

  /** The four characters of a chunk of which `n` octets are there. */
  function ChunkText(d: seq<bv32>, n: nat): string
    requires |d| == 4 && Small(d)
  {
    [CharOf(d[0]), CharOf(d[1]), if n < 2 then '=' else CharOf(d[2]), if n < 3 then '=' else CharOf(d[3])]
  }

  lemma {:induction false} LastText(d: seq<bv32>, n: nat)
    requires |d| == 4 && Small(d) && 1 <= n <= 2
    ensures Chars(d[..n + 1]) + Repeat('=', 3 - n) == ChunkText(d, n)
  {
    FourChars(d);
  }

  lemma {:induction false} NextChunk(bytes: seq<Byte>, i: nat, digits: seq<bv32>, b: seq<bv32>, d: seq<bv32>, w: nat,
      o: nat)
    requires i + 3 <= |bytes| && b == bytes[i..i + 3] && |d| == 4
    requires Small(digits) && Small(d) && Flat(w, digits) == Flat(o, bytes[..i]) && Flat(w, d) == Flat(o, b)
    ensures Small(digits + d) && Flat(w, digits + d) == Flat(o, bytes[..i + 3])
    ensures Chars(digits + d) == Chars(digits) + ChunkText(d, 3)
  {
    CharsConcat(digits, d);
    FourChars(d);
    assert bytes[..i + 3] == bytes[..i] + b;
    NextBits(digits, d, bytes[..i], b, w, o);
  }

  lemma {:induction false} NextBits(digits: seq<bv32>, d: seq<bv32>, bytes: seq<bv32>, b: seq<bv32>, w: nat, o: nat)
    requires Flat(w, digits) == Flat(o, bytes) && Flat(w, d) == Flat(o, b)
    ensures Flat(w, digits + d) == Flat(o, bytes + b)
  {
    FlatConcat(w, digits, d);
    FlatConcat(o, bytes, b);
  }

  /** What the loop keeps while chunks are full: the text so far spells the octets before `i`. */
  ghost predicate Spells(bytes: seq<Byte>, i: nat, digits: seq<bv32>, output: string, w: nat, o: nat)
    requires i <= |bytes|
  {
    Small(digits) && |digits| % 4 == 0 && Flat(w, digits) == Flat(o, bytes[..i]) && output == Chars(digits)
  }

  lemma {:induction false} FullStep(bytes: seq<Byte>, i: nat, digits: seq<bv32>, output: string, d: seq<bv32>,
      w: nat, o: nat)
    requires i + 3 <= |bytes| && Spells(bytes, i, digits, output, w, o)
    requires |d| == 4 && Small(d) && Flat(w, d) == Flat(o, bytes[i..i + 3])
    ensures Spells(bytes, i + 3, digits + d, output + ChunkText(d, 3), w, o)
  {
    NextChunk(bytes, i, digits, bytes[i..i + 3], d, w, o);
  }

  lemma {:induction false} ShortLeft(b: seq<Byte>, d: seq<bv32>, w: nat, o: nat)
    requires w == 6 && o == 8 && 1 <= |b| <= 2 && d == FourDigits(b[0], if |b| > 1 then b[1] else 0, 0)
    ensures Flat(w, d[..|b| + 1]) == Flat(o, b) + Zeros(6 - 2 * |b|)
  {
    if |b| == 1 { OneLeft(b, d[..2], w, o); } else { TwoLeft(b, d[..3], w, o); }
  }

  lemma {:induction false} ShortStep(bytes: seq<Byte>, i: nat, digits: seq<bv32>, output: string, d: seq<bv32>,
      w: nat, o: nat)
    requires w == 6 && o == 8 && i < |bytes| < i + 3 && Spells(bytes, i, digits, output, w, o) && |d| == 4 && Small(d)
    requires Flat(w, d[..|bytes| - i + 1]) == Flat(o, bytes[i..]) + Zeros(6 - 2 * (|bytes| - i))
    ensures output + ChunkText(d, |bytes| - i) == Encoded(bytes)
  {
    var n := |bytes| - i;
    assert bytes == bytes[..i] + bytes[i..];
    LastChunk(bytes[..i], bytes[i..], digits, d[..n + 1], w, o, 6 - 2 * n);
    LastText(d, n);
    AssociativeText(output, Chars(d[..n + 1]), Repeat('=', 3 - n));
  }

  lemma {:induction false} FullLeft(b: seq<Byte>, d: seq<bv32>)
    requires |b| == 3 && d == FourDigits(b[0], b[1], b[2])
    ensures Flat(6, d) == Flat(8, b)
  {
    Chunk(b);
  }

  lemma {:induction false} SmallDigits(b0: Byte, b1: Byte, b2: Byte, b: seq<Byte>)
    requires b == [b0, b1, b2]
    ensures Small(FourDigits(b0, b1, b2))
  {
    Chunk(b);
  }

  /** The four table indices of a chunk, with zeros for octets that are not there. */
  method Indices(b0: Byte, b1: Byte, b2: Byte, ghost b: seq<Byte>) returns (d: seq<bv32>)
    requires 1 <= |b| <= 3 && b0 == b[0]
    requires b1 == (if |b| > 1 then b[1] else 0) && b2 == if |b| > 2 then b[2] else 0
    ensures |d| == 4 && Small(d)
    ensures |b| == 3 ==> Flat(6, d) == Flat(8, b)
    ensures |b| < 3 ==> Flat(6, d[..|b| + 1]) == Flat(8, b) + Zeros(6 - 2 * |b|)
  {
    d := FourDigits(b0, b1, b2);
    SmallDigits(b0, b1, b2, [b0, b1, b2]);
    if |b| == 3 { FullLeft(b, d); } else { ShortLeft(b, d, 6, 8); }
  }

  /** The four `output +=` of one round; `n` octets of the chunk are there. */
  method AppendChunk(output: string, d: seq<bv32>, n: nat) returns (r: string)
    requires |d| == 4 && Small(d) && n > 0
    ensures r == output + ChunkText(d, n)
  {
    r := output + [CharOf(d[0])];
    r := r + [CharOf(d[1])];
    r := r + [if n < 2 then '=' else CharOf(d[2])];
    r := r + [if n < 3 then '=' else CharOf(d[3])];
  }

  /** `bytesToBase64` */
  method BytesToBase64(bytes: seq<Byte>) returns (output: string)
    ensures output == Encoded(bytes)
  {
    output := "";
    ghost var digits: seq<bv32> := [];
    var i := 0;
    while i < |bytes|
      invariant if i <= |bytes| then Spells(bytes, i, digits, output, 6, 8) else output == Encoded(bytes)
    {
      var b1: Byte := if i + 1 < |bytes| then bytes[i + 1] else 0;
      var b2: Byte := if i + 2 < |bytes| then bytes[i + 2] else 0;
      var d := Indices(bytes[i], b1, b2, if i + 3 <= |bytes| then bytes[i..i + 3] else bytes[i..]);
      if i + 3 <= |bytes| {
        FullStep(bytes, i, digits, output, d, 6, 8);
        digits := digits + d;
      } else {
        ShortStep(bytes, i, digits, output, d, 6, 8);
      }
      assert ChunkText(d, 3) == ChunkText(d, |bytes| - i) || |bytes| - i < 3;
      output := AppendChunk(output, d, |bytes| - i);
      i := i + 3;
    }
    if i == |bytes| {
      assert bytes[..i] == bytes;
      WholeChunks(bytes, digits, 6, 8);
    }
  }

  // ---------------------------------------------------------------- decoding

  /** Characters that survive `replace(/[^A-Za-z0-9+/=]/g, '')`. */
  function Clean(s: string): string {
    if s == "" then "" else (if Lookup(s[0]).Some? || s[0] == '=' then [s[0]] else "") + Clean(s[1..])
  }

  /** Cleaning, turning the URL alphabet back and stripping the padding lose no digit. */
  lemma {:induction false} CleanKeeps(text: string)
    ensures Sextets(Clean(MapChars(text, FromUrl))) == Sextets(text)
  {
    if text != "" {
      CleanKeeps(text[1..]);
      var c := FromUrl(text[0]);
      var m := MapChars(text, FromUrl);
      assert m[0] == c && m[1..] == MapChars(text[1..], FromUrl);
      assert FromUrl(c) == c;
      var rest := Clean(m[1..]);
      if Lookup(c).Some? || c == '=' { assert ([c] + rest)[1..] == rest; } else { assert "" + rest == rest; }
    }
  }

  function Sextet(c: char): (d: seq<bv32>)
    ensures Small(d)
  {
    var d := Lookup(FromUrl(c));
    if d.Some? then [d.value] else []
  }

  lemma {:induction false} SextetsFlat(s: string)
    ensures Sextets(s) == FlatMap(s, Sextet)
  {
    if s != "" { SextetsFlat(s[1..]); }
  }

  lemma {:induction false} SextetsConcat(a: string, b: string)
    ensures Sextets(a + b) == Sextets(a) + Sextets(b)
  {
    SextetsFlat(a);
    SextetsFlat(b);
    SextetsFlat(a + b);
    FlatMapConcat(a, b, Sextet);
  }

  lemma {:induction false} StripKeeps(s: string)
    ensures Sextets(StripPad(s)) == Sextets(s)
  {
    if s != "" && s[|s| - 1] == '=' {
      var init := s[..|s| - 1];
      StripKeeps(init);
      SextetsConcat(init, Repeat('=', 1));
      SextetsOfPad(1);
      assert s == init + Repeat('=', 1);
    }
  }

  lemma {:induction false} SextetsOfPad(n: nat)
    ensures Sextets(Repeat('=', n)) == []
  {
    if n > 0 {
      SextetsOfPad(n - 1);
      assert Repeat('=', n)[1..] == Repeat('=', n - 1);
    }
  }

  predicate UrlFree(s: string) { '-' !in s && '_' !in s }

  lemma {:induction false} CleanUrlFree(s: string)
    ensures UrlFree(Clean(s))
  {
    if s != "" { CleanUrlFree(s[1..]); }
  }

  /** The copied sign bits never reach the bits under the mask. */
  lemma {:induction false} SarShr(w: bv32, v: bv32, m: bv32, n: nat)
    requires w & m == v & m
    ensures Sar(w, n) & Shr(m, n) == Shr(v, n) & Shr(m, n)
    decreases n
  {
    if n > 0 {
      SarShr((w >> 1) | (w & 0x8000_0000), v >> 1, m >> 1, n - 1);
    }
  }

  lemma {:induction false} SarLow(w: bv32, n: nat)
    requires n < 8
    ensures Sar(w, n) & 0xff == Shr(w, n) & 0xff
  {
    MaskShift(0xffff, n);
    SarNarrow(w, n, 0xffff, Shr(0xffff, n), Sar(w, n), Shr(w, n));
  }

  lemma {:induction false} SarNarrow(w: bv32, n: nat, m: bv32, mask: bv32, a: bv32, b: bv32)
    requires mask == Shr(m, n) && a == Sar(w, n) && b == Shr(w, n) && mask & 0xff == 0xff
    ensures a & 0xff == b & 0xff
  {
    SarShr(w, w, m, n);
  }

  lemma {:induction false} MaskShift(m: bv32, n: nat)
    requires n < 8 && m == 0xffff
    ensures Shr(m, n) & 0xff == 0xff
  {
    if n < 4 {
      assert Shr(0xffff, 0) == 0xffff && Shr(0xffff, 1) == 0x7fff && Shr(0xffff, 2) == 0x3fff
          && Shr(0xffff, 3) == 0x1fff;
    } else {
      assert Shr(0xffff, 4) == 0xfff && Shr(0xffff, 5) == 0x7ff && Shr(0xffff, 6) == 0x3ff && Shr(0xffff, 7) == 0x1ff;
    }
  }

  /** The writes stay inside `floor(3 n / 4)` octets for `n` characters. */
  lemma {:induction false} Bounded(out: seq<bv32>, w: bv32, count: nat, seen: seq<bv32>, n: nat)
    requires Decoding(6, 8, out, w, count, seen) && |seen| < n
    ensures count >= 2 ==> |out| < n * 3 / 4
    ensures |out| <= n * 3 / 4
  {
    DecodingLength(6, 8, out, w, count, seen);
  }

  lemma {:induction false} NextSextet(chars: string, i: nat, seen: seq<bv32>)
    requires i < |chars| && UrlFree(chars) && Sextets(chars) == seen + Sextets(chars[i..])
    ensures Lookup(chars[i]).Some? ==> Sextets(chars) == seen + [Lookup(chars[i]).value] + Sextets(chars[i + 1..])
    ensures Lookup(chars[i]).None? ==> Sextets(chars) == seen + Sextets(chars[i + 1..])
  {
    assert chars[i] in chars;
    var s, rest := chars[i..], chars[i + 1..];
    assert s[1..] == rest;
    assert FromUrl(chars[i]) == chars[i];
    assert Sextets(s) == Sextet(chars[i]) + Sextets(rest);
    AssociativeWords(seen, Sextet(chars[i]), Sextets(rest));
    assert seen + [] == seen;
  }

  /** `output[index] = octet` */
  method Write(out: array<bv32>, index: nat, octet: bv32)
    requires index < out.Length
    modifies out
    ensures out[..index + 1] == old(out[..index]) + [octet]
  {
    out[index] := octet;
  }

  /** `base64ToBytes` */
  method Base64ToBytes(input: string) returns (bytes: seq<bv32>)
    ensures bytes == Decoded(input)
  {
    var clean := Clean(MapChars(input, FromUrl));
    var chars := StripPad(clean);
    CleanKeeps(input);
    StripKeeps(clean);
    CleanUrlFree(MapChars(input, FromUrl));
    StripPrefix(clean);
    bytes := DecodeChars(chars);
  }

  /** What the loop keeps after `i` characters, of which `seen` had a value. */
  ghost predicate Reading(chars: string, i: nat, out: seq<bv32>, w: bv32, count: nat, seen: seq<bv32>, k: nat, o: nat) {
    && i <= |chars| && |seen| <= i && Sextets(chars) == seen + Sextets(chars[i..])
       && Decoding(k, o, out, w, count, seen)
  }

  lemma {:induction false} ReadOne(chars: string, i: nat, out: seq<bv32>, w: bv32, count: nat, seen: seq<bv32>,
      next: bv32,
      k: nat, o: nat)
    requires k == 6 && o == 8 && UrlFree(chars) && i < |chars| && Reading(chars, i, out, w, count, seen, k, o)
    requires Lookup(chars[i]).Some? && next == (w << 6) | Lookup(chars[i]).value
    ensures Reading(chars, i + 1, Emitted(out, next, count + k), next, Left(count + k),
            seen + [Lookup(chars[i]).value], k, o)
  {
    NextSextet(chars, i, seen);
    AbsorbEmits(k, o, out, w, count, seen, Lookup(chars[i]).value, next);
  }

  lemma {:induction false} SkipOne(chars: string, i: nat, out: seq<bv32>, w: bv32, count: nat, seen: seq<bv32>,
      k: nat, o: nat)
    requires UrlFree(chars) && i < |chars| && Reading(chars, i, out, w, count, seen, k, o) && Lookup(chars[i]).None?
    ensures Reading(chars, i + 1, out, w, count, seen, k, o)
  {
    NextSextet(chars, i, seen);
  }

  lemma {:induction false} Room(chars: string, i: nat, out: seq<bv32>, w: bv32, count: nat, seen: seq<bv32>, k: nat,
      o: nat)
    requires k == 6 && o == 8 && i < |chars| && Reading(chars, i, out, w, count, seen, k, o)
    ensures count + k >= 8 ==> |out| < |chars| * 3 / 4
    ensures |out| <= |chars| * 3 / 4
  {
    Bounded(out, w, count, seen, |chars|);
  }

  /** Writes the oldest octet once there are eight bits. */
  method Emit(out: array<bv32>, buffer: bv32, bitCount: nat, index: nat) returns (count: nat, next: nat)
    requires bitCount < 16 && index <= out.Length && (bitCount >= 8 ==> index < out.Length)
    modifies out
    ensures next <= out.Length && count == Left(bitCount) && out[..next] == Emitted(old(out[..index]), buffer, bitCount)
  {
    count, next := bitCount, index;
    if count >= 8 {
      count := count - 8;
      SarLow(buffer, count);
      Write(out, index, Sar(buffer, count) & 0xff);
      next := index + 1;
    }
  }

  /** The decoder's work on one character that has a value; `k` and `o` are the widths of digits and octets. */
  method Push(out: array<bv32>, bitBuffer: bv32, bitCount: nat, index: nat, value: bv32, ghost chars: string,
      ghost i: nat,
      ghost seen: seq<bv32>, ghost k: nat, ghost o: nat) returns (buffer: bv32, count: nat, next: nat)
    requires k == 6 && o == 8 && UrlFree(chars) && i < |chars| && Lookup(chars[i]) == Some(value)
    requires index <= out.Length == |chars| * 3 / 4 && Reading(chars, i, out[..index], bitBuffer, bitCount, seen, k, o)
    modifies out
    ensures next <= out.Length && Reading(chars, i + 1, out[..next], buffer, count, seen + [value], k, o)
  {
    buffer := (bitBuffer << 6) | value;
    Room(chars, i, out[..index], bitBuffer, bitCount, seen, k, o);
    ReadOne(chars, i, out[..index], bitBuffer, bitCount, seen, buffer, k, o);
    count, next := Emit(out, buffer, bitCount + 6, index);
  }

  method DecodeChars(chars: string) returns (bytes: seq<bv32>)
    requires UrlFree(chars)
    ensures bytes == Decoded(chars)
  {
    var out := new bv32[|chars| * 3 / 4];
    var bitBuffer: bv32 := 0;
    var bitCount: nat := 0;
    var index: nat := 0;
    ghost var seen: seq<bv32> := [];
    assert chars[0..] == chars && out[..0] == [];
    for i := 0 to |chars|
      invariant index <= out.Length && Reading(chars, i, out[..index], bitBuffer, bitCount, seen, 6, 8)
    {
      var value := Lookup(chars[i]);
      if value.Some? {
        bitBuffer, bitCount, index := Push(out, bitBuffer, bitCount, index, value.value, chars, i, seen, 6, 8);
        seen := seen + [value.value];
      } else {
        SkipOne(chars, i, out[..index], bitBuffer, bitCount, seen, 6, 8);
      }
    }
    bytes := out[..index];
    ReadAll(chars, bytes, bitBuffer, bitCount, seen, 6, 8);
  }

  lemma {:induction false} ReadAll(chars: string, out: seq<bv32>, w: bv32, count: nat, seen: seq<bv32>, k: nat, o: nat)
    requires k == 6 && o == 8 && Reading(chars, |chars|, out, w, count, seen, k, o)
    ensures out == Decoded(chars)
  {
    assert chars[|chars|..] == "" && seen + [] == seen;
    DecodingEnd(k, out, w, count, seen);
  }

  // ---------------------------------------------------------------- round trips

  lemma {:induction false} CharReads(d: bv32)
    requires d < 64
    ensures Lookup(FromUrl(CharOf(d))) == Some(d)
  {
    LookupCharOf(d);
  }

  lemma {:induction false} SextetsOfChars(digits: seq<bv32>)
    requires Small(digits)
    ensures Sextets(Chars(digits)) == digits
  {
    if digits != [] {
      SextetsOfChars(digits[1..]);
      CharReads(digits[0]);
      assert Chars(digits)[1..] == Chars(digits[1..]);
      assert [digits[0]] + digits[1..] == digits;
    }
  }

  lemma {:induction false} PaddedSextets(digits: seq<bv32>)
    requires Small(digits)
    ensures Sextets(Padded(digits)) == digits
  {
    var n := (4 - |digits| % 4) % 4;
    SextetsOfPad(n);
    SextetsOfChars(digits);
    SextetsConcat(Chars(digits), Repeat('=', n));
  }

  lemma {:induction false} EncodedSextets(bytes: seq<Byte>)
    ensures Sextets(Encoded(bytes)) == Digits(6, Flat(8, bytes))
  {
    DigitsFit(Flat(8, bytes));
    PaddedSextets(Digits(6, Flat(8, bytes)));
  }

  lemma {:induction false} UrlSameDigits(text: string)
    ensures Sextets(MapChars(text, ToUrl)) == Sextets(text)
  {
    if text != "" {
      UrlSameDigits(text[1..]);
      assert MapChars(text, ToUrl)[1..] == MapChars(text[1..], ToUrl);
    }
  }

  lemma {:induction false} BytesFit(bytes: seq<Byte>)
    ensures AllFit(bytes, 8)
  {
  }

  /** Decoding undoes encoding for every byte sequence, in the padded and in the URL-safe unpadded form. */
  lemma {:induction false} RoundTrip(bytes: seq<Byte>)
    ensures Decoded(Encoded(bytes)) == bytes
    ensures Decoded(EncodedUrl(bytes)) == bytes
  {
    EncodedSextets(bytes);
    BytesFit(bytes);
    Regroup(6, bytes);
    UrlSameDigits(Encoded(bytes));
    StripKeeps(MapChars(Encoded(bytes), ToUrl));
  }

  lemma {:induction false} DigitsLength(bits: seq<bool>)
    ensures |Digits(6, bits)| == (|bits| + 5) / 6
  {
    if |bits| >= 6 { DigitsLength(bits[6..]); }
  }

  /** The padded text has four characters for every three octets, counting a started three as whole. */
  lemma {:induction false} EncodedLength(bytes: seq<Byte>)
    ensures |Encoded(bytes)| == 4 * ((|bytes| + 2) / 3)
  {
    FlatLength(8, bytes);
    DigitsFit(Flat(8, bytes));
    DigitsLength(Flat(8, bytes));
    PaddedLength(Digits(6, Flat(8, bytes)), |bytes| / 3, |bytes| % 3);
  }

  lemma {:induction false} PaddedLength(digits: seq<bv32>, q: nat, r: nat)
    requires Small(digits) && r < 3 && |digits| == (8 * (3 * q + r) + 5) / 6
    ensures |Padded(digits)| == 4 * ((3 * q + r + 2) / 3)
  {
    DigitCount(q, r);
    PaddedCount(q, r, |digits|);
  }

  /** The digits that a last chunk of `r` octets has. */
  function LastDigits(r: nat): nat { if r == 0 then 0 else r + 1 }

  lemma {:induction false} DigitCount(q: nat, r: nat)
    requires r < 3
    ensures (8 * (3 * q + r) + 5) / 6 == 4 * q + LastDigits(r)
  {
  }

  lemma {:induction false} PaddedCount(q: nat, r: nat, m: nat)
    requires r < 3 && m == 4 * q + LastDigits(r)
    ensures m + (4 - m % 4) % 4 == 4 * ((3 * q + r + 2) / 3)
  {
  }

  /** The codec as it runs, both ways. */
  method EncodeDecode(bytes: seq<Byte>) returns (back: seq<bv32>)
    ensures back == bytes
  {
    var text := BytesToBase64(bytes);
    back := Base64ToBytes(text);
    RoundTrip(bytes);
  }
}

/** The panel's base32 codec for TOTP secrets (RFC 4648 section 6, without padding). */
module Base32 {
  import opened Text
  import opened Bits

  /** `BASE32_ALPHABET` */
  function Alphabet(): (s: string)
    ensures |s| == 32
  {
    Range('A', 26) + Range('2', 6)
  }

  /** `BASE32_ALPHABET.indexOf(c)` */
  function Position(c: char): Option<nat> {
    if 'A' <= c <= 'Z' then Some(c as int - 'A' as int)
    else if '2' <= c <= '7' then Some(c as int - '2' as int + 26)
    else None
  }

  lemma {:induction false} AlphabetPosition(i: nat, c: char)
    ensures i < 32 ==> (Alphabet()[i] == c <==> Position(c) == Some(i))
    ensures Position(c).Some? ==> Position(c).value < 32
  {
  }

  function Lookup(c: char): (d: Option<bv32>)
    ensures d.Some? ==> d.value < 32
  {
    AlphabetPosition(0, c);
    if Position(c).Some? then Some(Position(c).value as bv32) else None
  }

  function CharOf(d: bv32): char
    requires d < 32
  {
    Alphabet()[d as int]
  }

  lemma {:induction false} LookupCharOf(d: bv32)
    requires d < 32
    ensures Lookup(CharOf(d)) == Some(d)
  {
  }

  predicate Small(digits: seq<bv32>) { forall i | 0 <= i < |digits| :: digits[i] < 32 }

  function Chars(digits: seq<bv32>): (s: string)
    requires Small(digits)
    ensures |s| == |digits|
  {
    if digits == [] then "" else [CharOf(digits[0])] + Chars(digits[1..])
  }

  /** `toUpperCase` on one ASCII character. */
  function Upper(c: char): char { if 'a' <= c <= 'z' then (c as int - 32) as char else c }

  /** The 5-bit digit that a character stands for, in either case. */
  function Quintet(c: char): (d: seq<bv32>)
    ensures Small(d)
  {
    var d := Lookup(Upper(c));
    if d.Some? then [d.value] else []
  }

  /** The digits that a text holds; every other character is skipped. */
  function Quintets(text: string): (digits: seq<bv32>)
    ensures Small(digits)
  {
    if text == "" then [] else Quintet(text[0]) + Quintets(text[1..])
  }

  /** RFC 4648 section 6: 5-bit groups of the octets' bit stream. */
  function Encoded(bytes: seq<Byte>): string {
    DigitsFit(Flat(8, bytes));
    Chars(Digits(5, Flat(8, bytes)))
  }

  /** The octets that the digits of a text fill. */
  function Decoded(text: string): seq<bv32> { Octets(Flat(5, Quintets(text))) }

  lemma {:induction false} DigitsFit(bits: seq<bool>)
    ensures Small(Digits(5, bits))
  {
    var _ := FlatOfDigits(5, bits);
    FitSmall(Digits(5, bits));
  }

  lemma {:induction false} FitSmall(digits: seq<bv32>)
    requires AllFit(digits, 5)
    ensures Small(digits)
  {
    forall i | 0 <= i < |digits| ensures digits[i] < 32 { assert digits[i] in digits; FitsByte(digits[i]); }
  }

  // ---------------------------------------------------------------- encoding

  /** The digits written and the `count` low bits of an accumulator that is never masked spell the octets read.
      The widths `k` and `o` are 5 and 8. */
  ghost predicate Encoding(k: nat, o: nat, digits: seq<bv32>, w: bv32, count: nat, seen: seq<bv32>) {
    Small(digits) && Flat(k, digits) + Low(w, count) == Flat(o, seen)
  }

  lemma {:induction false} SeeOctet(k: nat, o: nat, digits: seq<bv32>, w: bv32, count: nat, seen: seq<bv32>, b: bv32)
    requires o == 8 && count < 8 && b < 256 && Encoding(k, o, digits, w, count, seen)
    ensures Encoding(k, o, digits, (w << 8) | b, count + o, seen + [b])
  {
    ShiftIn8(w, b, count);
    FlatSnoc(o, seen, b);
    Associative(Flat(k, digits), Low(w, count), Low(b, o));
  }

  lemma {:induction false} SmallSnoc(digits: seq<bv32>, d: bv32)
    requires Small(digits) && d < 32
    ensures Small(digits + [d]) && Chars(digits + [d]) == Chars(digits) + [CharOf(d)]
  {
    if digits == [] {
      assert Chars([d]) == [CharOf(d)] + Chars([]);
    } else {
      SmallSnoc(digits[1..], d);
      assert (digits + [d])[1..] == digits[1..] + [d];
      AssociativeText([CharOf(digits[0])], Chars(digits[1..]), [CharOf(d)]);
    }
  }

  /** `(value >>> (bits - 5)) & 31` takes the oldest five bits out of the accumulator. */
  lemma {:induction false} EmitDigit(k: nat, o: nat, digits: seq<bv32>, w: bv32, rest: nat, seen: seq<bv32>, d: bv32)
    requires k == 5 && Encoding(k, o, digits, w, rest + k, seen) && d == Shr(w, rest) & 31
    ensures d < 32 && Encoding(k, o, digits + [d], w, rest, seen)
  {
    TakeOut5(w, rest);
    FitsByte(d);
    SmallSnoc(digits, d);
    FlatSnoc(k, digits, d);
    Associative(Flat(k, digits), Low(d, k), Low(w, rest));
  }

  lemma {:induction false} ShlLow(w: bv32, n: nat, m: nat)
    requires n + m <= 8
    ensures Low(Shl(w, m), n + m) == Low(w, n) + Zeros(m)
    decreases m
  {
    if m == 0 {
      assert Low(w, n) + Zeros(0) == Low(w, n);
    } else {
      ShlLow(w << 1, n + 1, m - 1);
      Masks();
      CoversLess(255, 8, n);
      LowMasked((w << 1) >> 1, w, 255, n);
      assert [false] + Zeros(m - 1) == Zeros(m);
      Associative(Low(w, n), [false], Zeros(m - 1));
    }
  }

  /** `(value << (5 - bits)) & 31` fills the last digit up with zeros. */
  lemma {:induction false} LastQuintet(w: bv32, count: nat, d: bv32, k: nat)
    requires k == 5 && 0 < count < k && d == Shl(w, k - count) & 31
    ensures d < 32 && Low(d, k) == Low(w, count) + Zeros(k - count)
  {
  }

  lemma {:induction false} LastEmit(k: nat, o: nat, digits: seq<bv32>, w: bv32, count: nat, seen: seq<bv32>, d: bv32)
    requires k == 5 && 0 < count < k && Encoding(k, o, digits, w, count, seen) && d == Shl(w, k - count) & 31
    ensures d < 32 && Flat(k, digits + [d]) == Flat(o, seen) + Zeros(k - count)
  {
    LastQuintet(w, count, d, k);
    FlatSnoc(k, digits, d);
    Associative(Flat(k, digits), Low(w, count), Zeros(k - count));
  }

  lemma {:induction false} Finished(digits: seq<bv32>, bytes: seq<Byte>, pad: nat)
    requires Small(digits) && pad < 5 && Flat(5, digits) == Flat(8, bytes) + Zeros(pad)
    ensures Encoded(bytes) == Chars(digits)
  {
    forall d | d in digits ensures Fits(d, 5) { FitsByte(d); }
    DigitsOfFlat(5, digits, Flat(8, bytes), pad);
  }

  /** What both loops of the encoder keep. */
  ghost predicate Progress(k: nat, o: nat, digits: seq<bv32>, w: bv32, count: nat, seen: seq<bv32>, output: string) {
    Encoding(k, o, digits, w, count, seen) && output == Chars(digits)
  }

  lemma {:induction false} ProgressSee(digits: seq<bv32>, w: bv32, count: nat, seen: seq<bv32>, output: string, b: bv32)
    requires count < 5 && b < 256 && Progress(5, 8, digits, w, count, seen, output)
    ensures Progress(5, 8, digits, (w << 8) | b, count + 8, seen + [b], output)
  {
    SeeOctet(5, 8, digits, w, count, seen, b);
  }

  lemma {:induction false} ProgressEmit(k: nat, o: nat, digits: seq<bv32>, w: bv32, count: nat, seen: seq<bv32>,
      output: string, d: bv32)
    requires k == 5 && count >= k && Progress(k, o, digits, w, count, seen, output) && d == Shr(w, count - k) & 31
    ensures d < 32 && Progress(k, o, digits + [d], w, count - k, seen, output + [CharOf(d)])
  {
    EmitDigit(k, o, digits, w, count - k, seen, d);
    SmallSnoc(digits, d);
  }

  lemma {:induction false} ProgressEnd(digits: seq<bv32>, w: bv32, count: nat, bytes: seq<Byte>, output: string,
      d: bv32)
    requires count < 5 && Progress(5, 8, digits, w, count, bytes, output) && d == Shl(w, 5 - count) & 31
    ensures d < 32 && (count > 0 ==> output + [CharOf(d)] == Encoded(bytes))
            && (count == 0 ==> output == Encoded(bytes))
  {
    if count > 0 {
      LastEmit(5, 8, digits, w, count, bytes, d);
      SmallSnoc(digits, d);
      Finished(digits + [d], bytes, 5 - count);
    } else {
      assert Low(w, 0) == Zeros(0);
      Finished(digits, bytes, 0);
    }
  }

  /** The encoder's inner loop. */
  method Drain(value: bv32, count: nat, text: string, ghost written: seq<bv32>, ghost seen: seq<bv32>, ghost k: nat,
      ghost o: nat)
      returns (bits: nat, output: string, ghost digits: seq<bv32>)
    requires k == 5 && Progress(k, o, written, value, count, seen, text)
    ensures bits < 5 && Progress(k, o, digits, value, bits, seen, output)
  {
    bits, output, digits := count, text, written;
    while bits >= 5
      invariant Progress(k, o, digits, value, bits, seen, output)
    {
      var d := Shr(value, bits - 5) & 31;
      ProgressEmit(k, o, digits, value, bits, seen, output, d);
      output := output + [CharOf(d)];
      digits := digits + [d];
      bits := bits - 5;
    }
  }

  /** One round of the encoder's outer loop. */
  method Feed(value: bv32, count: nat, text: string, byte: Byte, ghost written: seq<bv32>, ghost seen: seq<bv32>)
      returns (next: bv32, bits: nat, output: string, ghost digits: seq<bv32>)
    requires count < 5 && Progress(5, 8, written, value, count, seen, text)
    ensures bits < 5 && Progress(5, 8, digits, next, bits, seen + [byte], output)
  {
    ProgressSee(written, value, count, seen, text, byte);
    next := (value << 8) | byte;
    bits, output, digits := Drain(next, count + 8, text, written, seen + [byte], 5, 8);
  }

  lemma {:induction false} Prefix(bytes: seq<Byte>, i: nat, seen: seq<bv32>) returns (next: seq<bv32>)
    requires i < |bytes| && seen == bytes[..i]
    ensures next == seen + [bytes[i]] == bytes[..i + 1]
  {
    next := seen + [bytes[i]];
  }

  /** `base32Encode` */
  method Base32Encode(bytes: seq<Byte>) returns (output: string)
    ensures output == Encoded(bytes)
  {
    var bits: nat := 0;
    var value: bv32 := 0;
    output := "";
    ghost var digits: seq<bv32> := [];
    ghost var seen: seq<bv32> := [];
    for i := 0 to |bytes|
      invariant bits < 5 && seen == bytes[..i] && Progress(5, 8, digits, value, bits, seen, output)
    {
      value, bits, output, digits := Feed(value, bits, output, bytes[i], digits, seen);
      seen := Prefix(bytes, i, seen);
    }
    assert seen == bytes;
    var d := Shl(value, 5 - bits) & 31;
    ProgressEnd(digits, value, bits, bytes, output, d);
    if bits > 0 {
      output := output + [CharOf(d)];
    }
  }

  // ---------------------------------------------------------------- decoding

  function DropSpaces(s: string): string {
    if s == "" then "" else (if IsSpace(s[0]) then "" else [s[0]]) + DropSpaces(s[1..])
  }

  lemma {:induction false} QuintetsFlat(s: string)
    ensures Quintets(s) == FlatMap(s, Quintet)
  {
    if s != "" { QuintetsFlat(s[1..]); }
  }

  lemma {:induction false} QuintetsConcat(a: string, b: string)
    ensures Quintets(a + b) == Quintets(a) + Quintets(b)
  {
    QuintetsFlat(a);
    QuintetsFlat(b);
    QuintetsFlat(a + b);
    FlatMapConcat(a, b, Quintet);
  }

  lemma {:induction false} UpperKeeps(s: string)
    ensures Quintets(MapChars(s, Upper)) == Quintets(s)
  {
    if s != "" {
      UpperKeeps(s[1..]);
      assert MapChars(s, Upper)[1..] == MapChars(s[1..], Upper);
      assert Upper(Upper(s[0])) == Upper(s[0]);
    }
  }

  lemma {:induction false} StripKeeps(s: string)
    ensures Quintets(StripPad(s)) == Quintets(s)
  {
    if s != "" && s[|s| - 1] == '=' {
      var init := s[..|s| - 1];
      StripKeeps(init);
      PadKeeps(init, s);
    }
  }

  lemma {:induction false} PadKeeps(init: string, s: string)
    requires s == init + ['=']
    ensures Quintets(s) == Quintets(init)
  {
    QuintetsConcat(init, ['=']);
  }

  lemma {:induction false} ConsKeeps(c: char, a: string, b: string)
    requires Quintets(a) == Quintets(b)
    ensures Quintets([c] + a) == Quintets([c] + b)
    ensures IsSpace(c) ==> Quintets([c] + b) == Quintets(a)
  {
  }

  lemma {:induction false} DropCons(c: char, rest: string, s: string)
    requires s != "" && c == s[0] && rest == s[1..]
    ensures s == [c] + rest && DropSpaces(s) == if IsSpace(c) then DropSpaces(rest) else [c] + DropSpaces(rest)
  {
    assert "" + DropSpaces(rest) == DropSpaces(rest);
  }

  lemma {:induction false} SpacesKeep(s: string)
    ensures Quintets(DropSpaces(s)) == Quintets(s)
  {
    if s != "" {
      var c, rest := s[0], s[1..];
      SpacesKeep(rest);
      DropCons(c, rest, s);
      ConsKeeps(c, DropSpaces(rest), rest);
    }
  }

  predicate AllUpper(s: string) { forall i | 0 <= i < |s| :: Upper(s[i]) == s[i] }

  lemma {:induction false} MapUpper(s: string)
    ensures AllUpper(MapChars(s, Upper))
  {
    if s != "" { MapUpper(s[1..]); }
  }

  lemma {:induction false} SpacesUpper(s: string)
    requires AllUpper(s)
    ensures AllUpper(DropSpaces(s))
  {
    if s != "" {
      assert AllUpper(s[1..]);
      SpacesUpper(s[1..]);
    }
  }

  /** `base32Decode`; `0xff` masks what leaves the accumulator, never the accumulator itself. */
  method Base32Decode(input: string) returns (out: seq<bv32>)
    ensures out == Decoded(input)
  {
    var upper := MapChars(input, Upper);
    var stripped := StripPad(upper);
    var clean := DropSpaces(stripped);
    UpperKeeps(input);
    StripKeeps(upper);
    SpacesKeep(stripped);
    MapUpper(input);
    StripPrefix(upper);
    SpacesUpper(stripped);
    out := DecodeChars(clean);
  }

  /** The decoder's work on one character that has an index. */
  method Push(value: bv32, bits: nat, out: seq<bv32>, index: bv32, ghost seen: seq<bv32>)
      returns (value': bv32, bits': nat, out': seq<bv32>)
    requires index < 32 && Decoding(5, 8, out, value, bits, seen)
    ensures Decoding(5, 8, out', value', bits', seen + [index])
  {
    value' := (value << 5) | index;
    bits' := bits + 5;
    out' := out;
    Absorb(5, 8, out, value, bits, seen, index, value');
    if bits' >= 8 {
      out' := out + [Shr(value', bits' - 8) & 0xff];
      bits' := bits' - 8;
    }
  }

  method DecodeChars(clean: string) returns (out: seq<bv32>)
    requires AllUpper(clean)
    ensures out == Decoded(clean)
  {
    var bits: nat := 0;
    var value: bv32 := 0;
    out := [];
    ghost var seen: seq<bv32> := [];
    assert clean[0..] == clean;
    for i := 0 to |clean|
      invariant Quintets(clean) == seen + Quintets(clean[i..]) && Decoding(5, 8, out, value, bits, seen)
    {
      var index := Lookup(clean[i]);
      NextQuintet(clean, i, seen);
      if index.Some? {
        value, bits, out := Push(value, bits, out, index.value, seen);
        seen := seen + [index.value];
      }
    }
    assert seen == Quintets(clean) by { assert clean[|clean|..] == ""; }
    DecodingEnd(5, out, value, bits, seen);
  }

  lemma {:induction false} NextQuintet(clean: string, i: nat, seen: seq<bv32>)
    requires i < |clean| && AllUpper(clean) && Quintets(clean) == seen + Quintets(clean[i..])
    ensures Lookup(clean[i]).Some? ==> Quintets(clean) == seen + [Lookup(clean[i]).value] + Quintets(clean[i + 1..])
    ensures Lookup(clean[i]).None? ==> Quintets(clean) == seen + Quintets(clean[i + 1..])
  {
  }

  // ---------------------------------------------------------------- round trip

  lemma {:induction false} QuintetsOfChars(digits: seq<bv32>)
    requires Small(digits)
    ensures Quintets(Chars(digits)) == digits
  {
    if digits != [] {
      QuintetsOfChars(digits[1..]);
      LookupCharOf(digits[0]);
      QuintetsConcat([CharOf(digits[0])], Chars(digits[1..]));
      assert Upper(CharOf(digits[0])) == CharOf(digits[0]);
    }
  }

  /** Decoding undoes encoding for every byte sequence: the bits that pad the last digit never become a byte. */
  lemma {:induction false} RoundTrip(bytes: seq<Byte>)
    ensures Decoded(Encoded(bytes)) == bytes
  {
    DigitsFit(Flat(8, bytes));
    QuintetsOfChars(Digits(5, Flat(8, bytes)));
    forall b | b in bytes ensures Fits(b, 8) { FitsByte(b); }
    Regroup(5, bytes);
  }

  lemma {:induction false} DigitsLength(bits: seq<bool>)
    ensures |Digits(5, bits)| == (|bits| + 4) / 5
  {
    if |bits| >= 5 { DigitsLength(bits[5..]); }
  }

  /** One character for every started five bits: `ceil(8 n / 5)`. */
  lemma {:induction false} EncodedLength(bytes: seq<Byte>)
    ensures |Encoded(bytes)| == (8 * |bytes| + 4) / 5
  {
    DigitsFit(Flat(8, bytes));
    DigitsLength(Flat(8, bytes));
    FlatLength(8, bytes);
  }

  /** What each character stands for: a letter in either case the digits 0 to 25, 2 to 7 the digits 26 to 31, and every
      other nothing. */
  lemma {:induction false} QuintetValues(c: char)
    ensures 'A' <= c <= 'Z' ==> Lookup(Upper(c)).Some? && Lookup(Upper(c)).value == (c as int - 65) as bv32
    ensures 'a' <= c <= 'z' ==> Lookup(Upper(c)).Some? && Lookup(Upper(c)).value == (c as int - 97) as bv32
    ensures '2' <= c <= '7' ==> Lookup(Upper(c)).Some? && Lookup(Upper(c)).value == (c as int - 24) as bv32
    ensures !('A' <= c <= 'Z' || 'a' <= c <= 'z' || '2' <= c <= '7') ==> Quintet(c) == []
    ensures Lookup(Upper(c)).Some? ==> Quintet(c) == [Lookup(Upper(c)).value]
  {
    assert 'a' <= c <= 'z' ==> Upper(c) as int - 65 == c as int - 97;
  }

  /** The way a secret may be retyped: in either case, with white space inside and padding behind. */
  ghost predicate Retyped(text: string, original: string) {
    exists spaced: string, pads: nat :: DropSpaces(spaced) == ToLower(original)
        && ToLower(text) == spaced + Repeat('=', pads)
  }

  lemma {:induction false} LowerKeeps(s: string)
    ensures Quintets(ToLower(s)) == Quintets(s)
  {
    if s != "" {
      LowerKeeps(s[1..]);
      assert ToLower(s)[1..] == ToLower(s[1..]) && ToLower(s)[0] == ToLowerChar(s[0]);
      LowerQuintet(s[0]);
    }
  }

  lemma {:induction false} LowerQuintet(c: char)
    ensures Quintet(ToLowerChar(c)) == Quintet(c)
  {
    assert Upper(ToLowerChar(c)) == Upper(c);
  }

  lemma {:induction false} PadQuintets(n: nat)
    ensures Quintets(Repeat('=', n)) == []
  {
    if n > 0 {
      PadQuintets(n - 1);
      PadKeeps(Repeat('=', n - 1), Repeat('=', n));
    }
  }

  /** Case, spaces and padding make no difference to what a secret decodes to. */
  lemma {:induction false} RetypedRoundTrip(bytes: seq<Byte>, text: string)
    requires Retyped(text, Encoded(bytes))
    ensures Decoded(text) == bytes
  {
    var spaced: string, pads: nat :| DropSpaces(spaced) == ToLower(Encoded(bytes))
        && ToLower(text) == spaced + Repeat('=', pads);
    LowerKeeps(text);
    LowerKeeps(Encoded(bytes));
    SpacesKeep(spaced);
    PadQuintets(pads);
    QuintetsConcat(spaced, Repeat('=', pads));
    assert Quintets(spaced) + [] == Quintets(spaced);
    RoundTrip(bytes);
  }
}

/** 32-bit words as the bits they hold: what RFC 4648 calls the bit stream, over JavaScript's bitwise operators. */
module Bits {

  /** An element of a `Uint8Array`, as the 32-bit word it becomes in a bitwise expression. */
  type Byte = b: bv32 | b < 256

  /** `w >>> n` */
  function Shr(w: bv32, n: nat): bv32
    decreases n
  {
    if n == 0 then w else Shr(w >> 1, n - 1)
  }

  /** `w << n` */
  function Shl(w: bv32, n: nat): bv32
    decreases n
  {
    if n == 0 then w else Shl(w << 1, n - 1)
  }

  /** `w >> n`, which copies the sign bit. */
  function Sar(w: bv32, n: nat): bv32
    decreases n
  {
    if n == 0 then w else Sar((w >> 1) | (w & 0x8000_0000), n - 1)
  }

  /** The `n` low bits of a word, the most significant first. */
  function Low(w: bv32, n: nat): (bits: seq<bool>)
    ensures |bits| == n
    decreases n
  {
    if n == 0 then [] else Low(w >> 1, n - 1) + [w & 1 == 1]
  }

  /** The word that some bits spell. */
  function Word(bits: seq<bool>): bv32 {
    if bits == [] then 0 else (Word(bits[..|bits| - 1]) << 1) | (if bits[|bits| - 1] then 1 else 0)
  }

  function Zeros(n: nat): (bits: seq<bool>)
    ensures |bits| == n && forall i | 0 <= i < n :: !bits[i]
  {
    seq(n, _ => false)
  }

  /** The bit stream of a sequence of `k`-bit digits. */
  function Flat(k: nat, digits: seq<bv32>): seq<bool> {
    if digits == [] then [] else Low(digits[0], k) + Flat(k, digits[1..])
  }

  /** A bit stream cut into `k`-bit digits, the last one filled with zeros. */
  function Digits(k: nat, bits: seq<bool>): seq<bv32>
    requires k > 0
    decreases |bits|
  {
    if bits == [] then []
    else if |bits| < k then [Word(bits + Zeros(k - |bits|))]
    else [Word(bits[..k])] + Digits(k, bits[k..])
  }

  /** A bit stream cut into octets, leaving out what does not fill one. */
  function Octets(bits: seq<bool>): seq<bv32>
    decreases |bits|
  {
    if |bits| < 8 then [] else [Word(bits[..8])] + Octets(bits[8..])
  }

  /** Words below `2^n`. */
  predicate Fits(w: bv32, n: nat) { Shr(w, n) == 0 }

  lemma {:induction false} FitsMore(w: bv32, n: nat)
    requires Fits(w, n)
    ensures Fits(w, n + 1)
    decreases n
  {
    if n == 0 { assert Shr(0 as bv32, 1) == 0; } else { FitsMore(w >> 1, n - 1); }
  }

  lemma {:induction false} FitsUpTo(w: bv32, n: nat, m: nat)
    requires n <= m && Fits(w, n)
    ensures Fits(w, m)
    decreases m - n
  {
    if n < m { FitsMore(w, n); FitsUpTo(w, n + 1, m); }
  }

  lemma {:induction false} ShrAdd(w: bv32, n: nat, m: nat)
    ensures Shr(w, n + m) == Shr(Shr(w, n), m)
    decreases n
  {
    if n > 0 { ShrAdd(w >> 1, n - 1, m); }
  }

  lemma {:induction false} FitsByte(w: bv32)
    ensures Fits(w, 8) <==> w < 256
    ensures Fits(w, 6) <==> w < 64
    ensures Fits(w, 5) <==> w < 32
  {
  }

  lemma {:induction false} ShiftBack(w: bv32, b: bool)
    requires w < 256
    ensures ((w << 1) | (if b then 1 else 0)) >> 1 == w && (((w << 1) | (if b then 1 else 0)) & 1 == 1 <==> b)
  {
  }

  lemma {:induction false} WordFits(bits: seq<bool>)
    requires |bits| <= 8
    ensures Fits(Word(bits), |bits|) && Low(Word(bits), |bits|) == bits
  {
    if bits != [] {
      var init := bits[..|bits| - 1];
      WordFits(init);
      FitsUpTo(Word(init), |init|, 8);
      FitsByte(Word(init));
      ShiftBack(Word(init), bits[|bits| - 1]);
      assert bits == init + [bits[|bits| - 1]];
    }
  }

  lemma {:induction false} WordOfLow(w: bv32, n: nat)
    requires Fits(w, n)
    ensures Word(Low(w, n)) == w
    decreases n
  {
    if n > 0 {
      WordOfLow(w >> 1, n - 1);
    }
  }

  /** A word's low bits are those of the shifted word and then those shifted out. */
  lemma {:induction false} LowSplit(w: bv32, n: nat, m: nat)
    ensures Low(w, n + m) == Low(Shr(w, m), n) + Low(w, m)
    decreases m
  {
    if m > 0 { LowSplit(w >> 1, n, m - 1); }
  }

  /** `m` masks at least the `n` low bits. */
  predicate Covers(m: bv32, n: nat)
    decreases n
  {
    n == 0 || (m & 1 == 1 && Covers(m >> 1, n - 1))
  }

  lemma {:induction false} LowMasked(w: bv32, v: bv32, m: bv32, n: nat)
    requires w & m == v & m && Covers(m, n)
    ensures Low(w, n) == Low(v, n)
    decreases n
  {
    if n > 0 {
      LowMasked(w >> 1, v >> 1, m >> 1, n - 1);
    }
  }

  lemma {:induction false} CoversLess(m: bv32, n: nat, k: nat)
    requires Covers(m, n) && k <= n
    ensures Covers(m, k)
    decreases k
  {
    if k > 0 { CoversLess(m >> 1, n - 1, k - 1); }
  }

  lemma {:induction false} Masks()
    ensures Covers(31, 5) && Covers(63, 6) && Covers(255, 8)
  {
  }

  /** Shifting in a digit of `k` bits appends its bits, whatever the shift pushes out at the top. */
  lemma {:induction false} ShiftInAt(x: bv32, w: bv32, d: bv32, mask: bv32, k: nat, n: nat)
    requires n <= 8 && Covers(mask, k)
    requires Shr(x, k) & 255 == w & 255 && x & mask == d & mask
    ensures Low(x, n + k) == Low(w, n) + Low(d, k)
  {
    Masks();
    CoversLess(255, 8, n);
    LowSplit(x, n, k);
    LowMasked(Shr(x, k), w, 255, n);
    LowMasked(x, d, mask, k);
  }

  lemma {:induction false} ShiftIn5(w: bv32, d: bv32, n: nat)
    requires n <= 8 && d <= 31
    ensures Low((w << 5) | d, n + 5) == Low(w, n) + Low(d, 5)
  {
    Masks();
    ShiftInAt((w << 5) | d, w, d, 31, 5, n);
  }

  lemma {:induction false} ShiftIn6(w: bv32, d: bv32, n: nat)
    requires n <= 8 && d <= 63
    ensures Low((w << 6) | d, n + 6) == Low(w, n) + Low(d, 6)
  {
    Masks();
    ShiftInAt((w << 6) | d, w, d, 63, 6, n);
  }

  lemma {:induction false} ShiftIn8(w: bv32, d: bv32, n: nat)
    requires n <= 8 && d <= 255
    ensures Low((w << 8) | d, n + 8) == Low(w, n) + Low(d, 8)
  {
    Masks();
    ShiftInAt((w << 8) | d, w, d, 255, 8, n);
  }

  /** The top `k` of the low bits of a word, taken out by a shift and a mask. */
  lemma {:induction false} TakeOut(w: bv32, mask: bv32, k: nat, rest: nat)
    requires Covers(mask, k)
    ensures Low(w, rest + k) == Low(Shr(w, rest) & mask, k) + Low(w, rest)
  {
    LowSplit(w, k, rest);
    LowMasked(Shr(w, rest) & mask, Shr(w, rest), mask, k);
  }

  lemma {:induction false} TakeOut5(w: bv32, rest: nat)
    ensures Low(w, rest + 5) == Low(Shr(w, rest) & 31, 5) + Low(w, rest) && Fits(Shr(w, rest) & 31, 5)
  {
    Masks();
    TakeOut(w, 31, 5, rest);
    FitsByte(Shr(w, rest) & 31);
  }

  lemma {:induction false} TakeOut8(w: bv32, rest: nat)
    ensures Low(w, rest + 8) == Low(Shr(w, rest) & 255, 8) + Low(w, rest) && Fits(Shr(w, rest) & 255, 8)
  {
    Masks();
    TakeOut(w, 255, 8, rest);
    FitsByte(Shr(w, rest) & 255);
  }

  lemma {:induction false} FlatLength(k: nat, digits: seq<bv32>)
    ensures |Flat(k, digits)| == k * |digits|
  {
    if digits != [] { FlatLength(k, digits[1..]); }
  }

  lemma {:induction false} Associative(a: seq<bool>, b: seq<bool>, c: seq<bool>)
    ensures a + (b + c) == a + b + c
  {
  }

  lemma {:induction false} AssociativeWords(a: seq<bv32>, b: seq<bv32>, c: seq<bv32>)
    ensures a + b + c == a + (b + c)
  {
  }

  lemma {:induction false} FlatConcat(k: nat, a: seq<bv32>, b: seq<bv32>)
    ensures Flat(k, a + b) == Flat(k, a) + Flat(k, b)
  {
    if a == [] {
      assert a + b == b;
    } else {
      FlatConcat(k, a[1..], b);
      assert (a + b)[1..] == a[1..] + b;
      Associative(Low(a[0], k), Flat(k, a[1..]), Flat(k, b));
    }
  }

  lemma {:induction false} FlatOne(k: nat, d: bv32)
    ensures Flat(k, [d]) == Low(d, k)
  {
  }

  predicate AllFit(digits: seq<bv32>, k: nat) { forall d | d in digits :: Fits(d, k) }

  /** Cutting undoes flattening, whatever short rest follows. */
  lemma {:induction false} OctetsOfFlat(bytes: seq<bv32>, rest: seq<bool>)
    requires AllFit(bytes, 8) && |rest| < 8
    ensures Octets(Flat(8, bytes) + rest) == bytes
  {
    if bytes != [] {
      assert bytes[0] in bytes;
      OctetsOfFlat(bytes[1..], rest);
      WordOfLow(bytes[0], 8);
      Associative(Low(bytes[0], 8), Flat(8, bytes[1..]), rest);
    }
  }

  lemma {:induction false} DigitsOfFlat(k: nat, digits: seq<bv32>, bits: seq<bool>, pad: nat)
    requires 0 < k && pad < k && AllFit(digits, k)
    requires Flat(k, digits) == bits + Zeros(pad)
    ensures Digits(k, bits) == digits
    decreases |digits|
  {
    if digits == [] {
      assert bits == [];
    } else {
      assert digits[0] in digits;
      WordOfLow(digits[0], k);
      var flat := Flat(k, digits);
      FlatLength(k, digits);
      assert flat[..k] == Low(digits[0], k);
      assert flat[k..] == Flat(k, digits[1..]);
      if |bits| < k {
        assert |flat| < 2 * k;
        assert k * |digits| < 2 * k;
        assert |digits| == 1;
        assert flat[..k] == flat;
        assert pad == k - |bits|;
      } else {
        assert bits[..k] == flat[..k];
        assert flat[k..] == bits[k..] + Zeros(pad);
        DigitsOfFlat(k, digits[1..], bits[k..], pad);
      }
    }
  }

  /** The digits of a bit stream hold it, padded with fewer than `k` zeros. */
  lemma {:induction false} FlatOfDigits(k: nat, bits: seq<bool>) returns (pad: nat)
    requires 0 < k <= 8
    ensures pad < k && Flat(k, Digits(k, bits)) == bits + Zeros(pad) && AllFit(Digits(k, bits), k)
    decreases |bits|
  {
    if bits == [] {
      pad := 0;
    } else if |bits| < k {
      pad := k - |bits|;
      LastDigit(k, bits);
    } else {
      pad := FlatOfDigits(k, bits[k..]);
      FirstDigit(k, bits, bits[..k], bits[k..], pad);
    }
  }

  lemma {:induction false} FirstDigit(k: nat, bits: seq<bool>, first: seq<bool>, others: seq<bool>, pad: nat)
    requires 0 < k <= 8 && |first| == k && bits == first + others
    requires Flat(k, Digits(k, others)) == others + Zeros(pad) && AllFit(Digits(k, others), k)
    ensures Flat(k, [Word(first)] + Digits(k, others)) == bits + Zeros(pad)
            && AllFit([Word(first)] + Digits(k, others), k)
  {
    WordFits(first);
    Associative(first, others, Zeros(pad));
  }

  lemma {:induction false} LastDigit(k: nat, bits: seq<bool>)
    requires 0 < |bits| < k <= 8
    ensures Flat(k, Digits(k, bits)) == bits + Zeros(k - |bits|) && AllFit(Digits(k, bits), k)
  {
    var padded := bits + Zeros(k - |bits|);
    WordFits(padded);
    FlatOne(k, Word(padded));
  }

  /** Regrouping octets into `k`-bit digits and back gives the octets: the padding never fills one. */
  lemma {:induction false} Regroup(k: nat, bytes: seq<bv32>)
    requires 0 < k <= 8 && AllFit(bytes, 8)
    ensures Octets(Flat(k, Digits(k, Flat(8, bytes)))) == bytes
  {
    var pad := FlatOfDigits(k, Flat(8, bytes));
    OctetsOfFlat(bytes, Zeros(pad));
  }

  // ---------------------------------------------------------------- regrouping with an accumulator

  /** What both decoders keep: the octets written and the `count` low bits of an accumulator that is never masked
      spell the digits seen.  The octet width `o` is 8. */
  ghost predicate Decoding(k: nat, o: nat, out: seq<bv32>, w: bv32, count: nat, seen: seq<bv32>) {
    count < 8 && AllFit(out, o) && Flat(o, out) + Low(w, count) == Flat(k, seen)
  }

  /** `next` is the accumulator after a shift by `k` and an `or`. */
  predicate ShiftedIn(k: nat, w: bv32, value: bv32, next: bv32) {
    || (k == 5 && value < 32 && next == (w << 5) | value)
    || (k == 6 && value < 64 && next == (w << 6) | value)
  }

  lemma {:induction false} ShiftInDigit(k: nat, w: bv32, value: bv32, next: bv32, count: nat)
    requires count <= 8 && ShiftedIn(k, w, value, next)
    ensures Low(next, count + k) == Low(w, count) + Low(value, k)
  {
    if k == 5 { ShiftIn5(w, value, count); } else { ShiftIn6(w, value, count); }
  }

  lemma {:induction false} SeeDigit(k: nat, o: nat, out: seq<bv32>, w: bv32, count: nat, seen: seq<bv32>,
      value: bv32, next: bv32)
    requires Decoding(k, o, out, w, count, seen) && ShiftedIn(k, w, value, next)
    ensures Flat(o, out) + Low(next, count + k) == Flat(k, seen + [value])
  {
    ShiftInDigit(k, w, value, next, count);
    FlatSnoc(k, seen, value);
    Associative(Flat(o, out), Low(w, count), Low(value, k));
  }

  lemma {:induction false} FlatSnoc(k: nat, a: seq<bv32>, d: bv32)
    ensures Flat(k, a + [d]) == Flat(k, a) + Low(d, k)
  {
    FlatConcat(k, a, [d]);
    FlatOne(k, d);
  }

  lemma {:induction false} WriteOctet(o: nat, out: seq<bv32>, w: bv32, count: nat, rest: nat, octet: bv32)
    requires o == 8 && count == rest + 8 && octet == Shr(w, rest) & 255 && AllFit(out, o)
    ensures AllFit(out + [octet], o)
    ensures Flat(o, out + [octet]) + Low(w, rest) == Flat(o, out) + Low(w, count)
  {
    TakeOut8(w, rest);
    FlatSnoc(o, out, octet);
    Associative(Flat(o, out), Low(octet, o), Low(w, rest));
  }

  /** One round of a decoder's loop. */
  lemma {:induction false} Absorb(k: nat, o: nat, out: seq<bv32>, w: bv32, count: nat, seen: seq<bv32>, value: bv32,
      next: bv32)
    requires o == 8 && Decoding(k, o, out, w, count, seen) && ShiftedIn(k, w, value, next)
    ensures count + k < 8 ==> Decoding(k, o, out, next, count + k, seen + [value])
    ensures count + k >= 8
            ==> Decoding(k, o, out + [Shr(next, count + k - 8) & 255], next, count + k - 8, seen + [value])
  {
    SeeDigit(k, o, out, w, count, seen, value, next);
    if count + k >= 8 {
      WriteOctet(o, out, next, count + k, count + k - 8, Shr(next, count + k - 8) & 255);
    }
  }

  /** What that round has written once `total` bits are there, and how many it keeps. */
  function Emitted(out: seq<bv32>, w: bv32, total: nat): seq<bv32> {
    if total < 8 then out else out + [Shr(w, total - 8) & 255]
  }

  function Left(total: nat): nat { if total < 8 then total else total - 8 }

  lemma {:induction false} AbsorbEmits(k: nat, o: nat, out: seq<bv32>, w: bv32, count: nat, seen: seq<bv32>,
      value: bv32,
      next: bv32)
    requires o == 8 && Decoding(k, o, out, w, count, seen) && ShiftedIn(k, w, value, next)
    ensures Decoding(k, o, Emitted(out, next, count + k), next, Left(count + k), seen + [value])
  {
    Absorb(k, o, out, w, count, seen, value, next);
  }

  lemma {:induction false} DecodingEnd(k: nat, out: seq<bv32>, w: bv32, count: nat, seen: seq<bv32>)
    requires Decoding(k, 8, out, w, count, seen)
    ensures out == Octets(Flat(k, seen))
  {
    OctetsOfFlat(out, Low(w, count));
  }

  lemma {:induction false} DecodingLength(k: nat, o: nat, out: seq<bv32>, w: bv32, count: nat, seen: seq<bv32>)
    requires Decoding(k, o, out, w, count, seen)
    ensures o * |out| + count == k * |seen|
  {
    FlatLength(o, out);
    FlatLength(k, seen);
  }

}

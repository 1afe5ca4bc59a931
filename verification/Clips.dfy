/** The clips, saturating additions and rounding macros of libavutil/common.h: forms with masks and shifts against the
    plain arithmetic they stand for. Signed words are integers; an operation whose result leaves its width wraps, which
    is what two's complement hardware does where C leaves it open, and an exact condition says where that matters. */
module Clips {
  import opened Bits

  const INT_MIN: int := -0x8000_0000
  const INT_MAX: int := 0x7FFF_FFFF

  /** a is a signed number of w bits. */
  predicate Fits(a: int, w: nat)
    requires w > 0
  {
    0 <= a + Pow2(w - 1) && a < Pow2(w - 1)
  }

  predicate IsInt(a: int) {
    INT_MIN <= a <= INT_MAX
  }

  /** The signed number of w bits that a number wraps to. */
  function Wrap(x: int, w: nat): int
    requires w > 0
  {
    var r := x % Pow2(w);
    if r < Pow2(w - 1) then r else r - Pow2(w)
  }

  /** `~m` on w bits. */
  function Not(m: nat, w: nat): nat
    requires m < Pow2(w)
  {
    Pow2(w) - 1 - m
  }

  /** `a & ~m`, for a signed word of w bits. */
  function AndNot(a: int, m: nat, w: nat): nat
    requires m < Pow2(w)
  {
    And(a % Pow2(w), Not(m, w))
  }

  /** `a >> (w - 1)` for a signed word of w bits: a division rounded down, which leaves 0 or -1. */
  function SignOf(a: int, w: nat): int
    requires w > 0
  {
    a / Pow2(w - 1)
  }

  /** av_clip_c, and with 64-bit operands av_clip64_c. */
  function Clip(a: int, amin: int, amax: int): int {
    if a < amin then amin else if a > amax then amax else a
  }

  // ----- The code. The casts to the result types are written as Wrap and %. -----

  function ClipUint8(a: int): int {
    Pow2Values();
    if AndNot(a, 0xFF, 32) != 0 then SignOf(Wrap(-a, 32), 32) % 0x100 else a
  }

  function ClipInt8(a: int): int {
    Pow2Values();
    if AndNot(a + 0x80, 0xFF, 32) != 0 then Wrap(Xor(SignOf(a, 32) % WORD, 0x7F), 8) else Wrap(a, 8)
  }

  function ClipUint16(a: int): int {
    Pow2Values();
    if AndNot(a, 0xFFFF, 32) != 0 then SignOf(Wrap(-a, 32), 32) % 0x1_0000 else a
  }

  function ClipInt16(a: int): int {
    Pow2Values();
    if AndNot(a + 0x8000, 0xFFFF, 32) != 0 then Wrap(Xor(SignOf(a, 32) % WORD, 0x7FFF), 16) else Wrap(a, 16)
  }

  /** av_clipl_int32_c, on a 64-bit argument. */
  function CliplInt32(a: int): int {
    Pow2Values();
    Pow2Add(32, 32);
    if AndNot(a + 0x8000_0000, WORD - 1, 64) != 0
    then Wrap(Xor(SignOf(a, 64) % Pow2(64), 0x7FFF_FFFF), 32)
    else Wrap(a, 32)
  }

  function ClipUintp2(a: int, p: nat): int
    requires p <= 30
  {
    Pow2Grows(p, 32);
    if AndNot(a, Pow2(p) - 1, 32) != 0 then And(SignOf(Wrap(-a, 32), 32) % WORD, Pow2(p) - 1) else a % WORD
  }

  lemma {:induction false} Pow2Grows(p: nat, w: nat)
    requires p <= w
    ensures Pow2(p) <= Pow2(w)
  {
    if p < w {
      Pow2Grows(p, w - 1);
    }
  }

  function SatAdd32(a: int, b: int): int {
    CliplInt32(a + b)
  }

  function SatDadd32(a: int, b: int): int {
    SatAdd32(a, SatAdd32(b, b))
  }

  // ----- Masks on signed words -----

  /** Masking away the p low bits of a word of w bits. */
  lemma {:induction false} HighPart(x: nat, p: nat, w: nat)
    requires p <= w && x < Pow2(w) && Pow2(p) <= Pow2(w)
    ensures And(x, Pow2(w) - Pow2(p)) == x - x % Pow2(p)
  {
    if p == 0 {
      AllOfIt(x, w);
    } else {
      HighPart(x / 2, p - 1, w - 1);
      HighNext(x, Pow2(w - 1) - Pow2(p - 1), Pow2(p - 1), And(x / 2, Pow2(w - 1) - Pow2(p - 1)), x / 2 % Pow2(p - 1));
    }
  }

  lemma AllOfIt(x: nat, w: nat)
    requires x < Pow2(w)
    ensures And(x, Pow2(w) - 1) == x == x - x % 1
  {
    AndMask(x, w);
    DivIs(x, Pow2(w), 0, x);
  }

  lemma HighNext(x: nat, mask: nat, low: nat, high: nat, r: nat)
    requires low > 0 && And(x / 2, mask) == high && high + r == x / 2 && r == x / 2 % low
    ensures And(x, 2 * mask) == x - x % (2 * low)
  {
    AndDouble(x, mask);
    Halve(x, low);
  }

  lemma HighMask(x: nat, p: nat, w: nat)
    requires p <= w && x < Pow2(w) && Pow2(p) <= Pow2(w)
    ensures And(x, Pow2(w) - Pow2(p)) != 0 <==> x >= Pow2(p)
  {
    HighPart(x, p, w);
    if x < Pow2(p) {
      DivIs(x, Pow2(p), 0, x);
    }
  }

  /** `a & ~(2^p - 1)` is zero exactly for the numbers from 0 to 2^p - 1. */
  lemma OutsideRange(a: int, p: nat, w: nat)
    requires 0 < p + 1 <= w && Fits(a, w) && Pow2(p) <= Pow2(w - 1)
    ensures Pow2(p) - 1 < Pow2(w) && (AndNot(a, Pow2(p) - 1, w) != 0 <==> !(0 <= a < Pow2(p)))
  {
    var x := a % Pow2(w);
    DivIs(a, Pow2(w), if a < 0 then -1 else 0, if a < 0 then a + Pow2(w) else a);
    HighMask(x, p, w);
  }

  lemma SignIs(a: int, w: nat)
    requires w > 0 && Fits(a, w)
    ensures SignOf(a, w) == if a < 0 then -1 else 0
  {
    DivIs(a, Pow2(w - 1), if a < 0 then -1 else 0, if a < 0 then a + Pow2(w - 1) else a);
  }

  lemma WrapIs(x: int, w: nat)
    requires w > 0
    ensures Fits(x, w) ==> Wrap(x, w) == x
    ensures x == Pow2(w - 1) ==> Wrap(x, w) == -x
    ensures Fits(Wrap(x, w), w)
  {
    if Fits(x, w) || x == Pow2(w - 1) {
      DivIs(x, Pow2(w), if x < 0 then -1 else 0, if x < 0 then x + Pow2(w) else x);
    }
  }

  /** `-1 ^ m` and `0 ^ m`, as the clips to signed types use them. */
  lemma XorSign(a: int, w: nat, m: nat)
    requires w > 0 && Fits(a, w) && m < Pow2(w - 1)
    ensures Xor(SignOf(a, w) % Pow2(w), m) == if a < 0 then Pow2(w) - 1 - m else m
  {
    SignIs(a, w);
    if a < 0 {
      DivIs(-1, Pow2(w), -1, Pow2(w) - 1);
      XorOnes(m, w);
    } else {
      DivIs(0, Pow2(w), 0, 0);
    }
  }

  // ----- What each clip computes -----

  /** av_clip_uint8 clips to 0..255, except the one int whose negation is not an int. */
  lemma ClipUint8Exactly(a: int)
    requires IsInt(a)
    ensures ClipUint8(a) == Clip(a, 0, 255) <==> a != INT_MIN
  {
    ByteRange(a);
    NegatedSign(a);
  }

  lemma ByteRange(a: int)
    requires IsInt(a)
    ensures 0xFF < Pow2(32) && (AndNot(a, 0xFF, 32) != 0 <==> !(0 <= a < 0x100))
  {
    Pow2Values();
    OutsideRange(a, 8, 32);
  }

  lemma ClipUint16Exactly(a: int)
    requires IsInt(a)
    ensures ClipUint16(a) == Clip(a, 0, 65535) <==> a != INT_MIN
  {
    PairRange(a);
    NegatedSign(a);
  }

  lemma PairRange(a: int)
    requires IsInt(a)
    ensures 0xFFFF < Pow2(32) && (AndNot(a, 0xFFFF, 32) != 0 <==> !(0 <= a < 0x1_0000))
  {
    Pow2Values();
    OutsideRange(a, 16, 32);
  }

  /** av_clip_uintp2 clips to 0..2^p - 1, with the same exception, and that only when there is more than 0 in range. */
  lemma ClipUintp2Exactly(a: int, p: nat)
    requires IsInt(a) && p <= 30
    ensures ClipUintp2(a, p) == Clip(a, 0, Pow2(p) - 1) <==> a != INT_MIN || p == 0
    ensures a == INT_MIN ==> ClipUintp2(a, p) == Pow2(p) - 1
  {
    ClipUintp2Is(a, p);
    RangeSize(p);
  }

  /** There they give the upper end of their range. */
  lemma ClipsOfLowest()
    ensures ClipUint8(INT_MIN) == 255 && ClipUint16(INT_MIN) == 65535
  {
    ByteRange(INT_MIN);
    PairRange(INT_MIN);
    NegatedSign(INT_MIN);
  }

  lemma RangeSize(p: nat)
    requires p <= 30
    ensures 1 <= Pow2(p) <= 0x4000_0000 && (Pow2(p) == 1 <==> p == 0)
  {
    Pow2Grows(p, 30);
    Pow2Values();
  }

  lemma ClipUintp2Is(a: int, p: nat)
    requires IsInt(a) && p <= 30
    ensures ClipUintp2(a, p) ==
              if 0 <= a < Pow2(p) then a else if a > 0 || a == INT_MIN then Pow2(p) - 1 else 0
  {
    ClipUintp2Range(a, p);
    if !(0 <= a < Pow2(p)) {
      NegatedSign(a);
      ClipUintp2Outside(a, p, SignOf(Wrap(-a, 32), 32));
    }
  }

  lemma ClipUintp2Range(a: int, p: nat)
    requires IsInt(a) && p <= 30
    ensures Pow2(p) - 1 < Pow2(32) && (AndNot(a, Pow2(p) - 1, 32) != 0 <==> !(0 <= a < Pow2(p)))
    ensures 0 <= a < Pow2(p) ==> ClipUintp2(a, p) == a
  {
    Pow2Values();
    Pow2Grows(p, 31);
    OutsideRange(a, p, 32);
    if 0 <= a < Pow2(p) {
      DivIs(a, WORD, 0, a);
    }
  }

  lemma ClipUintp2Outside(a: int, p: nat, sign: int)
    requires p <= 30 && sign == SignOf(Wrap(-a, 32), 32) && -1 <= sign <= 0
    requires Pow2(p) - 1 < Pow2(32) && AndNot(a, Pow2(p) - 1, 32) != 0
    ensures ClipUintp2(a, p) == if sign == -1 then Pow2(p) - 1 else 0
  {
    var r := if sign == -1 then Pow2(p) - 1 else 0;
    SignMask(p, sign, sign % WORD);
    ClipUintp2From(a, p, sign, sign % WORD, r);
  }

  lemma ClipUintp2From(a: int, p: nat, sign: int, word: nat, r: int)
    requires p <= 30 && sign == SignOf(Wrap(-a, 32), 32) && word == sign % WORD
    requires Pow2(p) - 1 < Pow2(32) && AndNot(a, Pow2(p) - 1, 32) != 0
    requires And(word, Pow2(p) - 1) == r
    ensures ClipUintp2(a, p) == r
  {
  }

  lemma SignMask(p: nat, sign: int, word: nat)
    requires p <= 30 && -1 <= sign <= 0 && word == sign % WORD
    ensures And(word, Pow2(p) - 1) == if sign == -1 then Pow2(p) - 1 else 0
  {
    MaskSign(p);
  }

  lemma NegatedSign(a: int)
    requires IsInt(a)
    ensures SignOf(Wrap(-a, 32), 32) == if a > 0 || a == INT_MIN then -1 else 0
  {
    Pow2Values();
    WrapIs(-a, 32);
    SignIs(Wrap(-a, 32), 32);
  }

  lemma MaskSign(p: nat)
    requires p <= 32
    ensures And(WORD - 1, Pow2(p) - 1) == Pow2(p) - 1 && And(0, Pow2(p) - 1) == 0
  {
    AndMask(WORD - 1, p);
    WordIs(p);
    OnesBelow(Pow2(p), Pow2(32 - p));
  }

  lemma WordIs(p: nat)
    requires p <= 32
    ensures Pow2(p) * Pow2(32 - p) == WORD
  {
    Pow2Values();
    Pow2Add(p, 32 - p);
  }

  lemma OnesBelow(p: nat, q: nat)
    requires p > 0 && q > 0
    ensures p * q > 0 && (p * q - 1) % p == p - 1
  {
    assert p * q - 1 == (q - 1) * p + (p - 1);
    DivIs(p * q - 1, p, q - 1, p - 1);
    MulGrows(q, p);
  }

  /** av_clip_int8 clips to -128..127 for every int, also where `a + 0x80` wraps. */
  lemma ClipInt8Correct(a: int)
    requires IsInt(a)
    ensures ClipInt8(a) == Clip(a, -128, 127)
  {
    Pow2Values();
    WrapIs(a, 8);
    XorSign(a, 32, 0x7F);
    WrapIs(127, 8);
    WrappedOutside(a, 8, 32);
    MinusOneMinus(0x7F, 8);
  }

  lemma ClipInt16Correct(a: int)
    requires IsInt(a)
    ensures ClipInt16(a) == Clip(a, -32768, 32767)
  {
    Pow2Values();
    WrapIs(a, 16);
    XorSign(a, 32, 0x7FFF);
    WrapIs(32767, 16);
    WrappedOutside(a, 16, 32);
    MinusOneMinus(0x7FFF, 16);
  }

  /** The range test of the signed clips, which adds half the range first. */
  lemma WrappedOutside(a: int, p: nat, w: nat)
    requires 0 < p < w - 1 && Fits(a, w)
    ensures Pow2(p) - 1 < Pow2(w)
    ensures AndNot(a + Pow2(p - 1), Pow2(p) - 1, w) != 0 <==> !Fits(a, p)
  {
    var b := a + Pow2(p - 1);
    Pow2Grows(p, w - 2);
    DivIs(b, Pow2(w), if b < 0 then -1 else 0, if b < 0 then b + Pow2(w) else b);
    HighMask(b % Pow2(w), p, w);
  }

  /** -1 - m, cut to p bits, for the largest m of p - 1 bits. */
  lemma MinusOneMinus(m: nat, p: nat)
    requires 0 < p <= 32 && m == Pow2(p - 1) - 1
    ensures Wrap(WORD - 1 - m, p) == -1 - m as int
    ensures Wrap(m, p) == m
  {
    Pow2Values();
    Pow2Add(p, 32 - p);
    var q := Pow2(32 - p);
    assert WORD - 1 - m == (q - 1) * Pow2(p) + Pow2(p - 1);
    DivIs(WORD - 1 - m, Pow2(p), q - 1, Pow2(p - 1));
    DivIs(m, Pow2(p), 0, m);
  }

  /** av_clipl_int32 clips every 64-bit number to the range of an int. */
  lemma CliplInt32Correct(a: int)
    requires Fits(a, 64)
    ensures CliplInt32(a) == Clip(a, INT_MIN, INT_MAX)
  {
    Pow2Values();
    Pow2Add(32, 32);
    WrapIs(a, 32);
    XorSign(a, 64, 0x7FFF_FFFF);
    WrappedOutside(a, 32, 64);
    DivIs(Pow2(64) - 0x8000_0000, WORD, WORD - 1, 0x8000_0000);
    WrapIs(0x7FFF_FFFF, 32);
  }

  /** av_sat_add32 is the sum clipped, for all ints. */
  lemma SatAdd32Correct(a: int, b: int)
    requires IsInt(a) && IsInt(b)
    ensures SatAdd32(a, b) == Clip(a + b, INT_MIN, INT_MAX)
  {
    Pow2Values();
    Pow2Add(32, 31);
    CliplInt32Correct(a + b);
  }

  /** av_sat_dadd32 clips twice: first the doubling, then the sum. It is the sum a + 2b clipped once exactly when the
      doubling does not overflow or the sum is out of range the same way. */
  lemma SatDadd32Correct(a: int, b: int)
    requires IsInt(a) && IsInt(b)
    ensures SatDadd32(a, b) == Clip(a + Clip(2 * b, INT_MIN, INT_MAX), INT_MIN, INT_MAX)
    ensures SatDadd32(a, b) == Clip(a + 2 * b, INT_MIN, INT_MAX) <==>
              IsInt(2 * b) || (b > 0 && a >= 0) || (b < 0 && a <= 0)
  {
    SatAdd32Correct(b, b);
    SatAdd32Correct(a, Clip(2 * b, INT_MIN, INT_MAX));
  }

  // ----- Rounding -----

  /** C's division, which drops the fraction. */
  function Quot(a: int, b: int): int
    requires b > 0
  {
    if a >= 0 then a / b else -(-a / b)
  }

  // The macros below compute in the type of their operands, w bits wide, which is at least an int; only `1 << b` is an
  // int whatever they are.

  predicate Operands(a: int, b: int, w: nat) {
    w >= 32 && Fits(a, w) && Fits(b, w) && b > 0
  }

  predicate Shift(a: int, b: nat, w: nat) {
    w >= 32 && Fits(a, w) && b <= 30
  }

  /** A signed number shifted right is a division rounded down. */
  function RSHIFT(a: int, b: nat, w: nat): int
    requires Shift(a, b, w)
  {
    var p := Pow2(b);
    if a > 0 then Wrap(a + p / 2, w) / p else Wrap(Wrap(a + p / 2, w) - 1, w) / p
  }

  function ROUNDED_DIV(a: int, b: int, w: nat): int
    requires Operands(a, b, w)
  {
    Quot(if a > 0 then Wrap(a + b / 2, w) else Wrap(a - b / 2, w), b)
  }

  function CEIL_RSHIFT_VARIABLE(a: int, b: nat, w: nat): int
    requires Shift(a, b, w)
  {
    Wrap(-(Wrap(-a, w) / Pow2(b)), w)
  }

  function CEIL_RSHIFT_CONSTANT(a: int, b: nat, w: nat): int
    requires Shift(a, b, w)
  {
    Wrap(Wrap(a + Pow2(b), w) - 1, w) / Pow2(b)
  }

  function FFUDIV(a: int, b: int, w: nat): int
    requires Operands(a, b, w)
  {
    Quot(if a > 0 then a else Wrap(Wrap(a - b, w) + 1, w), b)
  }

  function FFUMOD(a: int, b: int, w: nat): int
    requires Operands(a, b, w)
  {
    Wrap(a - Wrap(b * FFUDIV(a, b, w), w), w)
  }

  function CeilLog2(x: int): nat
    requires x >= 1
  {
    Log2(2 * (x - 1))
  }

  /** `~m` and `&` on words of 32 bits. */
  function FFALIGN(x: nat, a: nat): nat
    requires 1 <= a < WORD
  {
    And((x + a - 1) % WORD, WORD - 1 - (a - 1))
  }

  /** q is the multiple count of b nearest to a; halfway between two, the one further from zero. */
  predicate Nearest(a: int, b: int, q: int) {
    var r := a - q * b;
    -b <= 2 * r <= b && (2 * r == b ==> a < 0) && (2 * r == -b ==> a > 0)
  }

  lemma NearestUnique(a: int, b: int, q: int, q': int)
    requires b > 0 && Nearest(a, b, q) && Nearest(a, b, q')
    ensures q == q'
  {
    var d := q - q';
    assert d * b == (a - q' * b) - (a - q * b);
    MulGrows(d, b);
    assert d >= 2 ==> d * b >= 2 * b by { MulGrows(d - 1, b); }
    assert d <= -2 ==> d * b <= -2 * b by { MulGrows(d + 1, b); }
  }

  lemma QuotIs(a: int, b: int, q: int)
    requires b > 0
    requires if a >= 0 then 0 <= a - q * b < b else -b < a - q * b <= 0
    ensures Quot(a, b) == q
  {
    if a >= 0 {
      DivIs(a, b, q, a - q * b);
    } else {
      DivIs(-a, b, -q, q * b - a);
    }
  }

  /** The smallest signed number of w bits, whose negation is not one. */
  function Lowest(w: nat): int
    requires w > 0
  {
    0 - Pow2(w - 1)
  }

  /** A number not more than one range away wraps by one round. */
  lemma Wraps(x: int, w: nat)
    requires w > 0
    ensures Fits(x, w) ==> Wrap(x, w) == x
    ensures Pow2(w - 1) <= x < 3 * Pow2(w - 1) ==> Wrap(x, w) == x - Pow2(w)
    ensures 3 * Lowest(w) <= x < Lowest(w) ==> Wrap(x, w) == x + Pow2(w)
  {
    var h: int := Pow2(w - 1);
    if -h <= x < h {
      WrapIs(x, w);
    } else if h <= x < 3 * h {
      DivIs(x, 2 * h, if x < 2 * h then 0 else 1, if x < 2 * h then x else x - 2 * h);
    } else if -3 * h <= x < -h {
      DivIs(x, 2 * h, if x < -2 * h then -2 else -1, if x < -2 * h then x + 4 * h else x + 2 * h);
    }
  }

  /** Two steps that wrap are one. */
  lemma WrapsTwice(x: int, d: int, w: nat)
    requires w > 0
    ensures Wrap(Wrap(x, w) + d, w) == Wrap(x + d, w)
  {
    var m := Pow2(w);
    var q := if x % m < Pow2(w - 1) then x / m else x / m + 1;
    assert x == (x / m) * m + x % m;
    assert (x / m + 1) * m == (x / m) * m + m;
    assert x == q * m + Wrap(x, w);
    SameRemainder(Wrap(x, w) + d, q, m);
  }

  lemma SmallPower(b: nat, w: nat)
    requires b <= 30 && w >= 32
    ensures 1 <= Pow2(b) <= 0x4000_0000 < Pow2(w - 1) && (Pow2(b) == 1 <==> b == 0)
  {
    RangeSize(b);
    Pow2Grows(31, w - 1);
    Pow2Values();
  }

  lemma QuotNearest(a: int, b: int)
    requires b > 0
    ensures Nearest(a, b, Quot(if a > 0 then a + b / 2 else a - b / 2, b))
  {
    var n := if a > 0 then a + b / 2 else a - b / 2;
    if n >= 0 {
      assert n == (n / b) * b + n % b;
    } else {
      assert -n == (-n / b) * b + -n % b;
    }
  }

  lemma QuotSign(n: int, b: int)
    requires b > 0
    ensures n >= 0 ==> Quot(n, b) >= 0
    ensures n <= 0 ==> Quot(n, b) <= 0
  {
    if n >= 0 {
      DivNat(n, b);
    } else {
      DivNat(-n, b);
    }
  }

  /** A quotient of the wrong sign is not the nearest one. */
  lemma WrongSign(a: int, b: int, q: int)
    requires b > 0 && ((2 * a > b && q <= 0) || (2 * a < -b && q >= 0))
    ensures !Nearest(a, b, q)
  {
    MulGrows(q, b);
  }

  /** ROUNDED_DIV divides to the nearest, ties away from zero, exactly when the half it adds does not overflow. */
  lemma RoundedDivExactly(a: int, b: int, w: nat)
    requires Operands(a, b, w)
    ensures Nearest(a, b, ROUNDED_DIV(a, b, w)) <==> Fits(if a > 0 then a + b / 2 else a - b / 2, w)
  {
    var n := if a > 0 then a + b / 2 else a - b / 2;
    Wraps(n, w);
    if Fits(n, w) {
      QuotNearest(a, b);
    } else {
      QuotSign(Wrap(n, w), b);
      WrongSign(a, b, ROUNDED_DIV(a, b, w));
    }
  }

  lemma FloorNearest(a: int, b: nat)
    requires a > 0 || b >= 1
    ensures var p := Pow2(b);
            Nearest(a, p, (if a > 0 then a + p / 2 else a + p / 2 - 1) / p)
  {
    var p := Pow2(b);
    if b >= 1 {
      FloorNearestEven(a, Pow2(b - 1));
    } else {
      assert p == 1 && p / 2 == 0;
    }
  }

  lemma FloorNearestEven(a: int, h: nat)
    requires h > 0
    ensures Nearest(a, 2 * h, (if a > 0 then a + h else a + h - 1) / (2 * h))
  {
    var n := if a > 0 then a + h else a + h - 1;
    RemainderOf(n, 2 * h);
  }

  lemma RemainderOf(n: int, p: int)
    requires p > 0
    ensures n == (n / p) * p + n % p && 0 <= n % p < p
  {
  }

  lemma RshiftIs(a: int, b: nat, w: nat)
    requires Shift(a, b, w)
    ensures var p := Pow2(b);
            RSHIFT(a, b, w) == Wrap(if a > 0 then a + p / 2 else a + p / 2 - 1, w) / p
  {
    WrapsTwice(a + Pow2(b) / 2, -1, w);
  }

  /** RSHIFT is the nearest division by a power of two exactly when the half it adds does not overflow and, unless the
      number is positive, it shifts at all. */
  lemma RshiftExactly(a: int, b: nat, w: nat)
    requires Shift(a, b, w)
    ensures Nearest(a, Pow2(b), RSHIFT(a, b, w)) <==> if a > 0 then Fits(a + Pow2(b) / 2, w) else b >= 1
  {
    var p := Pow2(b);
    var n := if a > 0 then a + p / 2 else a + p / 2 - 1;
    SmallPower(b, w);
    RshiftIs(a, b, w);
    Wraps(n, w);
    if a > 0 && !Fits(n, w) {
      NegativeFloor(Wrap(n, w), p);
      WrongSign(a, p, RSHIFT(a, b, w));
    } else if a > 0 || b >= 1 {
      FloorNearest(a, b);
    } else {
      assert p == 1 && RSHIFT(a, b, w) == Wrap(a - 1, w) != a;
    }
  }

  lemma FloorIsQuot(n: int, p: int)
    requires p > 0 && n < 0
    ensures n / p == Quot(n, p) <==> n % p == 0
  {
    RemainderOf(n, p);
    RemainderOf(-n, p);
    var q, q' := n / p, -n / p;
    assert (q + q') * p == q * p + q' * p == -(n % p) - (-n % p);
    MulGrows(q + q', p);
  }

  lemma OverflownRemainder(n: int, b: nat, w: nat)
    requires b <= w
    ensures (n - Pow2(w)) % Pow2(b) == n % Pow2(b)
  {
    Pow2Add(w - b, b);
    RemainderPast(n, n - Pow2(w), Pow2(w - b), Pow2(b));
  }

  lemma RemainderPast(n: int, y: int, q: int, m: int)
    requires m > 0 && n == q * m + y
    ensures n % m == y % m
  {
    SameRemainder(y, q, m);
  }

  /** RSHIFT is ROUNDED_DIV by the power of two exactly where both are the nearest division, or both overflow and the
      division leaves nothing. */
  lemma RshiftIsDivisionExactly(a: int, b: nat, w: nat)
    requires Shift(a, b, w)
    ensures Operands(a, Pow2(b), w)
    ensures var h := Pow2(b) / 2;
            RSHIFT(a, b, w) == ROUNDED_DIV(a, Pow2(b), w) <==>
              if a > 0 then Fits(a + h, w) || (a + h) % Pow2(b) == 0 else b >= 1 && Fits(a - h, w)
  {
    var p := Pow2(b);
    SmallPower(b, w);
    RoundedDivExactly(a, p, w);
    RshiftExactly(a, b, w);
    if a > 0 && !Fits(a + p / 2, w) {
      OverflownDivision(a, b, w);
    } else if a > 0 || (b >= 1 && Fits(a - p / 2, w)) {
      NearestUnique(a, p, RSHIFT(a, b, w), ROUNDED_DIV(a, p, w));
    } else if b == 0 {
      UnshiftedDivision(a, w);
    }
  }

  lemma OverflownDivision(a: int, b: nat, w: nat)
    requires Shift(a, b, w) && Operands(a, Pow2(b), w) && a > 0 && !Fits(a + Pow2(b) / 2, w)
    ensures RSHIFT(a, b, w) == ROUNDED_DIV(a, Pow2(b), w) <==> (a + Pow2(b) / 2) % Pow2(b) == 0
  {
    var n, p := a + Pow2(b) / 2 - Pow2(w), Pow2(b);
    OverflownForms(a, b, w);
    FloorIsQuot(n, p);
    OverflownRemainder(a + p / 2, b, w);
  }

  lemma OverflownForms(a: int, b: nat, w: nat)
    requires Shift(a, b, w) && Operands(a, Pow2(b), w) && a > 0 && !Fits(a + Pow2(b) / 2, w)
    ensures var n := a + Pow2(b) / 2 - Pow2(w);
            n < 0 && RSHIFT(a, b, w) == n / Pow2(b) && ROUNDED_DIV(a, Pow2(b), w) == Quot(n, Pow2(b))
  {
    OverflownSum(a, Pow2(b), w);
    RshiftOf(a, b, w, a + Pow2(b) / 2 - Pow2(w));
  }

  lemma RshiftOf(a: int, b: nat, w: nat, n: int)
    requires Shift(a, b, w) && a > 0 && Wrap(a + Pow2(b) / 2, w) == n
    ensures RSHIFT(a, b, w) == n / Pow2(b)
  {
  }

  lemma OverflownSum(a: int, d: int, w: nat)
    requires Operands(a, d, w) && a > 0 && !Fits(a + d / 2, w)
    ensures var n := a + d / 2 - Pow2(w);
            n < 0 && Wrap(a + d / 2, w) == n && ROUNDED_DIV(a, d, w) == Quot(n, d)
  {
    OverflownWrap(a + d / 2, a, d / 2, w);
    RoundedDivOf(a, d, w, a + d / 2 - Pow2(w));
  }

  lemma OverflownWrap(x: int, a: int, b: int, w: nat)
    requires w > 0 && Fits(a, w) && Fits(b, w) && x == a + b && a > 0 && b >= 0 && !Fits(x, w)
    ensures Wrap(x, w) == x - Pow2(w) < 0
  {
    Wraps(x, w);
  }

  lemma RoundedDivOf(a: int, d: int, w: nat, n: int)
    requires Operands(a, d, w) && a > 0 && Wrap(a + d / 2, w) == n
    ensures ROUNDED_DIV(a, d, w) == Quot(n, d)
  {
  }

  lemma UnshiftedDivision(a: int, w: nat)
    requires Shift(a, 0, w) && a <= 0
    ensures Operands(a, 1, w) && ROUNDED_DIV(a, 1, w) == a != RSHIFT(a, 0, w)
  {
    SmallPower(0, w);
    Wraps(a, w);
    RshiftIs(a, 0, w);
    Wraps(a - 1, w);
  }

  lemma NegativeFloor(n: int, p: int)
    requires p > 0 && n < 0
    ensures n / p < 0
  {
    MulGrows(n / p + 1, p);
    assert n == (n / p) * p + n % p;
  }

  /** FF_CEIL_RSHIFT rounds up: q is the least with a <= q * p. */
  predicate IsCeil(a: int, p: int, q: int) {
    a <= q * p < a + p
  }

  lemma CeilUnique(a: int, p: int, q: int, q': int)
    requires p > 0 && IsCeil(a, p, q) && IsCeil(a, p, q')
    ensures q == q'
  {
    assert (q - q') * p == q * p - q' * p;
    MulGrows(q - q', p);
  }

  lemma CeilOfNegated(a: int, p: int)
    requires p > 0
    ensures IsCeil(a, p, -(-a / p))
  {
    var q := -a / p;
    assert -a == q * p + -a % p;
    assert (-q) * p == -(q * p);
  }

  lemma CeilOfSum(a: int, p: int)
    requires p > 0
    ensures IsCeil(a, p, (a + p - 1) / p)
  {
    var n := a + p - 1;
    assert n == (n / p) * p + n % p;
  }

  /** The branch for a shift that is not constant rounds up exactly when the negation does not overflow, or nothing is
      shifted. */
  lemma CeilVariableExactly(a: int, b: nat, w: nat)
    requires Shift(a, b, w)
    ensures IsCeil(a, Pow2(b), CEIL_RSHIFT_VARIABLE(a, b, w)) <==> a > Lowest(w) || b == 0
  {
    var p, h := Pow2(b), Pow2(w - 1);
    SmallPower(b, w);
    Wraps(-a, w);
    if a > Lowest(w) {
      CeilOfNegated(a, p);
      SmallQuotient(-a, p, h - 1);
      Wraps(-(-a / p), w);
    } else {
      assert Wrap(-a, w) == a;
      LowestShifted(a, p, h);
      Wraps(-(a / p), w);
    }
  }

  lemma SmallQuotient(n: int, p: int, h: int)
    requires p > 0 && -h <= n <= h
    ensures -h <= n / p <= h
  {
    RemainderOf(n, p);
    Larger(n / p, p);
    Larger(n / p + 1, p);
  }

  lemma Larger(q: int, p: int)
    requires p > 0
    ensures q >= 0 ==> q * p >= q
    ensures q <= 0 ==> q * p <= q
  {
    if q >= 0 {
      assert (p - 1) * q >= 0;
    } else {
      assert (p - 1) * (-q) >= 0;
    }
  }

  /** The lowest number shifted, and negated again: positive if it was shifted, and itself, after wrapping, if not. */
  lemma LowestShifted(a: int, p: int, h: int)
    requires p > 0 && h > 1 && a == -h
    ensures p == 1 ==> a / p == -h
    ensures p >= 2 ==> -h < a / p < 0 && !IsCeil(a, p, -(a / p))
  {
    if p >= 2 {
      NegativeFloor(a, p);
      NotBelow(a, p, h);
      TooHigh(a, p, -(a / p));
    }
  }

  lemma NotBelow(a: int, p: int, h: int)
    requires p >= 2 && h > 1 && a == -h
    ensures -h < a / p
  {
    RemainderOf(a, p);
    ScaledBelow(a / p, h, p);
  }

  lemma ScaledBelow(q: int, h: int, p: int)
    requires p >= 2 && h > 1
    ensures q <= -h ==> q * p + p - 1 < -h
  {
    if q <= -h {
      assert (-q - h) * p >= 0;
      assert (-q - h) * p == -(q * p) - h * p;
      assert (h - 1) * (p - 1) >= 1;
      assert (h - 1) * (p - 1) == h * p - h - p + 1;
    }
  }

  lemma TooHigh(a: int, p: int, q: int)
    requires p > 0 && a < 0 && q >= 1
    ensures !IsCeil(a, p, q)
  {
    MulGrows(q, p);
  }

  /** The branch for a constant shift rounds up exactly when what it adds does not overflow. */
  lemma CeilConstantExactly(a: int, b: nat, w: nat)
    requires Shift(a, b, w)
    ensures IsCeil(a, Pow2(b), CEIL_RSHIFT_CONSTANT(a, b, w)) <==> Fits(a + Pow2(b) - 1, w)
  {
    var p := Pow2(b);
    CeilConstantIs(a, b, w);
    SumWraps(a, b, w);
    if Fits(a + p - 1, w) {
      CeilOfSum(a, p);
    } else {
      NegativeFloor(Wrap(a + p - 1, w), p);
      TooLow(a, p, CEIL_RSHIFT_CONSTANT(a, b, w));
    }
  }

  lemma CeilConstantIs(a: int, b: nat, w: nat)
    requires Shift(a, b, w)
    ensures CEIL_RSHIFT_CONSTANT(a, b, w) == Wrap(a + Pow2(b) - 1, w) / Pow2(b)
  {
    WrapsTwice(a + Pow2(b), -1, w);
  }

  lemma SumWraps(a: int, b: nat, w: nat)
    requires Shift(a, b, w)
    ensures Fits(a + Pow2(b) - 1, w) ==> Wrap(a + Pow2(b) - 1, w) == a + Pow2(b) - 1
    ensures !Fits(a + Pow2(b) - 1, w) ==> a > 0 && Wrap(a + Pow2(b) - 1, w) < 0
  {
    SmallPower(b, w);
    Wraps(a + Pow2(b) - 1, w);
  }

  lemma TooLow(a: int, p: int, q: int)
    requires p > 0 && a > 0 && q < 0
    ensures !IsCeil(a, p, q)
  {
    MulGrows(q, p);
  }

  /** So the two branches agree exactly when neither overflows. */
  lemma CeilRshiftAgreeExactly(a: int, b: nat, w: nat)
    requires Shift(a, b, w)
    ensures CEIL_RSHIFT_VARIABLE(a, b, w) == CEIL_RSHIFT_CONSTANT(a, b, w) <==>
              (a > Lowest(w) || b == 0) && Fits(a + Pow2(b) - 1, w)
  {
    CeilVariableExactly(a, b, w);
    CeilConstantExactly(a, b, w);
    SmallPower(b, w);
    AgreeExactly(a, Pow2(b), CEIL_RSHIFT_VARIABLE(a, b, w), CEIL_RSHIFT_CONSTANT(a, b, w));
  }

  lemma AgreeExactly(a: int, p: int, q: int, q': int)
    requires p > 0 && (IsCeil(a, p, q) || IsCeil(a, p, q'))
    ensures q == q' <==> IsCeil(a, p, q) && IsCeil(a, p, q')
  {
    if IsCeil(a, p, q) && IsCeil(a, p, q') {
      CeilUnique(a, p, q, q');
    }
  }

  /** FFUDIV and FFUMOD are the division with a remainder from 0 to b - 1, exactly when `a - b + 1`, which is formed for
      numbers that are not positive, does not overflow. */
  lemma FloorDivisionExactly(a: int, b: int, w: nat)
    requires Operands(a, b, w)
    ensures FFUDIV(a, b, w) == a / b && FFUMOD(a, b, w) == a % b <==> a > 0 || Fits(a - b + 1, w)
  {
    DividendIs(a, b, w);
    if a > 0 || Fits(a - b + 1, w) {
      FloorQuotient(a, b);
      FloorRemainder(a, b, w);
    } else {
      FloorMissed(a, b, w);
    }
  }

  /** What is divided. */
  lemma DividendIs(a: int, b: int, w: nat)
    requires Operands(a, b, w)
    ensures FFUDIV(a, b, w) == Quot(if a > 0 then a else Wrap(a - b + 1, w), b)
    ensures a > 0 || Fits(a - b + 1, w) ==> FFUDIV(a, b, w) == Quot(if a > 0 then a else a - b + 1, b)
  {
    WrapsTwice(a - b, 1, w);
    Wraps(a - b + 1, w);
  }

  lemma FloorRemainder(a: int, b: int, w: nat)
    requires Operands(a, b, w) && (a > 0 || Fits(a - b + 1, w)) && FFUDIV(a, b, w) == a / b
    ensures FFUMOD(a, b, w) == a % b
  {
    LowMultiple(a, b);
    RemainderFrom(a, b * (a / b), a % b, w);
  }

  lemma LowMultiple(a: int, b: int)
    requires b > 0
    ensures b * (a / b) == a - a % b && 0 <= a % b < b
    ensures a > 0 ==> b * (a / b) >= 0
  {
    RemainderOf(a, b);
    if a > 0 {
      DivNat(a, b);
    }
  }

  lemma RemainderFrom(a: int, m: int, r: int, w: nat)
    requires w > 0 && Fits(a, w) && m == a - r && 0 <= r && Fits(r, w) && Fits(m, w)
    ensures Wrap(a - Wrap(m, w), w) == r
  {
    Wraps(m, w);
    Wraps(r, w);
  }

  lemma FloorMissed(a: int, b: int, w: nat)
    requires Operands(a, b, w) && a <= 0 && !Fits(a - b + 1, w)
    ensures FFUDIV(a, b, w) != a / b
  {
    DividendIs(a, b, w);
    Wraps(a - b + 1, w);
    QuotSign(Wrap(a - b + 1, w), b);
    NegativeFloor(a, b);
  }

  lemma FloorQuotient(a: int, b: int)
    requires b > 0
    ensures Quot(if a > 0 then a else a - b + 1, b) == a / b
  {
    RemainderOf(a, b);
    QuotIs(if a > 0 then a else a - b + 1, b, a / b);
  }

  lemma {:induction false} Log2Brackets(v: nat)
    requires v >= 1
    ensures Pow2(Log2(v)) <= v < 2 * Pow2(Log2(v))
  {
    if v >= 2 {
      Log2Brackets(v / 2);
    }
  }

  /** av_ceil_log2 is the least r with x <= 2^r. */
  lemma CeilLog2Correct(x: int)
    requires 1 <= x <= 0x4000_0000
    ensures x <= Pow2(CeilLog2(x))
    ensures forall r: nat :: x <= Pow2(r) ==> CeilLog2(x) <= r
  {
    if x >= 2 {
      Log2Brackets(2 * (x - 1));
      Log2Brackets(x - 1);
    }
    forall r: nat | x <= Pow2(r)
      ensures CeilLog2(x) <= r
    {
      if x >= 2 && r < CeilLog2(x) {
        Pow2Grows(r, CeilLog2(x) - 1);
      }
    }
  }

  lemma AlignFrom(x: nat, p: nat, n: nat, mask: nat, low: nat)
    requires 1 <= p < WORD && n == x + p - 1 < WORD && mask == WORD - p
    requires And(n, mask) == n - low && 0 <= low < p && (n - low) % p == 0
    ensures FFALIGN(x, p) % p == 0 && x <= FFALIGN(x, p) < x + p
  {
    AlignIs(x, p, n, mask);
  }

  lemma AlignIs(x: nat, a: nat, n: nat, mask: nat)
    requires 1 <= a < WORD && n == x + a - 1 < WORD && mask == WORD - a
    ensures FFALIGN(x, a) == And(n, mask)
  {
    assert n % WORD == n;
  }

  lemma HighPart32(n: nat, k: nat, p: nat)
    requires k < 32 && p == Pow2(k) && n < WORD
    ensures 1 <= p < WORD && And(n, WORD - p) == n - n % p
  {
    Pow2Values();
    Pow2Grows(k, 31);
    HighPart(n, k, 32);
  }

  lemma LargestMultiple(n: nat, p: nat)
    requires p > 0
    ensures 0 <= n % p < p && n % p <= n && (n - n % p) % p == 0
  {
    assert n - n % p == (n / p) * p;
    DivIs(n - n % p, p, n / p, 0);
  }

  lemma AlignsUp(x: nat, k: nat)
    requires k < 32 && x + Pow2(k) <= WORD
    ensures Pow2(k) < WORD
    ensures FFALIGN(x, Pow2(k)) % Pow2(k) == 0 && x <= FFALIGN(x, Pow2(k)) < x + Pow2(k)
  {
    var p := Pow2(k);
    var n := x + p - 1;
    HighPart32(n, k, p);
    LargestMultiple(n, p);
    AlignFrom(x, p, n, WORD - p, n % p);
  }

  lemma AlignsToNothing(x: nat, k: nat)
    requires k < 32 && x < WORD < x + Pow2(k)
    ensures Pow2(k) < WORD && x > 0 && FFALIGN(x, Pow2(k)) == 0
  {
    var p := Pow2(k);
    var n := x + p - 1 - WORD;
    HighPart32(0, k, p);
    HighPart32(n, k, p);
    DivIs(n, p, 0, n);
    DivIs(x + p - 1, WORD, 1, n);
  }

  /** FFALIGN rounds a word up to the least multiple of a power of two that is not below it exactly when the sum still
      fits a word; otherwise it gives 0. */
  lemma AlignsUpExactly(x: nat, k: nat)
    requires k < 32 && x < WORD
    ensures Pow2(k) < WORD
    ensures FFALIGN(x, Pow2(k)) % Pow2(k) == 0 && x <= FFALIGN(x, Pow2(k)) < x + Pow2(k) <==> x + Pow2(k) <= WORD
    ensures x + Pow2(k) > WORD ==> FFALIGN(x, Pow2(k)) == 0
  {
    if x + Pow2(k) <= WORD {
      AlignsUp(x, k);
    } else {
      AlignsToNothing(x, k);
    }
  }
}

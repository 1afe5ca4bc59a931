/** C's operators on unsigned words, on the natural numbers the words stand for. A shift right is a division and a
    shift left a multiplication by a power of two; `&` and `|` are defined bit by bit, and the lemmas say what they
    amount to for the masks the repository uses. A word of w bits is a number below Pow2(w); wherever C drops the
    bits above, the code that uses these operators says so with `%`. */
module Bits {
  type byte = x: int | 0 <= x < 256

  /** How many words of 32 bits there are. */
  const WORD: nat := 0x1_0000_0000

  function Pow2(k: nat): (p: nat)
    ensures p >= 1
  {
    if k == 0 then 1 else 2 * Pow2(k - 1)
  }

  /** `x << k` before any bits are dropped. */
  function Shl(x: nat, k: nat): nat {
    if k == 0 then x else 2 * Shl(x, k - 1)
  }

  /** `x >> k`. */
  function Shr(x: nat, k: nat): (z: nat)
    ensures z <= x
  {
    if k == 0 then x else Shr(x / 2, k - 1)
  }

  function And(x: nat, y: nat): nat {
    if x == 0 || y == 0 then 0
    else 2 * And(x / 2, y / 2) + if x % 2 == 1 && y % 2 == 1 then 1 else 0
  }

  function Or(x: nat, y: nat): nat {
    if x == 0 then y else if y == 0 then x
    else 2 * Or(x / 2, y / 2) + if x % 2 == 1 || y % 2 == 1 then 1 else 0
  }

  function Xor(x: nat, y: nat): nat {
    if x == 0 then y else if y == 0 then x
    else 2 * Xor(x / 2, y / 2) + if x % 2 == y % 2 then 0 else 1
  }

  /** av_log2, which libavutil/common.h only declares: the index of the highest set bit, 0 for 0. */
  function Log2(v: nat): nat {
    if v < 2 then 0 else 1 + Log2(v / 2)
  }

  lemma Pow2Values()
    ensures Pow2(1) == 2 && Pow2(2) == 4 && Pow2(3) == 8 && Pow2(4) == 16 && Pow2(5) == 32 && Pow2(6) == 64
    ensures Pow2(7) == 128 && Pow2(8) == 256 && Pow2(10) == 1024 && Pow2(15) == 0x8000 && Pow2(16) == 0x1_0000
    ensures Pow2(11) == 0x800 && Pow2(12) == 0x1000 && Pow2(17) == 0x2_0000 && Pow2(18) == 0x4_0000
    ensures Pow2(21) == 0x20_0000 && Pow2(22) == 0x40_0000 && Pow2(24) == 0x100_0000 && Pow2(26) == 0x400_0000
    ensures Pow2(27) == 0x800_0000 && Pow2(30) == 0x4000_0000 && Pow2(31) == 0x8000_0000 && Pow2(32) == 0x1_0000_0000
  {
    assert Pow2(3) == 8 && Pow2(6) == 64 && Pow2(9) == 512;
    assert Pow2(12) == 0x1000 && Pow2(15) == 0x8000 && Pow2(18) == 0x4_0000;
    assert Pow2(21) == 0x20_0000 && Pow2(24) == 0x100_0000 && Pow2(27) == 0x800_0000;
    assert Pow2(30) == 0x4000_0000 && Pow2(32) == 0x1_0000_0000;
  }

  lemma {:induction false} Pow2Add(a: nat, b: nat)
    ensures Pow2(a + b) == Pow2(a) * Pow2(b)
  {
    if a > 0 {
      Pow2Add(a - 1, b);
    }
  }

  // ----- Division -----

  lemma MulGrows(k: int, d: int)
    requires d > 0
    ensures k >= 1 ==> k * d >= d
    ensures k <= -1 ==> k * d <= -d
  {
    if k >= 1 {
      assert (k - 1) * d >= 0;
    } else if k <= -1 {
      assert (-k - 1) * d >= 0;
    }
  }

  lemma DivIs(x: int, d: int, q: int, r: int)
    requires 0 <= r < d && x == q * d + r
    ensures x / d == q && x % d == r
  {
    MulGrows(x / d - q, d);
    assert (x / d - q) * d == r - x % d;
  }

  lemma SameRemainder(y: int, q: int, m: int)
    requires m > 0
    ensures (q * m + y) % m == y % m
  {
    assert q * m + y == (q + y / m) * m + y % m;
    DivIs(q * m + y, m, q + y / m, y % m);
  }

  lemma Expand(p: int, b: int, s: int, a: int, r: int)
    ensures (p * b + s) * a + r == p * (a * b) + (s * a + r)
  {
    assert (p * b) * a == p * (a * b);
  }

  /** Digits: a number below q, shifted up by p, leaves room for one below p. */
  lemma Below(a: nat, b: nat, q: nat, p: nat)
    requires a < q && b < p
    ensures a * p + b < q * p
  {
    MulGrows(q - a, p);
    assert q * p == a * p + (q - a) * p;
  }

  lemma DivNat(x: nat, p: nat)
    requires p > 0
    ensures x / p >= 0 && x == (x / p) * p + x % p
  {
    MulGrows(x / p, p);
  }

  lemma DivDiv(x: nat, a: nat, b: nat)
    requires a > 0 && b > 0
    ensures a * b > 0 && (x / a) / b == x / (a * b)
    ensures x % (a * b) == ((x / a) % b) * a + x % a
  {
    var q, r := x / a, x % a;
    Expand(q / b, b, q % b, a, r);
    Below(q % b, r, b, a);
    DivIs(x, a * b, q / b, (q % b) * a + r);
  }

  lemma Halve(x: nat, p: nat)
    requires p > 0
    ensures x / (2 * p) == x / 2 / p && x % (2 * p) == 2 * (x / 2 % p) + x % 2
  {
    DivDiv(x, 2, p);
  }

  /** Cutting a number off above b leaves its bits from a to b alone. */
  lemma CutAbove(x: nat, a: nat, b: nat)
    requires a > 0 && b > 0
    ensures a * b > 0 && (x % (a * b)) / a == (x / a) % b
  {
    DivDiv(x, a, b);
    DivIs(x % (a * b), a, x / a % b, x % a);
  }

  lemma ModMod(x: nat, a: nat, b: nat)
    requires a > 0 && b > 0
    ensures a * b > 0 && x % (a * b) % a == x % a
  {
    DivDiv(x, a, b);
    DivIs(x % (a * b), a, x / a % b, x % a);
  }

  /** Cutting a number off above a bit leaves the bit. */
  lemma BitOfCut(x: nat, p: nat, r: nat)
    requires p > 0 && r > 0
    ensures p * (2 * r) > 0 && x % (p * (2 * r)) / p % 2 == x / p % 2
  {
    CutAbove(x, p, 2 * r);
    DivNat(x, p);
    ModMod(x / p, 2, r);
  }

  /** The bits of x * a + r above and below the place a, when r stays below it. */
  lemma Placed(x: nat, a: nat, r: nat, b: nat)
    requires r < a && b > 0
    ensures a * b > 0
    ensures (x * a + r) / (a * b) == x / b
    ensures (x * a + r) % (a * b) == (x % b) * a + r
  {
    DivIs(x * a + r, a, x, r);
    DivDiv(x * a + r, a, b);
  }

  lemma {:induction false} ShlIs(x: nat, k: nat)
    ensures Shl(x, k) == x * Pow2(k)
  {
    if k > 0 {
      ShlIs(x, k - 1);
      MulDouble(x, Pow2(k - 1));
    }
  }

  lemma {:induction false} ShrIs(x: nat, k: nat)
    ensures Shr(x, k) == x / Pow2(k)
  {
    if k > 0 {
      ShrIs(x / 2, k - 1);
      Halve(x, Pow2(k - 1));
    }
  }

  lemma MulDouble(x: int, p: int)
    ensures x * (2 * p) == 2 * (x * p)
  {
  }

  // ----- Masks -----

  /** Masking with k low ones keeps the k low bits. */
  lemma {:induction false} AndMask(x: nat, k: nat)
    ensures And(x, Pow2(k) - 1) == x % Pow2(k)
  {
    if k > 0 {
      var p := Pow2(k - 1);
      AndMask(x / 2, k - 1);
      Halve(x, p);
      AndOnes(x, p);
    }
  }

  lemma AndOnes(x: nat, p: nat)
    requires p > 0
    ensures And(x, 2 * p - 1) == 2 * And(x / 2, p - 1) + x % 2
  {
    assert (2 * p - 1) / 2 == p - 1;
    assert (2 * p - 1) % 2 == 1;
  }

  /** A mask with k low zeros leaves them zero and acts on the bits above. */
  lemma {:induction false} AndHigh(x: nat, y: nat, k: nat)
    ensures And(x, Shl(y, k)) == Shl(And(Shr(x, k), y), k)
  {
    if k > 0 {
      AndHigh(x / 2, y, k - 1);
      AndDouble(x, Shl(y, k - 1));
    }
  }

  lemma AndDouble(x: nat, y: nat)
    ensures And(x, 2 * y) == 2 * And(x / 2, y)
  {
  }

  lemma AndOne(x: nat)
    ensures And(x, 1) == x % 2
  {
    if x != 0 {
      assert And(x / 2, 0) == 0;
    }
  }

  /** Masking with one bit asks for that bit. */
  lemma AndBit(x: nat, k: nat)
    ensures And(x, Pow2(k)) == Shl(Shr(x, k) % 2, k)
    ensures And(x, Pow2(k)) != 0 <==> Shr(x, k) % 2 == 1
  {
    ShlIs(1, k);
    AndHigh(x, 1, k);
    AndOne(Shr(x, k));
    ShlIs(Shr(x, k) % 2, k);
  }

  /** Putting together two words that use different bits adds them. */
  lemma {:induction false} OrAdds(x: nat, y: nat, k: nat)
    requires y < Pow2(k)
    ensures Or(Shl(x, k), y) == Shl(x, k) + y
  {
    if k > 0 && y > 0 {
      OrAdds(x, y / 2, k - 1);
    }
  }

  lemma {:induction false} AndAtMost(x: nat, y: nat)
    ensures And(x, y) <= y
  {
    if x != 0 && y != 0 {
      AndAtMost(x / 2, y / 2);
    }
  }

  /** Flipping all k bits of a number below Pow2(k). */
  lemma {:induction false} XorOnes(y: nat, k: nat)
    requires y < Pow2(k)
    ensures Xor(Pow2(k) - 1, y) == Pow2(k) - 1 - y
  {
    if k > 0 {
      var p := Pow2(k - 1);
      XorOnes(y / 2, k - 1);
      assert (2 * p - 1) / 2 == p - 1 && (2 * p - 1) % 2 == 1;
    }
  }
}

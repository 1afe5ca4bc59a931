/** av_popcount_c and av_popcount64_c of libavutil/common.h: adding up bits in lanes of two, four and eight. */
module Popcount {
  import opened Bits

  // ----- The lines of av_popcount_c, on 32-bit words -----

  function Pairs(x: nat): nat {
    (x - And(Shr(x, 1), 0x55555555)) % WORD
  }

  function Nibbles(x: nat): nat {
    (And(x, 0x33333333) + And(Shr(x, 2), 0x33333333)) % WORD
  }

  function Bytes(x: nat): nat {
    And((x + Shr(x, 4)) % WORD, 0x0F0F0F0F)
  }

  function Halves(x: nat): nat {
    (x + Shr(x, 8)) % WORD
  }

  function Total(x: nat): nat {
    And((x + Shr(x, 16)) % WORD, 0x3F)
  }

  // ----- The meaning -----

  function BitSum(x: nat): nat {
    if x == 0 then 0 else x % 2 + BitSum(x / 2)
  }

  /** The word with these lanes, each of k bits, lowest first. */
  function Word(lanes: seq<nat>, k: nat): nat {
    if lanes == [] then 0 else Shl(Word(lanes[1..], k), k) + lanes[0]
  }

  function Sum(lanes: seq<nat>): nat {
    if lanes == [] then 0 else lanes[0] + Sum(lanes[1..])
  }

  predicate AtMost(lanes: seq<nat>, most: nat) {
    forall i :: 0 <= i < |lanes| ==> lanes[i] <= most
  }

  /** The same digit in each of n lanes of k bits. */
  function Mask(k: nat, digit: nat, n: nat): nat {
    if n == 0 then 0 else Shl(Mask(k, digit, n - 1), k) + digit
  }

  lemma ShlTwo(x: nat)
    ensures Shl(x, 2) == 4 * x
  {
    ShlIs(x, 2);
    Pow2Values();
  }

  lemma ShlFour(x: nat)
    ensures Shl(x, 4) == 16 * x
  {
    ShlIs(x, 4);
    Pow2Values();
  }

  lemma ShlEight(x: nat)
    ensures Shl(x, 8) == 256 * x
  {
    ShlIs(x, 8);
    Pow2Values();
  }

  /** `&` works lane by lane. */
  lemma {:induction false} AndLane(x: nat, y: nat, a: nat, b: nat, k: nat)
    requires a < Pow2(k) && b < Pow2(k)
    ensures And(Shl(x, k) + a, Shl(y, k) + b) == Shl(And(x, y), k) + And(a, b)
  {
    if k > 0 {
      AndLane(x, y, a / 2, b / 2, k - 1);
      AndLaneNext(Shl(x, k - 1), Shl(y, k - 1), Shl(And(x, y), k - 1), a, b);
    }
  }

  lemma AndLaneNext(x: nat, y: nat, high: nat, a: nat, b: nat)
    requires And(x + a / 2, y + b / 2) == high + And(a / 2, b / 2)
    ensures And(2 * x + a, 2 * y + b) == 2 * high + And(a, b)
  {
    AndBitwise(x + a / 2, y + b / 2, a % 2, b % 2);
    AndBitwise(a / 2, b / 2, a % 2, b % 2);
  }

  lemma AndBitwise(x: nat, y: nat, a: nat, b: nat)
    requires a < 2 && b < 2
    ensures And(2 * x + a, 2 * y + b) == 2 * And(x, y) + if a == 1 && b == 1 then 1 else 0
  {
  }

  // ----- Step by step -----

  /** Every pair of bits becomes its own sum. */
  lemma {:induction false} PairsStep(x: nat, n: nat) returns (lanes: seq<nat>)
    requires x < Pow2(2 * n)
    ensures x == And(x / 2, Mask(2, 1, n)) + Word(lanes, 2)
    ensures |lanes| == n && AtMost(lanes, 2) && Sum(lanes) == BitSum(x)
  {
    if n == 0 {
      lanes := [];
    } else {
      var r, rest := x % 4, x / 4;
      assert rest < Pow2(2 * (n - 1)) by {
        assert Pow2(2 * n) == 4 * Pow2(2 * (n - 1));
      }
      var lanes' := PairsStep(rest, n - 1);
      lanes := [r - r / 2] + lanes';
      assert lanes[1..] == lanes';
      PairOut(x, Mask(2, 1, n - 1));
      ShlTwo(Word(lanes', 2));
      BitSumPair(x);
    }
  }

  lemma PairOut(x: nat, mask: nat)
    ensures And(x / 2, Shl(mask, 2) + 1) == 4 * And(x / 4 / 2, mask) + x % 4 / 2
  {
    var h, c := x / 4 / 2, x / 2 % 4;
    PairDigits(x);
    LaneOut2(h, mask, c, 1);
    AndOne(c);
  }

  lemma PairDigits(x: nat)
    ensures x / 2 == 4 * (x / 4 / 2) + x / 2 % 4 && x / 2 % 4 % 2 == x % 4 / 2
  {
  }

  /** AndLane with the shifts of this file written out. */
  lemma LaneOut2(x: nat, mask: nat, a: nat, digit: nat)
    requires a < 4 && digit < 4
    ensures And(4 * x + a, Shl(mask, 2) + digit) == 4 * And(x, mask) + And(a, digit)
  {
    Pow2Values();
    AndLane(x, mask, a, digit, 2);
    ShlIs(x, 2);
    ShlIs(And(x, mask), 2);
  }

  lemma LaneOut4(x: nat, mask: nat, a: nat, digit: nat)
    requires a < 16 && digit < 16
    ensures And(16 * x + a, Shl(mask, 4) + digit) == 16 * And(x, mask) + And(a, digit)
  {
    Pow2Values();
    AndLane(x, mask, a, digit, 4);
    ShlIs(x, 4);
    ShlIs(And(x, mask), 4);
  }

  lemma LaneOut8(x: nat, mask: nat, a: nat, digit: nat)
    requires a < 256 && digit < 256
    ensures And(256 * x + a, Shl(mask, 8) + digit) == 256 * And(x, mask) + And(a, digit)
  {
    Pow2Values();
    AndLane(x, mask, a, digit, 8);
    ShlIs(x, 8);
    ShlIs(And(x, mask), 8);
  }

  lemma BitSumPair(x: nat)
    ensures BitSum(x) == x % 4 - x % 4 / 2 + BitSum(x / 4)
  {
    assert BitSum(x) == x % 2 + BitSum(x / 2);
    assert BitSum(x / 2) == x / 2 % 2 + BitSum(x / 4);
  }

  /** One more lane at the low end. */
  lemma WordOf(x: nat, lanes: seq<nat>, k: nat) returns (more: seq<nat>)
    requires k == 4 || k == 8
    ensures more == [x] + lanes && Sum(more) == x + Sum(lanes)
    ensures k == 4 ==> Word(more, 4) == 16 * Word(lanes, 4) + x
    ensures k == 8 ==> Word(more, 8) == 256 * Word(lanes, 8) + x
  {
    more := [x] + lanes;
    assert more[1..] == lanes;
    ShlFour(Word(lanes, k));
    ShlEight(Word(lanes, k));
  }

  /** The first two lanes apart from the others. */
  lemma TwoPairs(lanes: seq<nat>)
    requires |lanes| >= 2
    ensures Word(lanes, 2) == 16 * Word(lanes[2..], 2) + 4 * lanes[1] + lanes[0]
    ensures Sum(lanes) == lanes[0] + lanes[1] + Sum(lanes[2..])
  {
    assert lanes[1..][1..] == lanes[2..];
    ShlTwo(Word(lanes[2..], 2));
    ShlTwo(Word(lanes[1..], 2));
  }

  lemma TwoNibbles(lanes: seq<nat>)
    requires |lanes| >= 2
    ensures Word(lanes, 4) == 256 * Word(lanes[2..], 4) + 16 * lanes[1] + lanes[0]
    ensures Sum(lanes) == lanes[0] + lanes[1] + Sum(lanes[2..])
  {
    assert lanes[1..][1..] == lanes[2..];
    ShlFour(Word(lanes[2..], 4));
    ShlFour(Word(lanes[1..], 4));
  }

  lemma And3(x: nat)
    ensures And(x, 3) == x % 4
  {
    Pow2Values();
    AndMask(x, 2);
  }

  lemma And15(x: nat)
    ensures And(x, 15) == x % 16
  {
    Pow2Values();
    AndMask(x, 4);
  }

  lemma And63(x: nat)
    ensures And(x, 63) == x % 64
  {
    Pow2Values();
    AndMask(x, 6);
  }

  /** Neighbouring pairs are added into nibbles: at most four in each. */
  lemma {:induction false} NibblesStep(lanes: seq<nat>, n: nat) returns (sums: seq<nat>)
    requires |lanes| == 2 * n && AtMost(lanes, 2)
    ensures var x := Word(lanes, 2);
            And(x, Mask(4, 3, n)) + And(x / 4, Mask(4, 3, n)) == Word(sums, 4)
    ensures |sums| == n && AtMost(sums, 4) && Sum(sums) == Sum(lanes)
  {
    if n == 0 {
      sums := [];
    } else {
      var sums' := NibblesStep(lanes[2..], n - 1);
      sums := NibblesNext(lanes, lanes[2..], n - 1, sums');
    }
  }

  lemma NibblesNext(lanes: seq<nat>, rest: seq<nat>, n: nat, before: seq<nat>) returns (sums: seq<nat>)
    requires |lanes| >= 2 && AtMost(lanes, 2) && rest == lanes[2..]
    requires var w := Word(rest, 2);
             And(w, Mask(4, 3, n)) + And(w / 4, Mask(4, 3, n)) == Word(before, 4)
    requires AtMost(before, 4)
    ensures var x, m := Word(lanes, 2), Shl(Mask(4, 3, n), 4) + 3;
            And(x, m) + And(x / 4, m) == Word(sums, 4)
    ensures |sums| == |before| + 1 && AtMost(sums, 4) && Sum(sums) - Sum(before) == Sum(lanes) - Sum(rest)
  {
    sums := WordOf(lanes[0] + lanes[1], before, 4);
    NibbleLane(lanes, rest, Mask(4, 3, n));
  }

  lemma NibbleLane(lanes: seq<nat>, rest: seq<nat>, mask: nat)
    requires |lanes| >= 2 && AtMost(lanes, 2) && rest == lanes[2..]
    ensures var x, w := Word(lanes, 2), Word(rest, 2);
            && And(x, Shl(mask, 4) + 3) == 16 * And(w, mask) + lanes[0]
            && And(x / 4, Shl(mask, 4) + 3) == 16 * And(w / 4, mask) + lanes[1]
    ensures Sum(lanes) == lanes[0] + lanes[1] + Sum(rest)
  {
    TwoPairs(lanes);
    NibbleOut(Word(lanes, 2), Word(rest, 2), lanes[0], lanes[1], mask);
  }

  lemma NibbleOut(x: nat, w: nat, a: nat, b: nat, mask: nat)
    requires a < 4 && b < 4 && x == 16 * w + 4 * b + a
    ensures And(x, Shl(mask, 4) + 3) == 16 * And(w, mask) + a
    ensures And(x / 4, Shl(mask, 4) + 3) == 16 * And(w / 4, mask) + b
  {
    var c, d, h := 4 * (w % 4) + b, 4 * b + a, w / 4;
    NibbleDigits(w, a, b);
    LowPair(w, mask, d);
    LowPair(h, mask, c);
  }

  lemma LowPair(w: nat, mask: nat, d: nat)
    requires d < 16
    ensures And(16 * w + d, Shl(mask, 4) + 3) == 16 * And(w, mask) + d % 4
  {
    LaneOut4(w, mask, d, 3);
    And3(d);
  }

  lemma NibbleDigits(w: nat, a: nat, b: nat)
    requires a < 4 && b < 4
    ensures (16 * w + 4 * b + a) / 4 == 16 * (w / 4) + (4 * (w % 4) + b)
    ensures (4 * b + a) % 4 == a && (4 * (w % 4) + b) % 4 == b
  {
  }

  /** Neighbouring nibbles are added into bytes, with no carry from one byte into the next. */
  lemma {:induction false} BytesStep(lanes: seq<nat>, n: nat) returns (sums: seq<nat>)
    requires |lanes| == 2 * n && AtMost(lanes, 4)
    ensures var x := Word(lanes, 4);
            And(x + x / 16, Mask(8, 15, n)) == Word(sums, 8)
    ensures |sums| == n && AtMost(sums, 8) && Sum(sums) == Sum(lanes)
  {
    if n == 0 {
      sums := [];
    } else {
      var rest := lanes[2..];
      var sums' := BytesStep(rest, n - 1);
      sums := WordOf(lanes[0] + lanes[1], sums', 8);
      ByteLane(lanes, rest, Mask(8, 15, n - 1));
    }
  }

  lemma ByteLane(lanes: seq<nat>, rest: seq<nat>, mask: nat)
    requires |lanes| >= 2 && AtMost(lanes, 4) && rest == lanes[2..]
    ensures var x, w := Word(lanes, 4), Word(rest, 4);
            And(x + x / 16, Shl(mask, 8) + 15) == 256 * And(w + w / 16, mask) + (lanes[0] + lanes[1])
    ensures Sum(lanes) == lanes[0] + lanes[1] + Sum(rest)
  {
    TwoNibbles(lanes);
    LowNibble(rest);
    ByteOut(Word(lanes, 4), Word(rest, 4), lanes[0], lanes[1], mask);
  }

  lemma LowNibble(lanes: seq<nat>)
    requires AtMost(lanes, 4)
    ensures Word(lanes, 4) % 16 <= 4
  {
    if lanes != [] {
      ShlFour(Word(lanes[1..], 4));
    }
  }

  lemma ByteOut(x: nat, w: nat, a: nat, b: nat, mask: nat)
    requires a <= 4 && b <= 4 && w % 16 <= 4
    requires x == 256 * w + 16 * b + a
    ensures And(x + x / 16, Shl(mask, 8) + 15) == 256 * And(w + w / 16, mask) + (a + b)
  {
    var h, low := w + w / 16, 16 * (w % 16 + b) + (a + b);
    ByteDigits(w, a, b);
    LaneOut8(h, mask, low, 15);
    And15(low);
  }

  lemma ByteDigits(w: nat, a: nat, b: nat)
    requires a <= 4 && b <= 4 && w % 16 <= 4
    ensures var x, low := 256 * w + 16 * b + a, 16 * (w % 16 + b) + (a + b);
            x + x / 16 == 256 * (w + w / 16) + low && low < 256 && low % 16 == a + b
  {
    assert (256 * w + 16 * b + a) / 16 == 16 * w + b;
  }

  /** Four bytes of at most eight are added up by two shifted additions. */
  lemma TotalStep(lanes: seq<nat>)
    requires |lanes| == 4 && AtMost(lanes, 8)
    ensures Total(Halves(Word(lanes, 8))) == Sum(lanes)
  {
    var x := Word(lanes, 8);
    FourLanes(lanes);
    FourSum(lanes);
    TotalDigits(lanes[0], lanes[1], lanes[2], lanes[3], x, x + x / 256);
    TotalIs(x, x + x / 256);
  }

  lemma TotalIs(x: nat, y: nat)
    requires y == x + x / 256 < WORD && y + y / 0x1_0000 < WORD
    ensures Total(Halves(x)) == (y + y / 0x1_0000) % 64
  {
    HalvesIs(x, y);
    LastSum(y, y + y / 0x1_0000);
  }

  lemma HalvesIs(x: nat, y: nat)
    requires y == x + x / 256 < WORD
    ensures Halves(x) == y
  {
    ShiftedBy8(x);
  }

  lemma LastSum(y: nat, z: nat)
    requires z == y + y / 0x1_0000 < WORD
    ensures Total(y) == z % 64
  {
    ShiftedBy16(y);
    And63(z);
  }

  /** A word plus itself shifted, when the sum fits. */
  lemma ShiftedSum(x: nat, k: nat, p: nat)
    requires p == Pow2(k) && x + x / p < WORD
    ensures (x + Shr(x, k)) % WORD == x + x / p
  {
    ShrIs(x, k);
  }

  lemma ShiftedBy4(x: nat)
    requires x + x / 16 < WORD
    ensures (x + Shr(x, 4)) % WORD == x + x / 16
  {
    Pow2Values();
    ShiftedSum(x, 4, 16);
  }

  lemma ShiftedBy8(x: nat)
    requires x + x / 256 < WORD
    ensures (x + Shr(x, 8)) % WORD == x + x / 256
  {
    Pow2Values();
    ShiftedSum(x, 8, 256);
  }

  lemma ShiftedBy16(x: nat)
    requires x + x / 0x1_0000 < WORD
    ensures (x + Shr(x, 16)) % WORD == x + x / 0x1_0000
  {
    Pow2Values();
    ShiftedSum(x, 16, 0x1_0000);
  }

  lemma TotalDigits(a: nat, b: nat, c: nat, d: nat, x: nat, y: nat)
    requires a <= 8 && b <= 8 && c <= 8 && d <= 8
    requires x == 0x100_0000 * d + 0x1_0000 * c + 256 * b + a && y == x + x / 256
    ensures x < WORD && y < WORD && y + y / 0x1_0000 < WORD && (y + y / 0x1_0000) % 64 == a + b + c + d
  {
    assert x / 256 == 0x1_0000 * d + 256 * c + b;
    assert y / 0x1_0000 == 256 * d + (c + d);
    assert y + y / 0x1_0000 == 64 * (0x4_0000 * d + 0x400 * (c + d) + 4 * (b + c) + 4 * d) + (a + b + c + d);
  }

  lemma FourLanes(lanes: seq<nat>)
    requires |lanes| == 4
    ensures Word(lanes, 8) == 0x100_0000 * lanes[3] + 0x1_0000 * lanes[2] + 256 * lanes[1] + lanes[0]
  {
    assert lanes[1..][1..] == lanes[2..] && lanes[2..][1..] == lanes[3..] && lanes[3..][1..] == [];
    ShlIs(Word(lanes[1..], 8), 8);
    ShlIs(Word(lanes[2..], 8), 8);
    ShlIs(Word(lanes[3..], 8), 8);
    ShlIs(0, 8);
    Pow2Values();
    assert Word(lanes[3..], 8) == lanes[3];
  }

  lemma FourSum(lanes: seq<nat>)
    requires |lanes| == 4
    ensures Sum(lanes) == lanes[0] + lanes[1] + lanes[2] + lanes[3]
  {
    assert lanes[1..][1..] == lanes[2..] && lanes[2..][1..] == lanes[3..] && lanes[3..][1..] == [];
    assert Sum(lanes[3..]) == lanes[3];
    assert Sum(lanes[2..]) == lanes[2] + lanes[3];
  }

  // ----- The result -----

  lemma PairMask()
    ensures Mask(2, 1, 16) == 0x55555555
  {
    MaskBy4(2, 1, 0);
    MaskBy4(2, 1, 4);
    MaskBy4(2, 1, 8);
    MaskBy4(2, 1, 12);
  }

  lemma NibbleMask()
    ensures Mask(4, 3, 8) == 0x33333333
  {
    MaskBy4(4, 3, 0);
    MaskBy4(4, 3, 4);
  }

  lemma ByteMask()
    ensures Mask(8, 15, 4) == 0x0F0F0F0F
  {
    MaskBy4(8, 15, 0);
  }

  lemma MaskBy4(k: nat, digit: nat, n: nat)
    requires k == 2 || k == 4 || k == 8
    ensures var m := Mask(k, digit, n);
            && (k == 2 ==> Mask(k, digit, n + 4) == 256 * m + 85 * digit)
            && (k == 4 ==> Mask(k, digit, n + 4) == 0x1_0000 * m + 0x1111 * digit)
            && (k == 8 ==> Mask(k, digit, n + 4) == 0x1_0000_0000 * m + 0x101_0101 * digit)
  {
    MaskNext(k, digit, n);
    MaskNext(k, digit, n + 1);
    MaskNext(k, digit, n + 2);
    MaskNext(k, digit, n + 3);
  }

  lemma MaskNext(k: nat, digit: nat, n: nat)
    requires k == 2 || k == 4 || k == 8
    ensures Mask(k, digit, n + 1) == (if k == 2 then 4 else if k == 4 then 16 else 256) * Mask(k, digit, n) + digit
  {
    ShlTwo(Mask(k, digit, n));
    ShlFour(Mask(k, digit, n));
    ShlEight(Mask(k, digit, n));
  }

  lemma PairsIs(x: nat, z: nat)
    requires x < WORD && x == And(x / 2, 0x55555555) + z
    ensures Pairs(x) == z
  {
    assert Shr(x, 1) == x / 2;
  }

  lemma NibblesIs(x: nat, y: nat)
    requires y == And(x, 0x33333333) + And(x / 4, 0x33333333)
    ensures Nibbles(x) == y <= 0x66666666
  {
    Pow2Values();
    ShrIs(x, 2);
    AndAtMost(x, 0x33333333);
    AndAtMost(x / 4, 0x33333333);
  }

  lemma BytesIs(x: nat, y: nat)
    requires x <= 0x66666666 && y == And(x + x / 16, 0x0F0F0F0F)
    ensures Bytes(x) == y
  {
    ShiftedBy4(x);
  }

  lemma PairLanes(x: nat) returns (pairs: seq<nat>)
    requires x < WORD
    ensures Pairs(x) == Word(pairs, 2) && |pairs| == 16 && AtMost(pairs, 2) && Sum(pairs) == BitSum(x)
  {
    PairMask();
    assert x < Pow2(2 * 16) by {
      Pow2Values();
    }
    pairs := PairsStep(x, 16);
    PairsIs(x, Word(pairs, 2));
  }

  lemma NibbleLanes(pairs: seq<nat>) returns (nibbles: seq<nat>)
    requires |pairs| == 16 && AtMost(pairs, 2)
    ensures Nibbles(Word(pairs, 2)) == Word(nibbles, 4) <= 0x66666666
    ensures |nibbles| == 8 && AtMost(nibbles, 4) && Sum(nibbles) == Sum(pairs)
  {
    NibbleMask();
    nibbles := NibblesStep(pairs, 8);
    NibblesIs(Word(pairs, 2), Word(nibbles, 4));
  }

  lemma ByteLanes(nibbles: seq<nat>) returns (bytes: seq<nat>)
    requires |nibbles| == 8 && AtMost(nibbles, 4) && Word(nibbles, 4) <= 0x66666666
    ensures Bytes(Word(nibbles, 4)) == Word(bytes, 8)
    ensures |bytes| == 4 && AtMost(bytes, 8) && Sum(bytes) == Sum(nibbles)
  {
    bytes := MaskedBytes(nibbles, Word(nibbles, 4));
    BytesIs(Word(nibbles, 4), Word(bytes, 8));
  }

  lemma MaskedBytes(nibbles: seq<nat>, x: nat) returns (bytes: seq<nat>)
    requires |nibbles| == 8 && AtMost(nibbles, 4) && x == Word(nibbles, 4)
    ensures And(x + x / 16, 0x0F0F0F0F) == Word(bytes, 8)
    ensures |bytes| == 4 && AtMost(bytes, 8) && Sum(bytes) == Sum(nibbles)
  {
    ByteMask();
    bytes := BytesStep(nibbles, 4);
  }

  /** av_popcount_c counts the ones of any 32-bit word. */
  method PopcountC(word: nat) returns (ones: nat)
    requires word < WORD
    ensures ones == BitSum(word)
  {
    ghost var pairs := PairLanes(word);
    var x := Pairs(word);
    ghost var nibbles := NibbleLanes(pairs);
    x := Nibbles(x);
    ghost var bytes := ByteLanes(nibbles);
    x := Bytes(x);
    TotalStep(bytes);
    x := Halves(x);
    return Total(x);
  }

  lemma {:induction false} BitSumSplit(x: nat, k: nat)
    ensures BitSum(x) == BitSum(x % Pow2(k)) + BitSum(Shr(x, k))
  {
    if k == 0 {
      assert x % 1 == 0;
    } else {
      var p := Pow2(k - 1);
      BitSumSplit(x / 2, k - 1);
      Halve(x, p);
      DivIs(x % (2 * p), 2, x / 2 % p, x % 2);
      BitSumHalf(x);
      BitSumHalf(x % (2 * p));
    }
  }

  lemma BitSumHalf(x: nat)
    ensures BitSum(x) == x % 2 + BitSum(x / 2)
  {
  }

  lemma TwoWords(x: nat, low: nat, high: nat)
    requires x < WORD * WORD && low == x % WORD && high == Shr(x, 32) % WORD
    ensures BitSum(x) == BitSum(low) + BitSum(high)
  {
    UpperWord(x);
    BitSumSplit(x, 32);
  }

  lemma UpperWord(x: nat)
    requires x < WORD * WORD
    ensures Pow2(32) == WORD && Shr(x, 32) % WORD == Shr(x, 32)
  {
    Pow2Values();
    ShrIs(x, 32);
  }

  /** av_popcount64_c counts the ones of any 64-bit word. */
  method Popcount64C(x: nat) returns (ones: nat)
    requires x < WORD * WORD
    ensures ones == BitSum(x)
  {
    var low, high := x % WORD, Shr(x, 32) % WORD;
    TwoWords(x, low, high);
    var lowOnes := PopcountC(low);
    var highOnes := PopcountC(high);
    return lowOnes + highOnes;
  }
}

/** Byte order in libavutil: the swaps of bswap.h and the memory accesses of intreadwrite.h, by explicit shifts and by
    native access on either kind of host, against one meaning: numbers written in base 256. */
module ByteOrder {
  import opened Bits

  /** AV_HAVE_BIGENDIAN. */
  datatype Host = BigHost | LittleHost

  // ----- Meaning -----

  /** The number a byte string is, most significant byte first. */
  function FromBE(s: seq<byte>): nat {
    if s == [] then 0 else 256 * FromBE(s[..|s| - 1]) + s[|s| - 1]
  }

  /** The n low bytes of v, most significant first. */
  function ToBE(v: nat, n: nat): (s: seq<byte>)
    ensures |s| == n
  {
    if n == 0 then [] else ToBE(v / 256, n - 1) + [v % 256]
  }

  function Reverse(s: seq<byte>): (r: seq<byte>)
    ensures |r| == |s|
    ensures forall i :: 0 <= i < |s| ==> r[i] == s[|s| - 1 - i]
  {
    if s == [] then [] else [s[|s| - 1]] + Reverse(s[..|s| - 1])
  }

  function FromLE(s: seq<byte>): nat {
    FromBE(Reverse(s))
  }

  function ToLE(v: nat, n: nat): (s: seq<byte>)
    ensures |s| == n
  {
    Reverse(ToBE(v, n))
  }

  lemma ReverseTwice(s: seq<byte>)
    ensures Reverse(Reverse(s)) == s
  {
  }

  lemma {:induction false} WriteThenRead(v: nat, n: nat)
    ensures FromBE(ToBE(v, n)) == v % Pow2(8 * n)
    ensures FromLE(ToLE(v, n)) == v % Pow2(8 * n)
  {
    ReverseTwice(ToBE(v, n));
    if n == 0 {
      assert v % 1 == 0;
    } else {
      WriteThenRead(v / 256, n - 1);
      Pow2Step(n);
      DivDiv(v, 256, Pow2(8 * n - 8));
    }
  }

  lemma Pow2Step(n: nat)
    requires n > 0
    ensures Pow2(8 * n) == 256 * Pow2(8 * n - 8)
  {
    Pow2Add(8, 8 * n - 8);
    Pow2Values();
  }

  lemma {:induction false} ReadThenWrite(s: seq<byte>)
    ensures ToBE(FromBE(s), |s|) == s
    ensures ToLE(FromLE(s), |s|) == s
  {
    ReadThenWriteBE(s);
    ReadThenWriteBE(Reverse(s));
    ReverseTwice(s);
  }

  lemma {:induction false} ReadThenWriteBE(s: seq<byte>)
    ensures ToBE(FromBE(s), |s|) == s && FromBE(s) < Pow2(8 * |s|)
  {
    if s != [] {
      ReadThenWriteBE(s[..|s| - 1]);
      Pow2Step(|s|);
      DivIs(FromBE(s), 256, FromBE(s[..|s| - 1]), s[|s| - 1]);
    }
  }

  /** A number is told by its bytes. */
  lemma SameBytes(x: nat, y: nat, n: nat)
    requires x < Pow2(8 * n) && y < Pow2(8 * n) && ToBE(x, n) == ToBE(y, n)
    ensures x == y
  {
    WriteThenRead(x, n);
    WriteThenRead(y, n);
    DivIs(x, Pow2(8 * n), 0, x);
    DivIs(y, Pow2(8 * n), 0, y);
  }

  // ----- bswap.h -----

  function BSWAP16C(x: nat): nat {
    Or(And(Shl(x, 8), 0xFF00), And(Shr(x, 8), 0x00FF))
  }

  function BSWAP32C(x: nat): nat {
    Or(Shl(BSWAP16C(x), 16), BSWAP16C(Shr(x, 16)))
  }

  function BSWAP64C(x: nat): nat {
    Or(Shl(BSWAP32C(x), 32), BSWAP32C(Shr(x, 32)))
  }

  function Bswap16(x: nat): nat {
    Or(Shr(x, 8), Shl(x, 8)) % Pow2(16)
  }

  function Bswap32(x: nat): nat {
    BSWAP32C(x)
  }

  function Bswap64(x: nat): nat {
    Or(Shl(Bswap32(x % Pow2(32)), 32), Bswap32(Shr(x, 32)))
  }

  lemma {:induction false} ShrShr(x: nat, a: nat, b: nat)
    ensures Shr(x, a + b) == Shr(Shr(x, a), b)
  {
    if a > 0 {
      ShrShr(x / 2, a - 1, b);
    }
  }

  lemma ShrByte(x: nat, n: nat)
    ensures Shr(x, 8 * n + 8) == Shr(x / 256, 8 * n)
  {
    ShrShr(x, 8, 8 * n);
    ShrIs(x, 8);
    Pow2Values();
  }

  lemma ToBENext(x: nat, n: nat)
    ensures ToBE(x, n + 1) == ToBE(x / 256, n) + [x % 256]
  {
  }

  /** The high bytes are those of the number shifted down. */
  lemma {:induction false} ToBESplit(x: nat, m: nat, n: nat)
    ensures ToBE(x, m + n) == ToBE(Shr(x, 8 * n), m) + ToBE(x, n)
  {
    if n == 0 {
      assert ToBE(x, m) + [] == ToBE(x, m);
    } else {
      ToBESplit(x / 256, m, n - 1);
      ShrByte(x, n - 1);
      ToBENext(x, m + n - 1);
      ToBENext(x, n - 1);
      assert ToBE(Shr(x, 8 * n), m) + (ToBE(x / 256, n - 1) + [x % 256])
          == (ToBE(Shr(x, 8 * n), m) + ToBE(x / 256, n - 1)) + [x % 256];
    }
  }

  lemma {:induction false} ToBELow(a: nat, b: nat, n: nat)
    ensures ToBE(a * Pow2(8 * n) + b, n) == ToBE(b, n)
  {
    if n > 0 {
      var p := Pow2(8 * n - 8);
      Pow2Step(n);
      assert a * (256 * p) == 256 * (a * p);
      DivIs(256 * (a * p) + b, 256, a * p + b / 256, b % 256);
      ToBELow(a, b / 256, n - 1);
    }
  }

  /** `a << 8n | b` writes a and then b. */
  lemma JoinBytes(a: nat, b: nat, m: nat, n: nat)
    requires b < Pow2(8 * n)
    ensures ToBE(Or(Shl(a, 8 * n), b), m + n) == ToBE(a, m) + ToBE(b, n)
  {
    var x := Or(Shl(a, 8 * n), b);
    assert x == a * Pow2(8 * n) + b by {
      OrAdds(a, b, 8 * n);
      ShlIs(a, 8 * n);
    }
    assert Shr(x, 8 * n) == a by {
      ShrIs(x, 8 * n);
      DivIs(x, Pow2(8 * n), a, b);
    }
    ToBESplit(x, m, n);
    ToBELow(a, b, n);
  }

  lemma JoinBound(a: nat, b: nat, j: nat, k: nat)
    requires a < Pow2(j) && b < Pow2(k)
    ensures Or(Shl(a, k), b) < Pow2(j + k)
  {
    OrAdds(a, b, k);
    ShlIs(a, k);
    Pow2Add(j, k);
    Below(a, b, Pow2(j), Pow2(k));
  }

  lemma ToBETruncated(v: nat, n: nat)
    ensures ToBE(v % Pow2(8 * n), n) == ToBE(v, n)
  {
    var p := Pow2(8 * n);
    DivNat(v, p);
    ToBEOf(v, v / p, v % p, n);
  }

  lemma ToBEOf(v: nat, a: nat, b: nat, n: nat)
    requires v == a * Pow2(8 * n) + b
    ensures ToBE(v, n) == ToBE(b, n)
  {
    ToBELow(a, b, n);
  }

  lemma {:induction false} ReverseParts(a: seq<byte>, b: seq<byte>)
    ensures Reverse(a + b) == Reverse(b) + Reverse(a)
  {
  }

  lemma Swap16Is(x: nat)
    ensures BSWAP16C(x) == Or(Shl(x % 256, 8), x / 256 % 256)
  {
    Pow2Values();
    assert And(Shl(x, 8), 0xFF00) == Shl(x % 256, 8) by {
      ShlIs(255, 8);
      AndHigh(Shl(x, 8), 255, 8);
      ShlIs(x, 8);
      ShrIs(x * 256, 8);
      AndMask(x, 8);
    }
    assert And(Shr(x, 8), 0x00FF) == x / 256 % 256 by {
      ShrIs(x, 8);
      AndMask(x / 256, 8);
    }
  }

  lemma PairBytes(a: byte, b: byte)
    ensures ToBE(Or(Shl(a, 8), b), 2) == [a, b] && Or(Shl(a, 8), b) < 0x1_0000
  {
    PairIs(a, b);
    BytesOfPair(256 * a + b, a, b);
  }

  lemma BytesOfPair(x: nat, a: byte, b: byte)
    requires x == 256 * a + b
    ensures ToBE(x, 2) == [a, b]
  {
    DivIs(x, 256, a, b);
    TwoBytes(x);
  }

  lemma PairIs(a: byte, b: byte)
    ensures Or(Shl(a, 8), b) == 256 * a + b
  {
    Pow2Values();
    OrAdds(a, b, 8);
    ShlIs(a, 8);
  }

  lemma Swap16(x: nat)
    ensures ToBE(BSWAP16C(x), 2) == Reverse(ToBE(x, 2)) && BSWAP16C(x) < Pow2(16)
  {
    Swap16Is(x);
    PairBytes(x % 256, x / 256 % 256);
    TwoBytes(x);
    Pow2Values();
    ReversePair(x / 256 % 256, x % 256);
  }

  lemma ReversePair(a: byte, b: byte)
    ensures Reverse([a, b]) == [b, a]
  {
    assert [a, b] == [a] + [b];
    ReverseParts([a], [b]);
    assert [a][..0] == [] && [b][..0] == [];
  }

  lemma TwoBytes(x: nat)
    ensures ToBE(x, 2) == [x / 256 % 256, x % 256]
  {
    OneByte(x / 256);
  }

  lemma OneByte(x: nat)
    ensures ToBE(x, 1) == [x % 256]
  {
    assert ToBE(x / 256, 0) == [];
  }

  lemma Swap32(x: nat)
    ensures ToBE(BSWAP32C(x), 4) == Reverse(ToBE(x, 4)) && BSWAP32C(x) < Pow2(32)
  {
    Swap16(x);
    Swap16(Shr(x, 16));
    JoinBytes(BSWAP16C(x), BSWAP16C(Shr(x, 16)), 2, 2);
    JoinBound(BSWAP16C(x), BSWAP16C(Shr(x, 16)), 16, 16);
    ToBESplit(x, 2, 2);
    ReverseParts(ToBE(Shr(x, 16), 2), ToBE(x, 2));
  }

  lemma Swap64(x: nat)
    ensures ToBE(BSWAP64C(x), 8) == Reverse(ToBE(x, 8)) && BSWAP64C(x) < Pow2(64)
  {
    Swap32(x);
    Swap32(Shr(x, 32));
    JoinBytes(BSWAP32C(x), BSWAP32C(Shr(x, 32)), 4, 4);
    JoinBound(BSWAP32C(x), BSWAP32C(Shr(x, 32)), 32, 32);
    ToBESplit(x, 4, 4);
    ReverseParts(ToBE(Shr(x, 32), 4), ToBE(x, 4));
  }

  /** av_bswap16, av_bswap32, av_bswap64 by number of bytes. */
  function Bswap(x: nat, n: nat): nat
    requires n == 2 || n == 4 || n == 8
  {
    if n == 2 then Bswap16(x) else if n == 4 then Bswap32(x) else Bswap64(x)
  }

  lemma {:induction false} OrCommutes(x: nat, y: nat)
    ensures Or(x, y) == Or(y, x)
  {
    if x != 0 && y != 0 {
      OrCommutes(x / 2, y / 2);
    }
  }

  /** Each swap reverses the bytes of a word that fits its width; done twice it changes nothing. */
  lemma BswapReverses(x: nat, n: nat)
    requires (n == 2 || n == 4 || n == 8) && x < Pow2(8 * n)
    ensures ToBE(Bswap(x, n), n) == Reverse(ToBE(x, n)) && Bswap(x, n) < Pow2(8 * n)
  {
    if n == 2 {
      Pow2Values();
      ShrIs(x, 8);
      OrCommutes(Shr(x, 8), Shl(x, 8));
      JoinBytes(x, x / 256, 1, 1);
      ToBETruncated(Or(Shl(x, 8), x / 256), 2);
      OneByte(x);
      OneByte(x / 256);
      TwoBytes(x);
    } else if n == 4 {
      Swap32(x);
    } else {
      Swap32(x % Pow2(32));
      Swap32(Shr(x, 32));
      JoinBytes(Bswap32(x % Pow2(32)), Bswap32(Shr(x, 32)), 4, 4);
      JoinBound(Bswap32(x % Pow2(32)), Bswap32(Shr(x, 32)), 32, 32);
      ToBETruncated(x, 4);
      ToBESplit(x, 4, 4);
      ReverseParts(ToBE(Shr(x, 32), 4), ToBE(x, 4));
    }
  }

  lemma BswapInvolution(x: nat, n: nat)
    requires (n == 2 || n == 4 || n == 8) && x < Pow2(8 * n)
    ensures Bswap(Bswap(x, n), n) == x
  {
    BswapReverses(x, n);
    BswapReverses(Bswap(x, n), n);
    ReverseTwice(ToBE(x, n));
    SameBytes(Bswap(Bswap(x, n), n), x, n);
  }

  /** The macro forms for constants are the same functions as the inline ones. */
  lemma ConstantForms(x: nat)
    ensures x < Pow2(16) ==> BSWAP16C(x) == Bswap16(x)
    ensures BSWAP32C(x) == Bswap32(x)
    ensures x < Pow2(64) ==> BSWAP64C(x) == Bswap64(x)
  {
    if x < Pow2(16) {
      Swap16(x);
      BswapReverses(x, 2);
      SameBytes(BSWAP16C(x), Bswap16(x), 2);
    }
    if x < Pow2(64) {
      Swap64(x);
      BswapReverses(x, 8);
      SameBytes(BSWAP64C(x), Bswap64(x), 8);
    }
  }

  // ----- intreadwrite.h: reading -----

  /** How the host's own n-byte load and store see memory. */
  function Load(host: Host, s: seq<byte>): nat {
    if host == BigHost then FromBE(s) else FromLE(s)
  }

  function Store(host: Host, v: nat, n: nat): (s: seq<byte>)
    ensures |s| == n
  {
    if host == BigHost then ToBE(v, n) else ToLE(v, n)
  }

  /** AV_RB and AV_RL by native access. */
  function RB(host: Host, p: seq<byte>): nat
    requires |p| == 2 || |p| == 4 || |p| == 8
  {
    if host == BigHost then Load(host, p) else Bswap(Load(host, p), |p|)
  }

  function RL(host: Host, p: seq<byte>): nat
    requires |p| == 2 || |p| == 4 || |p| == 8
  {
    if host == BigHost then Bswap(Load(host, p), |p|) else Load(host, p)
  }

  /** AV_RB16 ... AV_RB64 by explicit shifts. */
  function RB16(p: seq<byte>): nat
    requires |p| == 2
  {
    Or(Shl(p[0], 8), p[1])
  }

  function RB24(p: seq<byte>): nat
    requires |p| == 3
  {
    Or(Or(Shl(p[0], 16), Shl(p[1], 8)), p[2])
  }

  function RB32(p: seq<byte>): nat
    requires |p| == 4
  {
    Or(Or(Or(Shl(p[0], 24), Shl(p[1], 16)), Shl(p[2], 8)), p[3])
  }

  function RB48(p: seq<byte>): nat
    requires |p| == 6
  {
    Or(Or(Or(Or(Or(Shl(p[0], 40), Shl(p[1], 32)), Shl(p[2], 24)), Shl(p[3], 16)), Shl(p[4], 8)), p[5])
  }

  function RB64(p: seq<byte>): nat
    requires |p| == 8
  {
    Or(Or(Or(Or(Or(Or(Or(Shl(p[0], 56), Shl(p[1], 48)), Shl(p[2], 40)), Shl(p[3], 32)), Shl(p[4], 24)),
             Shl(p[5], 16)), Shl(p[6], 8)), p[7])
  }

  /** AV_RL16 ... AV_RL64 by explicit shifts. */
  function RL16(p: seq<byte>): nat
    requires |p| == 2
  {
    Or(Shl(p[1], 8), p[0])
  }

  function RL24(p: seq<byte>): nat
    requires |p| == 3
  {
    Or(Or(Shl(p[2], 16), Shl(p[1], 8)), p[0])
  }

  function RL32(p: seq<byte>): nat
    requires |p| == 4
  {
    Or(Or(Or(Shl(p[3], 24), Shl(p[2], 16)), Shl(p[1], 8)), p[0])
  }

  function RL48(p: seq<byte>): nat
    requires |p| == 6
  {
    Or(Or(Or(Or(Or(Shl(p[5], 40), Shl(p[4], 32)), Shl(p[3], 24)), Shl(p[2], 16)), Shl(p[1], 8)), p[0])
  }

  function RL64(p: seq<byte>): nat
    requires |p| == 8
  {
    Or(Or(Or(Or(Or(Or(Or(Shl(p[7], 56), Shl(p[6], 48)), Shl(p[5], 40)), Shl(p[4], 32)), Shl(p[3], 24)),
             Shl(p[2], 16)), Shl(p[1], 8)), p[0])
  }

  /** The explicit form of each width. */
  function ExplicitRB(p: seq<byte>): nat
    requires |p| in {2, 3, 4, 6, 8}
  {
    if |p| == 2 then RB16(p) else if |p| == 3 then RB24(p) else if |p| == 4 then RB32(p)
    else if |p| == 6 then RB48(p) else RB64(p)
  }

  function ExplicitRL(p: seq<byte>): nat
    requires |p| in {2, 3, 4, 6, 8}
  {
    if |p| == 2 then RL16(p) else if |p| == 3 then RL24(p) else if |p| == 4 then RL32(p)
    else if |p| == 6 then RL48(p) else RL64(p)
  }

  /** Bytes or-ed together at falling shifts, the last at `low`. */
  function Ors(p: seq<byte>, low: nat): nat
    requires |p| > 0
  {
    var last := p[|p| - 1];
    if |p| == 1 then Shl(last, low) else Or(Ors(p[..|p| - 1], low + 8), Shl(last, low))
  }

  lemma {:induction false} OrsIs(p: seq<byte>, low: nat)
    requires |p| > 0
    ensures Ors(p, low) == Shl(FromBE(p), low)
  {
    var front, last := p[..|p| - 1], p[|p| - 1];
    if |p| == 1 {
      assert FromBE(front) == 0;
    } else {
      OrsIs(front, low + 8);
      OrAtShift(FromBE(front), last, low);
    }
  }

  lemma {:induction false} OrAtShift(x: nat, b: byte, low: nat)
    ensures Or(Shl(x, low + 8), Shl(b, low)) == Shl(256 * x + b, low)
  {
    if low == 0 {
      Pow2Values();
      ShlIs(x, 8);
      OrAdds(x, b, 8);
    } else {
      OrAtShift(x, b, low - 1);
      OrDouble(Shl(x, low + 7), Shl(b, low - 1));
    }
  }

  lemma OrDouble(x: nat, y: nat)
    ensures Or(2 * x, 2 * y) == 2 * Or(x, y)
  {
  }

  lemma OrsNext(p: seq<byte>, k: nat, low: nat)
    requires 1 <= k < |p|
    ensures Ors(p[..k + 1], low) == Or(Ors(p[..k], low + 8), Shl(p[k], low))
  {
    assert p[..k + 1][..k] == p[..k];
  }

  lemma OrsFirst(p: seq<byte>, low: nat)
    requires |p| > 0
    ensures Ors(p[..1], low) == Shl(p[0], low)
  {
  }

  lemma OrsPair(p: seq<byte>, low: nat)
    requires |p| >= 2
    ensures Ors(p[..2], low) == Or(Shl(p[0], low + 8), Shl(p[1], low))
  {
    OrsFirst(p, low + 8);
    OrsNext(p, 1, low);
  }

  lemma OrsFour(p: seq<byte>, low: nat)
    requires |p| >= 4
    ensures Ors(p[..4], low) == Or(Or(Or(Shl(p[0], low + 24), Shl(p[1], low + 16)), Shl(p[2], low + 8)), Shl(p[3], low))
  {
    OrsPair(p, low + 16);
    OrsNext(p, 2, low + 8);
    OrsNext(p, 3, low);
  }

  lemma OrsShort(p: seq<byte>)
    requires |p| in {2, 3, 4}
    ensures ExplicitRB(p) == Ors(p, 0)
  {
    assert p[..|p|] == p;
    if |p| == 2 {
      OrsPair(p, 0);
    } else if |p| == 3 {
      OrsPair(p, 8);
      OrsNext(p, 2, 0);
    } else {
      OrsFour(p, 0);
    }
  }

  lemma OrsSix(p: seq<byte>, low: nat)
    requires |p| >= 6
    ensures Ors(p[..6], low)
         == Or(Or(Or(Or(Or(Shl(p[0], low + 40), Shl(p[1], low + 32)), Shl(p[2], low + 24)), Shl(p[3], low + 16)),
                  Shl(p[4], low + 8)), Shl(p[5], low))
  {
    OrsFour(p, low + 16);
    OrsNext(p, 4, low + 8);
    OrsNext(p, 5, low);
  }

  lemma OrsEight(p: seq<byte>)
    requires |p| == 8
    ensures RB64(p) == Ors(p[..8], 0)
  {
    OrsSix(p, 16);
    OrsNext(p, 6, 8);
    OrsNext(p, 7, 0);
  }

  lemma OrsLong(p: seq<byte>)
    requires |p| in {6, 8}
    ensures ExplicitRB(p) == Ors(p, 0)
  {
    assert p[..|p|] == p;
    if |p| == 6 {
      OrsSix(p, 0);
    } else {
      OrsEight(p);
    }
  }

  lemma ExplicitMirror(p: seq<byte>)
    requires |p| in {2, 3, 4, 6, 8}
    ensures ExplicitRL(p) == ExplicitRB(Reverse(p))
  {
  }

  /** The explicit forms read the number in the order their name says, at every width. */
  lemma ExplicitReads(p: seq<byte>)
    requires |p| in {2, 3, 4, 6, 8}
    ensures ExplicitRB(p) == FromBE(p) && ExplicitRL(p) == FromLE(p)
  {
    OrsIs(p, 0);
    OrsIs(Reverse(p), 0);
    if |p| <= 4 {
      OrsShort(p);
      OrsShort(Reverse(p));
    } else {
      OrsLong(p);
      OrsLong(Reverse(p));
    }
    ExplicitMirror(p);
  }

  /** On either host, native access with a swap where the orders differ reads what the explicit shifts read. */
  lemma HostIndependentReads(host: Host, p: seq<byte>)
    requires |p| in {2, 4, 8}
    ensures RB(host, p) == FromBE(p) == ExplicitRB(p)
    ensures RL(host, p) == FromLE(p) == ExplicitRL(p)
  {
    ExplicitReads(p);
    SwapReads(p);
    SwapReads(Reverse(p));
    ReverseTwice(p);
  }

  /** Swapping what one order reads gives what the other reads. */
  lemma SwapReads(p: seq<byte>)
    requires |p| in {2, 4, 8}
    ensures Bswap(FromBE(p), |p|) == FromLE(p)
  {
    ReadThenWriteBE(p);
    ReadThenWriteBE(Reverse(p));
    BswapReverses(FromBE(p), |p|);
    SameBytes(Bswap(FromBE(p), |p|), FromLE(p), |p|);
  }

  /** Where no native access is to be had, AV_RN is built from the explicit form of the host's order: the same load. */
  lemma NativeFromExplicit(host: Host, p: seq<byte>)
    requires |p| in {2, 4, 8}
    ensures Load(host, p) == if host == BigHost then ExplicitRB(p) else ExplicitRL(p)
  {
    ExplicitReads(p);
  }

  /** av_be2ne and av_le2ne. */
  function Be2ne(host: Host, x: nat, n: nat): nat
    requires n in {2, 4, 8}
  {
    if host == BigHost then x else Bswap(x, n)
  }

  function Le2ne(host: Host, x: nat, n: nat): nat
    requires n in {2, 4, 8}
  {
    if host == BigHost then Bswap(x, n) else x
  }

  /** Converting to native order and storing natively writes the bytes in the order asked for, on either host. */
  lemma NativeOrder(host: Host, x: nat, n: nat)
    requires n in {2, 4, 8} && x < Pow2(8 * n)
    ensures Store(host, Be2ne(host, x, n), n) == ToBE(x, n)
    ensures Store(host, Le2ne(host, x, n), n) == ToLE(x, n)
  {
    BswapReverses(x, n);
    Swapped(Bswap(x, n), x, n);
  }

  lemma Swapped(y: nat, x: nat, n: nat)
    requires ToBE(y, n) == Reverse(ToBE(x, n))
    ensures ToBE(y, n) == ToLE(x, n) && ToLE(y, n) == ToBE(x, n)
  {
    ReverseTwice(ToBE(x, n));
  }

  // ----- intreadwrite.h: writing -----

  /** Stores of consecutive bytes: those, and no others, change. */
  method Put(p: array<byte>, at: nat, bytes: seq<byte>)
    requires at + |bytes| <= p.Length
    modifies p
    ensures p[..] == old(p[..at]) + bytes + old(p[at + |bytes|..])
  {
    forall i | 0 <= i < |bytes| {
      p[at + i] := bytes[i];
    }
  }

  /** The store of an n-byte native word. */
  method StoreNative(host: Host, p: array<byte>, at: nat, v: nat, n: nat)
    requires at + n <= p.Length
    modifies p
    ensures p[..] == old(p[..at]) + Store(host, v, n) + old(p[at + n..])
  {
    Put(p, at, Store(host, v, n));
  }

  /** AV_WB and AV_WL by native access, for any argument, which a swap's parameter or the store cuts to the word: the
      same bytes on either host, and no others touched. */
  method WB(host: Host, p: array<byte>, at: nat, v: nat, n: nat)
    requires n in {2, 4, 8} && at + n <= p.Length
    modifies p
    ensures p[..] == old(p[..at]) + ToBE(v, n) + old(p[at + n..])
  {
    SwappedCut(v, n);
    if host == BigHost {
      StoreNative(host, p, at, v, n);
    } else {
      StoreNative(host, p, at, Bswap(v % Pow2(8 * n), n), n);
    }
  }

  method WL(host: Host, p: array<byte>, at: nat, v: nat, n: nat)
    requires n in {2, 4, 8} && at + n <= p.Length
    modifies p
    ensures p[..] == old(p[..at]) + ToLE(v, n) + old(p[at + n..])
  {
    SwappedCut(v, n);
    if host == BigHost {
      StoreNative(host, p, at, Bswap(v % Pow2(8 * n), n), n);
    } else {
      StoreNative(host, p, at, v, n);
    }
  }

  lemma SwappedCut(v: nat, n: nat)
    requires n in {2, 4, 8}
    ensures var y := Bswap(v % Pow2(8 * n), n);
            ToBE(y, n) == ToLE(v, n) && ToLE(y, n) == ToBE(v, n)
  {
    BswapReverses(v % Pow2(8 * n), n);
    Swapped(Bswap(v % Pow2(8 * n), n), v % Pow2(8 * n), n);
    ToBETruncated(v, n);
  }

  /** Byte j from the right is what shifting by 8j leaves in the low byte. */
  lemma {:induction false} ByteShift(d: nat, n: nat, j: nat)
    requires j < n
    ensures ToBE(d, n)[n - 1 - j] == Shr(d, 8 * j) % 256
  {
    if j > 0 {
      ByteShift(d / 256, n - 1, j - 1);
      ShrByte(d, j - 1);
    }
  }

  /** And cutting the number to the width of `d` first does not change it. */
  lemma StoredByte(darg: nat, width: nat, n: nat, j: nat)
    requires j < n <= width
    ensures Shr(darg % Pow2(8 * width), 8 * j) % 256 == ToBE(darg, n)[n - 1 - j]
    ensures Shr(darg % Pow2(8 * width), 8 * j) % 256 == ToLE(darg, n)[j]
  {
    ToBETruncated(darg, width);
    ByteShift(darg % Pow2(8 * width), width, j);
    ByteShift(darg, width, j);
    ByteShift(darg, n, j);
  }

  lemma StoredBE2(darg: nat, d: nat)
    requires d == darg % Pow2(32)
    ensures ToBE(darg, 2) == [Shr(d, 8) % 256, d % 256]
  {
    StoredByte(darg, 4, 2, 0);
    StoredByte(darg, 4, 2, 1);
  }

  lemma StoredLE2(darg: nat, d: nat)
    requires d == darg % Pow2(32)
    ensures ToLE(darg, 2) == [d % 256, Shr(d, 8) % 256]
  {
    StoredByte(darg, 4, 2, 0);
    StoredByte(darg, 4, 2, 1);
  }

  lemma StoredBE3(d: nat)
    ensures ToBE(d, 3) == [Shr(d, 16) % 256, Shr(d, 8) % 256, d % 256]
  {
    ByteShift(d, 3, 0);
    ByteShift(d, 3, 1);
    ByteShift(d, 3, 2);
  }

  lemma StoredLE3(d: nat)
    ensures ToLE(d, 3) == [d % 256, Shr(d, 8) % 256, Shr(d, 16) % 256]
  {
    ByteShift(d, 3, 0);
    ByteShift(d, 3, 1);
    ByteShift(d, 3, 2);
  }

  lemma StoredBE4(darg: nat, d: nat)
    requires d == darg % Pow2(32)
    ensures ToBE(darg, 4) == [Shr(d, 24) % 256, Shr(d, 16) % 256, Shr(d, 8) % 256, d % 256]
  {
    StoredByte(darg, 4, 4, 0);
    StoredByte(darg, 4, 4, 1);
    StoredByte(darg, 4, 4, 2);
    StoredByte(darg, 4, 4, 3);
  }

  lemma StoredLE4(darg: nat, d: nat)
    requires d == darg % Pow2(32)
    ensures ToLE(darg, 4) == [d % 256, Shr(d, 8) % 256, Shr(d, 16) % 256, Shr(d, 24) % 256]
  {
    StoredByte(darg, 4, 4, 0);
    StoredByte(darg, 4, 4, 1);
    StoredByte(darg, 4, 4, 2);
    StoredByte(darg, 4, 4, 3);
  }

  lemma StoredBE6(darg: nat, d: nat)
    requires d == darg % Pow2(64)
    ensures ToBE(darg, 6) == [Shr(d, 40) % 256, Shr(d, 32) % 256, Shr(d, 24) % 256, Shr(d, 16) % 256,
                            Shr(d, 8) % 256, d % 256]
  {
    StoredByte(darg, 8, 6, 0);
    StoredByte(darg, 8, 6, 1);
    StoredByte(darg, 8, 6, 2);
    StoredByte(darg, 8, 6, 3);
    StoredByte(darg, 8, 6, 4);
    StoredByte(darg, 8, 6, 5);
  }

  lemma StoredLE6(darg: nat, d: nat)
    requires d == darg % Pow2(64)
    ensures ToLE(darg, 6) == [d % 256, Shr(d, 8) % 256, Shr(d, 16) % 256, Shr(d, 24) % 256,
                            Shr(d, 32) % 256, Shr(d, 40) % 256]
  {
    StoredByte(darg, 8, 6, 0);
    StoredByte(darg, 8, 6, 1);
    StoredByte(darg, 8, 6, 2);
    StoredByte(darg, 8, 6, 3);
    StoredByte(darg, 8, 6, 4);
    StoredByte(darg, 8, 6, 5);
  }

  lemma StoredBE8(darg: nat, d: nat)
    requires d == darg % Pow2(64)
    ensures ToBE(darg, 8) == [Shr(d, 56) % 256, Shr(d, 48) % 256, Shr(d, 40) % 256, Shr(d, 32) % 256,
                            Shr(d, 24) % 256, Shr(d, 16) % 256, Shr(d, 8) % 256, d % 256]
  {
    StoredByte(darg, 8, 8, 0);
    StoredByte(darg, 8, 8, 1);
    StoredByte(darg, 8, 8, 2);
    StoredByte(darg, 8, 8, 3);
    StoredByte(darg, 8, 8, 4);
    StoredByte(darg, 8, 8, 5);
    StoredByte(darg, 8, 8, 6);
    StoredByte(darg, 8, 8, 7);
  }

  lemma StoredLE8(darg: nat, d: nat)
    requires d == darg % Pow2(64)
    ensures ToLE(darg, 8) == [d % 256, Shr(d, 8) % 256, Shr(d, 16) % 256, Shr(d, 24) % 256,
                            Shr(d, 32) % 256, Shr(d, 40) % 256, Shr(d, 48) % 256, Shr(d, 56) % 256]
  {
    StoredByte(darg, 8, 8, 0);
    StoredByte(darg, 8, 8, 1);
    StoredByte(darg, 8, 8, 2);
    StoredByte(darg, 8, 8, 3);
    StoredByte(darg, 8, 8, 4);
    StoredByte(darg, 8, 8, 5);
    StoredByte(darg, 8, 8, 6);
    StoredByte(darg, 8, 8, 7);
  }

  /** AV_WB16 to AV_WB64 and AV_WL16 to AV_WL64 by explicit shifts, for any argument; storing in a uint8_t keeps the low
      byte. */
  method WB16(p: array<byte>, at: nat, darg: nat)
    requires at + 2 <= p.Length
    modifies p
    ensures p[..] == old(p[..at]) + ToBE(darg, 2) + old(p[at + 2..])
  {
    var d := darg % Pow2(32);
    StoredBE2(darg, d);
    Put(p, at, [Shr(d, 8) % 256, d % 256]);
  }

  method WB24(p: array<byte>, at: nat, d: nat)
    requires at + 3 <= p.Length
    modifies p
    ensures p[..] == old(p[..at]) + ToBE(d, 3) + old(p[at + 3..])
  {
    StoredBE3(d);
    Put(p, at, [Shr(d, 16) % 256, Shr(d, 8) % 256, d % 256]);
  }

  method WB32(p: array<byte>, at: nat, darg: nat)
    requires at + 4 <= p.Length
    modifies p
    ensures p[..] == old(p[..at]) + ToBE(darg, 4) + old(p[at + 4..])
  {
    var d := darg % Pow2(32);
    StoredBE4(darg, d);
    Put(p, at, [Shr(d, 24) % 256, Shr(d, 16) % 256, Shr(d, 8) % 256, d % 256]);
  }

  method WB48(p: array<byte>, at: nat, darg: nat)
    requires at + 6 <= p.Length
    modifies p
    ensures p[..] == old(p[..at]) + ToBE(darg, 6) + old(p[at + 6..])
  {
    var d := darg % Pow2(64);
    StoredBE6(darg, d);
    Put(p, at, [Shr(d, 40) % 256, Shr(d, 32) % 256, Shr(d, 24) % 256, Shr(d, 16) % 256,
                Shr(d, 8) % 256, d % 256]);
  }

  method WB64(p: array<byte>, at: nat, darg: nat)
    requires at + 8 <= p.Length
    modifies p
    ensures p[..] == old(p[..at]) + ToBE(darg, 8) + old(p[at + 8..])
  {
    var d := darg % Pow2(64);
    StoredBE8(darg, d);
    Put(p, at, [Shr(d, 56) % 256, Shr(d, 48) % 256, Shr(d, 40) % 256, Shr(d, 32) % 256,
                Shr(d, 24) % 256, Shr(d, 16) % 256, Shr(d, 8) % 256, d % 256]);
  }

  method WL16(p: array<byte>, at: nat, darg: nat)
    requires at + 2 <= p.Length
    modifies p
    ensures p[..] == old(p[..at]) + ToLE(darg, 2) + old(p[at + 2..])
  {
    var d := darg % Pow2(32);
    StoredLE2(darg, d);
    Put(p, at, [d % 256, Shr(d, 8) % 256]);
  }

  method WL24(p: array<byte>, at: nat, d: nat)
    requires at + 3 <= p.Length
    modifies p
    ensures p[..] == old(p[..at]) + ToLE(d, 3) + old(p[at + 3..])
  {
    StoredLE3(d);
    Put(p, at, [d % 256, Shr(d, 8) % 256, Shr(d, 16) % 256]);
  }

  method WL32(p: array<byte>, at: nat, darg: nat)
    requires at + 4 <= p.Length
    modifies p
    ensures p[..] == old(p[..at]) + ToLE(darg, 4) + old(p[at + 4..])
  {
    var d := darg % Pow2(32);
    StoredLE4(darg, d);
    Put(p, at, [d % 256, Shr(d, 8) % 256, Shr(d, 16) % 256, Shr(d, 24) % 256]);
  }

  method WL48(p: array<byte>, at: nat, darg: nat)
    requires at + 6 <= p.Length
    modifies p
    ensures p[..] == old(p[..at]) + ToLE(darg, 6) + old(p[at + 6..])
  {
    var d := darg % Pow2(64);
    StoredLE6(darg, d);
    Put(p, at, [d % 256, Shr(d, 8) % 256, Shr(d, 16) % 256, Shr(d, 24) % 256,
                Shr(d, 32) % 256, Shr(d, 40) % 256]);
  }

  method WL64(p: array<byte>, at: nat, darg: nat)
    requires at + 8 <= p.Length
    modifies p
    ensures p[..] == old(p[..at]) + ToLE(darg, 8) + old(p[at + 8..])
  {
    var d := darg % Pow2(64);
    StoredLE8(darg, d);
    Put(p, at, [d % 256, Shr(d, 8) % 256, Shr(d, 16) % 256, Shr(d, 24) % 256,
                Shr(d, 32) % 256, Shr(d, 40) % 256, Shr(d, 48) % 256, Shr(d, 56) % 256]);
  }
}

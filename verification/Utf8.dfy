/** UTF-8 as libavutil/common.h reads and writes it: the macros GET_UTF8 and PUT_UTF8, against the scheme of
    section 2 of RFC 2279. */
module Utf8 {
  import opened Bits

  /** What one run of the reader does with its input: the value it yields, a run of ERROR, or a call for a byte that
      is not there. `used` counts the bytes it has asked for. */
  datatype Reading =
    | Value(val: nat, used: nat)
    | Invalid(used: nat)
    | Exhausted

  const LIMIT: nat := 0x8000_0000

  // ----- The scheme -----

  /** The row of the table v falls in, which is also its number of bytes. */
  function Row(v: nat): (n: nat)
    ensures 1 <= n <= 6
  {
    if v < 0x80 then 1
    else if v < 0x800 then 2
    else if v < 0x1_0000 then 3
    else if v < 0x20_0000 then 4
    else if v < 0x400_0000 then 5
    else 6
  }

  /** The fixed bits of a lead byte: n ones and a zero, or a single zero. */
  function Mark(n: nat): (m: nat)
    ensures m < 256
  {
    if n <= 1 then 0
    else if n == 2 then 0xC0
    else if n == 3 then 0xE0
    else if n == 4 then 0xF0
    else if n == 5 then 0xF8
    else 0xFC
  }

  /** v in base 64: k continuation bytes for the k lowest digits, behind a lead byte for the rest. */
  function Body(v: nat, k: nat, mark: nat): (s: seq<byte>)
    ensures |s| == k + 1
  {
    if k == 0 then [(mark + v) % 256] else Body(v / 64, k - 1, mark) + [128 + v % 64]
  }

  function Encode(v: nat): (s: seq<byte>)
    requires v < LIMIT
    ensures |s| == Row(v)
  {
    Body(v, Row(v) - 1, Mark(Row(v)))
  }

  predicate IsContinuation(b: byte) {
    0x80 <= b < 0xC0
  }

  /** How many bytes a sequence led by this byte has; 0 when no sequence starts with it. */
  function SequenceLength(lead: byte): (n: nat)
    ensures n <= 6
    ensures n > 0 ==> lead >= Mark(n)
  {
    if lead < 0x80 then 1
    else if lead < 0xC0 then 0
    else if lead < 0xE0 then 2
    else if lead < 0xF0 then 3
    else if lead < 0xF8 then 4
    else if lead < 0xFC then 5
    else if lead < 0xFE then 6
    else 0
  }

  /** The value carried by the first i + 1 bytes of a sequence. */
  function Gathered(input: seq<byte>, i: nat): nat
    requires i < |input| && SequenceLength(input[0]) > 0
  {
    if i == 0 then input[0] - Mark(SequenceLength(input[0]))
    else 64 * Gathered(input, i - 1) + input[i] % 64
  }

  /** How many continuation bytes follow position `from`, looking at no more than `most`. */
  function Continuations(input: seq<byte>, from: nat, most: nat): (k: nat)
    requires from <= |input|
    ensures k <= most && from + k <= |input|
    ensures forall j :: from <= j < from + k ==> IsContinuation(input[j])
    ensures k < most && from + k < |input| ==> !IsContinuation(input[from + k])
    decreases most
  {
    if most == 0 || from == |input| || !IsContinuation(input[from]) then 0
    else 1 + Continuations(input, from + 1, most - 1)
  }

  /** What a byte string means to a reader: its first character, or why there is none. */
  function Decode(input: seq<byte>): Reading {
    if input == [] then Exhausted
    else
      var n := SequenceLength(input[0]);
      if n == 0 then Invalid(1)
      else
        var k := Continuations(input, 1, n - 1);
        if k == n - 1 then Value(Gathered(input, n - 1), n)
        else if 1 + k == |input| then Exhausted
        else Invalid(k + 2)
  }

  // ----- PUT_UTF8 -----

  lemma Log2By1(v: nat)
    requires v >= 2
    ensures Log2(v) == 1 + Log2(v / 2)
  {
  }

  lemma Log2By2(v: nat)
    requires v >= 4
    ensures Log2(v) == 2 + Log2(v / 4)
  {
    Log2By1(v);
    Log2By1(v / 2);
  }

  lemma Log2By5(v: nat)
    requires v >= 32
    ensures Log2(v) == 5 + Log2(v / 32)
  {
    var w := v / 4;
    Log2By2(v);
    Log2By2(w);
    Log2By1(w / 4);
  }

  lemma Log2Small(v: nat)
    requires 2 <= v < 64
    ensures 1 <= Log2(v) <= 5
    ensures v >= 4 ==> Log2(v) >= 2
  {
    assert Log2(v / 16) <= 1;
    assert Log2(v / 8) <= 2;
    assert Log2(v / 4) <= 3;
    assert Log2(v / 2) <= 4;
  }

  /** From row 3 on, each row of the table is five bits wide. */
  lemma {:induction false} Log2Band(v: nat, n: nat)
    requires 1 <= n <= 6 && v < LIMIT
    requires n == 1 ==> 2 <= v < 64
    requires n == 2 ==> 0x40 <= v < 0x800
    requires n == 3 ==> 0x800 <= v < 0x1_0000
    requires n == 4 ==> 0x1_0000 <= v < 0x20_0000
    requires n == 5 ==> 0x20_0000 <= v < 0x400_0000
    requires n == 6 ==> 0x400_0000 <= v
    ensures 5 * n - 4 <= Log2(v) <= 5 * n
  {
    if n == 1 {
      Log2Small(v);
    } else {
      Log2By5(v);
      Log2Band(v / 32, n - 1);
    }
  }

  /** The length formula of PUT_UTF8 picks the table's row. */
  lemma LengthFormula(v: nat)
    requires 0x80 <= v < LIMIT
    ensures (Log2(v) + 4) / 5 == Row(v)
  {
    Log2Band(v, Row(v));
    if v < 0x800 {
      Log2By5(v);
      Log2Small(v / 32);
    }
  }

  lemma ShrBySix(v: nat, shift: nat)
    ensures Shr(v, shift + 6) == Shr(v / 64, shift)
  {
    ShrIs(v / 64, shift);
    ShrIs(v, shift + 6);
    Pow2Add(6, shift);
    Pow2Values();
    DivDiv(v, 64, Pow2(shift));
  }

  /** The byte at each place of the scheme, as a shift finds it. */
  lemma {:induction false} BodyAt(v: nat, k: nat, mark: nat, j: nat, shift: nat)
    requires j <= k && shift == 6 * (k - j)
    ensures Body(v, k, mark)[j] == if j == 0 then (mark + Shr(v, shift)) % 256 else 128 + Shr(v, shift) % 64
  {
    if k > j {
      BodyAt(v / 64, k - 1, mark, j, shift - 6);
      ShrBySix(v, shift - 6);
    }
  }

  lemma MarkIs(bytes: nat)
    requires 2 <= bytes <= 6
    ensures 256 - Shr(256, bytes) == Mark(bytes)
  {
    assert Shr(256, 2) == 64;
    assert Shr(256, 4) == Shr(64, 2) == 16;
    assert Shr(256, 6) == Shr(64, 4) == Shr(16, 2) == 4;
  }

  lemma OrMark(n: nat, x: nat)
    requires 2 <= n <= 6 && x < Pow2(8 - n)
    ensures Or(Mark(n), x) == Mark(n) + x
  {
    OrAdds(Pow2(n) - 1, x, 8 - n);
    MarkShifted(n);
  }

  lemma MarkShifted(n: nat)
    requires 2 <= n <= 6
    ensures Shl(Pow2(n) - 1, 8 - n) == Mark(n)
  {
    ShlIs(Pow2(n) - 1, 8 - n);
    Pow2Values();
    assert n == 2 || n == 3 || n == 4 || n == 5 || n == 6;
  }

  lemma ContinuationByte(w: nat)
    ensures Or(0x80, And(w, 0x3F)) == 128 + w % 64
  {
    Pow2Values();
    AndMask(w, 6);
    ShlIs(2, 6);
    OrAdds(2, w % 64, 6);
  }

  lemma LeadFits(v: nat, n: nat, shift: nat)
    requires 0x80 <= v < LIMIT && n == Row(v) && shift == (n - 1) * 6
    ensures Shr(v, shift) < Pow2(8 - n)
  {
    ShrIs(v, shift);
    Pow2Values();
  }

  lemma LeadByte(v: nat, n: nat, shift: nat)
    requires 0x80 <= v < LIMIT && n == Row(v) && shift == (n - 1) * 6
    ensures Or(256 - Shr(256, n), Shr(v, shift)) % 256 == Encode(v)[0]
  {
    MarkIs(n);
    LeadFits(v, n, shift);
    OrMark(n, Shr(v, shift));
    BodyAt(v, n - 1, Mark(n), 0, shift);
  }

  lemma TailByte(v: nat, shift: nat, j: nat)
    requires v < LIMIT && 1 <= j < Row(v) && shift == 6 * (Row(v) - 1 - j)
    ensures Or(0x80, And(Shr(v, shift), 0x3F)) % 256 == Encode(v)[j]
  {
    var n := Row(v);
    ContinuationByte(Shr(v, shift));
    BodyAt(v, n - 1, Mark(n), j, shift);
  }

  /** PUT_UTF8, with PUT_BYTE appending to `out`; a value stored in the uint8_t `tmp` keeps its low eight bits. */
  method PutUtf8(val: nat) returns (out: seq<byte>)
    requires val < LIMIT
    ensures out == Encode(val)
  {
    if val < 0x80 {
      var tmp := val % 256;
      out := [tmp];
      return;
    }
    LengthFormula(val);
    ghost var code := Encode(val);
    var bytes := (Log2(val) + 4) / 5;
    var shift := (bytes - 1) * 6;
    LeadByte(val, bytes, shift);
    var tmp := Or(256 - Shr(256, bytes), Shr(val, shift)) % 256;
    out := [tmp];
    while shift >= 6
      invariant 1 <= |out| <= bytes && shift == 6 * (bytes - |out|)
      invariant out == code[..|out|]
    {
      shift := shift - 6;
      TailByte(val, shift, |out|);
      tmp := Or(0x80, And(Shr(val, shift), 0x3F)) % 256;
      out := out + [tmp];
    }
  }

  // ----- GET_UTF8 -----

  /** The lead byte and the i continuation bytes after it in base 64, nothing masked and nothing lost. */
  function Raw(input: seq<byte>, i: nat): nat
    requires i < |input|
  {
    if i == 0 then input[0] else 64 * Raw(input, i - 1) + input[i] % 64
  }

  /** The continuation bytes' own share of it. */
  function Low(input: seq<byte>, i: nat): (low: nat)
    requires i < |input|
    ensures low < Pow2(6 * i)
  {
    if i == 0 then 0 else Pow2Add(6, 6 * (i - 1)); Pow2Values(); 64 * Low(input, i - 1) + input[i] % 64
  }

  lemma SplitStep(lead: int, p: int, low: int, digit: int)
    ensures 64 * (lead * p + low) + digit == lead * (64 * p) + (64 * low + digit)
  {
  }

  lemma {:induction false} Split(input: seq<byte>, i: nat)
    requires i < |input| && SequenceLength(input[0]) > 0
    ensures Raw(input, i) == input[0] * Pow2(6 * i) + Low(input, i)
    ensures Gathered(input, i) == (input[0] - Mark(SequenceLength(input[0]))) * Pow2(6 * i) + Low(input, i)
  {
    if i > 0 {
      Split(input, i - 1);
      var p, bits, low := Pow2(6 * (i - 1)), input[0] - Mark(SequenceLength(input[0])), Low(input, i - 1);
      assert Pow2(6 * i) == 64 * p by {
        Pow2Add(6, 6 * (i - 1));
        Pow2Values();
      }
      SplitStep(input[0], p, low, input[i] % 64);
      SplitStep(bits, p, low, input[i] % 64);
    }
  }

  /** Bit t of a 32-bit word is bit t of the number it was cut from. */
  lemma BitSurvives(raw: nat, t: nat)
    requires t < 32
    ensures Shr(raw % WORD, t) % 2 == raw / Pow2(t) % 2
  {
    ShrIs(raw % WORD, t);
    WordSplits(t);
    BitOfCut(raw, Pow2(t), Pow2(31 - t));
  }

  lemma WordSplits(t: nat)
    requires t < 32
    ensures Pow2(t) * (2 * Pow2(31 - t)) == WORD
  {
    Pow2Add(t, 32 - t);
    Pow2Values();
  }

  lemma LowMaskSurvives(raw: nat, t: nat)
    requires t <= 32
    ensures And(raw % WORD, Pow2(t) - 1) == raw % Pow2(t)
  {
    AndMask(raw % WORD, t);
    Pow2Add(t, 32 - t);
    Pow2Values();
    ModMod(raw, Pow2(t), Pow2(32 - t));
  }

  /** The reader's test `val & top` looks at bit 6 - i of the lead byte. */
  lemma LoopTest(input: seq<byte>, i: nat)
    requires i < |input|
    requires 1 < SequenceLength(input[0]) && i < SequenceLength(input[0])
    ensures And(Raw(input, i) % WORD, Pow2(5 * i + 6)) != 0 <==> SequenceLength(input[0]) > i + 1
  {
    Split(input, i);
    Pow2Add(6 * i, 6 - i);
    Placed(input[0], Pow2(6 * i), Low(input, i), Pow2(6 - i));
    BitSurvives(Raw(input, i), 5 * i + 6);
    AndBit(Raw(input, i) % WORD, 5 * i + 6);
    LeadTest(input[0], i);
  }

  lemma LeadTest(lead: byte, i: nat)
    requires 1 < SequenceLength(lead) && i < SequenceLength(lead)
    ensures lead / Pow2(6 - i) % 2 == 1 <==> SequenceLength(lead) > i + 1
    ensures SequenceLength(lead) == i + 1 ==> lead % Pow2(7 - i) == lead - Mark(i + 1)
  {
    Pow2Values();
  }

  /** The reader's last mask leaves the value. */
  lemma LoopResult(input: seq<byte>, i: nat)
    requires i < |input| && 1 < SequenceLength(input[0]) == i + 1
    ensures And(Raw(input, i) % WORD, Pow2(5 * i + 7) - 1) == Gathered(input, i)
  {
    Split(input, i);
    Pow2Add(6 * i, 7 - i);
    Placed(input[0], Pow2(6 * i), Low(input, i), Pow2(7 - i));
    LowMaskSurvives(Raw(input, i), 5 * i + 7);
    LeadTest(input[0], i);
  }

  lemma ContinuationsFrom(input: seq<byte>, from: nat, most: nat, k: nat)
    requires k <= most && from + k <= |input|
    requires forall j :: from <= j < from + k ==> IsContinuation(input[j])
    requires k == most || from + k == |input| || !IsContinuation(input[from + k])
    ensures Continuations(input, from, most) == k
  {
  }

  lemma TopStep(i: nat)
    requires i < 5
    ensures Shl(Pow2(5 * i + 6), 5) % WORD == Pow2(5 * (i + 1) + 6)
  {
    ShlIs(Pow2(5 * i + 6), 5);
    Pow2Add(5 * i + 6, 5);
    Pow2Values();
  }

  /** The word after one more step is cut from the number after one more step. */
  lemma ValStep(input: seq<byte>, i: nat)
    requires 1 <= i < |input| && IsContinuation(input[i])
    ensures (Shl(Raw(input, i - 1) % WORD, 6) + (input[i] - 128)) % WORD == Raw(input, i) % WORD
  {
    ShlSix(Raw(input, i - 1) % WORD);
    CutStep(Raw(input, i - 1), input[i] % 64);
  }

  lemma ShlSix(x: nat)
    ensures Shl(x, 6) == 64 * x
  {
    ShlIs(x, 6);
    Pow2Values();
  }

  lemma CutStep(raw: nat, d: nat)
    ensures (64 * (raw % WORD) + d) % WORD == (64 * raw + d) % WORD
  {
    var low := 64 * (raw % WORD) + d;
    DivIs(64 * raw + d, WORD, 64 * (raw / WORD) + low / WORD, low % WORD);
  }

  lemma StartTests(lead: byte)
    ensures Shr(And(lead, 128), 1) == if lead < 128 then 0 else 64
    ensures And(lead, 0xC0) == 0x80 <==> 0x80 <= lead < 0xC0
  {
    HighBit(lead);
    TwoHighBits(lead);
    assert Shr(128, 1) == Shr(64, 0);
  }

  lemma HighBit(lead: byte)
    ensures And(lead, 128) == if lead < 128 then 0 else 128
  {
    Pow2Values();
    AndBit(lead, 7);
    ShrIs(lead, 7);
    ShlIs(lead / 128 % 2, 7);
  }

  lemma TwoHighBits(lead: byte)
    ensures And(lead, 0xC0) == 64 * (lead / 64)
  {
    Pow2Values();
    ShlIs(3, 6);
    AndHigh(lead, 3, 6);
    ShrIs(lead, 6);
    AndMask(lead / 64, 2);
    ShlIs(lead / 64 % 4, 6);
  }

  /** The i bytes behind the lead byte continue it. */
  predicate Continued(input: seq<byte>, i: nat)
    requires i < |input|
  {
    i == 0 || (IsContinuation(input[i]) && Continued(input, i - 1))
  }

  lemma {:induction false} ContinuedAll(input: seq<byte>, i: nat)
    requires i < |input| && Continued(input, i)
    ensures forall j :: 1 <= j <= i ==> IsContinuation(input[j])
  {
    if i > 0 {
      ContinuedAll(input, i - 1);
    }
  }

  /** The reader's `top` after i continuation bytes. */
  function TopAt(input: seq<byte>, i: nat): nat
    requires i < |input|
  {
    if i == 0 then Shr(And(input[0], 128), 1) else Shl(TopAt(input, i - 1), 5) % WORD
  }

  /** The reader's `val` after i continuation bytes. */
  function ValAt(input: seq<byte>, i: nat): nat
    requires i < |input|
  {
    if i == 0 then input[0] else (Shl(ValAt(input, i - 1), 6) + (input[i] as int - 128)) % WORD
  }

  lemma {:induction false} InLoop(input: seq<byte>, i: nat)
    requires i < |input| && i < SequenceLength(input[0])
    requires Continued(input, i)
    ensures ValAt(input, i) == Raw(input, i) % WORD
    ensures TopAt(input, i) == if SequenceLength(input[0]) == 1 then 0 else Pow2(5 * i + 6)
  {
    if i == 0 {
      StartTests(input[0]);
      Pow2Values();
    } else {
      InLoop(input, i - 1);
      TopStep(i - 1);
      ValStep(input, i);
    }
  }

  lemma LoopGuard(input: seq<byte>, i: nat)
    requires i < |input| && i < SequenceLength(input[0])
    requires Continued(input, i)
    ensures And(ValAt(input, i), TopAt(input, i)) != 0 <==> SequenceLength(input[0]) > i + 1
  {
    InLoop(input, i);
    if SequenceLength(input[0]) > 1 {
      LoopTest(input, i);
    }
  }

  lemma LoopEnd(input: seq<byte>, i: nat)
    requires i < |input| && i + 1 == SequenceLength(input[0])
    requires Continued(input, i)
    ensures And(ValAt(input, i), (Shl(TopAt(input, i), 1) - 1) % WORD) == Gathered(input, i)
  {
    InLoop(input, i);
    if i == 0 {
      AllOnes(input[0]);
    } else {
      LastMask(i);
      LoopResult(input, i);
    }
  }

  lemma AllOnes(lead: byte)
    ensures And(lead % WORD, (Shl(0, 1) - 1) % WORD) == lead
  {
    NoTop();
    KeepsAll(lead);
  }

  lemma NoTop()
    ensures (Shl(0, 1) - 1) % WORD == WORD - 1
  {
    assert Shl(0, 1) == 2 * Shl(0, 0);
  }

  lemma KeepsAll(x: nat)
    requires x < WORD
    ensures And(x % WORD, WORD - 1) == x
  {
    Pow2Values();
    AndMask(x, 32);
  }

  lemma LastMask(i: nat)
    requires 1 <= i <= 5
    ensures (Shl(Pow2(5 * i + 6), 1) - 1) % WORD == Pow2(5 * i + 7) - 1
  {
    ShlIs(Pow2(5 * i + 6), 1);
    Pow2Add(5 * i + 6, 1);
    Pow2Values();
  }

  /** What Decode says once the first `next` bytes are known. */
  lemma DecodeFrom(input: seq<byte>, next: nat)
    requires 1 <= next <= |input| && next <= SequenceLength(input[0])
    requires Continued(input, next - 1)
    ensures next == SequenceLength(input[0]) ==> Decode(input) == Value(Gathered(input, next - 1), next)
    ensures next < SequenceLength(input[0]) && next == |input| ==> Decode(input) == Exhausted
    ensures next < SequenceLength(input[0]) && next < |input| && !IsContinuation(input[next]) ==>
              Decode(input) == Invalid(next + 1)
  {
    var most := SequenceLength(input[0]) - 1;
    ContinuedAll(input, next - 1);
    if next - 1 == most || next == |input| || !IsContinuation(input[next]) {
      ContinuationsFrom(input, 1, most, next - 1);
    }
  }

  /** `tmp >> 6` is zero just for a continuation byte. */
  lemma TmpTest(b: byte)
    ensures (b as int - 128) / 64 == 0 <==> IsContinuation(b)
  {
  }

  /** The reader's variables after it has taken `next` bytes of a sequence. */
  predicate At(input: seq<byte>, next: nat, val: nat, top: nat) {
    && 1 <= next <= |input| && next <= SequenceLength(input[0]) && Continued(input, next - 1)
    && val == ValAt(input, next - 1) && top == TopAt(input, next - 1)
  }

  lemma AtGuard(input: seq<byte>, next: nat, val: nat, top: nat)
    requires At(input, next, val, top)
    ensures And(val, top) != 0 <==> next < SequenceLength(input[0])
  {
    LoopGuard(input, next - 1);
  }

  lemma AtNext(input: seq<byte>, next: nat, val: nat, top: nat)
    requires At(input, next, val, top) && next < SequenceLength(input[0]) && next < |input|
    requires IsContinuation(input[next])
    ensures At(input, next + 1, (Shl(val, 6) + (input[next] as int - 128)) % WORD, Shl(top, 5) % WORD)
  {
  }

  lemma AtEnd(input: seq<byte>, next: nat, val: nat, top: nat)
    requires At(input, next, val, top) && next == SequenceLength(input[0])
    ensures Decode(input) == Value(And(val, (Shl(top, 1) - 1) % WORD), next)
  {
    DecodeFrom(input, next);
    LoopEnd(input, next - 1);
  }

  /** GET_UTF8, with GET_BYTE taking the next byte of `input`. `val` and `top` are 32-bit words; the `int` tmp is
      negative for a byte below 128, and `>>` on it rounds down, as `/ 64` does. */
  method GetUtf8(input: seq<byte>) returns (r: Reading)
    ensures r == Decode(input)
  {
    if |input| == 0 {
      return Exhausted;
    }
    StartTests(input[0]);
    var val: nat := input[0];
    var next := 1;
    var top: nat := Shr(And(val, 128), 1);
    if And(val, 0xC0) == 0x80 || val >= 0xFE {
      return Invalid(next);
    }
    AtGuard(input, next, val, top);
    while And(val, top) != 0
      invariant At(input, next, val, top)
      decreases SequenceLength(input[0]) - next
    {
      AtGuard(input, next, val, top);
      DecodeFrom(input, next);
      if next == |input| {
        return Exhausted;
      }
      var tmp := input[next] as int - 128;
      TmpTest(input[next]);
      next := next + 1;
      if tmp / 64 != 0 {
        return Invalid(next);
      }
      AtNext(input, next - 1, val, top);
      val := (Shl(val, 6) + tmp) % WORD;
      top := Shl(top, 5) % WORD;
    }
    AtGuard(input, next, val, top);
    AtEnd(input, next, val, top);
    val := And(val, (Shl(top, 1) - 1) % WORD);
    return Value(val, next);
  }
}

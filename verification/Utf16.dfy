/** UTF-16 as libavutil/common.h reads and writes it (the macros GET_UTF16 and PUT_UTF16), and what the two promise
    together. Units are 16-bit words in native order. */
module Utf16 {
  import opened Bits
  import Utf8Laws

  type unit = x: int | 0 <= x < 0x1_0000

  datatype Reading =
    | Value(val: nat, used: nat)
    | Invalid
    | Exhausted

  const LAST: nat := 0x10_FFFF

  predicate Surrogate(v: int) {
    0xD800 <= v < 0xE000
  }

  predicate High(v: int) {
    0xD800 <= v < 0xDC00
  }

  predicate Low(v: int) {
    0xDC00 <= v < 0xE000
  }

  // ----- The scheme: sections 2.1 and 2.2 of RFC 2781 -----

  /** A value below 2^16 as it is, any other as the base-1024 digits of v - 2^16 in a surrogate pair. */
  function Encode(v: nat): (s: seq<unit>)
    requires v <= LAST
    ensures 1 <= |s| <= 2
  {
    if v < 0x1_0000 then [v]
    else [0xD800 + (v - 0x1_0000) / 0x400, 0xDC00 + (v - 0x1_0000) % 0x400]
  }

  function Decode(input: seq<unit>): Reading {
    if input == [] then Exhausted
    else if !Surrogate(input[0]) then Value(input[0], 1)
    else if |input| == 1 then Exhausted
    else if High(input[0]) && Low(input[1]) then
      Value(0x1_0000 + 0x400 * (input[0] as int - 0xD800) + (input[1] as int - 0xDC00), 2)
    else Invalid
  }

  // ----- The macros -----

  /** PUT_UTF16, with PUT_16BIT appending to `out`; `tmp` is a uint16_t. */
  method PutUtf16(val: nat) returns (out: seq<unit>)
    requires val <= LAST
    ensures out == Encode(val)
  {
    if val < 0x1_0000 {
      var tmp := val % 0x1_0000;
      out := [tmp];
    } else {
      PairBits(val - 0x1_0000);
      var tmp := Or(0xD800, Shr(val - 0x1_0000, 10)) % 0x1_0000;
      out := [tmp];
      tmp := Or(0xDC00, And(val - 0x1_0000, 0x3FF)) % 0x1_0000;
      out := out + [tmp];
    }
  }

  lemma PairBits(x: nat)
    requires x < 0x10_0000
    ensures Or(0xD800, Shr(x, 10)) == 0xD800 + x / 0x400
    ensures Or(0xDC00, And(x, 0x3FF)) == 0xDC00 + x % 0x400
  {
    Pow2Values();
    ShrIs(x, 10);
    AndMask(x, 10);
    ShlIs(54, 10);
    ShlIs(55, 10);
    OrAdds(54, x / 0x400, 10);
    OrAdds(55, x % 0x400, 10);
  }

  /** GET_UTF16, with GET_16BIT taking the next unit of `input`; `val` and `hi` are 32-bit words, so that a unit below
      0xD800 or 0xDC00 leaves them large. */
  method GetUtf16(input: seq<unit>) returns (r: Reading)
    ensures r == Decode(input)
  {
    if |input| == 0 {
      return Exhausted;
    }
    var val := input[0] as int;
    var hi := (val - 0xD800) % WORD;
    if hi < 0x800 {
      if |input| == 1 {
        return Exhausted;
      }
      val := (input[1] as int - 0xDC00) % WORD;
      if val > 0x3FF || hi > 0x3FF {
        return Invalid;
      }
      Pow2Values();
      ShlIs(hi, 10);
      val := (val + Shl(hi, 10) + 0x1_0000) % WORD;
      return Value(val, 2);
    }
    return Value(val, 1);
  }

  // ----- What they promise together -----

  /** GET_UTF16 undoes PUT_UTF16 whatever follows, for exactly the values that are not surrogates. */
  lemma RoundTrip(v: nat)
    requires v <= LAST
    ensures !Surrogate(v) <==>
              forall rest: seq<unit> :: Decode(Encode(v) + rest) == Value(v, |Encode(v)|)
  {
    if Surrogate(v) {
      assert Decode(Encode(v) + []) == Exhausted;
    }
  }

  lemma RoundTripBefore(v: nat, rest: seq<unit>)
    requires v <= LAST && !Surrogate(v)
    ensures Decode(Encode(v) + rest) == Value(v, |Encode(v)|)
  {
  }

  /** What GET_UTF16 accepts is the encoding of what it returns: no value has two forms. */
  lemma Canonical(input: seq<unit>)
    requires Decode(input).Value?
    ensures var Value(v, n) := Decode(input);
            n <= |input| && v <= LAST && !Surrogate(v) && Encode(v) == input[..n]
  {
    var Value(v, n) := Decode(input);
    if n == 2 {
      DivIs(v - 0x1_0000, 0x400, input[0] - 0xD800, input[1] - 0xDC00);
    }
  }

  /** GET_UTF16 runs ERROR exactly on a low surrogate that comes first and a high one not followed by a low one. */
  lemma RejectsExactly(input: seq<unit>)
    ensures Decode(input) == Invalid <==>
              |input| >= 2 && (Low(input[0]) || (High(input[0]) && !Low(input[1])))
    ensures Decode(input) == Exhausted <==> input == [] || (|input| == 1 && Surrogate(input[0]))
  {
  }

  type scalar = v: int | 0 <= v <= 0x10_FFFF && !(0xD800 <= v < 0xE000)

  datatype Text = Text(vals: seq<nat>) | Broken

  function EncodeAll(vs: seq<scalar>): seq<unit> {
    if vs == [] then [] else Encode(vs[0]) + EncodeAll(vs[1..])
  }

  /** GET_UTF16 run again and again until the units are used up. */
  function DecodeAll(s: seq<unit>): Text
    decreases |s|
  {
    if s == [] then Text([])
    else
      match Decode(s)
      case Value(v, n) =>
        (match DecodeAll(s[n..])
         case Text(vs) => Text([v] + vs)
         case Broken => Broken)
      case _ => Broken
  }

  /** Reading the concatenated encodings of any scalar values gives them back. */
  lemma {:induction false} StreamRoundTrip(vs: seq<scalar>)
    ensures DecodeAll(EncodeAll(vs)) == Text(vs)
  {
    if vs != [] {
      RoundTripBefore(vs[0], EncodeAll(vs[1..]));
      assert EncodeAll(vs)[|Encode(vs[0])|..] == EncodeAll(vs[1..]);
      StreamRoundTrip(vs[1..]);
    }
  }

  /** And writing what was read from any accepted units gives the units back. */
  lemma {:induction false} StreamConverse(s: seq<unit>) returns (vs: seq<scalar>)
    requires DecodeAll(s).Text?
    ensures DecodeAll(s) == Text(vs) && EncodeAll(vs) == s
    decreases |s|
  {
    if s == [] {
      vs := [];
    } else {
      Canonical(s);
      var Value(v, n) := Decode(s);
      var rest := StreamConverse(s[n..]);
      vs := [v] + rest;
      assert vs[1..] == rest;
      assert s == s[..n] + s[n..];
    }
  }

  /** Any text GET_UTF16 can read survives the way through UTF-8 and back: read, PUT_UTF8, GET_UTF8, PUT_UTF16. */
  lemma ThroughUtf8(s: seq<unit>) returns (vs: seq<scalar>)
    requires DecodeAll(s).Text?
    ensures DecodeAll(s) == Text(vs)
    ensures Utf8Laws.DecodeAll(Utf8Laws.EncodeAll(vs)) == Utf8Laws.Text(vs)
    ensures EncodeAll(vs) == s
  {
    vs := StreamConverse(s);
    Utf8Laws.StreamRoundTrip(vs);
  }

  /** UTF-16 units, unlike UTF-8 bytes, do not always compare as the values do: the two orders differ exactly when one
      value needs a pair and the other lies above the surrogates in a single unit. */
  lemma OrderAgreesExactly(v: scalar, w: scalar)
    requires v < w
    ensures Utf8Laws.Less(Encode(v), Encode(w)) <==> !(0xE000 <= v < 0x1_0000 <= w)
  {
    var a, b := Encode(v), Encode(w);
    if |a| == 2 && |b| == 2 {
      assert a[1..] == [a[1]] && b[1..] == [b[1]];
      assert a[1..][1..] == [];
    }
  }
}

/** The lagged Fibonacci generators of libavutil/lfg.h: a ring of 64 words overwritten in place, against the unbounded
    recurrence with lags 24 and 55 that the ring is there to compute. */
module Lfg {
  import opened Bits

  type word = x: int | 0 <= x < 0x1_0000_0000

  /** av_lfg_get adds the two lagged words, av_mlfg_get multiplies them (as odd numbers, see OddProduct). */
  datatype Kind = Additive | Multiplicative

  function Combine(kind: Kind, b: word, a: word): word {
    match kind
    case Additive => (b + a) % WORD
    case Multiplicative => (2 * (a * b) + a + b) % WORD
  }

  /** The 64 words a run starts from, oldest first: h[63] is term -1. */
  predicate History(h: seq<word>) {
    |h| == 64
  }

  /** Term n of the recurrence that starts from the history h. */
  function Term(kind: Kind, h: seq<word>, n: int): word
    requires History(h) && n >= -64
    decreases n + 64
  {
    if n < 0 then h[n + 64] else Combine(kind, Term(kind, h, n - 24), Term(kind, h, n - 55))
  }

  /** One step on the last 64 terms: the oldest goes, a new one comes. */
  function Advance(kind: Kind, h: seq<word>): (h': seq<word>)
    requires History(h)
    ensures History(h')
  {
    h[1..] + [Combine(kind, h[40], h[9])]
  }

  function AdvanceBy(kind: Kind, h: seq<word>, n: nat): (h': seq<word>)
    requires History(h)
    ensures History(h')
  {
    if n == 0 then h else Advance(kind, AdvanceBy(kind, h, n - 1))
  }

  // ----- The generator object -----

  /** `index++` on a 32-bit int; past the largest value it wraps, where C leaves the result open. */
  function Increment(i: int): int {
    if i == 0x7FFF_FFFF then -0x8000_0000 else i + 1
  }

  /** The terms a ring holds, oldest first: term -j is the word at (index - j) & 63. */
  function RingTerms(ring: seq<word>, index: int): (h: seq<word>)
    requires |ring| == 64
    ensures History(h)
  {
    seq(64, k requires 0 <= k < 64 => ring[(index + k) % 64])
  }

  /** Overwriting the slot at `index` and moving on drops the oldest term and adds a newest one. */
  lemma RingStep(ring: seq<word>, index: int, x: word)
    requires |ring| == 64
    ensures RingTerms(ring[index % 64 := x], Increment(index)) == RingTerms(ring, index)[1..] + [x]
  {
    var ring' := ring[index % 64 := x];
    var h, h' := RingTerms(ring, index), RingTerms(ring', Increment(index));
    forall k | 0 <= k < 64
      ensures h'[k] == (h[1..] + [x])[k]
    {
      NextSlot(index, k);
    }
  }

  lemma NextSlot(index: int, k: nat)
    requires k < 64
    ensures (Increment(index) + k) % 64 == (index + 1 + k) % 64
    ensures (index + 1 + k) % 64 == index % 64 <==> k == 63
  {
  }

  lemma RingLags(ring: seq<word>, index: int)
    requires |ring| == 64
    ensures ring[(index - 24) % 64] == RingTerms(ring, index)[40]
    ensures ring[(index - 55) % 64] == RingTerms(ring, index)[9]
  {
    assert (index + 40) % 64 == (index - 24) % 64;
    assert (index + 9) % 64 == (index - 55) % 64;
  }

  class AVLFG {
    const state: array<word>
    var index: int

    ghost predicate Valid()
      reads this
    {
      state.Length == 64 && -0x8000_0000 <= index < 0x8000_0000
    }

    /** The last 64 terms, oldest first. */
    ghost function Terms(): (h: seq<word>)
      reads this, state
      requires Valid()
      ensures History(h)
    {
      RingTerms(state[..], index)
    }

    constructor (words: seq<word>, at: int)
      requires |words| == 64 && -0x8000_0000 <= at < 0x8000_0000
      ensures Valid() && fresh(state) && state[..] == words && index == at
    {
      state := new word[64](i requires 0 <= i < 64 => words[i]);
      index := at;
      new;
      assert state[..] == words;
    }

    /** av_lfg_get. `& 63` on an int is `% 64`, for negative numbers too. */
    method Get() returns (r: word)
      requires Valid()
      modifies this`index, state
      ensures Valid() && index == Increment(old(index))
      ensures Terms() == Advance(Additive, old(Terms()))
      ensures r == Terms()[63]
    {
      RingLags(state[..], index);
      RingStep(state[..], index, Combine(Additive, Terms()[40], Terms()[9]));
      state[index % 64] := (state[(index - 24) % 64] + state[(index - 55) % 64]) % WORD;
      r := state[index % 64];
      index := Increment(index);
    }

    /** av_mlfg_get. */
    method MGet() returns (r: word)
      requires Valid()
      modifies this`index, state
      ensures Valid() && index == Increment(old(index))
      ensures Terms() == Advance(Multiplicative, old(Terms()))
      ensures r == Terms()[63]
    {
      RingLags(state[..], index);
      RingStep(state[..], index, Combine(Multiplicative, Terms()[40], Terms()[9]));
      var a := state[(index - 55) % 64];
      var b := state[(index - 24) % 64];
      state[index % 64] := (2 * (a * b) + a + b) % WORD;
      r := state[index % 64];
      index := Increment(index);
    }
  }

  // ----- Any number of calls -----

  method Call(c: AVLFG, kind: Kind) returns (r: word)
    requires c.Valid()
    modifies c`index, c.state
    ensures c.Valid() && c.Terms() == Advance(kind, old(c.Terms())) && r == c.Terms()[63]
    ensures c.index == Increment(old(c.index))
  {
    if kind == Additive {
      r := c.Get();
    } else {
      r := c.MGet();
    }
  }

  /** n steps on from an index, modulo 2^32. */
  predicate IndexAfter(from: int, n: nat, at: int) {
    (at - from - n) % 0x1_0000_0000 == 0
  }

  lemma IndexMoves(from: int, n: nat, at: int)
    ensures IndexAfter(from, 0, from)
    ensures IndexAfter(from, n, at) ==> IndexAfter(from, n + 1, Increment(at))
  {
  }

  /** One call more. */
  method DrawNext(c: AVLFG, kind: Kind, ghost h: seq<word>, ghost index: int, ghost n: nat) returns (r: word)
    requires c.Valid() && History(h) && c.Terms() == AdvanceBy(kind, h, n) && IndexAfter(index, n, c.index)
    modifies c`index, c.state
    ensures c.Valid() && c.Terms() == AdvanceBy(kind, h, n + 1) && IndexAfter(index, n + 1, c.index)
    ensures r == Term(kind, h, n)
  {
    IndexMoves(index, n, c.index);
    r := Call(c, kind);
    RingHolds(kind, h, n + 1, 63);
  }

  /** n calls return the next n terms of the recurrence, and leave the ring holding the last 64. */
  method Draw(c: AVLFG, kind: Kind, n: nat) returns (out: seq<word>)
    requires c.Valid()
    modifies c`index, c.state
    ensures c.Valid() && c.Terms() == AdvanceBy(kind, old(c.Terms()), n)
    ensures IndexAfter(old(c.index), n, c.index)
    ensures |out| == n && forall i :: 0 <= i < n ==> out[i] == Term(kind, old(c.Terms()), i)
  {
    ghost var h, index := c.Terms(), c.index;
    IndexMoves(index, 0, index);
    out := [];
    for i := 0 to n
      invariant c.Valid() && c.Terms() == AdvanceBy(kind, h, i)
      invariant IndexAfter(index, i, c.index)
      invariant |out| == i && forall j :: 0 <= j < i ==> out[j] == Term(kind, h, j)
    {
      var r := DrawNext(c, kind, h, index, i);
      out := out + [r];
    }
  }

  /** After n steps the 64 words held are the terms n - 64 to n - 1 of the recurrence. */
  lemma {:induction false} RingHolds(kind: Kind, h: seq<word>, n: nat, j: nat)
    requires History(h) && j < 64
    ensures AdvanceBy(kind, h, n)[j] == Term(kind, h, n - 64 + j)
  {
    if n > 0 {
      if j < 63 {
        RingHolds(kind, h, n - 1, j + 1);
      } else {
        RingHolds(kind, h, n - 1, 40);
        RingHolds(kind, h, n - 1, 9);
      }
    }
  }

  // ----- The law behind av_mlfg_get -----

  /** The odd number a word stands for. */
  function Odd(x: word): (y: nat)
    ensures y % 2 == 1 && y < 2 * WORD
  {
    2 * x + 1
  }

  /** The words are the odd residues modulo 2^33, and the step multiplies them. */
  lemma OddProduct(b: word, a: word)
    ensures Odd(Combine(Multiplicative, b, a)) == Odd(b) * Odd(a) % (2 * WORD)
  {
    var z := 2 * (a * b) + a + b;
    assert Odd(b) * Odd(a) == 2 * z + 1;
    DivIs(2 * z + 1, 2 * WORD, z / WORD, 2 * (z % WORD) + 1);
  }

  /** Along every run of av_mlfg_get, y_n = 2 x_n + 1 is y_{n-24} y_{n-55} modulo 2^33. */
  lemma MultiplicativeLaw(h: seq<word>, n: nat)
    requires History(h)
    ensures Odd(Term(Multiplicative, h, n))
         == Odd(Term(Multiplicative, h, n - 24)) * Odd(Term(Multiplicative, h, n - 55)) % (2 * WORD)
  {
    OddProduct(Term(Multiplicative, h, n - 24), Term(Multiplicative, h, n - 55));
  }

  // ----- Runs of combined histories -----

  /** Two histories combined place by place. */
  function Pointwise(kind: Kind, s: seq<word>, t: seq<word>): (u: seq<word>)
    requires History(s) && History(t)
    ensures History(u)
  {
    seq(64, i requires 0 <= i < 64 => Combine(kind, s[i], t[i]))
  }

  lemma SumsModulo(x: int, y: int, m: int)
    requires m > 0
    ensures (x % m + y % m) % m == (x + y) % m
  {
    var r := x % m + y % m;
    assert x + y == (x / m + y / m + r / m) * m + r % m;
    DivIs(x + y, m, x / m + y / m + r / m, r % m);
  }

  lemma ProductsModulo(x: nat, y: nat, m: nat)
    requires m > 0
    ensures (x % m) * (y % m) % m == x * y % m
  {
    var a, b := x / m, y / m;
    ProductSplit(x, y, a, x % m, b, y % m, m);
    SameRemainder((x % m) * (y % m), a * b * m + a * (y % m) + (x % m) * b, m);
  }

  lemma ProductSplit(x: int, y: int, a: int, s: int, b: int, t: int, m: int)
    requires x == a * m + s && y == b * m + t
    ensures x * y == (a * b * m + a * t + s * b) * m + s * t
  {
    assert (a * m + s) * (b * m + t) == (a * b * m + a * t + s * b) * m + s * t;
  }

  lemma MulMedial(a: int, b: int, c: int, d: int)
    ensures (a * b) * (c * d) == (a * c) * (b * d)
  {
    assert (a * b) * (c * d) == a * (b * c) * d == (a * c) * (b * d);
  }

  /** Combining is commutative and associative enough: four words can be combined by rows or by columns. */
  lemma Medial(kind: Kind, a: word, b: word, c: word, d: word)
    ensures Combine(kind, Combine(kind, a, b), Combine(kind, c, d))
         == Combine(kind, Combine(kind, a, c), Combine(kind, b, d))
  {
    match kind
    case Additive =>
      SumsModulo(a + b, c + d, WORD);
      SumsModulo(a + c, b + d, WORD);
    case Multiplicative =>
      OddOfFour(a, b, c, d);
      OddOfFour(a, c, b, d);
      MulMedial(Odd(a), Odd(b), Odd(c), Odd(d));
  }

  lemma OddOfFour(a: word, b: word, c: word, d: word)
    ensures Odd(Combine(Multiplicative, Combine(Multiplicative, a, b), Combine(Multiplicative, c, d)))
         == (Odd(a) * Odd(b)) * (Odd(c) * Odd(d)) % (2 * WORD)
  {
    OddProduct(a, b);
    OddProduct(c, d);
    OddProduct(Combine(Multiplicative, a, b), Combine(Multiplicative, c, d));
    ProductsModulo(Odd(a) * Odd(b), Odd(c) * Odd(d), 2 * WORD);
  }

  /** The run of two histories combined is the two runs combined, call by call. For av_lfg_get: the outputs are
      linear in the start. */
  lemma {:induction false} RunsCombine(kind: Kind, s: seq<word>, t: seq<word>, n: int)
    requires History(s) && History(t) && n >= -64
    ensures Term(kind, Pointwise(kind, s, t), n) == Combine(kind, Term(kind, s, n), Term(kind, t, n))
    decreases n + 64
  {
    if n >= 0 {
      RunsCombine(kind, s, t, n - 24);
      RunsCombine(kind, s, t, n - 55);
      Medial(kind, Term(kind, s, n - 24), Term(kind, t, n - 24), Term(kind, s, n - 55), Term(kind, t, n - 55));
    }
  }

  // ----- What a run depends on -----

  lemma SumLow(x: nat, y: nat, x': nat, y': nat, m: nat)
    requires m > 0 && x % m == x' % m && y % m == y' % m
    ensures (x + y) % m == (x' + y') % m
  {
    SumsModulo(x, y, m);
    SumsModulo(x', y', m);
  }

  lemma ProductLow(x: nat, y: nat, x': nat, y': nat, m: nat)
    requires m > 0 && x % m == x' % m && y % m == y' % m
    ensures x * y % m == x' * y' % m
  {
    ProductsModulo(x, y, m);
    ProductsModulo(x', y', m);
  }

  lemma WordLow(x: nat, k: nat)
    requires k <= 32
    ensures x % WORD % Pow2(k) == x % Pow2(k)
  {
    Pow2Add(k, 32 - k);
    Pow2Values();
    ModMod(x, Pow2(k), Pow2(32 - k));
  }

  lemma AdditiveLow(b: word, a: word, b': word, a': word, k: nat)
    requires k <= 32 && b % Pow2(k) == b' % Pow2(k) && a % Pow2(k) == a' % Pow2(k)
    ensures (b + a) % WORD % Pow2(k) == (b' + a') % WORD % Pow2(k)
  {
    SumLow(b, a, b', a', Pow2(k));
    WordLow(b + a, k);
    WordLow(b' + a', k);
  }

  lemma MultiplicativeLow(b: word, a: word, b': word, a': word, k: nat)
    requires k <= 32 && b % Pow2(k) == b' % Pow2(k) && a % Pow2(k) == a' % Pow2(k)
    ensures (2 * (a * b) + (a + b)) % WORD % Pow2(k) == (2 * (a' * b') + (a' + b')) % WORD % Pow2(k)
  {
    SumLow(a, b, a', b', Pow2(k));
    ProductLow(a, b, a', b', Pow2(k));
    TwiceLow(a * b, a + b, a' * b', a' + b', k);
  }

  lemma CombineLow(kind: Kind, b: word, a: word, b': word, a': word, k: nat)
    requires k <= 32 && b % Pow2(k) == b' % Pow2(k) && a % Pow2(k) == a' % Pow2(k)
    ensures Combine(kind, b, a) % Pow2(k) == Combine(kind, b', a') % Pow2(k)
  {
    if kind == Additive {
      AdditiveLow(b, a, b', a', k);
    } else {
      MultiplicativeLow(b, a, b', a', k);
      assert 2 * (a * b) + a + b == 2 * (a * b) + (a + b);
      assert 2 * (a' * b') + a' + b' == 2 * (a' * b') + (a' + b');
    }
  }

  lemma TwiceModulo(p: nat, s: nat, p': nat, s': nat, m: nat)
    requires m > 0 && p % m == p' % m && s % m == s' % m
    ensures (2 * p + s) % m == (2 * p' + s') % m
  {
    SumLow(p, p, p', p', m);
    SumLow(p + p, s, p' + p', s', m);
  }

  lemma TwiceLow(p: nat, s: nat, p': nat, s': nat, k: nat)
    requires k <= 32 && p % Pow2(k) == p' % Pow2(k) && s % Pow2(k) == s' % Pow2(k)
    ensures (2 * p + s) % WORD % Pow2(k) == (2 * p' + s') % WORD % Pow2(k)
  {
    TwiceModulo(p, s, p', s', Pow2(k));
    WordLow(2 * p + s, k);
    WordLow(2 * p' + s', k);
  }

  /** The k low bits of every output depend on the k low bits of the last 55 words only. */
  lemma {:induction false} LowBits(kind: Kind, s: seq<word>, t: seq<word>, k: nat, n: int)
    requires History(s) && History(t) && k <= 32 && n >= -55
    requires forall i :: 9 <= i < 64 ==> s[i] % Pow2(k) == t[i] % Pow2(k)
    ensures Term(kind, s, n) % Pow2(k) == Term(kind, t, n) % Pow2(k)
    decreases n + 55
  {
    if n >= 0 {
      LowBits(kind, s, t, k, n - 24);
      LowBits(kind, s, t, k, n - 55);
      CombineLow(kind, Term(kind, s, n - 24), Term(kind, s, n - 55), Term(kind, t, n - 24), Term(kind, t, n - 55), k);
    }
  }

  // ----- Undoing steps -----

  /** An odd factor hides no power of two. */
  lemma {:induction false} OddCancels(u: nat, d: int, k: nat)
    requires u % 2 == 1 && (u * d) % Pow2(k) == 0
    ensures d % Pow2(k) == 0
    decreases k
  {
    if k > 0 {
      HalfCancels(u, d, Pow2(k - 1));
      OddCancels(u, d / 2, k - 1);
      Doubled(d, Pow2(k - 1));
    } else {
      assert d % 1 == 0;
    }
  }

  lemma HalfCancels(u: nat, d: int, p: nat)
    requires p > 0 && u % 2 == 1 && (u * d) % (2 * p) == 0
    ensures d % 2 == 0 && (u * (d / 2)) % p == 0
  {
    var q := (u * d) / (2 * p);
    assert u * d == 2 * (p * q);
    OddTimes(u, d);
    var e := d / 2;
    assert u * d == 2 * (u * e);
    DivIs(u * e, p, q, 0);
  }

  lemma Doubled(d: int, p: nat)
    requires p > 0 && d % 2 == 0 && (d / 2) % p == 0
    ensures d % (2 * p) == 0
  {
    var q := d / 2 / p;
    assert d / 2 == q * p;
    DivIs(d, 2 * p, q, 0);
  }

  lemma OddTimes(u: nat, d: int)
    requires u % 2 == 1 && (u * d) % 2 == 0
    ensures d % 2 == 0
  {
    assert u * d == 2 * ((u / 2) * d) + d;
  }

  lemma EqualModulo(x: int, y: int, m: int)
    requires m > 0 && x % m == y % m
    ensures (x - y) % m == 0
  {
    DivIs(x - y, m, x / m - y / m, 0);
  }

  lemma CancelProduct(b: word, a: word, a': word)
    requires (2 * (a * b) + a + b) % WORD == (2 * (a' * b) + a' + b) % WORD
    ensures a == a'
  {
    var x, y := 2 * (a * b) + a + b, 2 * (a' * b) + a' + b;
    EqualModulo(x, y, WORD);
    assert x - y == Odd(b) * (a - a');
    Pow2Values();
    OddCancels(Odd(b), a - a', 32);
  }

  /** With one operand known, the result of a step gives the other back. */
  lemma Cancel(kind: Kind, b: word, a: word, a': word)
    requires Combine(kind, b, a) == Combine(kind, b, a')
    ensures a == a'
  {
    if kind == Multiplicative {
      CancelProduct(b, a, a');
    }
  }

  lemma UndoTerm(h: seq<word>, n: nat)
    requires History(h) && n >= 9
    ensures Term(Additive, h, n - 64) == (Term(Additive, h, n - 9) - Term(Additive, h, n - 33)) % WORD
  {
    SubtractBack(Term(Additive, h, n - 33), Term(Additive, h, n - 64));
  }

  lemma SubtractBack(b: word, a: word)
    ensures a == (Combine(Additive, b, a) - b) % WORD
  {
  }

  /** For av_lfg_get the word a call overwrites can be computed back, from the tenth call on. */
  lemma Undo(h: seq<word>, n: nat)
    requires History(h) && n >= 9
    ensures AdvanceBy(Additive, h, n)[0]
         == (AdvanceBy(Additive, h, n)[55] - AdvanceBy(Additive, h, n)[31]) % WORD
  {
    RingHolds(Additive, h, n, 0);
    RingHolds(Additive, h, n, 31);
    RingHolds(Additive, h, n, 55);
    UndoIn(h, AdvanceBy(Additive, h, n), n);
  }

  lemma UndoIn(h: seq<word>, ring: seq<word>, n: nat)
    requires History(h) && History(ring) && n >= 9
    requires ring[0] == Term(Additive, h, n - 64)
    requires ring[31] == Term(Additive, h, n - 33) && ring[55] == Term(Additive, h, n - 9)
    ensures ring[0] == (ring[55] - ring[31]) % WORD
  {
    UndoTerm(h, n);
  }

  lemma {:induction false} SameTail(kind: Kind, s: seq<word>, t: seq<word>, n: int)
    requires History(s) && History(t) && n >= -55 && s[9..] == t[9..]
    ensures Term(kind, s, n) == Term(kind, t, n)
    decreases n + 55
  {
    if n < 0 {
      assert s[9..][n + 55] == t[9..][n + 55];
    } else {
      SameTail(kind, s, t, n - 24);
      SameTail(kind, s, t, n - 55);
    }
  }

  /** Runs that agree on 55 terms in a row have agreed on all since term -55. */
  lemma {:induction false} AgreeBefore(kind: Kind, s: seq<word>, t: seq<word>, last: int, n: int)
    requires History(s) && History(t) && -55 <= n <= last && last >= -1
    requires forall i :: last - 55 < i <= last ==> Term(kind, s, i) == Term(kind, t, i)
    ensures Term(kind, s, n) == Term(kind, t, n)
    decreases last + 55
  {
    if n <= last - 55 {
      assert Term(kind, s, last) == Term(kind, t, last);
      assert Term(kind, s, last - 24) == Term(kind, t, last - 24);
      Cancel(kind, Term(kind, s, last - 24), Term(kind, s, last - 55), Term(kind, t, last - 55));
      AgreeBefore(kind, s, t, last - 1, n);
    }
  }

  /** Two rings agree after n >= 9 calls exactly when they agreed on their last 55 words at the start: from then on the
      ring remembers those words without loss, and nothing else of where it came from. */
  lemma RingRemembers(kind: Kind, s: seq<word>, t: seq<word>, n: nat)
    requires History(s) && History(t) && n >= 9
    ensures AdvanceBy(kind, s, n) == AdvanceBy(kind, t, n) <==> s[9..] == t[9..]
  {
    var a, b := AdvanceBy(kind, s, n), AdvanceBy(kind, t, n);
    forall j | 0 <= j < 64
      ensures a[j] == Term(kind, s, n - 64 + j) && b[j] == Term(kind, t, n - 64 + j)
      ensures s[9..] == t[9..] ==> a[j] == b[j]
    {
      RingHolds(kind, s, n, j);
      RingHolds(kind, t, n, j);
      if s[9..] == t[9..] {
        SameTail(kind, s, t, n - 64 + j);
      }
    }
    if a == b {
      forall i | n - 56 < i <= n - 1
        ensures Term(kind, s, i) == Term(kind, t, i)
      {
        assert a[i + 64 - n] == b[i + 64 - n];
      }
      forall k | 0 <= k < 55
        ensures s[9..][k] == t[9..][k]
      {
        AgreeBefore(kind, s, t, n - 1, k - 55);
      }
    }
  }
}

/** What the reader and the writer of UTF-8 promise together: round trips, canonical form, order, streams. */
module Utf8Laws {
  import opened Bits
  import opened Utf8

  // ----- The bytes of one encoding -----

  /** What is left of v above its k lowest base-64 digits. */
  function Top(v: nat, k: nat): nat {
    if k == 0 then v else Top(v / 64, k - 1)
  }

  lemma {:induction false} TopBounds(v: nat, k: nat, c: nat)
    ensures v < c * Pow2(6 * k) <==> Top(v, k) < c
  {
    if k > 0 {
      var p := Pow2(6 * k - 6);
      assert Pow2(6 * k) == 64 * p by {
        Pow2Add(6, 6 * k - 6);
        Pow2Values();
      }
      TopBounds(v / 64, k - 1, c);
      Scaled(v / 64, v % 64, c, p);
    }
  }

  lemma {:induction false} BodyShape(v: nat, k: nat, mark: nat)
    ensures Body(v, k, mark)[0] == (mark + Top(v, k)) % 256
    ensures forall j :: 1 <= j <= k ==> IsContinuation(Body(v, k, mark)[j])
  {
    if k > 0 {
      BodyShape(v / 64, k - 1, mark);
    }
  }

  /** How many values the lead byte of a row can carry. */
  function Room(n: nat): nat {
    if n <= 1 then 128 else if n == 2 then 32 else if n == 3 then 16 else if n == 4 then 8 else if n == 5 then 4 else 2
  }

  lemma RowHolds(v: nat)
    requires v < LIMIT
    ensures v < Room(Row(v)) * Pow2(6 * (Row(v) - 1))
  {
    Pow2Values();
  }

  lemma LeadKeepsMark(n: nat, x: nat)
    requires 1 <= n <= 6 && x < Room(n)
    ensures Mark(n) + x < 256 && SequenceLength(Mark(n) + x) == n
  {
  }

  /** In its own row of the table v leaves the lead byte its marker. */
  lemma LeadOf(v: nat)
    requires v < LIMIT
    ensures Encode(v)[0] == Mark(Row(v)) + Top(v, Row(v) - 1) < 256
    ensures SequenceLength(Encode(v)[0]) == Row(v)
  {
    var n := Row(v);
    BodyShape(v, n - 1, Mark(n));
    RowHolds(v);
    TopBounds(v, n - 1, Room(n));
    LeadKeepsMark(n, Top(v, n - 1));
  }

  lemma {:induction false} GatherBody(v: nat, k: nat, mark: nat, rest: seq<byte>)
    requires mark + Top(v, k) < 256 && SequenceLength(mark + Top(v, k)) > 0
    requires Mark(SequenceLength(mark + Top(v, k))) == mark
    ensures Body(v, k, mark)[0] == mark + Top(v, k)
    ensures Gathered(Body(v, k, mark) + rest, k) == v
  {
    BodyShape(v, k, mark);
    if k > 0 {
      var digit: byte := 128 + v % 64;
      GatherBody(v / 64, k - 1, mark, [digit] + rest);
      assert Body(v, k, mark) + rest == Body(v / 64, k - 1, mark) + ([digit] + rest);
    }
  }

  /** GET_UTF8 undoes PUT_UTF8 on every 31-bit value, whatever follows, and takes exactly the bytes that were put. */
  lemma RoundTrip(v: nat, rest: seq<byte>)
    requires v < LIMIT
    ensures Decode(Encode(v) + rest) == Value(v, |Encode(v)|)
  {
    var n := Row(v);
    var s := Encode(v) + rest;
    LeadOf(v);
    BodyShape(v, n - 1, Mark(n));
    assert forall j :: 1 <= j < n ==> s[j] == Encode(v)[j];
    ContinuationsFrom(s, 1, n - 1, n - 1);
    GatherBody(v, n - 1, Mark(n), rest);
  }

  // ----- What is accepted, and canonical form -----

  /** The first n bytes are a lead byte for n and n - 1 continuation bytes. */
  predicate WellFormed(s: seq<byte>, n: nat) {
    && 1 <= n <= |s| && SequenceLength(s[0]) == n
    && forall j :: 1 <= j < n ==> IsContinuation(s[j])
  }

  /** GET_UTF8 runs ERROR exactly on a byte that cannot lead, or on a byte that should continue and does not. */
  lemma RejectsExactly(s: seq<byte>)
    ensures Decode(s).Invalid? <==>
              |s| > 0 && (|| 0x80 <= s[0] < 0xC0
                          || s[0] >= 0xFE
                          || exists j :: 1 <= j < SequenceLength(s[0]) && j < |s| && !IsContinuation(s[j]))
    ensures Decode(s).Value? <==> exists n: nat :: WellFormed(s, n)
  {
    if Decode(s).Value? {
      assert WellFormed(s, Decode(s).used);
    }
    if exists n: nat :: WellFormed(s, n) {
      var n: nat :| WellFormed(s, n);
      ContinuationsFrom(s, 1, n - 1, n - 1);
    }
    if |s| > 0 && SequenceLength(s[0]) > 0 {
      var n := SequenceLength(s[0]);
      var k := Continuations(s, 1, n - 1);
      assert k < n - 1 && 1 + k < |s| ==> !IsContinuation(s[1 + k]);
    }
  }

  /** The first n bytes begin a sequence that is to go on. */
  predicate Begun(s: seq<byte>, n: nat) {
    1 <= n <= |s| && n < SequenceLength(s[0]) && forall j :: 1 <= j < n ==> IsContinuation(s[j])
  }

  lemma ContinuedTo(s: seq<byte>, n: nat)
    requires Begun(s, n) && (n == |s| || !IsContinuation(s[n]))
    ensures Decode(s) == if n == |s| then Exhausted else Invalid(n + 1)
  {
    ContinuationsFrom(s, 1, SequenceLength(s[0]) - 1, n - 1);
  }

  /** Where an error is found: with the byte that cannot lead or does not continue, which GET_BYTE has then been asked
      for; the input is used up only within a sequence. */
  lemma StopsExactly(s: seq<byte>, n: nat)
    ensures Decode(s) == Invalid(n) <==>
              || (n == 1 && s != [] && (0x80 <= s[0] < 0xC0 || s[0] >= 0xFE))
              || (2 <= n <= |s| && Begun(s, n - 1) && !IsContinuation(s[n - 1]))
    ensures Decode(s) == Exhausted <==> s == [] || Begun(s, |s|)
  {
    if s != [] && SequenceLength(s[0]) > 0 {
      var k := Continuations(s, 1, SequenceLength(s[0]) - 1);
      assert k < SequenceLength(s[0]) - 1 ==> Begun(s, k + 1);
      if 2 <= n <= |s| && Begun(s, n - 1) && !IsContinuation(s[n - 1]) {
        ContinuedTo(s, n - 1);
      }
      if Begun(s, |s|) {
        ContinuedTo(s, |s|);
      }
    }
  }

  /** A well-formed sequence that spends more bytes than its value needs, told from its first two bytes. */
  predicate Overlong(s: seq<byte>)
    requires |s| > 0 && SequenceLength(s[0]) <= |s|
  {
    || s[0] == 0xC0 || s[0] == 0xC1
    || (s[0] == 0xE0 && s[1] < 0xA0)
    || (s[0] == 0xF0 && s[1] < 0x90)
    || (s[0] == 0xF8 && s[1] < 0x88)
    || (s[0] == 0xFC && s[1] < 0x84)
  }

  lemma BodyNext(g: nat, d: nat, k: nat, mark: nat)
    requires d < 64
    ensures Body(64 * g + d, k + 1, mark) == Body(g, k, mark) + [128 + d]
  {
    DivIs(64 * g + d, 64, g, d);
  }

  /** Rewriting the value in the row it was read from gives the bytes back. */
  lemma {:induction false} Rebuild(s: seq<byte>, i: nat)
    requires i < |s| && SequenceLength(s[0]) > 0
    requires forall j :: 1 <= j <= i ==> IsContinuation(s[j])
    ensures Body(Gathered(s, i), i, Mark(SequenceLength(s[0]))) == s[..i + 1]
  {
    if i > 0 {
      Rebuild(s, i - 1);
      BodyNext(Gathered(s, i - 1), s[i] % 64, i - 1, Mark(SequenceLength(s[0])));
      OneMore(s, i);
    }
  }

  lemma OneMore(s: seq<byte>, i: nat)
    requires i < |s| && IsContinuation(s[i])
    ensures s[..i + 1] == s[..i] + [128 + s[i] % 64]
  {
  }

  /** Each continuation byte multiplies by 64 and adds less. */
  lemma {:induction false} GatheredScale(s: seq<byte>, i: nat, from: nat, c: nat)
    requires from <= i < |s| && SequenceLength(s[0]) > 0
    ensures Gathered(s, i) < c * Pow2(6 * (i - from)) <==> Gathered(s, from) < c
  {
    if i > from {
      var p := Pow2(6 * (i - 1 - from));
      assert Pow2(6 * (i - from)) == 64 * p by {
        Pow2Add(6, 6 * (i - 1 - from));
        Pow2Values();
      }
      GatheredScale(s, i - 1, from, c);
      Scaled(Gathered(s, i - 1), s[i] % 64, c, p);
    }
  }

  lemma Scaled(g: nat, d: nat, c: nat, p: nat)
    requires d < 64
    ensures 64 * g + d < c * (64 * p) <==> g < c * p
  {
    assert c * (64 * p) == 64 * (c * p);
  }

  /** The least value of row n in units of 64^(n - 2). */
  function Least(n: nat): nat {
    if n <= 2 then 0x80 else if n == 3 then 0x20 else if n == 4 then 0x10 else if n == 5 then 8 else 4
  }

  lemma RowFromBounds(v: nat, n: nat)
    requires 1 <= n <= 6 && v < Room(n) * Pow2(6 * (n - 1))
    ensures v < LIMIT && Row(v) <= n
    ensures n >= 2 ==> (Row(v) < n <==> v < Least(n) * Pow2(6 * (n - 2)))
  {
    Pow2Values();
  }

  lemma OverlongBytes(s: seq<byte>, n: nat)
    requires WellFormed(s, n) && n >= 2
    ensures Overlong(s) <==> Gathered(s, 1) < Least(n)
  {
    assert Gathered(s, 1) == 64 * (s[0] - Mark(n)) + s[1] % 64;
  }

  /** The value never needs more bytes than were read, and fewer exactly when the sequence is overlong. */
  lemma RowOfValue(s: seq<byte>, n: nat)
    requires WellFormed(s, n)
    ensures Gathered(s, n - 1) < LIMIT
    ensures Row(Gathered(s, n - 1)) <= n
    ensures Row(Gathered(s, n - 1)) < n <==> Overlong(s)
  {
    GatheredScale(s, n - 1, 0, Room(n));
    RowFromBounds(Gathered(s, n - 1), n);
    if n >= 2 {
      GatheredScale(s, n - 1, 1, Least(n));
      OverlongBytes(s, n);
    }
  }

  /** Whatever GET_UTF8 accepts, PUT_UTF8 writes in no more bytes, and in the same bytes exactly when the input was
      not overlong. */
  lemma CanonicalForm(s: seq<byte>)
    requires Decode(s).Value?
    ensures var Value(v, n) := Decode(s);
            && v < LIMIT && 1 <= n <= |s| && SequenceLength(s[0]) == n
            && |Encode(v)| <= n
            && (Encode(v) == s[..n] <==> !Overlong(s))
            && (|Encode(v)| == n <==> !Overlong(s))
  {
    var Value(v, n) := Decode(s);
    assert WellFormed(s, n);
    RowOfValue(s, n);
    Rebuild(s, n - 1);
  }

  // ----- Order -----

  /** a and b first differ at j, where a is smaller. */
  predicate DivergeAt(a: seq<int>, b: seq<int>, j: nat) {
    j < |a| && j < |b| && a[..j] == b[..j] && a[j] < b[j]
  }

  /** Lexicographic order. */
  predicate Less(a: seq<int>, b: seq<int>) {
    b != [] && (a == [] || a[0] < b[0] || (a[0] == b[0] && Less(a[1..], b[1..])))
  }

  lemma {:induction false} DivergenceDecides(a: seq<int>, b: seq<int>, j: nat)
    requires DivergeAt(a, b, j)
    ensures Less(a, b) && !Less(b, a)
  {
    if j > 0 {
      assert a[0] == a[..j][0] == b[..j][0] == b[0];
      assert a[1..][..j - 1] == a[..j][1..] == b[..j][1..] == b[1..][..j - 1];
      DivergenceDecides(a[1..], b[1..], j - 1);
    }
  }

  lemma {:induction false} CommonPrefix(c: seq<int>, a: seq<int>, b: seq<int>)
    ensures Less(c + a, c + b) <==> Less(a, b)
  {
    if c == [] {
      assert c + a == a && c + b == b;
    } else {
      CommonPrefix(c[1..], a, b);
      assert (c + a)[1..] == c[1..] + a && (c + b)[1..] == c[1..] + b;
    }
  }

  lemma DivergeLonger(a: seq<int>, b: seq<int>, x: int, y: int, j: nat)
    requires DivergeAt(a, b, j)
    ensures DivergeAt(a + [x], b + [y], j)
  {
    assert (a + [x])[..j] == a[..j] && (b + [y])[..j] == b[..j];
  }

  lemma DivergeLast(a: seq<int>, x: int, y: int)
    requires x < y
    ensures DivergeAt(a + [x], a + [y], |a|)
  {
    assert (a + [x])[..|a|] == a && (a + [y])[..|a|] == a;
  }

  lemma BodyStep(v: nat, k: nat, mark: nat)
    requires k > 0
    ensures Body(v, k, mark) == Body(v / 64, k - 1, mark) + [128 + v % 64] && Top(v, k) == Top(v / 64, k - 1)
  {
  }

  lemma {:induction false} BodyOrder(v: nat, w: nat, k: nat, mark: nat) returns (j: nat)
    requires v < w && mark + Top(v, k) < 256 && mark + Top(w, k) < 256
    ensures DivergeAt(Body(v, k, mark), Body(w, k, mark), j)
  {
    if k == 0 {
      j := 0;
    } else {
      BodyStep(v, k, mark);
      BodyStep(w, k, mark);
      if v / 64 < w / 64 {
        j := BodyOrder(v / 64, w / 64, k - 1, mark);
        DivergeLonger(Body(v / 64, k - 1, mark), Body(w / 64, k - 1, mark), 128 + v % 64, 128 + w % 64, j);
      } else {
        j := k;
        DivergeLast(Body(v / 64, k - 1, mark), 128 + v % 64, 128 + w % 64);
      }
    }
  }

  /** Encodings of different values differ inside the shorter one, at a byte that orders them as the values are. */
  lemma EncodingsDiverge(v: nat, w: nat) returns (j: nat)
    requires v < w < LIMIT
    ensures DivergeAt(Encode(v), Encode(w), j)
  {
    LeadOf(v);
    LeadOf(w);
    if Row(v) == Row(w) {
      j := BodyOrder(v, w, Row(v) - 1, Mark(Row(v)));
    } else {
      j := 0;
    }
  }

  /** UTF-8 bytes compare as the values do. */
  lemma OrderPreserved(v: nat, w: nat)
    requires v < LIMIT && w < LIMIT
    ensures v < w <==> Less(Encode(v), Encode(w))
  {
    if v < w {
      var j := EncodingsDiverge(v, w);
      DivergenceDecides(Encode(v), Encode(w), j);
    } else if w < v {
      var j := EncodingsDiverge(w, v);
      DivergenceDecides(Encode(w), Encode(v), j);
    } else {
      NotLessItself(Encode(v));
    }
  }

  lemma {:induction false} NotLessItself(a: seq<int>)
    ensures !Less(a, a)
  {
    if a != [] {
      NotLessItself(a[1..]);
    }
  }

  /** No encoding is a proper prefix of another. */
  lemma PrefixFree(v: nat, w: nat)
    requires v < LIMIT && w < LIMIT
    ensures Encode(v) <= Encode(w) <==> v == w
  {
    if v != w {
      var j := EncodingsDiverge(if v < w then v else w, if v < w then w else v);
    }
  }

  // ----- Streams -----

  type code = v: int | 0 <= v < 0x8000_0000

  datatype Text = Text(vals: seq<nat>) | Broken(at: nat)

  function EncodeAll(vs: seq<code>): seq<byte> {
    if vs == [] then [] else Encode(vs[0]) + EncodeAll(vs[1..])
  }

  /** GET_UTF8 run again and again until the bytes are used up; Broken tells where it ran ERROR or ran out. */
  function DecodeAll(s: seq<byte>): Text
    decreases |s|
  {
    if s == [] then Text([])
    else
      match Decode(s)
      case Value(v, n) =>
        UsesInput(s);
        (match DecodeAll(s[n..])
         case Text(vs) => Text([v] + vs)
         case Broken(at) => Broken(n + at))
      case _ => Broken(0)
  }

  lemma UsesInput(s: seq<byte>)
    requires Decode(s).Value?
    ensures 1 <= Decode(s).used <= |s| && Decode(s).val < LIMIT
  {
    CanonicalForm(s);
  }

  /** Reading the concatenated encodings of any sequence of values gives the sequence back. */
  lemma {:induction false} StreamRoundTrip(vs: seq<code>)
    ensures DecodeAll(EncodeAll(vs)) == Text(vs)
  {
    if vs != [] {
      var s := EncodeAll(vs);
      RoundTrip(vs[0], EncodeAll(vs[1..]));
      assert s[|Encode(vs[0])|..] == EncodeAll(vs[1..]);
      StreamRoundTrip(vs[1..]);
    }
  }

  lemma Pieces(a: seq<byte>, b: seq<byte>, x: seq<byte>, y: seq<byte>)
    requires |a| <= |x| && (|a| == |x| ==> a == x)
    requires |b| <= |y| && (|b| == |y| ==> b == y)
    ensures |a + b| <= |x + y| && (|a + b| == |x + y| ==> a + b == x + y)
  {
  }

  lemma FirstCanonical(s: seq<byte>, rest: seq<code>)
    requires Decode(s).Value?
    requires |EncodeAll(rest)| <= |s| - Decode(s).used
    requires |EncodeAll(rest)| == |s| - Decode(s).used ==> EncodeAll(rest) == s[Decode(s).used..]
    ensures Decode(s).val < LIMIT
    ensures var code := Encode(Decode(s).val) + EncodeAll(rest);
            |code| <= |s| && (|code| == |s| ==> code == s)
  {
    CanonicalForm(s);
    var Value(v, n) := Decode(s);
    Pieces(Encode(v), EncodeAll(rest), s[..n], s[n..]);
    assert s == s[..n] + s[n..];
  }

  lemma DecodeAllNext(s: seq<byte>)
    requires s != [] && DecodeAll(s).Text?
    ensures Decode(s).Value? && 1 <= Decode(s).used <= |s| && DecodeAll(s[Decode(s).used..]).Text?
    ensures DecodeAll(s).vals == [Decode(s).val] + DecodeAll(s[Decode(s).used..]).vals
  {
    UsesInput(s);
  }

  /** Writing again what was read from any accepted bytes takes no more bytes, and takes as many only by giving the
      same bytes. */
  lemma {:induction false} StreamCanonical(s: seq<byte>) returns (vs: seq<code>)
    requires DecodeAll(s).Text?
    ensures DecodeAll(s) == Text(vs)
    ensures |EncodeAll(vs)| <= |s|
    ensures |EncodeAll(vs)| == |s| <==> EncodeAll(vs) == s
    decreases |s|
  {
    if s == [] {
      vs := [];
    } else {
      DecodeAllNext(s);
      var rest := StreamCanonical(s[Decode(s).used..]);
      FirstCanonical(s, rest);
      vs := EncodeAllCons(Decode(s).val, rest);
    }
  }

  lemma EncodeAllCons(v: code, rest: seq<code>) returns (vs: seq<code>)
    ensures vs == [v] + rest && EncodeAll(vs) == Encode(v) + EncodeAll(rest)
  {
    vs := [v] + rest;
    assert vs[1..] == rest;
  }

  // ----- Where reading stops -----

  lemma {:induction false} GatheredFront(s: seq<byte>, t: seq<byte>, i: nat)
    requires t <= s && i < |t| && SequenceLength(t[0]) > 0
    ensures Gathered(t, i) == Gathered(s, i)
  {
    if i > 0 {
      GatheredFront(s, t, i - 1);
    }
  }

  lemma WellFormedFront(s: seq<byte>, t: seq<byte>, n: nat)
    requires t <= s
    ensures WellFormed(t, n) <==> WellFormed(s, n) && n <= |t|
  {
  }

  lemma DecodeWellFormed(s: seq<byte>, n: nat)
    requires WellFormed(s, n)
    ensures Decode(s) == Value(Gathered(s, n - 1), n)
  {
    ContinuationsFrom(s, 1, n - 1, n - 1);
  }

  lemma ValueWellFormed(s: seq<byte>)
    requires Decode(s).Value?
    ensures WellFormed(s, Decode(s).used)
  {
  }

  /** A character is read from its own bytes, whatever follows. */
  lemma SameFirst(s: seq<byte>, t: seq<byte>)
    requires t <= s
    ensures Decode(t).Value? <==> Decode(s).Value? && Decode(s).used <= |t|
    ensures Decode(t).Value? ==> Decode(t) == Decode(s)
  {
    if Decode(t).Value? || (Decode(s).Value? && Decode(s).used <= |t|) {
      var n := if Decode(t).Value? then Decode(t).used else Decode(s).used;
      if Decode(t).Value? {
        ValueWellFormed(t);
      } else {
        ValueWellFormed(s);
      }
      WellFormedFront(s, t, n);
      DecodeWellFormed(s, n);
      DecodeWellFormed(t, n);
      GatheredFront(s, t, n - 1);
    }
  }

  /** Reading breaks off at one place: what lies before it can be read to its end, and what lies there has no character
      at its front. */
  lemma {:induction false} BrokenExactly(s: seq<byte>, at: nat)
    ensures DecodeAll(s) == Broken(at) <==>
              at < |s| && DecodeAll(s[..at]).Text? && !Decode(s[at..]).Value?
    decreases |s|
  {
    if s != [] && at <= |s| {
      SameFirst(s, s[..at]);
      if Decode(s).Value? && Decode(s).used <= at {
        UsesInput(s);
        BrokenBehind(s, at, Decode(s).used);
        BrokenExactly(s[Decode(s).used..], at - Decode(s).used);
      } else {
        assert at == 0 ==> s[..at] == [] && s[at..] == s;
      }
    } else {
      BrokenWithin(s);
    }
  }

  lemma {:induction false} BrokenWithin(s: seq<byte>)
    ensures DecodeAll(s).Broken? ==> DecodeAll(s).at < |s|
    decreases |s|
  {
    if s != [] && Decode(s).Value? {
      UsesInput(s);
      BrokenWithin(s[Decode(s).used..]);
    }
  }

  lemma BrokenBehind(s: seq<byte>, at: nat, n: nat)
    requires s != [] && Decode(s).Value? && Decode(s).used == n && 1 <= n <= at <= |s|
    requires Decode(s[..at]) == Decode(s)
    ensures DecodeAll(s) == Broken(at) <==> DecodeAll(s[n..]) == Broken(at - n)
    ensures DecodeAll(s[..at]).Text? <==> DecodeAll(s[n..][..at - n]).Text?
    ensures s[at..] == s[n..][at - n..]
  {
    assert s[..at][n..] == s[n..][..at - n];
  }

  /** Whole texts compare byte by byte as they do value by value. */
  lemma {:induction false} StreamOrder(vs: seq<code>, ws: seq<code>)
    ensures Less(vs, ws) <==> Less(EncodeAll(vs), EncodeAll(ws))
  {
    if vs == [] || ws == [] {
    } else {
      var a, b := EncodeAll(vs), EncodeAll(ws);
      if vs[0] == ws[0] {
        StreamOrder(vs[1..], ws[1..]);
        CommonPrefix(Encode(vs[0]), EncodeAll(vs[1..]), EncodeAll(ws[1..]));
      } else if vs[0] < ws[0] {
        var j := EncodingsDiverge(vs[0], ws[0]);
        assert a[..j] == Encode(vs[0])[..j] && b[..j] == Encode(ws[0])[..j];
        DivergenceDecides(a, b, j);
      } else {
        var j := EncodingsDiverge(ws[0], vs[0]);
        assert a[..j] == Encode(vs[0])[..j] && b[..j] == Encode(ws[0])[..j];
        DivergenceDecides(b, a, j);
      }
    }
  }

  /** Position p of the encoded text is where the encoding of a character starts (or the end). */
  predicate Boundary(vs: seq<code>, p: nat) {
    p == 0 || (vs != [] && p >= |Encode(vs[0])| && Boundary(vs[1..], p - |Encode(vs[0])|))
  }

  /** A reader dropped anywhere into an encoded text is told by the byte under it whether a character starts there; if
      not, GET_UTF8 rejects at once, and if so, it reads the rest of the text. */
  lemma {:induction false} Resynchronises(vs: seq<code>, p: nat) returns (k: nat)
    requires p < |EncodeAll(vs)|
    ensures Boundary(vs, p) <==> !IsContinuation(EncodeAll(vs)[p])
    ensures !Boundary(vs, p) <==> Decode(EncodeAll(vs)[p..]) == Invalid(1)
    ensures k < |vs|
    ensures Boundary(vs, p) ==> DecodeAll(EncodeAll(vs)[p..]) == Text(vs[k..])
  {
    var s, n := EncodeAll(vs), |Encode(vs[0])|;
    BodyShape(vs[0], n - 1, Mark(n));
    LeadOf(vs[0]);
    if p < n {
      k := 0;
      assert s[p] == Encode(vs[0])[p];
      if p == 0 {
        StreamRoundTrip(vs);
        RoundTrip(vs[0], EncodeAll(vs[1..]));
        assert s[0..] == s && vs[0..] == vs;
      }
    } else {
      k := Resynchronises(vs[1..], p - n);
      assert s[p..] == EncodeAll(vs[1..])[p - n..];
      k := k + 1;
    }
  }
}

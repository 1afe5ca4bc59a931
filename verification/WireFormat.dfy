/** What rtp_format_h264.cc makes of a frame, told without its own formulas: which rows of the table share a payload and
    how a long one is shared out, every bit of the headers it puts in front, and the flags its reader finds in them. */
module WireFormat {
  import opened Bits
  import opened Fragments
  import opened RtpH264
  import SessionInfo
  import Reassembly
  import Transport

  // ----- How a long row is shared out -----

  /** The units are parts of row f, one behind the other, from the byte `from` to its end. */
  predicate Contiguous(us: seq<Unit>, f: Fragment, from: nat)
    decreases |us|
  {
    if us == [] then from == f.length
    else
      && us[0].Part? && us[0].f == f && us[0].from == from && us[0].size > 0
      && Contiguous(us[1..], f, from + us[0].size)
  }

  /** They have the same size, except that the last may have less. */
  predicate Even(us: seq<Unit>, size: nat) {
    forall k :: 0 <= k < |us| ==> us[k].Part? && us[k].size <= size && (k < |us| - 1 ==> us[k].size == size)
  }

  lemma {:induction false} PartsEven(f: Fragment, from: nat, size: nat)
    requires from <= f.length && size > 0
    ensures Contiguous(Parts(f, from, size), f, from) && Even(Parts(f, from, size), size)
    decreases f.length - from
  {
    if from < f.length {
      var next := if f.length - from < size then f.length else from + size;
      PartsEven(f, next, size);
      PartsNext(f, from, size, next);
      assert Parts(f, from, size)[1..] == Parts(f, next, size);
    }
  }

  /** A row too long for a payload is sent in n parts in front of what the rows behind it are sent in: in as few as can
      hold it, and all of the least size of which n can hold it, but for the last, which has what is left. */
  lemma LongRowSent(t: seq<Fragment>, i: nat, most: nat) returns (n: nat, size: nat)
    requires i < |t| && t[i].length > most >= 3
    ensures n <= |Plan(t, i, most)| && Plan(t, i, most)[n..] == Plan(t, i + 1, most)
    ensures Contiguous(Plan(t, i, most)[..n], t[i], 1) && Even(Plan(t, i, most)[..n], size)
    ensures (n - 1) * (most - 2) < t[i].length - 1 <= n * (most - 2)
    ensures n * (size - 1) < t[i].length - 1 <= n * size
  {
    var f := t[i];
    size := PartSize(f.length, most);
    n := |Parts(f, 1, size)|;
    PlanNext(t, i, most);
    PartsEven(f, 1, size);
    FewestParts(f, most);
    SizeIsLeast(f, most);
    assert Plan(t, i, most)[..n] == Parts(f, 1, size);
  }

  lemma SizeIsLeast(f: Fragment, most: nat)
    requires f.length > most >= 3
    ensures var size := PartSize(f.length, most);
            var n := |Parts(f, 1, size)|;
            n * (size - 1) < f.length - 1 <= n * size
  {
    var length := f.length - 1;
    var size, c := PartSize(f.length, most), CeilDiv(length, most - 2);
    var n := |Parts(f, 1, size)|;
    EvenParts(length, most - 2);
    CeilDivIs(length, most - 2);
    FewestParts(f, most);
    Between(n, c, most - 2, length);
    CeilDivIs(length, c);
    Commute(c, size);
  }

  lemma Between(n: nat, c: nat, room: nat, length: nat)
    requires (n - 1) * room < length <= n * room && (c - 1) * room < length <= c * room
    ensures n == c
  {
    Monotone(n, c - 1, room);
    Monotone(c, n - 1, room);
  }

  lemma Commute(c: nat, size: nat)
    ensures c * (size - 1) == (size - 1) * c && c * size == size * c
  {
  }

  /** None of the parts is larger than m. */
  predicate NoneLarger(us: seq<Unit>, m: nat) {
    forall k :: 0 <= k < |us| ==> us[k].Part? && us[k].size <= m
  }

  lemma {:induction false} TotalAtMost(us: seq<Unit>, f: Fragment, from: nat, m: nat)
    requires Contiguous(us, f, from) && NoneLarger(us, m)
    ensures from <= f.length <= from + |us| * m
    decreases |us|
  {
    if us != [] {
      assert NoneLarger(us[1..], m);
      TotalAtMost(us[1..], f, from + us[0].size, m);
      OneMoreTimes(|us| - 1, m);
    }
  }

  lemma OneMoreTimes(k: int, m: int)
    ensures (k + 1) * m == k * m + m
  {
  }

  lemma LeastSize(n: nat, size: nat, m: nat, length: nat)
    requires n * (size - 1) < length <= n * m
    ensures size <= m
  {
    Monotone(m, size - 1, n);
    Commute(n, size);
    Commute(n, m);
  }

  /** No other way to share it out among as many parts has a smaller largest part. */
  lemma LargestIsLeast(us: seq<Unit>, t: seq<Fragment>, i: nat, most: nat, m: nat)
    requires i < |t| && t[i].length > most >= 3 && Contiguous(us, t[i], 1) && NoneLarger(us, m)
    requires |us| == |Plan(t, i, most)| - |Plan(t, i + 1, most)|
    ensures NoneLarger(Plan(t, i, most)[..|us|], m)
  {
    var n, size := LongRowSent(t, i, most);
    assert n == |us|;
    TotalAtMost(us, t[i], 1, m);
    LeastSize(n, size, m, t[i].length - 1);
  }

  // ----- How short rows are grouped -----

  /** A row that fits a payload is sent with as many of those behind it as fit with it. */
  lemma ShortRowSent(t: seq<Fragment>, i: nat, most: nat) returns (e: nat)
    requires i < |t| && t[i].length <= most && most >= 3
    ensures i < e <= |t| && Plan(t, i, most) == [Group(t[i..e])] + Plan(t, e, most)
    ensures GroupSize(t[i..e]) <= most && (e < |t| ==> GroupSize(t[i..e + 1]) > most)
  {
    e := GroupEnd(t, i, most, 0);
    PlanNext(t, i, most);
    GroupFits(t, i, i, most, 0, most);
  }

  lemma GroupSizeIs(fs: seq<Fragment>, data: seq<byte>, most: nat)
    requires Good(Group(fs), data, most)
    ensures |Wire(Group(fs), data, most)| == GroupSize(fs)
  {
    EntriesLength(fs, data);
  }

  // ----- Every bit of the headers -----

  lemma BitOf(b: byte, k: nat)
    requires k < 8
    ensures And(b, Pow2(k)) != 0 <==> b / Pow2(k) % 2 == 1
  {
    AndBit(b, k);
    ShrIs(b, k);
  }

  lemma FlagBits(b: byte)
    ensures And(b, 0x80) != 0 <==> b / 128 % 2 == 1
    ensures And(b, 0x40) != 0 <==> b / 64 % 2 == 1
    ensures And(b, 0x20) != 0 <==> b / 32 % 2 == 1
  {
    Pow2Values();
    BitOf(b, 7);
    BitOf(b, 6);
    BitOf(b, 5);
  }

  lemma FuFlags(header: byte, first: bool, last: bool)
    ensures var b := (if first then 0x80 else 0) + (if last then 0x40 else 0) + header % 32;
            && b < 256 && b % 32 == header % 32
            && (And(b, 0x80) != 0 <==> first) && (And(b, 0x40) != 0 <==> last) && And(b, 0x20) == 0
  {
    var b: byte := (if first then 0x80 else 0) + (if last then 0x40 else 0) + header % 32;
    FlagBits(b);
    FlagsAre(if first then 1 else 0, if last then 1 else 0, header % 32);
  }

  lemma FlagsAre(s: nat, e: nat, kind: nat)
    requires s < 2 && e < 2 && kind < 32
    ensures var b := 128 * s + 64 * e + kind;
            b % 32 == kind && b / 128 % 2 == s && b / 64 % 2 == e && b / 32 % 2 == 0
  {
  }

  lemma IndicatorBits(header: byte, kind: byte)
    requires kind < 32
    ensures var b := header / 32 * 32 + kind;
            b < 256 && And(b, 0x1F) == kind && And(b, 0xE0) == And(header, 0xE0)
  {
    var b: byte := header / 32 * 32 + kind;
    DivIs(b, 32, header / 32, kind);
    TypeBits(b);
    HighBits(b);
    HighBits(header);
  }

  /** A fragment: its first byte has the type 28 and the other three bits of the NAL unit's header, its second the NAL
      unit's type, S on the part that begins the NAL unit, E on the part that ends it, and never R (section 5.8 of
      RFC 6184). */
  lemma FragmentBits(u: Unit, data: seq<byte>, most: nat)
    requires Good(u, data, most) && u.Part?
    ensures var w, header := Wire(u, data, most), data[u.f.offset];
            && |w| == u.size + 2 && w[2..] == data[u.f.offset + u.from..u.f.offset + u.from + u.size]
            && And(w[0], 0x1F) == 28 && And(w[0], 0xE0) == And(header, 0xE0)
            && And(w[1], 0x1F) == And(header, 0x1F)
            && (And(w[1], 0x80) != 0 <==> u.from == 1)
            && (And(w[1], 0x40) != 0 <==> u.from + u.size == u.f.length)
            && And(w[1], 0x20) == 0
  {
    var w, header := Wire(u, data, most), data[u.f.offset];
    IndicatorBits(header, 28);
    FuFlags(header, u.from == 1, u.from + u.size == u.f.length);
    TypeBits(w[1]);
    TypeBits(header);
  }

  /** An aggregate: the type 24 and the other three bits of the first NAL unit's header, then each NAL unit behind its
      size (section 5.7.1); a NAL unit by itself is sent as it is (section 5.6). */
  lemma GroupBits(fs: seq<Fragment>, data: seq<byte>, most: nat)
    requires Good(Group(fs), data, most)
    ensures |fs| == 1 ==> Wire(Group(fs), data, most) == data[fs[0].offset..fs[0].offset + fs[0].length]
    ensures |fs| > 1 ==>
              var w := Wire(Group(fs), data, most);
              && And(w[0], 0x1F) == 24 && And(w[0], 0xE0) == And(data[fs[0].offset], 0xE0)
              && w[1..] == Entries(fs, data)
  {
    assert InData(fs[0], data);
    if |fs| > 1 {
      IndicatorBits(data[fs[0].offset], 24);
      HeadAndTail(Wire(Group(fs), data, most), data[fs[0].offset] / 32 * 32 + 24, Entries(fs, data));
    }
  }

  lemma HeadAndTail(w: seq<byte>, head: int, tail: seq<byte>)
    requires 0 <= head < 256 && w == [head] + tail
    ensures w[0] == head && w[1..] == tail
  {
  }

  // ----- The flags the reader finds -----

  /** The types an IDR slice and the parameter sets have. */
  predicate OfKeyFrame(header: byte) {
    header % 32 == 5 || header % 32 == 7 || header % 32 == 8
  }

  /** Whether a payload is taken for one of a key frame: a fragment for an IDR slice only; an aggregate by its first NAL
      unit, whatever the others are. */
  predicate CountsAsKey(u: Unit, data: seq<byte>) {
    match u
    case Group(fs) => fs != [] && fs[0].offset < |data| && OfKeyFrame(data[fs[0].offset])
    case Part(f, _, _) => f.offset < |data| && data[f.offset] % 32 == 5
  }

  lemma {:induction false} EntriesFront(fs: seq<Fragment>, data: seq<byte>)
    requires AllInData(fs, data) && fs != []
    ensures |Entries(fs, data)| >= 3 && Entries(fs, data)[2] == data[fs[0].offset]
  {
    var front, last := fs[..|fs| - 1], fs[|fs| - 1];
    if front == [] {
      assert Entries(fs, data) == Entries(front, data) + Entry(last, data) == Entry(last, data);
    } else {
      EntriesFront(front, data);
    }
  }

  lemma GroupFlags(fs: seq<Fragment>, data: seq<byte>, most: nat)
    requires Good(Group(fs), data, most)
    requires |fs| == 1 ==> Transport.Plain(fs[0], data)
    ensures var w := Wire(Group(fs), data, most);
            && Long(w)
            && var r := Read(w);
               r.singleNalu && (r.stapA <==> |fs| > 1) && (r.key <==> CountsAsKey(Group(fs), data))
  {
    assert InData(fs[0], data);
    if |fs| > 1 {
      EntriesFront(fs, data);
      Transport.Indicated(data[fs[0].offset], STAP_A);
    }
  }

  lemma PartFlags(u: Unit, data: seq<byte>, most: nat)
    requires Good(u, data, most) && u.Part?
    ensures var w := Wire(u, data, most);
            && Long(w)
            && var r := Read(w);
               !r.singleNalu && !r.stapA && (r.key <==> CountsAsKey(u, data))
  {
    Transport.FuBits(data[u.f.offset], u.from == 1, u.from + u.size == u.f.length);
  }

  /** What Parse says of each payload that is sent. */
  lemma UnitFlags(u: Unit, data: seq<byte>, most: nat)
    requires Good(u, data, most) && (u.Group? && |u.fs| == 1 ==> Transport.Plain(u.fs[0], data))
    ensures var w := Wire(u, data, most);
            && Long(w)
            && var r := Read(w);
               && (r.first <==> u.Group? || u.from == 1) && (r.singleNalu <==> u.Group?)
               && (r.stapA <==> u.Group? && |u.fs| > 1) && (r.key <==> CountsAsKey(u, data))
  {
    if u.Group? {
      GroupFlags(u.fs, data, most);
    } else {
      PartFlags(u, data, most);
    }
    Transport.ReadStarts(u, data, most);
  }

  /** And of any payload whatever that is long enough, in terms of its bits. */
  lemma AnyFlags(p: seq<byte>)
    requires Long(p)
    ensures And(p[0], 0x1F) == p[0] % 32
    ensures var r, kind := Read(p), And(p[0], 0x1F);
            && (kind == 28 ==> FragmentRead(p, r))
            && (kind != 28 ==> r.data == p && r.first && r.singleNalu && (r.stapA <==> kind == 24))
            && (kind != 28 ==> (r.key <==> (if kind == 24 then And(p[3], 0x1F) else kind) in {5, 7, 8}))
  {
    TypeBits(p[0]);
    if p[0] % 32 == FU_A {
      AnyFragment(p);
    } else if p[0] % 32 == STAP_A {
      TypeBits(p[3]);
    }
  }

  /** What is passed on of a fragment: with S, the NAL unit's header, put together from the two bytes, in front. */
  predicate FragmentRead(p: seq<byte>, r: Parsed)
    requires |p| >= 2
  {
    && (r.first <==> And(p[1], 0x80) != 0) && !r.singleNalu && !r.stapA
    && (r.key <==> And(p[1], 0x1F) == 5)
    && (!r.first ==> r.data == p[2..])
    && (r.first ==> |r.data| == |p| - 1 && r.data[1..] == p[2..]
                    && And(r.data[0], 0xE0) == And(p[0], 0xE0) && And(r.data[0], 0x1F) == And(p[1], 0x1F))
  }

  /** What the reader passes on is, but for the indicator and the FU header, the payload as it leaves it in memory. */
  lemma ReadInPlace(p: seq<byte>)
    requires Long(p)
    ensures |Read(p).data| <= |AfterRead(p)| == |p| && Read(p).data == AfterRead(p)[|p| - |Read(p).data|..]
    ensures forall k :: 0 <= k < |p| && k != 1 ==> AfterRead(p)[k] == p[k]
    ensures !(And(p[0], 0x1F) == 28 && Read(p).first) ==> AfterRead(p) == p
  {
    TypeBits(p[0]);
  }

  lemma AnyFragment(p: seq<byte>)
    requires |p| >= 2 && p[0] % 32 == FU_A
    ensures FragmentRead(p, Read(p))
  {
    TypeBits(p[1]);
    FlagBits(p[1]);
    IndicatorBits(p[0], p[1] % 32);
    if Read(p).first {
      HeadAndTail(Read(p).data, p[0] / 32 * 32 + p[1] % 32, p[2..]);
    }
  }

  // ----- The frame type -----

  lemma PacketType(t: seq<Fragment>, data: seq<byte>, most: nat, s: SessionInfo.seqnum, k: nat)
    requires Transport.Sendable(t, data, most) && k < |Plan(t, 0, most)|
    ensures k < |Transport.FramePackets(t, data, most, s)|
    ensures Transport.FramePackets(t, data, most, s)[k].key <==> CountsAsKey(Plan(t, 0, most)[k], data)
  {
    var us := Plan(t, 0, most);
    Transport.SentGives(t, data, most);
    PacketKey(Sent(t, data, most), Transport.Shares(us, data), s, k);
    PlanGood(t, 0, data, most);
    Transport.PlanPlain(t, 0, data, most);
    assert Transport.PlainAt(us, k, data);
    Transport.PayloadAt(us, k, data, most);
    UnitFlags(us[k], data, most);
  }

  lemma PacketKey(ps: seq<Payload>, shares: seq<seq<byte>>, s: SessionInfo.seqnum, k: nat)
    requires Transport.AllGive(ps, shares) && k < |ps|
    ensures Long(ps[k].bytes) && Transport.Packets(ps, shares, s)[k].key == Read(ps[k].bytes).key
  {
    assert Transport.Gives(ps[k].bytes, shares[k]);
  }

  predicate KeyAfter(us: seq<Unit>, data: seq<byte>, order: seq<nat>) {
    order != [] && Reassembly.LastNew(order) < |us| && CountsAsKey(us[Reassembly.LastNew(order)], data)
  }

  /** The type the session gives a frame, whatever has arrived of it and in whatever order: that of the payload that was
      the last to arrive for the first time. */
  lemma TypeExactly(t: seq<Fragment>, data: seq<byte>, most: nat, s: SessionInfo.seqnum, order: seq<nat>)
    requires Transport.Sendable(t, data, most) && |Plan(t, 0, most)| <= SessionInfo.MAX_PACKETS
    requires Reassembly.AllBelow(order, |Transport.FramePackets(t, data, most, s)|)
    ensures order != [] ==> Reassembly.LastNew(order) < |Plan(t, 0, most)|
    ensures Reassembly.Run(Transport.FramePackets(t, data, most, s), order).key <==>
              KeyAfter(Plan(t, 0, most), data, order)
  {
    Transport.FrameIsFrame(t, data, most, s);
    Reassembly.TypeIsLastNew(Transport.FramePackets(t, data, most, s), s, order);
    if order != [] {
      PacketType(t, data, most, s, Reassembly.LastNew(order));
    }
  }

  /** So the type does not depend on the order exactly when all payloads of the frame count alike. */
  lemma TypeReliableExactly(t: seq<Fragment>, data: seq<byte>, most: nat, s: SessionInfo.seqnum, key: bool)
    requires Transport.Sendable(t, data, most) && |Plan(t, 0, most)| <= SessionInfo.MAX_PACKETS
    ensures Reassembly.TypeIs(Transport.FramePackets(t, data, most, s), key) <==>
              forall k :: 0 <= k < |Plan(t, 0, most)| ==> CountsAsKey(Plan(t, 0, most)[k], data) == key
  {
    var ps, us := Transport.FramePackets(t, data, most, s), Plan(t, 0, most);
    Transport.FrameIsFrame(t, data, most, s);
    Reassembly.TypeIsExactly(ps, s, key);
    forall k | 0 <= k < |us|
      ensures ps[k].key == CountsAsKey(us[k], data)
    {
      PacketType(t, data, most, s, k);
    }
  }

  /** The row a unit begins with. */
  predicate BeginsWithRow(u: Unit, t: seq<Fragment>, j: nat) {
    j < |t| && match u
               case Group(fs) => fs != [] && fs[0] == t[j]
               case Part(f, _, _) => f == t[j]
  }

  lemma {:induction false} PlanOfRows(t: seq<Fragment>, i: nat, most: nat, k: nat) returns (j: nat)
    requires i <= |t| && most >= 3 && k < |Plan(t, i, most)|
    ensures BeginsWithRow(Plan(t, i, most)[k], t, j)
    decreases |t| - i
  {
    var (us, next) := UnitsAt(t, i, most);
    PlanNext(t, i, most);
    if k < |us| {
      j := i;
      if t[i].length > most {
        PartsEven(t[i], 1, PartSize(t[i].length, most));
        ContiguousAt(us, t[i], 1, k);
      }
    } else {
      j := PlanOfRows(t, next, most, k - |us|);
    }
  }

  lemma {:induction false} ContiguousAt(us: seq<Unit>, f: Fragment, from: nat, k: nat)
    requires Contiguous(us, f, from) && k < |us|
    ensures us[k].Part? && us[k].f == f
    decreases |us|
  {
    if k > 0 {
      ContiguousAt(us[1..], f, from + us[0].size, k - 1);
    }
  }

  /** A frame of IDR slices only is a key frame for every order, one without any parameter set or IDR slice for none. */
  lemma TypeOfPureFrames(t: seq<Fragment>, data: seq<byte>, most: nat, s: SessionInfo.seqnum)
    requires Transport.Sendable(t, data, most) && |Plan(t, 0, most)| <= SessionInfo.MAX_PACKETS
    ensures (forall j :: 0 <= j < |t| ==> data[t[j].offset] % 32 == 5) ==>
              Reassembly.TypeIs(Transport.FramePackets(t, data, most, s), true)
    ensures (forall j :: 0 <= j < |t| ==> !OfKeyFrame(data[t[j].offset])) ==>
              Reassembly.TypeIs(Transport.FramePackets(t, data, most, s), false)
  {
    TypeReliableExactly(t, data, most, s, true);
    TypeReliableExactly(t, data, most, s, false);
    forall k | 0 <= k < |Plan(t, 0, most)|
      ensures exists j :: 0 <= j < |t| && BeginsWithRow(Plan(t, 0, most)[k], t, j)
    {
      var j := PlanOfRows(t, 0, most, k);
    }
  }
}

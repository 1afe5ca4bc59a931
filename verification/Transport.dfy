/** The way of a frame from the packetizer to the receiver's session: payloads, packets in any order. The session holds
    what went in. */
module Transport {
  import opened Bits
  import opened Sequences
  import opened Fragments
  import RtpH264
  import SessionInfo
  import Reassembly
  import Fewest

  // ----- What a receiver should get -----

  /** Some bytes of a row. */
  function Slice(f: Fragment, from: nat, to: nat, data: seq<byte>): seq<byte> {
    if from <= to && f.offset + to <= |data| then data[f.offset + from..f.offset + to] else []
  }

  /** A NAL unit behind a start code. */
  function Framed(f: Fragment, data: seq<byte>): seq<byte> {
    SessionInfo.START_CODE + Slice(f, 0, f.length, data)
  }

  function FramedAll(fs: seq<Fragment>, data: seq<byte>): (rows: seq<seq<byte>>)
    ensures |rows| == |fs|
  {
    seq(|fs|, k requires 0 <= k < |fs| => Framed(fs[k], data))
  }

  /** The frame as a byte stream: each NAL unit of the table behind a start code. */
  function ByteStream(fs: seq<Fragment>, data: seq<byte>): seq<byte> {
    Flat(FramedAll(fs, data))
  }

  lemma StreamSplit(a: seq<Fragment>, b: seq<Fragment>, data: seq<byte>)
    ensures ByteStream(a + b, data) == ByteStream(a, data) + ByteStream(b, data)
  {
    assert FramedAll(a + b, data) == FramedAll(a, data) + FramedAll(b, data);
    FlatSplit(FramedAll(a, data), FramedAll(b, data));
  }

  lemma StreamOne(f: Fragment, data: seq<byte>)
    ensures ByteStream([f], data) == Framed(f, data)
  {
    assert FramedAll([f], data) == [Framed(f, data)];
    FlatOne(Framed(f, data));
  }

  // ----- The shares of a frame's units -----

  /** What the first part of a NAL unit puts into the frame before its bytes: the start code and the unit's header. */
  function Lead(f: Fragment, from: nat, data: seq<byte>): seq<byte> {
    if from == 1 then SessionInfo.START_CODE + Slice(f, 0, 1, data) else []
  }

  /** What a unit's payload is to put into the frame. */
  function Share(u: RtpH264.Unit, data: seq<byte>): seq<byte> {
    match u
    case Group(fs) => ByteStream(fs, data)
    case Part(f, from, size) => Lead(f, from, data) + Slice(f, from, from + size, data)
  }

  function Shares(us: seq<RtpH264.Unit>, data: seq<byte>): (rows: seq<seq<byte>>)
    ensures |rows| == |us|
  {
    seq(|us|, k requires 0 <= k < |us| => Share(us[k], data))
  }

  lemma SharesSplit(us: seq<RtpH264.Unit>, vs: seq<RtpH264.Unit>, data: seq<byte>)
    ensures Flat(Shares(us + vs, data)) == Flat(Shares(us, data)) + Flat(Shares(vs, data))
  {
    assert Shares(us + vs, data) == Shares(us, data) + Shares(vs, data);
    FlatSplit(Shares(us, data), Shares(vs, data));
  }

  lemma SharesOne(u: RtpH264.Unit, data: seq<byte>)
    ensures Flat(Shares([u], data)) == Share(u, data)
  {
    assert Shares([u], data) == [Share(u, data)];
    FlatOne(Share(u, data));
  }

  lemma SharesNext(u: RtpH264.Unit, rest: seq<RtpH264.Unit>, data: seq<byte>)
    ensures Flat(Shares([u] + rest, data)) == Share(u, data) + Flat(Shares(rest, data))
  {
    SharesSplit([u], rest, data);
    SharesOne(u, data);
  }

  lemma Chain(total: seq<byte>, lead: seq<byte>, a: seq<byte>, rest: seq<byte>, none: seq<byte>, b: seq<byte>)
    requires total == (lead + a) + rest && rest == none + b && none == []
    ensures total == lead + (a + b)
  {
  }

  function PartsShare(f: Fragment, from: nat, size: nat, data: seq<byte>): seq<byte>
    requires from <= f.length && size > 0
  {
    Flat(Shares(RtpH264.Parts(f, from, size), data))
  }

  lemma PartsNext(f: Fragment, from: nat, size: nat, next: nat, data: seq<byte>)
    requires from < f.length && size > 0 && next == if f.length - from < size then f.length else from + size
    ensures PartsShare(f, from, size, data) == Lead(f, from, data) + Slice(f, from, next, data)
                                             + PartsShare(f, next, size, data)
  {
    RtpH264.PartsNext(f, from, size, next);
    SharesNext(RtpH264.Part(f, from, next - from), RtpH264.Parts(f, next, size), data);
  }

  lemma NoParts(f: Fragment, size: nat, data: seq<byte>)
    requires f.length > 1 && size > 0
    ensures PartsShare(f, f.length, size, data) == Lead(f, f.length, data) + Slice(f, f.length, f.length, data)
  {
    assert Slice(f, f.length, f.length, data) == [];
  }

  /** The parts of a NAL unit from the byte `from` on put those bytes into the frame. */
  lemma {:induction false} PartsTotal(f: Fragment, from: nat, size: nat, data: seq<byte>)
    requires f.offset + f.length <= |data| && 1 <= from <= f.length && size > 0 && f.length > 1
    ensures PartsShare(f, from, size, data) == Lead(f, from, data) + Slice(f, from, f.length, data)
    decreases f.length - from
  {
    if from == f.length {
      NoParts(f, size, data);
    } else {
      var next := if f.length - from < size then f.length else from + size;
      PartsNext(f, from, size, next, data);
      PartsTotal(f, next, size, data);
      Adjacent(f, from, next, f.length, data);
      Chain(PartsShare(f, from, size, data), Lead(f, from, data), Slice(f, from, next, data),
            PartsShare(f, next, size, data), Lead(f, next, data), Slice(f, next, f.length, data));
    }
  }

  lemma Adjacent(f: Fragment, a: nat, b: nat, c: nat, data: seq<byte>)
    requires a <= b <= c && f.offset + c <= |data|
    ensures Slice(f, a, c, data) == Slice(f, a, b, data) + Slice(f, b, c, data)
  {
  }

  /** All parts together are the NAL unit behind a start code. */
  lemma LongTotal(f: Fragment, data: seq<byte>, most: nat)
    requires f.offset + f.length <= |data| && f.length > most >= 3
    ensures PartsShare(f, 1, RtpH264.PartSize(f.length, most), data) == Framed(f, data)
  {
    PartsTotal(f, 1, RtpH264.PartSize(f.length, most), data);
    Adjacent(f, 0, 1, f.length, data);
    Chain(Framed(f, data), SessionInfo.START_CODE, Slice(f, 0, 1, data),
          Slice(f, 1, f.length, data), [], Slice(f, 1, f.length, data));
  }

  /** And all units of a frame together are its byte stream. */
  lemma {:induction false} PlanTotal(t: seq<Fragment>, i: nat, data: seq<byte>, most: nat)
    requires i <= |t| && most >= 3 && RtpH264.AllInData(t, data)
    ensures Flat(Shares(RtpH264.Plan(t, i, most), data)) == ByteStream(t[i..], data)
    decreases |t| - i
  {
    if i < |t| {
      var (us, next) := RtpH264.UnitsAt(t, i, most);
      RtpH264.PlanNext(t, i, most);
      PlanTotal(t, next, data, most);
      UnitsTotal(t, i, data, most);
      SharesSplit(us, RtpH264.Plan(t, next, most), data);
      TwoPieces(t, i, next);
      StreamSplit(t[i..next], t[next..], data);
    }
  }

  lemma UnitsTotal(t: seq<Fragment>, i: nat, data: seq<byte>, most: nat)
    requires i < |t| && most >= 3 && RtpH264.AllInData(t, data)
    ensures var (us, next) := RtpH264.UnitsAt(t, i, most);
            i < next <= |t| && Flat(Shares(us, data)) == ByteStream(t[i..next], data)
  {
    RtpH264.PlanNext(t, i, most);
    if t[i].length > most {
      LongTotal(t[i], data, most);
      StreamOne(t[i], data);
      OneRow(t, i);
    } else {
      SharesOne(RtpH264.Group(t[i..RtpH264.GroupEnd(t, i, most, 0)]), data);
    }
  }

  lemma OneRow(t: seq<Fragment>, i: nat)
    requires i < |t|
    ensures t[i..i + 1] == [t[i]]
  {
  }

  // ----- From payload to packet -----

  /** The VCMPacket a payload becomes, as RtpDepacketizerH264 and VCMPacket::CopyCodecSpecifics make it. */
  function Received(p: RtpH264.Payload, number: SessionInfo.seqnum): SessionInfo.VCMPacket
    requires RtpH264.Long(p.bytes)
  {
    var r := RtpH264.Read(p.bytes);
    SessionInfo.VCMPacket(number, r.data, r.first, r.stapA, p.marker, r.key)
  }

  /** Whatever its number and marker, the packet a payload becomes puts this share into the frame. */
  predicate Gives(bytes: seq<byte>, share: seq<byte>) {
    RtpH264.Long(bytes) && forall marker, number :: PacketGives(RtpH264.Payload(bytes, marker), number, share)
  }

  predicate PacketGives(p: RtpH264.Payload, number: SessionInfo.seqnum, share: seq<byte>)
    requires RtpH264.Long(p.bytes)
  {
    SessionInfo.Readable(Received(p, number)) && SessionInfo.Content(Received(p, number)) == share
  }

  lemma {:induction false} EntriesAppend(a: seq<byte>, b: seq<byte>, prefix: seq<byte>)
    requires SessionInfo.Entries(a) && SessionInfo.Entries(b)
    ensures SessionInfo.Entries(a + b)
    ensures SessionInfo.Unpacked(a + b, prefix) == SessionInfo.Unpacked(a, prefix) + SessionInfo.Unpacked(b, prefix)
    decreases |a|
  {
    if a == [] {
      EntriesNone(a, b, prefix);
    } else {
      var rest := a[2 + SessionInfo.Word16At(a)..];
      EntriesAppend(rest, b, prefix);
      EntriesAppended(a, b, SessionInfo.Word16At(a), rest, prefix);
    }
  }

  lemma EntriesNone(a: seq<byte>, b: seq<byte>, prefix: seq<byte>)
    requires a == [] && SessionInfo.Entries(b)
    ensures SessionInfo.Entries(a + b)
    ensures SessionInfo.Unpacked(a + b, prefix) == SessionInfo.Unpacked(a, prefix) + SessionInfo.Unpacked(b, prefix)
  {
    assert a + b == b;
  }

  lemma EntriesAppended(a: seq<byte>, b: seq<byte>, n: nat, rest: seq<byte>, prefix: seq<byte>)
    requires 2 <= 2 + n <= |a| && n == SessionInfo.Word16At(a) && rest == a[2 + n..]
    requires SessionInfo.Entries(rest) && SessionInfo.Entries(b) && SessionInfo.Entries(rest + b)
    requires SessionInfo.Unpacked(rest + b, prefix)
          == SessionInfo.Unpacked(rest, prefix) + SessionInfo.Unpacked(b, prefix)
    ensures SessionInfo.Entries(a) && SessionInfo.Entries(a + b)
    ensures SessionInfo.Unpacked(a + b, prefix) == SessionInfo.Unpacked(a, prefix) + SessionInfo.Unpacked(b, prefix)
  {
    var nal := a[2..2 + n];
    FrontOf(a, b, n);
    SessionInfo.UnpackedNext(a, n, nal, rest, prefix);
    SessionInfo.UnpackedNext(a + b, n, nal, rest + b, prefix);
    Regroup(prefix + nal, SessionInfo.Unpacked(rest, prefix), SessionInfo.Unpacked(b, prefix));
  }

  lemma FrontOf(a: seq<byte>, b: seq<byte>, n: nat)
    requires 2 + n <= |a|
    ensures SessionInfo.Word16At(a + b) == SessionInfo.Word16At(a)
    ensures (a + b)[2..2 + n] == a[2..2 + n] && (a + b)[2 + n..] == a[2 + n..] + b
  {
  }

  lemma EntryUnpacked(f: Fragment, data: seq<byte>)
    requires RtpH264.InData(f, data) && f.length < 0x1_0000
    ensures SessionInfo.Entries(RtpH264.Entry(f, data))
    ensures SessionInfo.Unpacked(RtpH264.Entry(f, data), SessionInfo.START_CODE) == Framed(f, data)
  {
    var s := RtpH264.Entry(f, data);
    assert SessionInfo.Word16At(s) == f.length;
    assert s[2 + f.length..] == [];
    assert s[2..2 + f.length] == Cut(data, f);
  }

  /** An aggregation packet unpacks into its NAL units. */
  lemma {:induction false} EntriesUnpacked(fs: seq<Fragment>, data: seq<byte>)
    requires RtpH264.AllInData(fs, data) && forall k :: 0 <= k < |fs| ==> fs[k].length < 0x1_0000
    ensures SessionInfo.Entries(RtpH264.Entries(fs, data))
    ensures SessionInfo.Unpacked(RtpH264.Entries(fs, data), SessionInfo.START_CODE) == ByteStream(fs, data)
  {
    if fs != [] {
      var front, f := fs[..|fs| - 1], fs[|fs| - 1];
      EntriesUnpacked(front, data);
      EntryUnpacked(f, data);
      EntriesAppend(RtpH264.Entries(front, data), RtpH264.Entry(f, data), SessionInfo.START_CODE);
      assert fs == front + [f];
      StreamSplit(front, [f], data);
      StreamOne(f, data);
    }
  }

  lemma {:induction false} EntriesSmall(fs: seq<Fragment>, most: nat)
    requires RtpH264.EntriesSize(fs) <= most
    ensures forall k :: 0 <= k < |fs| ==> fs[k].length < most
  {
    if fs != [] {
      EntriesSmall(fs[..|fs| - 1], most);
    }
  }

  lemma GroupReadable(fs: seq<Fragment>, data: seq<byte>, most: nat)
    requires RtpH264.AllInData(fs, data) && |fs| > 1 && 1 + RtpH264.EntriesSize(fs) <= most < 0x1_0000
    ensures |RtpH264.Entries(fs, data)| >= 3 && SessionInfo.Entries(RtpH264.Entries(fs, data))
    ensures SessionInfo.Unpacked(RtpH264.Entries(fs, data), SessionInfo.START_CODE) == ByteStream(fs, data)
  {
    EntriesSmall(fs, most);
    EntriesUnpacked(fs, data);
    RtpH264.EntriesLength(fs, data);
  }

  /** An indicator byte shows its type. */
  lemma Indicated(header: byte, kind: byte)
    requires kind < 32
    ensures header / 32 * 32 + kind < 256 && (header / 32 * 32 + kind) % 32 == kind
  {
  }

  lemma AggregateRead(header: byte, entries: seq<byte>, share: seq<byte>)
    requires header % 32 == RtpH264.STAP_A && |entries| >= 3 && SessionInfo.Entries(entries)
    requires SessionInfo.Unpacked(entries, SessionInfo.START_CODE) == share
    ensures Gives([header] + entries, share)
  {
    assert ([header] + entries)[1..] == entries;
  }

  /** The NAL unit is not of one of the two types that tell the receiver of an aggregation or a fragment. */
  predicate Plain(f: Fragment, data: seq<byte>)
    requires RtpH264.InData(f, data)
  {
    data[f.offset] % 32 != RtpH264.STAP_A && data[f.offset] % 32 != RtpH264.FU_A
  }

  lemma SingleRead(bytes: seq<byte>)
    requires bytes != [] && bytes[0] % 32 != RtpH264.STAP_A && bytes[0] % 32 != RtpH264.FU_A
    ensures Gives(bytes, SessionInfo.START_CODE + bytes)
  {
  }

  lemma FuBits(header: byte, first: bool, last: bool)
    ensures var payload := RtpH264.FuPayload(header, first, last, []);
            && payload[0] % 32 == RtpH264.FU_A && payload[0] / 32 * 32 + payload[1] % 32 == header
            && (payload[1] >= 0x80 <==> first)
  {
  }

  /** Reading an FU-A gives the first part its header back. */
  lemma ReadPart(header: byte, first: bool, last: bool, bytes: seq<byte>)
    ensures var payload := RtpH264.FuPayload(header, first, last, bytes);
            && RtpH264.Long(payload)
            && var r := RtpH264.Read(payload);
               r.data == (if first then [header] else []) + bytes && r.first == first && !r.stapA
  {
    var payload := RtpH264.FuPayload(header, first, last, bytes);
    FuBits(header, first, last);
    assert payload[0] == RtpH264.FuPayload(header, first, last, [])[0];
    assert payload[1] == RtpH264.FuPayload(header, first, last, [])[1];
    assert payload[2..] == bytes;
  }

  lemma PartRead(header: byte, first: bool, last: bool, bytes: seq<byte>)
    ensures Gives(RtpH264.FuPayload(header, first, last, bytes),
                  (if first then SessionInfo.START_CODE + [header] else []) + bytes)
  {
    ReadPart(header, first, last, bytes);
    assert SessionInfo.START_CODE + ([header] + bytes) == SessionInfo.START_CODE + [header] + bytes;
  }

  lemma GroupSurvives(fs: seq<Fragment>, data: seq<byte>, most: nat)
    requires RtpH264.Good(RtpH264.Group(fs), data, most) && |fs| > 1 && most < 0x1_0000
    ensures Gives(RtpH264.Wire(RtpH264.Group(fs), data, most), ByteStream(fs, data))
  {
    GroupReadable(fs, data, most);
    var header := GroupWire(fs, data, most);
    AggregateRead(header, RtpH264.Entries(fs, data), ByteStream(fs, data));
  }

  lemma GroupWire(fs: seq<Fragment>, data: seq<byte>, most: nat) returns (header: byte)
    requires RtpH264.Good(RtpH264.Group(fs), data, most) && |fs| > 1
    ensures header % 32 == RtpH264.STAP_A
    ensures RtpH264.Wire(RtpH264.Group(fs), data, most) == [header] + RtpH264.Entries(fs, data)
  {
    assert RtpH264.InData(fs[0], data);
    Indicated(data[fs[0].offset], RtpH264.STAP_A);
    header := data[fs[0].offset] / 32 * 32 + RtpH264.STAP_A;
  }

  lemma SingleSurvives(f: Fragment, data: seq<byte>, most: nat)
    requires RtpH264.Good(RtpH264.Group([f]), data, most) && Plain(f, data)
    ensures Gives(RtpH264.Wire(RtpH264.Group([f]), data, most), ByteStream([f], data))
  {
    StreamOne(f, data);
    SingleRead(Cut(data, f));
  }

  lemma PartWire(f: Fragment, from: nat, size: nat, data: seq<byte>, most: nat)
    requires RtpH264.Good(RtpH264.Part(f, from, size), data, most)
    ensures RtpH264.Wire(RtpH264.Part(f, from, size), data, most)
         == RtpH264.FuPayload(data[f.offset], from == 1, from + size == f.length, Slice(f, from, from + size, data))
  {
    SliceIs(f, from, size, data);
  }

  lemma SliceIs(f: Fragment, from: nat, size: nat, data: seq<byte>)
    requires f.offset + from + size <= |data|
    ensures Slice(f, from, from + size, data) == data[f.offset + from..f.offset + from + size]
  {
  }

  lemma GivesSame(w: seq<byte>, share: seq<byte>, w': seq<byte>, share': seq<byte>)
    requires w == w' && share == share' && Gives(w, share)
    ensures Gives(w', share')
  {
  }

  lemma PartSurvives(f: Fragment, from: nat, size: nat, data: seq<byte>, most: nat)
    requires RtpH264.Good(RtpH264.Part(f, from, size), data, most)
    ensures Gives(RtpH264.Wire(RtpH264.Part(f, from, size), data, most), Share(RtpH264.Part(f, from, size), data))
  {
    var first, last := from == 1, from + size == f.length;
    var header, bytes := data[f.offset], Slice(f, from, from + size, data);
    PartWire(f, from, size, data, most);
    LeadIs(f, from, data);
    PartRead(header, first, last, bytes);
    GivesSame(RtpH264.FuPayload(header, first, last, bytes),
              (if first then SessionInfo.START_CODE + [header] else []) + bytes,
              RtpH264.Wire(RtpH264.Part(f, from, size), data, most), Share(RtpH264.Part(f, from, size), data));
  }

  lemma LeadIs(f: Fragment, from: nat, data: seq<byte>)
    requires f.offset < |data|
    ensures Lead(f, from, data) == if from == 1 then SessionInfo.START_CODE + [data[f.offset]] else []
  {
    assert Slice(f, 0, 1, data) == [data[f.offset]];
  }

  /** A payload is read as what it was written for. */
  lemma UnitSurvives(u: RtpH264.Unit, data: seq<byte>, most: nat)
    requires RtpH264.Good(u, data, most) && most < 0x1_0000
    requires u.Group? && |u.fs| == 1 ==> Plain(u.fs[0], data)
    ensures Gives(RtpH264.Wire(u, data, most), Share(u, data))
  {
    match u
    case Group(fs) =>
      if |fs| == 1 {
        assert fs == [fs[0]];
        SingleSurvives(fs[0], data, most);
      } else {
        GroupSurvives(fs, data, most);
      }
    case Part(f, from, size) => PartSurvives(f, from, size, data, most);
  }

  // ----- A whole frame -----

  /** The table and the bytes a packetizer may be given; no NAL unit has a type of its payload formats. */
  predicate Sendable(t: seq<Fragment>, data: seq<byte>, most: nat) {
    && t != [] && 3 <= most < 0x1_0000 && RtpH264.AllInData(t, data)
    && forall k :: 0 <= k < |t| ==> Plain(t[k], data)
  }

  predicate SurvivesAt(us: seq<RtpH264.Unit>, k: nat, data: seq<byte>, most: nat)
    requires k < |us|
  {
    RtpH264.Good(us[k], data, most) && Gives(RtpH264.Wire(us[k], data, most), Share(us[k], data))
  }

  predicate AllSurvive(us: seq<RtpH264.Unit>, data: seq<byte>, most: nat) {
    forall k :: 0 <= k < |us| ==> SurvivesAt(us, k, data, most)
  }

  lemma UnitsSurvive(t: seq<Fragment>, i: nat, data: seq<byte>, most: nat)
    requires Sendable(t, data, most) && i < |t|
    ensures AllSurvive(RtpH264.UnitsAt(t, i, most).0, data, most)
  {
    var (us, next) := RtpH264.UnitsAt(t, i, most);
    GoodUnits(t, i, data, most);
    forall k | 0 <= k < |us|
      ensures SurvivesAt(us, k, data, most)
    {
      assert us[k].Group? ==> us[k].fs == t[i..next] && (|us[k].fs| == 1 ==> us[k].fs[0] == t[i]);
      UnitSurvives(us[k], data, most);
    }
  }

  lemma GoodUnits(t: seq<Fragment>, i: nat, data: seq<byte>, most: nat)
    requires i < |t| && most >= 3 && RtpH264.AllInData(t, data)
    ensures var (us, next) := RtpH264.UnitsAt(t, i, most);
            && RtpH264.AllGood(us, data, most) && us != []
            && forall k :: 0 <= k < |us| ==> (us[k].Part? <==> t[i].length > most)
  {
    if t[i].length > most {
      RtpH264.PartsGood(t[i], 1, RtpH264.PartSize(t[i].length, most), data, most);
      OnlyParts(t[i], 1, RtpH264.PartSize(t[i].length, most));
    } else {
      RtpH264.GroupFits(t, i, i, most, 0, most);
    }
  }

  lemma {:induction false} OnlyParts(f: Fragment, from: nat, size: nat)
    requires 1 <= from <= f.length && size > 0
    ensures var us := RtpH264.Parts(f, from, size);
            && (from < f.length ==> us != [])
            && forall k :: 0 <= k < |us| ==> us[k].Part? && us[k].from >= from && (k > 0 ==> us[k].from > from)
    decreases f.length - from
  {
    if from < f.length {
      OnlyParts(f, if f.length - from < size then f.length else from + size, size);
    }
  }

  lemma {:induction false} PlanSurvives(t: seq<Fragment>, i: nat, data: seq<byte>, most: nat)
    requires Sendable(t, data, most) && i <= |t|
    ensures AllSurvive(RtpH264.Plan(t, i, most), data, most)
    decreases |t| - i
  {
    if i < |t| {
      var (us, next) := RtpH264.UnitsAt(t, i, most);
      RtpH264.PlanNext(t, i, most);
      UnitsSurvive(t, i, data, most);
      PlanSurvives(t, next, data, most);
      SurviveBoth(us, RtpH264.Plan(t, next, most), data, most);
    }
  }

  lemma SurviveBoth(us: seq<RtpH264.Unit>, vs: seq<RtpH264.Unit>, data: seq<byte>, most: nat)
    requires AllSurvive(us, data, most) && AllSurvive(vs, data, most)
    ensures AllSurvive(us + vs, data, most)
  {
    forall k | 0 <= k < |us + vs|
      ensures SurvivesAt(us + vs, k, data, most)
    {
      assert if k < |us| then SurvivesAt(us, k, data, most) else SurvivesAt(vs, k - |us|, data, most);
    }
  }

  function Packet(p: RtpH264.Payload, number: SessionInfo.seqnum, share: seq<byte>): (r: SessionInfo.packet)
    requires Gives(p.bytes, share)
    ensures r == Received(p, number) && SessionInfo.Content(r) == share
  {
    assert p == RtpH264.Payload(p.bytes, p.marker);
    assert PacketGives(p, number, share);
    Received(p, number)
  }

  predicate AllGive(ps: seq<RtpH264.Payload>, shares: seq<seq<byte>>) {
    |ps| == |shares| && forall k :: 0 <= k < |ps| ==> Gives(ps[k].bytes, shares[k])
  }

  /** The packets for the payloads of a frame, numbered on from s. */
  function Packets(ps: seq<RtpH264.Payload>, shares: seq<seq<byte>>, s: SessionInfo.seqnum)
    : (rs: seq<SessionInfo.packet>)
    requires AllGive(ps, shares)
    ensures |rs| == |ps|
  {
    seq(|ps|, k requires 0 <= k < |ps| && Gives(ps[k].bytes, shares[k]) => Packet(ps[k], (s + k) % 0x1_0000, shares[k]))
  }

  lemma SentGives(t: seq<Fragment>, data: seq<byte>, most: nat)
    requires Sendable(t, data, most)
    ensures AllGive(RtpH264.Sent(t, data, most), Shares(RtpH264.Plan(t, 0, most), data))
  {
    RtpH264.PlanGood(t, 0, data, most);
    PlanSurvives(t, 0, data, most);
    PayloadsGive(RtpH264.Plan(t, 0, most), data, most);
  }

  lemma PayloadsGive(us: seq<RtpH264.Unit>, data: seq<byte>, most: nat)
    requires RtpH264.AllGood(us, data, most) && AllSurvive(us, data, most)
    ensures AllGive(RtpH264.Payloads(us, data, most), Shares(us, data))
  {
    var ps, shares := RtpH264.Payloads(us, data, most), Shares(us, data);
    forall k | 0 <= k < |us|
      ensures Gives(ps[k].bytes, shares[k])
    {
      PayloadAt(us, k, data, most);
      assert SurvivesAt(us, k, data, most);
    }
  }

  lemma PayloadAt(us: seq<RtpH264.Unit>, k: nat, data: seq<byte>, most: nat)
    requires RtpH264.AllGood(us, data, most) && k < |us|
    ensures RtpH264.Payloads(us, data, most)[k] == RtpH264.Payload(RtpH264.Wire(us[k], data, most), k == |us| - 1)
    ensures Shares(us, data)[k] == Share(us[k], data)
  {
  }

  /** The packets in which a frame is sent. */
  function FramePackets(t: seq<Fragment>, data: seq<byte>, most: nat, s: SessionInfo.seqnum): seq<SessionInfo.packet>
    requires Sendable(t, data, most)
  {
    SentGives(t, data, most);
    Packets(RtpH264.Sent(t, data, most), Shares(RtpH264.Plan(t, 0, most), data), s)
  }

  lemma PacketsAre(ps: seq<RtpH264.Payload>, shares: seq<seq<byte>>, s: SessionInfo.seqnum)
    requires AllGive(ps, shares)
    ensures SessionInfo.Contents(Packets(ps, shares, s)) == shares
    ensures forall k :: 0 <= k < |ps| ==>
              Packets(ps, shares, s)[k].seqNum == (s + k) % 0x1_0000 && Packets(ps, shares, s)[k].marker == ps[k].marker
  {
  }

  lemma ShareNotEmpty(u: RtpH264.Unit, data: seq<byte>, most: nat)
    requires RtpH264.Good(u, data, most)
    ensures Share(u, data) != []
  {
    if u.Group? {
      assert u.fs == [u.fs[0]] + u.fs[1..];
      StreamSplit([u.fs[0]], u.fs[1..], data);
      StreamOne(u.fs[0], data);
    }
  }

  lemma FrameIsFrame(t: seq<Fragment>, data: seq<byte>, most: nat, s: SessionInfo.seqnum)
    requires Sendable(t, data, most) && |RtpH264.Plan(t, 0, most)| <= SessionInfo.MAX_PACKETS
    ensures var ps := FramePackets(t, data, most, s);
            && Reassembly.IsFrame(ps, s) && |ps| == |RtpH264.Plan(t, 0, most)|
            && SessionInfo.Frame(ps) == ByteStream(t, data)
  {
    var us := RtpH264.Plan(t, 0, most);
    var sent, shares, ps := RtpH264.Sent(t, data, most), Shares(us, data), FramePackets(t, data, most, s);
    RtpH264.PlanGood(t, 0, data, most);
    RtpH264.PlanNotEmpty(t, most);
    SentGives(t, data, most);
    PacketsAre(sent, shares, s);
    forall k | 0 <= k < |us|
      ensures SessionInfo.Content(ps[k]) != [] && (ps[k].marker <==> k == |ps| - 1)
    {
      PayloadAt(us, k, data, most);
      ShareNotEmpty(us[k], data, most);
      assert SessionInfo.Contents(ps)[k] == shares[k];
    }
    PlanTotal(t, 0, data, most);
    assert t[0..] == t;
  }

  // ----- Which packets start a NAL unit -----

  predicate Starts(u: RtpH264.Unit) {
    u.Group? || u.from == 1
  }

  lemma ReadStarts(u: RtpH264.Unit, data: seq<byte>, most: nat)
    requires RtpH264.Good(u, data, most) && RtpH264.Long(RtpH264.Wire(u, data, most))
    requires u.Group? && |u.fs| == 1 ==> Plain(u.fs[0], data)
    ensures RtpH264.Read(RtpH264.Wire(u, data, most)).first <==> Starts(u)
  {
    match u
    case Group(fs) => Indicated(data[fs[0].offset], RtpH264.STAP_A);
    case Part(f, from, size) =>
      ReadPart(data[f.offset], from == 1, from + size == f.length, Slice(f, from, from + size, data));
  }

  lemma PacketFirst(ps: seq<RtpH264.Payload>, shares: seq<seq<byte>>, s: SessionInfo.seqnum, k: nat)
    requires AllGive(ps, shares) && k < |ps|
    ensures RtpH264.Long(ps[k].bytes) && Packets(ps, shares, s)[k].first == RtpH264.Read(ps[k].bytes).first
  {
    assert Gives(ps[k].bytes, shares[k]);
  }

  lemma PayloadStarts(us: seq<RtpH264.Unit>, k: nat, data: seq<byte>, most: nat)
    requires RtpH264.AllGood(us, data, most) && AllPlain(us, data) && k < |us|
    requires RtpH264.Long(RtpH264.Payloads(us, data, most)[k].bytes)
    ensures RtpH264.Read(RtpH264.Payloads(us, data, most)[k].bytes).first <==> Starts(us[k])
  {
    PayloadAt(us, k, data, most);
    assert PlainAt(us, k, data);
    ReadStarts(us[k], data, most);
  }

  lemma PacketStarts(t: seq<Fragment>, data: seq<byte>, most: nat, s: SessionInfo.seqnum, k: nat)
    requires Sendable(t, data, most) && k < |RtpH264.Plan(t, 0, most)|
    ensures k < |FramePackets(t, data, most, s)|
    ensures FramePackets(t, data, most, s)[k].first <==> Starts(RtpH264.Plan(t, 0, most)[k])
  {
    SentGives(t, data, most);
    PacketFirst(RtpH264.Sent(t, data, most), Shares(RtpH264.Plan(t, 0, most), data), s, k);
    RtpH264.PlanGood(t, 0, data, most);
    PlanPlain(t, 0, data, most);
    PayloadStarts(RtpH264.Plan(t, 0, most), k, data, most);
  }

  predicate AllPlain(us: seq<RtpH264.Unit>, data: seq<byte>) {
    forall k :: 0 <= k < |us| ==> PlainAt(us, k, data)
  }

  predicate PlainAt(us: seq<RtpH264.Unit>, k: nat, data: seq<byte>)
    requires k < |us|
  {
    us[k].Group? && |us[k].fs| == 1 ==> RtpH264.InData(us[k].fs[0], data) && Plain(us[k].fs[0], data)
  }

  lemma {:induction false} PlanPlain(t: seq<Fragment>, i: nat, data: seq<byte>, most: nat)
    requires Sendable(t, data, most) && i <= |t|
    ensures AllPlain(RtpH264.Plan(t, i, most), data)
    decreases |t| - i
  {
    if i < |t| {
      var (us, next) := RtpH264.UnitsAt(t, i, most);
      var vs := RtpH264.Plan(t, next, most);
      RtpH264.PlanNext(t, i, most);
      GoodUnits(t, i, data, most);
      PlanPlain(t, next, data, most);
      forall k | 0 <= k < |us + vs|
        ensures PlainAt(us + vs, k, data)
      {
        assert if k < |us| then PlainAt(us, k, data) else PlainAt(vs, k - |us|, data);
      }
    }
  }

  // ----- The theorems -----

  lemma FirstStarts(t: seq<Fragment>, i: nat, most: nat)
    requires i < |t| && most >= 3
    ensures RtpH264.Plan(t, i, most) != [] && Starts(RtpH264.Plan(t, i, most)[0])
  {
    if t[i].length > most {
      OnlyParts(t[i], 1, RtpH264.PartSize(t[i].length, most));
    }
  }

  /** A frame cut into payloads, sent as packets, and put together by the receiver from packets that arrive in any order
      and any number of times, is at the end the frame's byte stream, and counts as complete. */
  lemma FrameArrives(t: seq<Fragment>, data: seq<byte>, most: nat, s: SessionInfo.seqnum, order: seq<nat>)
    requires Sendable(t, data, most) && |RtpH264.Plan(t, 0, most)| <= SessionInfo.MAX_PACKETS
    requires var ps := FramePackets(t, data, most, s);
             Reassembly.AllBelow(order, |ps|) && Reassembly.Whole(ps, order)
    ensures var v := Reassembly.Run(FramePackets(t, data, most, s), order);
            SessionInfo.Frame(v.list) == ByteStream(t, data) && v.complete
  {
    var ps := FramePackets(t, data, most, s);
    FrameIsFrame(t, data, most, s);
    FirstStarts(t, 0, most);
    PacketStarts(t, data, most, s, 0);
    Reassembly.WholeFrame(ps, s, order);
    Reassembly.WholeIsComplete(ps, s, order);
  }

  /** When the receiver takes a frame for complete it has all of it, whatever was lost, exactly for a frame of one NAL
      unit, or of NAL units that fit into one payload together. */
  lemma CompleteReliableExactly(t: seq<Fragment>, data: seq<byte>, most: nat, s: SessionInfo.seqnum)
    requires Sendable(t, data, most) && |RtpH264.Plan(t, 0, most)| <= SessionInfo.MAX_PACKETS
    ensures Reassembly.CompleteMeansWhole(FramePackets(t, data, most, s)) <==>
              |t| == 1 || RtpH264.GroupSize(t) <= most
  {
    var ps, us := FramePackets(t, data, most, s), RtpH264.Plan(t, 0, most);
    FrameIsFrame(t, data, most, s);
    Reassembly.CompleteMeansWholeExactly(ps, s);
    forall k | 0 < k < |us|
      ensures ps[k].first <==> Starts(us[k])
    {
      PacketStarts(t, data, most, s, k);
    }
    OneStartExactly(t, data, most);
    Fewest.OneGroupExactly(t, most);
  }

  lemma OneStartExactly(t: seq<Fragment>, data: seq<byte>, most: nat)
    requires t != [] && most >= 3
    ensures (forall k :: 0 < k < |RtpH264.Plan(t, 0, most)| ==> !Starts(RtpH264.Plan(t, 0, most)[k])) <==>
              |t| == 1 || |RtpH264.Plan(t, 0, most)| == 1
  {
    var (us, next) := RtpH264.UnitsAt(t, 0, most);
    RtpH264.PlanNext(t, 0, most);
    if t[0].length > most {
      OnlyParts(t[0], 1, RtpH264.PartSize(t[0].length, most));
    }
    if next < |t| {
      FirstStarts(t, next, most);
      assert (us + RtpH264.Plan(t, next, most))[|us|] == RtpH264.Plan(t, next, most)[0];
    } else {
      assert RtpH264.Plan(t, next, most) == [];
      assert us + [] == us;
    }
  }
}

/** An encoded frame on its way through RTP: RtpPacketizerH264 cuts and groups its NAL units into payloads, and
    RtpDepacketizerH264 reads one payload (webrtc/modules/rtp_rtcp/source/rtp_format_h264.cc; RFC 6184). */
module RtpH264 {
  import opened Bits
  import opened Fragments
  import opened Sequences

  const STAP_A: byte := 24
  const FU_A: byte := 28

  /** An entry of the packetizer's queue. */
  datatype Packet = Packet(offset: nat, size: nat, first: bool, last: bool, aggregated: bool, header: byte)

  /** What one payload is to carry: the NAL units of some rows, or the bytes from `from` on of a single one. */
  datatype Unit = Group(fs: seq<Fragment>) | Part(f: Fragment, from: nat, size: nat)

  /** A payload as it is sent; the last of a frame is marked. */
  datatype Payload = Payload(bytes: seq<byte>, marker: bool)

  predicate InData(f: Fragment, data: seq<byte>) {
    f.length > 0 && f.offset + f.length <= |data|
  }

  predicate AllInData(fs: seq<Fragment>, data: seq<byte>) {
    forall k :: 0 <= k < |fs| ==> InData(fs[k], data)
  }

  // ----- What goes into a payload -----

  /** The bytes of an aggregation packet behind its header: each NAL unit behind its size. */
  function Entries(fs: seq<Fragment>, data: seq<byte>): seq<byte>
    requires AllInData(fs, data)
  {
    if fs == [] then []
    else Entries(fs[..|fs| - 1], data) + Entry(fs[|fs| - 1], data)
  }

  function Word16(n: nat): seq<byte> {
    [n / 256 % 256, n % 256]
  }

  function Entry(f: Fragment, data: seq<byte>): seq<byte>
    requires InData(f, data)
  {
    Word16(f.length) + Cut(data, f)
  }

  /** The size of the payload for a group: a NAL unit by itself goes as it is. */
  function GroupSize(fs: seq<Fragment>): nat {
    if fs == [] then 0 else if |fs| == 1 then fs[0].length else 1 + EntriesSize(fs)
  }

  function EntriesSize(fs: seq<Fragment>): nat {
    if fs == [] then 0 else EntriesSize(fs[..|fs| - 1]) + 2 + fs[|fs| - 1].length
  }

  predicate Good(u: Unit, data: seq<byte>, most: nat) {
    match u
    case Group(fs) => |fs| > 0 && AllInData(fs, data) && GroupSize(fs) <= most
    case Part(f, from, size) =>
      && InData(f, data) && 1 <= from < from + size <= f.length && size + 2 <= most
      && !(from == 1 && from + size == f.length)
  }

  /** A fragment behind an FU indicator and an FU header, which share out the NAL unit's own header between them. */
  function FuPayload(header: byte, first: bool, last: bool, bytes: seq<byte>): seq<byte> {
    [header / 32 * 32 + FU_A, (if first then 0x80 else 0) + (if last then 0x40 else 0) + header % 32] + bytes
  }

  /** Sections 5.6, 5.7.1 and 5.8 of RFC 6184: a single NAL unit, a STAP-A, an FU-A. */
  function Wire(u: Unit, data: seq<byte>, most: nat): seq<byte>
    requires Good(u, data, most)
  {
    match u
    case Group(fs) =>
      if |fs| == 1 then Cut(data, fs[0])
      else [data[fs[0].offset] / 32 * 32 + STAP_A] + Entries(fs, data)
    case Part(f, from, size) =>
      FuPayload(data[f.offset], from == 1, from + size == f.length, data[f.offset + from..f.offset + from + size])
  }

  // ----- Which units a frame becomes -----

  /** Where the group ends that starts at some row, when `left` bytes are left before row j and row j needs `headers`
      bytes besides its own. */
  function GroupEnd(t: seq<Fragment>, j: nat, left: nat, headers: nat): (e: nat)
    requires j < |t|
    ensures j <= e <= |t|
    ensures t[j].length + headers <= left ==> j < e
    decreases |t| - j
  {
    if left < t[j].length + headers then j
    else if j + 1 == |t| then |t|
    else GroupEnd(t, j + 1, left - t[j].length - headers, if headers == 0 then 5 else 2)
  }

  function CeilDiv(a: nat, b: nat): nat
    requires b > 0
  {
    DivNat(a + (b - 1), b);
    (a + (b - 1)) / b
  }

  /** The size of the parts of a NAL unit that is too long, all but the last: its bytes without the header, shared out
      evenly among as many payloads as they need. */
  function PartSize(length: nat, most: nat): (n: nat)
    requires length > most >= 3
    ensures 0 < n <= most - 2 && n < length - 1
  {
    EvenParts(length - 1, most - 2);
    CeilDiv(length - 1, CeilDiv(length - 1, most - 2))
  }

  lemma EvenParts(l: nat, room: nat)
    requires l > room > 0
    ensures CeilDiv(l, room) >= 2
    ensures var n := CeilDiv(l, room);
            0 < CeilDiv(l, n) <= room && (n - 1) * CeilDiv(l, n) < l <= n * CeilDiv(l, n)
  {
    var n := CeilDiv(l, room);
    CeilDivIs(l, room);
    Monotone(n, 1, room);
    var size := CeilDiv(l, n);
    CeilDivIs(l, n);
    Monotone(room, size - 1, n);
    Monotone(size, room, n - 1);
  }

  lemma Monotone(a: int, b: int, c: int)
    requires c >= 0
    ensures a <= b ==> a * c <= b * c
  {
  }

  lemma CeilDivIs(a: nat, b: nat)
    requires b > 0
    ensures CeilDiv(a, b) * b >= a > (CeilDiv(a, b) - 1) * b
  {
    var n := CeilDiv(a, b);
    DivNat(a + (b - 1), b);
    assert (n - 1) * b == n * b - b;
  }

  /** The parts of row f from the byte `from` on. */
  function Parts(f: Fragment, from: nat, size: nat): seq<Unit>
    requires from <= f.length && size > 0
    decreases f.length - from
  {
    if from == f.length then []
    else
      var n := if f.length - from < size then f.length - from else size;
      [Part(f, from, n)] + Parts(f, from + n, size)
  }

  /** The units of the rows from row i on: groups as large as fit, and the parts of rows too long to be sent whole. */
  function Plan(t: seq<Fragment>, i: nat, most: nat): seq<Unit>
    requires i <= |t| && most >= 3
    decreases |t| - i
  {
    if i == |t| then []
    else if t[i].length > most then Parts(t[i], 1, PartSize(t[i].length, most)) + Plan(t, i + 1, most)
    else
      var e := GroupEnd(t, i, most, 0);
      [Group(t[i..e])] + Plan(t, e, most)
  }

  // ----- The queue -----

  /** The packets of a group that may still grow. */
  function Open(fs: seq<Fragment>, data: seq<byte>): (ps: seq<Packet>)
    requires AllInData(fs, data)
    ensures |ps| == |fs|
  {
    if fs == [] then []
    else
      var f := fs[|fs| - 1];
      Open(fs[..|fs| - 1], data) + [Packet(f.offset, f.length, |fs| == 1, false, true, data[f.offset])]
  }

  function Close(ps: seq<Packet>): (qs: seq<Packet>)
    requires ps != []
    ensures |qs| == |ps|
  {
    ps[|ps| - 1 := ps[|ps| - 1].(last := true)]
  }

  function PacketsOf(u: Unit, data: seq<byte>, most: nat): (ps: seq<Packet>)
    requires Good(u, data, most)
    ensures |ps| > 0
  {
    match u
    case Group(fs) => Close(Open(fs, data))
    case Part(f, from, size) =>
      [Packet(f.offset + from, size, from == 1, from + size == f.length, false, data[f.offset])]
  }

  predicate AllGood(us: seq<Unit>, data: seq<byte>, most: nat) {
    forall k :: 0 <= k < |us| ==> Good(us[k], data, most)
  }

  function Rows(us: seq<Unit>, data: seq<byte>, most: nat): (rows: seq<seq<Packet>>)
    requires AllGood(us, data, most)
    ensures |rows| == |us|
  {
    seq(|us|, k requires 0 <= k < |us| && Good(us[k], data, most) => PacketsOf(us[k], data, most))
  }

  /** The queue when it holds these units. */
  function Queue(us: seq<Unit>, data: seq<byte>, most: nat): seq<Packet>
    requires AllGood(us, data, most)
  {
    Flat(Rows(us, data, most))
  }

  lemma QueueSplit(us: seq<Unit>, vs: seq<Unit>, data: seq<byte>, most: nat)
    requires AllGood(us, data, most) && AllGood(vs, data, most)
    ensures AllGood(us + vs, data, most)
    ensures Queue(us + vs, data, most) == Queue(us, data, most) + Queue(vs, data, most)
  {
    AllGoodSplit(us, vs, data, most);
    assert Rows(us + vs, data, most) == Rows(us, data, most) + Rows(vs, data, most);
    FlatSplit(Rows(us, data, most), Rows(vs, data, most));
  }

  lemma QueueNext(us: seq<Unit>, u: Unit, data: seq<byte>, most: nat)
    requires AllGood(us, data, most) && Good(u, data, most)
    ensures AllGood(us + [u], data, most)
    ensures Queue(us + [u], data, most) == Queue(us, data, most) + PacketsOf(u, data, most)
  {
    QueueSplit(us, [u], data, most);
    assert Rows([u], data, most) == [PacketsOf(u, data, most)];
    FlatOne(PacketsOf(u, data, most));
  }

  lemma FrontUnit(us: seq<Unit>, data: seq<byte>, most: nat)
    requires AllGood(us, data, most)
    ensures us == [] <==> Queue(us, data, most) == []
    ensures us != [] ==> AllGood(us[1..], data, most)
    ensures us != [] ==> Queue(us, data, most) == PacketsOf(us[0], data, most) + Queue(us[1..], data, most)
  {
    if us != [] {
      assert us == [us[0]] + us[1..];
      QueueSplit([us[0]], us[1..], data, most);
      assert Rows([us[0]], data, most) == [PacketsOf(us[0], data, most)];
      FlatOne(PacketsOf(us[0], data, most));
    }
  }

  lemma AllGoodSplit(us: seq<Unit>, vs: seq<Unit>, data: seq<byte>, most: nat)
    requires AllGood(us, data, most) && AllGood(vs, data, most)
    ensures AllGood(us + vs, data, most)
  {
  }

  // ----- Every unit planned can be sent -----

  lemma {:induction false} PartsGood(f: Fragment, from: nat, size: nat, data: seq<byte>, most: nat)
    requires InData(f, data) && 1 <= from <= f.length && 0 < size < f.length - 1 && size + 2 <= most
    ensures AllGood(Parts(f, from, size), data, most)
    decreases f.length - from
  {
    if from < f.length {
      var n := if f.length - from < size then f.length - from else size;
      PartsGood(f, from + n, size, data, most);
    }
  }

  lemma {:induction false} PartsCount(f: Fragment, from: nat, size: nat)
    requires from <= f.length && size > 0
    ensures var n := |Parts(f, from, size)|;
            && (n == 0 <==> from == f.length)
            && (n > 0 ==> (n - 1) * size < f.length - from <= n * size)
    decreases f.length - from
  {
    if from < f.length {
      PartsCount(f, if f.length - from < size then f.length else from + size, size);
    }
  }

  /** A NAL unit that is too long is sent in the fewest payloads that hold it. */
  lemma FewestParts(f: Fragment, most: nat)
    requires f.length > most >= 3
    ensures var n := |Parts(f, 1, PartSize(f.length, most))|;
            (n - 1) * (most - 2) < f.length - 1 <= n * (most - 2)
  {
    var size, c := PartSize(f.length, most), CeilDiv(f.length - 1, most - 2);
    var n := |Parts(f, 1, size)|;
    PartsCount(f, 1, size);
    EvenParts(f.length - 1, most - 2);
    CeilDivIs(f.length - 1, most - 2);
    Monotone(n, c - 1, size);
    Monotone(c, n - 1, size);
    assert n == c;
  }

  lemma GroupSizeNext(t: seq<Fragment>, i: nat, j: nat)
    requires i <= j < |t|
    ensures GroupSize(t[i..j + 1])
         == GroupSize(t[i..j]) + t[j].length + if j == i then 0 else if j == i + 1 then 5 else 2
  {
    var fs := t[i..j + 1];
    assert fs[..|fs| - 1] == t[i..j];
    if j == i + 1 {
      assert t[i..j][..0] == [];
      assert EntriesSize(t[i..j]) == EntriesSize([]) + 2 + t[i].length;
    }
  }

  /** A group fits, and would not with one row more. */
  lemma {:induction false} GroupFits(t: seq<Fragment>, i: nat, j: nat, left: nat, headers: nat, most: nat)
    requires i <= j < |t| && GroupSize(t[i..j]) + left == most
    requires headers == if j == i then 0 else if j == i + 1 then 5 else 2
    ensures var e := GroupEnd(t, j, left, headers);
            && GroupSize(t[i..e]) <= most
            && (e < |t| ==> GroupSize(t[i..e + 1]) > most)
    decreases |t| - j
  {
    GroupSizeNext(t, i, j);
    if left >= t[j].length + headers && j + 1 < |t| {
      GroupFits(t, i, j + 1, left - t[j].length - headers, if headers == 0 then 5 else 2, most);
    }
  }

  lemma {:induction false} PlanGood(t: seq<Fragment>, i: nat, data: seq<byte>, most: nat)
    requires i <= |t| && most >= 3 && AllInData(t, data)
    ensures AllGood(Plan(t, i, most), data, most)
    decreases |t| - i
  {
    if i < |t| {
      if t[i].length > most {
        PartsGood(t[i], 1, PartSize(t[i].length, most), data, most);
        PlanGood(t, i + 1, data, most);
      } else {
        GroupFits(t, i, i, most, 0, most);
        PlanGood(t, GroupEnd(t, i, most, 0), data, most);
      }
    }
  }

  /** No payload is larger than the packetizer was told. */
  lemma {:induction false} EntriesLength(fs: seq<Fragment>, data: seq<byte>)
    requires AllInData(fs, data)
    ensures |Entries(fs, data)| == EntriesSize(fs)
  {
    if fs != [] {
      EntriesLength(fs[..|fs| - 1], data);
    }
  }

  lemma WireFits(u: Unit, data: seq<byte>, most: nat)
    requires Good(u, data, most)
    ensures 0 < |Wire(u, data, most)| <= most
  {
    if u.Group? {
      EntriesLength(u.fs, data);
    }
  }

  // ----- Sending: the packetizer -----

  lemma {:induction false} EntriesNext(fs: seq<Fragment>, k: nat, data: seq<byte>)
    requires AllInData(fs, data) && k < |fs|
    ensures Entries(fs[..k + 1], data) == Entries(fs[..k], data) + Entry(fs[k], data)
  {
    assert fs[..k + 1][..k] == fs[..k];
  }

  /** `(header & (kFBit | kNriMask)) | type`. */
  lemma Indicator(header: byte, kind: byte)
    requires kind < 32
    ensures Or(And(header, 0xE0), kind) == header / 32 * 32 + kind
  {
    HighBits(header);
    Pow2Values();
    OrAdds(header / 32, kind, 5);
  }

  lemma TypeBits(header: byte)
    ensures And(header, 0x1F) == header % 32
  {
    Pow2Values();
    AndMask(header, 5);
  }

  lemma HighBits(header: byte)
    ensures And(header, 0xE0) == Shl(header / 32, 5) == header / 32 * 32
  {
    TimesThirtyTwo(7);
    TimesThirtyTwo(header / 32);
    AndHigh(header, 7, 5);
    LowThree(header / 32);
    ByThirtyTwo(header);
  }

  lemma TimesThirtyTwo(x: nat)
    ensures Shl(x, 5) == x * 32
  {
    ShlIs(x, 5);
    Pow2Values();
  }

  lemma ByThirtyTwo(x: nat)
    ensures Shr(x, 5) == x / 32
  {
    ShrIs(x, 5);
    Pow2Values();
  }

  lemma LowThree(x: nat)
    requires x < 8
    ensures And(x, 7) == x
  {
    AndMask(x, 3);
    Pow2Values();
  }

  /** `S | E | R | type`. */
  lemma FuHeader(first: bool, last: bool, kind: byte)
    requires kind < 32
    ensures var h := Or(Or(0, if first then 0x80 else 0), if last then 0x40 else 0);
            Or(h, kind) == (if first then 0x80 else 0) + (if last then 0x40 else 0) + kind
  {
    ShlIs(1, 6);
    ShlIs(2, 6);
    ShlIs(3, 6);
    Pow2Values();
    OrAdds(2, 0x40, 7);
    assert Or(0x80, 0x40) == 0xC0 by {
      ShlIs(1, 7);
      OrAdds(1, 0x40, 7);
    }
    OrAdds(1, kind, 6);
    OrAdds(2, kind, 6);
    OrAdds(3, kind, 6);
  }

  lemma FuBytes(header: byte, first: bool, last: bool)
    ensures Or(And(header, 0xE0), FU_A) == header / 32 * 32 + FU_A
    ensures var h := Or(Or(0, if first then 0x80 else 0), if last then 0x40 else 0);
            Or(h, And(header, 0x1F)) == (if first then 0x80 else 0) + (if last then 0x40 else 0) + header % 32
  {
    Indicator(header, FU_A);
    TypeBits(header);
    FuHeader(first, last, header % 32);
  }

  /** The units of row i, or of the group that starts there, and the row after them. */
  function UnitsAt(t: seq<Fragment>, i: nat, most: nat): (seq<Unit>, nat)
    requires i < |t| && most >= 3
  {
    if t[i].length > most then (Parts(t[i], 1, PartSize(t[i].length, most)), i + 1)
    else ([Group(t[i..GroupEnd(t, i, most, 0)])], GroupEnd(t, i, most, 0))
  }

  lemma PlanNext(t: seq<Fragment>, i: nat, most: nat)
    requires i < |t| && most >= 3
    ensures var (us, next) := UnitsAt(t, i, most);
            i < next <= |t| && Plan(t, i, most) == us + Plan(t, next, most)
  {
  }

  /** The next part of a NAL unit of which `left` bytes are still to be sent. */
  lemma PartNext(f: Fragment, offset: nat, left: nat, size: nat, now: seq<Unit>, data: seq<byte>, most: nat)
    returns (u: Unit)
    requires AllGood(now, data, most) && InData(f, data) && 0 < size < f.length - 1 && size + 2 <= most
    requires f.offset < offset && offset + left == f.offset + f.length && left > 0
    ensures var n := if left < size then left else size;
            && AllGood(now + [u], data, most)
            && Queue(now + [u], data, most)
            == Queue(now, data, most) + [Packet(offset, n, offset - 1 == f.offset, left == n, false, data[f.offset])]
            && now + Parts(f, offset - f.offset, size) == now + [u] + Parts(f, offset + n - f.offset, size)
  {
    var n := if left < size then left else size;
    u := Part(f, offset - f.offset, n);
    QueueNext(now, u, data, most);
    PartsNext(f, offset - f.offset, size, offset - f.offset + n);
    assert now + ([u] + Parts(f, offset - f.offset + n, size)) == now + [u] + Parts(f, offset - f.offset + n, size);
  }

  lemma PartsNext(f: Fragment, from: nat, size: nat, next: nat)
    requires from < f.length && size > 0 && next == if f.length - from < size then f.length else from + size
    ensures Parts(f, from, size) == [Part(f, from, next - from)] + Parts(f, next, size)
  {
  }

  /** How a NAL unit of this length is shared out. */
  method AverageSize(length: nat, most: nat) returns (avgSize: nat)
    requires length > most >= 3
    ensures avgSize == PartSize(length, most)
  {
    var fragmentLength := length - 1;
    EvenParts(length - 1, most - 2);
    var bytesAvailable := most - 2;
    var fragments := (fragmentLength + (bytesAvailable - 1)) / bytesAvailable;
    assert fragments == CeilDiv(length - 1, most - 2);
    avgSize := (fragmentLength + fragments - 1) / fragments;
  }

  /** What the first packet of a unit gives away. */
  lemma FrontPacket(u: Unit, rest: seq<Packet>, data: seq<byte>, most: nat)
    requires Good(u, data, most)
    ensures var ps := PacketsOf(u, data, most) + rest;
            var p := ps[0];
            && p.offset + p.size <= |data|
            && (p.first && p.last ==> ps[1..] == rest && Wire(u, data, most) == data[p.offset..p.offset + p.size])
            && (!(p.first && p.last) && p.aggregated ==> u.Group? && |u.fs| > 1)
            && (!(p.first && p.last) && !p.aggregated ==> ps[1..] == rest && FuWire(p, data) == Wire(u, data, most))
  {
    if u.Group? {
      OpenAt(u.fs, 0, data);
    }
    assert |PacketsOf(u, data, most)| == 1 ==> (PacketsOf(u, data, most) + rest)[1..] == rest;
  }

  function FuWire(p: Packet, data: seq<byte>): seq<byte>
    requires p.offset + p.size <= |data|
  {
    FuPayload(p.header, p.first, p.last, data[p.offset..p.offset + p.size])
  }

  lemma Popped(ps: seq<Packet>, k: nat, rest: seq<Packet>)
    requires k < |ps|
    ensures (ps[k..] + rest)[1..] == ps[k + 1..] + rest
    ensures k + 1 < |ps| ==> (ps[k + 1..] + rest)[0] == ps[k + 1]
    ensures k + 1 == |ps| ==> ps[k + 1..] + rest == rest
  {
  }

  lemma EntryNext(header: seq<byte>, fs: seq<Fragment>, k: nat, data: seq<byte>, offset: nat, size: nat)
    requires AllInData(fs, data) && k < |fs| && offset == fs[k].offset && size == fs[k].length
    ensures header + Entries(fs[..k], data) + Word16(size) + data[offset..offset + size]
         == header + Entries(fs[..k + 1], data)
  {
    EntriesNext(fs, k, data);
    Appended(header, Entries(fs[..k], data), Word16(size), data[offset..offset + size], Entries(fs[..k + 1], data));
  }

  lemma Appended(header: seq<byte>, entries: seq<byte>, size: seq<byte>, nal: seq<byte>, more: seq<byte>)
    requires more == entries + (size + nal)
    ensures header + entries + size + nal == header + more
  {
  }

  function PacketAt(fs: seq<Fragment>, k: nat, data: seq<byte>): Packet
    requires k < |fs| && InData(fs[k], data)
  {
    Packet(fs[k].offset, fs[k].length, k == 0, k == |fs| - 1, true, data[fs[k].offset])
  }

  lemma {:induction false} OpenAt(fs: seq<Fragment>, k: nat, data: seq<byte>)
    requires AllInData(fs, data) && k < |fs|
    ensures Open(fs, data)[k] == PacketAt(fs, k, data).(last := false)
    ensures Close(Open(fs, data))[k] == PacketAt(fs, k, data)
  {
    if k < |fs| - 1 {
      OpenAt(fs[..|fs| - 1], k, data);
    }
  }

  /** The size field and the bytes of one more NAL unit. */
  method AddEntry(payload: seq<byte>, offset: nat, size: nat, data: seq<byte>,
                  ghost header: seq<byte>, ghost fs: seq<Fragment>, ghost k: nat) returns (more: seq<byte>)
    requires AllInData(fs, data) && k < |fs| && offset == fs[k].offset && size == fs[k].length
    requires payload == header + Entries(fs[..k], data)
    ensures more == header + Entries(fs[..k + 1], data)
  {
    EntryNext(header, fs, k, data, offset, size);
    more := payload + Word16(size);
    more := more + data[offset..offset + size];
  }

  lemma OpenNext(before: seq<Packet>, t: seq<Fragment>, start: nat, i: nat, data: seq<byte>)
    requires start <= i < |t| && AllInData(t, data)
    ensures before + Open(t[start..i + 1], data)
         == before + Open(t[start..i], data)
          + [Packet(t[i].offset, t[i].length, i == start, false, true, data[t[i].offset])]
  {
    assert t[start..i + 1][..i - start] == t[start..i];
  }

  lemma CloseBehind(before: seq<Packet>, ps: seq<Packet>)
    requires ps != []
    ensures Close(before + ps) == before + Close(ps)
  {
  }

  /** The queue with one more group in it. */
  lemma GroupNext(t: seq<Fragment>, start: nat, now: seq<Unit>, data: seq<byte>, most: nat)
    requires AllGood(now, data, most) && AllInData(t, data) && start < |t| && t[start].length <= most
    ensures var fs := t[start..GroupEnd(t, start, most, 0)];
            && AllGood(now + [Group(fs)], data, most)
            && Queue(now + [Group(fs)], data, most) == Close(Queue(now, data, most) + Open(fs, data))
  {
    var fs := t[start..GroupEnd(t, start, most, 0)];
    GroupFits(t, start, start, most, 0, most);
    QueueNext(now, Group(fs), data, most);
    CloseBehind(Queue(now, data, most), Open(fs, data));
  }

  class RtpPacketizerH264 {
    const maxPayloadLen: nat
    var payloadData: seq<byte>
    var fragmentation: seq<Fragment>
    var packets: seq<Packet>

    constructor (most: nat)
      ensures maxPayloadLen == most && packets == []
    {
      maxPayloadLen := most;
      payloadData := [];
      fragmentation := [];
      packets := [];
    }

    /** The queue holds what these units need. */
    ghost predicate Holds(us: seq<Unit>)
      reads this
    {
      AllGood(us, payloadData, maxPayloadLen) && packets == Queue(us, payloadData, maxPayloadLen)
    }

    method SetPayloadData(data: seq<byte>, table: seq<Fragment>)
      requires packets == [] && maxPayloadLen >= 3 && AllInData(table, data)
      modifies this
      ensures payloadData == data && Holds(Plan(table, 0, maxPayloadLen))
    {
      payloadData := data;
      fragmentation := table;
      GeneratePackets();
    }

    method GeneratePackets()
      requires packets == [] && maxPayloadLen >= 3 && AllInData(fragmentation, payloadData)
      modifies this`packets
      ensures Holds(Plan(fragmentation, 0, maxPayloadLen))
    {
      var i := 0;
      ghost var done: seq<Unit> := [];
      ghost var plan := Plan(fragmentation, 0, maxPayloadLen);
      while i < |fragmentation|
        invariant i <= |fragmentation|
        invariant Holds(done) && plan == done + Plan(fragmentation, i, maxPayloadLen)
      {
        PlanNext(fragmentation, i, maxPayloadLen);
        ghost var (us, next) := UnitsAt(fragmentation, i, maxPayloadLen);
        Regroup(done, us, Plan(fragmentation, next, maxPayloadLen));
        var f := fragmentation[i];
        if f.length > maxPayloadLen {
          PacketizeFuA(f, done);
          i := i + 1;
        } else {
          i := PacketizeStapA(i, done);
        }
        assert i == next;
        done := done + us;
      }
      assert plan == done;
    }

    method PacketizeFuA(f: Fragment, ghost done: seq<Unit>)
      requires Holds(done) && InData(f, payloadData) && f.length > maxPayloadLen >= 3
      modifies this`packets
      ensures Holds(done + Parts(f, 1, PartSize(f.length, maxPayloadLen)))
    {
      var fragmentLength := f.length - 1;
      var offset := f.offset + 1;
      var avgSize := AverageSize(f.length, maxPayloadLen);
      ghost var now, all := done, done + Parts(f, 1, avgSize);
      while fragmentLength > 0
        invariant fragmentLength >= 0 && f.offset < offset && offset + fragmentLength == f.offset + f.length
        invariant Holds(now) && all == now + Parts(f, offset - f.offset, avgSize)
      {
        var packetLength;
        packetLength, now := PushPart(f, offset, fragmentLength, avgSize, now);
        offset := offset + packetLength;
        fragmentLength := fragmentLength - packetLength;
      }
      assert all == now;
    }

    /** One round of the loop. */
    method PushPart(f: Fragment, offset: nat, fragmentLength: nat, avgSize: nat, ghost now: seq<Unit>)
      returns (packetLength: nat, ghost now': seq<Unit>)
      requires Holds(now) && InData(f, payloadData)
      requires 0 < avgSize < f.length - 1 && avgSize + 2 <= maxPayloadLen
      requires f.offset < offset && offset + fragmentLength == f.offset + f.length && fragmentLength > 0
      modifies this`packets
      ensures 0 < packetLength <= fragmentLength && Holds(now')
      ensures now + Parts(f, offset - f.offset, avgSize) == now' + Parts(f, offset + packetLength - f.offset, avgSize)
    {
      packetLength := avgSize;
      if fragmentLength < avgSize {
        packetLength := fragmentLength;
      }
      var header := payloadData[f.offset];
      ghost var u := PartNext(f, offset, fragmentLength, avgSize, now, payloadData, maxPayloadLen);
      packets := packets + [Packet(offset, packetLength, offset - 1 == f.offset, fragmentLength == packetLength,
                                   false, header)];
      now' := now + [u];
    }

    method PacketizeStapA(start: nat, ghost done: seq<Unit>) returns (i: nat)
      requires Holds(done) && AllInData(fragmentation, payloadData)
      requires start < |fragmentation| && fragmentation[start].length <= maxPayloadLen
      modifies this`packets
      ensures i == GroupEnd(fragmentation, start, maxPayloadLen, 0)
      ensures Holds(done + [Group(fragmentation[start..i])])
    {
      i := start;
      var f := fragmentation[i];
      var payloadSizeLeft := maxPayloadLen;
      var aggregatedFragments := 0;
      var fragmentHeadersLength := 0;
      ghost var end, before := GroupEnd(fragmentation, start, maxPayloadLen, 0), packets;
      while payloadSizeLeft >= f.length + fragmentHeadersLength
        invariant start <= i < |fragmentation| && f == fragmentation[i] && aggregatedFragments == i - start
        invariant payloadSizeLeft >= 0 && (fragmentHeadersLength == 0 <==> i == start)
        invariant end == GroupEnd(fragmentation, i, payloadSizeLeft, fragmentHeadersLength)
        invariant packets == before + Open(fragmentation[start..i], payloadData)
        decreases |fragmentation| - i
      {
        OpenNext(before, fragmentation, start, i, payloadData);
        var header := payloadData[f.offset];
        packets := packets + [Packet(f.offset, f.length, aggregatedFragments == 0, false, true, header)];
        payloadSizeLeft := payloadSizeLeft - f.length;
        payloadSizeLeft := payloadSizeLeft - fragmentHeadersLength;
        i := i + 1;
        if i == |fragmentation| {
          break;
        }
        f := fragmentation[i];
        fragmentHeadersLength := 2;
        if aggregatedFragments == 0 {
          fragmentHeadersLength := fragmentHeadersLength + 1 + 2;
        }
        aggregatedFragments := aggregatedFragments + 1;
      }
      packets := Close(packets);
      GroupNext(fragmentation, start, done, payloadData, maxPayloadLen);
    }

    /** The next payload, or false when there is none. `us` are the units the queue holds. */
    method NextPacket(ghost us: seq<Unit>) returns (ok: bool, payload: seq<byte>, lastPacket: bool)
      requires Holds(us)
      modifies this`packets
      ensures ok <==> us != []
      ensures lastPacket <==> |us| <= 1
      ensures ok ==> Holds(us[1..]) && payload == Wire(us[0], payloadData, maxPayloadLen)
      ensures !ok ==> Holds(us) && payload == []
    {
      FrontUnit(us, payloadData, maxPayloadLen);
      if packets == [] {
        return false, [], true;
      }
      FrontUnit(us[1..], payloadData, maxPayloadLen);
      payload := NextUnit(us[0], Queue(us[1..], payloadData, maxPayloadLen));
      return true, payload, packets == [];
    }

    /** Which of the three kinds of payload is next shows in its first packet. */
    method NextUnit(ghost u: Unit, ghost rest: seq<Packet>) returns (payload: seq<byte>)
      requires Good(u, payloadData, maxPayloadLen)
      requires packets == PacketsOf(u, payloadData, maxPayloadLen) + rest
      modifies this`packets
      ensures packets == rest && payload == Wire(u, payloadData, maxPayloadLen)
    {
      FrontPacket(u, rest, payloadData, maxPayloadLen);
      var packet := packets[0];
      if packet.first && packet.last {
        payload := payloadData[packet.offset..packet.offset + packet.size];
        packets := packets[1..];
      } else if packet.aggregated {
        payload := NextAggregatePacket(u.fs, rest);
      } else {
        payload := NextFragmentPacket();
      }
    }

    method NextAggregatePacket(ghost fs: seq<Fragment>, ghost rest: seq<Packet>) returns (payload: seq<byte>)
      requires fs != [] && AllInData(fs, payloadData)
      requires packets == Close(Open(fs, payloadData)) + rest
      modifies this`packets
      ensures packets == rest
      ensures payload == [payloadData[fs[0].offset] / 32 * 32 + STAP_A] + Entries(fs, payloadData)
    {
      ghost var ps, k := Close(Open(fs, payloadData)), 0;
      OpenAt(fs, 0, payloadData);
      var packet := packets[0];
      Indicator(packet.header, STAP_A);
      payload := [Or(And(packet.header, 0xE0), STAP_A)];
      ghost var header := payload;
      while packet.aggregated
        invariant k < |fs| && packets == ps[k..] + rest && packet == ps[k] == PacketAt(fs, k, payloadData)
        invariant payload == header + Entries(fs[..k], payloadData)
        decreases |fs| - k
      {
        payload := AddEntry(payload, packet.offset, packet.size, payloadData, header, fs, k);
        Popped(ps, k, rest);
        packets := packets[1..];
        k := k + 1;
        if packet.last {
          break;
        }
        OpenAt(fs, k, payloadData);
        packet := packets[0];
      }
      assert fs[..k] == fs;
    }

    method NextFragmentPacket() returns (payload: seq<byte>)
      requires packets != [] && packets[0].offset + packets[0].size <= |payloadData|
      modifies this`packets
      ensures packets == old(packets[1..]) && payload == FuWire(old(packets[0]), payloadData)
    {
      var packet := packets[0];
      FuBytes(packet.header, packet.first, packet.last);
      var fuIndicator := Or(And(packet.header, 0xE0), FU_A);
      var fuHeader := 0;
      fuHeader := Or(fuHeader, if packet.first then 0x80 else 0);
      fuHeader := Or(fuHeader, if packet.last then 0x40 else 0);
      var kind := And(packet.header, 0x1F);
      fuHeader := Or(fuHeader, kind);
      payload := [fuIndicator, fuHeader] + payloadData[packet.offset..packet.offset + packet.size];
      packets := packets[1..];
    }
  }

  // ----- Sending a frame -----

  /** The payloads of a frame; the marker is on the last. */
  function Payloads(us: seq<Unit>, data: seq<byte>, most: nat): (ps: seq<Payload>)
    requires AllGood(us, data, most)
    ensures |ps| == |us|
  {
    seq(|us|, k requires 0 <= k < |us| && Good(us[k], data, most) => Payload(Wire(us[k], data, most), k == |us| - 1))
  }

  function Sent(table: seq<Fragment>, data: seq<byte>, most: nat): seq<Payload>
    requires most >= 3 && AllInData(table, data)
  {
    PlanGood(table, 0, data, most);
    Payloads(Plan(table, 0, most), data, most)
  }

  lemma PlanNotEmpty(t: seq<Fragment>, most: nat)
    requires most >= 3
    ensures Plan(t, 0, most) == [] <==> t == []
  {
    if t != [] && t[0].length > most {
      assert Parts(t[0], 1, PartSize(t[0].length, most)) != [];
    }
  }

  /** RTPSenderVideo::SendH264, as far as the payloads go. */
  method SendH264(data: seq<byte>, table: seq<Fragment>, most: nat) returns (ok: bool, sent: seq<Payload>)
    requires most >= 3 && AllInData(table, data)
    ensures ok <==> table != []
    ensures sent == Sent(table, data, most)
  {
    var packetizer := new RtpPacketizerH264(most);
    packetizer.SetPayloadData(data, table);
    PlanNotEmpty(table, most);
    ok, sent := SendAll(packetizer, Plan(table, 0, most));
  }

  /** The loop: payloads until the last. */
  method SendAll(packetizer: RtpPacketizerH264, ghost plan: seq<Unit>) returns (ok: bool, sent: seq<Payload>)
    requires packetizer.Holds(plan)
    modifies packetizer`packets
    ensures ok <==> plan != []
    ensures sent == Payloads(plan, packetizer.payloadData, packetizer.maxPayloadLen)
  {
    ghost var us, rest := plan, Payloads(plan, packetizer.payloadData, packetizer.maxPayloadLen);
    ghost var all := rest;
    sent := [];
    var last := false;
    while !last
      invariant packetizer.Holds(us) && (last <==> us == [] != plan) && (sent == [] ==> us == plan)
      invariant rest == Payloads(us, packetizer.payloadData, packetizer.maxPayloadLen) && all == sent + rest
      decreases |us|, !last
    {
      var payload;
      ok, payload, last, us, rest := SendNext(packetizer, us);
      if !ok {
        return;
      }
      Regroup(sent, [payload], rest);
      sent := sent + [payload];
    }
    return true, sent;
  }

  /** One round of it: the next payload, marked if it is the last. */
  method SendNext(packetizer: RtpPacketizerH264, ghost us: seq<Unit>)
    returns (ok: bool, payload: Payload, last: bool, ghost us': seq<Unit>, ghost rest: seq<Payload>)
    requires packetizer.Holds(us)
    modifies packetizer`packets
    ensures ok <==> us != []
    ensures last <==> |us| <= 1
    ensures packetizer.Holds(us') && rest == Payloads(us', packetizer.payloadData, packetizer.maxPayloadLen)
    ensures us' == if ok then us[1..] else us
    ensures ok ==> Payloads(us, packetizer.payloadData, packetizer.maxPayloadLen) == [payload] + rest
  {
    var bytes;
    ok, bytes, last := packetizer.NextPacket(us);
    payload := Payload(bytes, last);
    us' := if ok then us[1..] else us;
    rest := Payloads(us', packetizer.payloadData, packetizer.maxPayloadLen);
  }

  // ----- Receiving: the depacketizer -----

  /** What RtpDepacketizerH264 passes on of a payload. */
  datatype Parsed = Parsed(data: seq<byte>, first: bool, singleNalu: bool, stapA: bool, key: bool)

  predicate KeyType(kind: byte) {
    kind == 5 || kind == 7 || kind == 8
  }

  /** The payload is as long as the reader takes for granted. */
  predicate Long(payload: seq<byte>) {
    |payload| >= 1 && (payload[0] % 32 == FU_A ==> |payload| >= 2) && (payload[0] % 32 == STAP_A ==> |payload| >= 4)
  }

  /** A first fragment is given the NAL unit's own header back; any other comes without one. */
  function Read(payload: seq<byte>): Parsed
    requires Long(payload)
  {
    var kind := payload[0] % 32;
    if kind == FU_A then
      var first, original := payload[1] >= 0x80, payload[1] % 32;
      Parsed(if first then [payload[0] / 32 * 32 + original] + payload[2..] else payload[2..],
             first, false, false, original == 5)
    else if kind == STAP_A then Parsed(payload, true, true, true, KeyType(payload[3] % 32))
    else Parsed(payload, true, true, false, KeyType(kind))
  }

  /** The payload afterwards: a header that is put back is written over the FU header. */
  function AfterRead(payload: seq<byte>): seq<byte>
    requires Long(payload)
  {
    if payload[0] % 32 == FU_A && payload[1] >= 0x80 then payload[1 := payload[0] / 32 * 32 + payload[1] % 32]
    else payload
  }

  /** RtpDepacketizerH264::Parse, with what it gives its callback. */
  method Parse(payload: array<byte>) returns (p: Parsed)
    requires Long(payload[..])
    modifies payload
    ensures p == Read(old(payload[..])) && payload[..] == AfterRead(old(payload[..]))
  {
    TypeBits(payload[0]);
    var kind := And(payload[0], 0x1F);
    if kind == FU_A {
      p := ParseFuaNalu(payload);
    } else {
      p := ParseSingleNalu(payload);
    }
  }

  method ParseFuaNalu(payload: array<byte>) returns (p: Parsed)
    requires Long(payload[..]) && payload[0] % 32 == FU_A
    modifies payload
    ensures p == Read(old(payload[..])) && payload[..] == AfterRead(old(payload[..]))
  {
    FuaBits(payload[0], payload[1]);
    var fnri := And(payload[0], 0xE0);
    var original := And(payload[1], 0x1F);
    var first := And(payload[1], 0x80) > 0;
    var header := Or(fnri, original);
    var offset := 2;
    if first {
      offset := 1;
      payload[offset] := header;
    }
    p := Parsed(payload[offset..], first, false, false, original == 5);
  }

  lemma FuaBits(indicator: byte, header: byte)
    ensures And(header, 0x1F) == header % 32
    ensures And(header, 0x80) > 0 <==> header >= 0x80
    ensures Or(And(indicator, 0xE0), header % 32) == indicator / 32 * 32 + header % 32
  {
    TypeBits(header);
    HighestBit(header);
    Indicator(indicator, header % 32);
  }

  method ParseSingleNalu(payload: array<byte>) returns (p: Parsed)
    requires Long(payload[..]) && payload[0] % 32 != FU_A
    ensures p == Read(payload[..])
  {
    TypeBits(payload[0]);
    var kind := And(payload[0], 0x1F);
    var stapA := false;
    if kind == STAP_A {
      TypeBits(payload[3]);
      kind := And(payload[3], 0x1F);
      stapA := true;
    }
    p := Parsed(payload[..], true, true, stapA, kind == 5 || kind == 7 || kind == 8);
  }

  lemma HighestBit(b: byte)
    ensures And(b, 0x80) > 0 <==> b >= 0x80
  {
    Pow2Values();
    AndBit(b, 7);
    ShrIs(b, 7);
  }
}

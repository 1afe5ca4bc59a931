/** The whole way of a frame: from the encoder's NAL units, through the packetizer, in packets that arrive in any order,
    to the bytes in the receiver's frame buffer. What comes out is what went in. */
module EndToEnd {
  import opened Bits
  import opened Sequences
  import opened Fragments
  import opened Transport
  import RtpH264
  import SessionInfo
  import Reassembly
  import FrameBuffer
  import H264Encoder
  import OpenH264
  import WireFormat

  // ----- Which packets always have room -----

  /** A payload of up to two NAL units always has room, and one of three unless the buffer can be left just full. */
  predicate RoomFor(u: RtpH264.Unit) {
    || u.Part? || |u.fs| <= 2
    || (|u.fs| == 3 && (RtpH264.GroupSize(u.fs) + 4) % FrameBuffer.INC_STEP != 0)
  }

  lemma {:induction false} StreamLength(fs: seq<Fragment>, data: seq<byte>)
    requires RtpH264.AllInData(fs, data)
    ensures |ByteStream(fs, data)| == RtpH264.EntriesSize(fs) + 2 * |fs|
  {
    if fs != [] {
      var front, f := fs[..|fs| - 1], fs[|fs| - 1];
      StreamLength(front, data);
      StreamSplit(front, [f], data);
      StreamOne(f, data);
      assert fs == front + [f];
    }
  }

  /** An aggregation packet of these NAL units has as many. */
  lemma GroupCount(fs: seq<Fragment>, data: seq<byte>, most: nat)
    requires RtpH264.AllInData(fs, data) && |fs| > 1 && 1 + RtpH264.EntriesSize(fs) <= most < 0x1_0000
    ensures SessionInfo.Entries(RtpH264.Entries(fs, data))
    ensures FrameBuffer.EntryCount(RtpH264.Entries(fs, data)) == |fs|
    ensures |RtpH264.Entries(fs, data)| == RtpH264.EntriesSize(fs) >= 3
  {
    GroupReadable(fs, data, most);
    StreamLength(fs, data);
    RtpH264.EntriesLength(fs, data);
    FrameBuffer.UnpackedSize(RtpH264.Entries(fs, data), SessionInfo.START_CODE);
  }

  /** Whether the packet a payload becomes always has room. */
  ghost predicate RoomIs(bytes: seq<byte>, marker: bool, number: SessionInfo.seqnum, room: bool) {
    && RtpH264.Long(bytes)
    && var p := Received(RtpH264.Payload(bytes, marker), number);
       SessionInfo.Readable(p) && |p.data| < 0x1_0000 && (FrameBuffer.AlwaysHasRoom(p) <==> room)
  }

  lemma NoAggregate(bytes: seq<byte>, marker: bool, number: SessionInfo.seqnum)
    requires RtpH264.Long(bytes) && |bytes| < 0x1_0000 && !RtpH264.Read(bytes).stapA
    ensures RoomIs(bytes, marker, number, true)
  {
    var p := Received(RtpH264.Payload(bytes, marker), number);
    FrameBuffer.RoomExactly(p);
  }

  lemma Aggregate(header: byte, fs: seq<Fragment>, entries: seq<byte>, marker: bool, number: SessionInfo.seqnum)
    requires header % 32 == RtpH264.STAP_A && SessionInfo.Entries(entries) && |fs| > 1
    requires FrameBuffer.EntryCount(entries) == |fs| && |entries| == RtpH264.EntriesSize(fs) >= 3
    requires |entries| + 1 < 0x1_0000
    ensures RoomIs([header] + entries, marker, number, RoomFor(RtpH264.Group(fs)))
  {
    var bytes := [header] + entries;
    assert bytes[1..] == entries;
    FrameBuffer.RoomExactly(Received(RtpH264.Payload(bytes, marker), number));
  }

  lemma UnitRoomExactly(u: RtpH264.Unit, data: seq<byte>, most: nat, marker: bool, number: SessionInfo.seqnum)
    requires RtpH264.Good(u, data, most) && most < 0x1_0000
    requires u.Group? && |u.fs| == 1 ==> Plain(u.fs[0], data)
    ensures RoomIs(RtpH264.Wire(u, data, most), marker, number, RoomFor(u))
  {
    match u
    case Group(fs) =>
      if |fs| == 1 {
        NoAggregate(Cut(data, fs[0]), marker, number);
      } else {
        GroupCount(fs, data, most);
        var header := GroupWire(fs, data, most);
        Aggregate(header, fs, RtpH264.Entries(fs, data), marker, number);
      }
    case Part(f, from, size) =>
      PartWire(f, from, size, data, most);
      ReadPart(data[f.offset], from == 1, from + size == f.length, Slice(f, from, from + size, data));
      NoAggregate(RtpH264.Wire(u, data, most), marker, number);
  }

  lemma PacketIs(ps: seq<RtpH264.Payload>, shares: seq<seq<byte>>, s: SessionInfo.seqnum, k: nat)
    requires AllGive(ps, shares) && k < |ps|
    ensures RtpH264.Long(ps[k].bytes) && Packets(ps, shares, s)[k] == Received(ps[k], (s + k) % 0x1_0000)
  {
    assert Gives(ps[k].bytes, shares[k]);
  }

  /** A packet of a frame has room wherever it is inserted exactly when its payload is of that kind. */
  lemma PacketRoomExactly(t: seq<Fragment>, data: seq<byte>, most: nat, s: SessionInfo.seqnum, k: nat)
    requires Sendable(t, data, most) && k < |RtpH264.Plan(t, 0, most)|
    ensures k < |FramePackets(t, data, most, s)| && |FramePackets(t, data, most, s)[k].data| < 0x1_0000
    ensures FrameBuffer.AlwaysHasRoom(FramePackets(t, data, most, s)[k]) <==> RoomFor(RtpH264.Plan(t, 0, most)[k])
  {
    var us := RtpH264.Plan(t, 0, most);
    SentGives(t, data, most);
    PacketIs(RtpH264.Sent(t, data, most), Shares(us, data), s, k);
    RtpH264.PlanGood(t, 0, data, most);
    PlanPlain(t, 0, data, most);
    assert PlainAt(us, k, data);
    PayloadAt(us, k, data, most);
    UnitRoomExactly(us[k], data, most, k == |us| - 1, (s + k) % 0x1_0000);
  }

  // ----- A frame in the receiver's buffer -----

  /** A frame whose packets find room in any order of arrival, in a buffer that has this size to begin with: at most 800
      of them, no more bytes than a buffer can be grown for, and either each payload is of that kind, or the buffer will
      do for the whole frame. */
  predicate Receivable(t: seq<Fragment>, data: seq<byte>, most: nat, size: nat) {
    && Sendable(t, data, most)
    && |RtpH264.Plan(t, 0, most)| <= SessionInfo.MAX_PACKETS
    && 2 * |ByteStream(t, data)| + 170000 <= FrameBuffer.MAX_SIZE
    && (|| (forall k :: 0 <= k < |RtpH264.Plan(t, 0, most)| ==> RoomFor(RtpH264.Plan(t, 0, most)[k]))
        || FrameBuffer.Suffices(size, |ByteStream(t, data)|))
  }

  lemma FrameHasRoom(t: seq<Fragment>, data: seq<byte>, most: nat, s: SessionInfo.seqnum, order: seq<nat>, size: nat)
    requires Receivable(t, data, most, size) && Reassembly.AllBelow(order, |FramePackets(t, data, most, s)|)
    ensures FrameBuffer.RoomAlong(FramePackets(t, data, most, s), order, FrameBuffer.Cleared(size))
    ensures FrameBuffer.NoneTooBig(FramePackets(t, data, most, s), order, FrameBuffer.Cleared(size))
  {
    var us, ps := RtpH264.Plan(t, 0, most), FramePackets(t, data, most, s);
    FrameIsFrame(t, data, most, s);
    forall k | 0 <= k < |ps|
      ensures |ps[k].data| < 0x1_0000 && (FrameBuffer.AlwaysHasRoom(ps[k]) <==> RoomFor(us[k]))
    {
      PacketRoomExactly(t, data, most, s, k);
    }
    FrameBuffer.SmallFramesFit(ps, s, order, size);
    if FrameBuffer.Suffices(size, |ByteStream(t, data)|) {
      FrameBuffer.RoomInLarge(ps, s, order, size);
    } else {
      FrameBuffer.RoomForAll(ps, order, size);
    }
  }

  /** All packets of the frame, each at least once and in whatever order. */
  predicate Delivered(ps: seq<SessionInfo.packet>, order: seq<nat>) {
    Reassembly.AllBelow(order, |ps|) && Reassembly.Whole(ps, order)
  }

  /** An object given out for a frame, whatever it held before, and the frame's packets inserted as they arrive: when
      they have room, the buffer holds the frame as a byte stream at the end. */
  method ReceiveFrame(fb: FrameBuffer.VCMFrameBuffer, ps: seq<SessionInfo.packet>, order: seq<nat>,
                      ghost t: seq<Fragment>, ghost data: seq<byte>, ghost most: nat, ghost s: SessionInfo.seqnum)
    requires Sendable(t, data, most) && |RtpH264.Plan(t, 0, most)| <= SessionInfo.MAX_PACKETS
    requires ps == FramePackets(t, data, most, s) && Delivered(ps, order)
    requires fb.Valid() && FrameBuffer.RoomAlong(ps, order, FrameBuffer.Cleared(fb.buffer.Length))
    requires FrameBuffer.NoneTooBig(ps, order, FrameBuffer.Cleared(fb.buffer.Length))
    modifies fb, fb.buffer, fb.sessionInfo
    ensures fb.Valid() && (fb.buffer == old(fb.buffer) || fresh(fb.buffer))
    ensures fb.buffer[..fb.length] == ByteStream(t, data) && fb.sessionInfo.complete
    ensures fb.sessionInfo.keyFrame <==> WireFormat.KeyAfter(RtpH264.Plan(t, 0, most), data, order)
  {
    FrameArrives(t, data, most, s, order);
    WireFormat.TypeExactly(t, data, most, s, order);
    FrameBuffer.SameSession(ps, order, fb.buffer.Length);
    fb.Reset();
    FrameBuffer.Receive(fb, ps, order);
  }

  // ----- From the encoders -----

  /** A NAL unit that is not empty and not of a type that the payload formats use. */
  predicate Transmittable(p: Piece) {
    p.data != [] && p.data[0] % 32 != RtpH264.STAP_A && p.data[0] % 32 != RtpH264.FU_A
  }

  predicate AllTransmittable(pieces: seq<Piece>) {
    pieces != [] && forall k :: 0 <= k < |pieces| ==> Transmittable(pieces[k])
  }

  /** NAL units, each behind a start code. */
  function Prefixed(pieces: seq<Piece>): (rows: seq<seq<byte>>)
    ensures |rows| == |pieces|
  {
    seq(|pieces|, k requires 0 <= k < |pieces| => [0, 0, 0, 1] + pieces[k].data)
  }

  lemma PieceRow(pieces: seq<Piece>, k: nat)
    requires k < |pieces| && Transmittable(pieces[k])
    ensures var t, data := TableOf(pieces), Joined(pieces);
            RtpH264.InData(t[k], data) && Plain(t[k], data) && Framed(t[k], data) == Prefixed(pieces)[k]
  {
    TableInverts(pieces, k);
    RowIs(TableOf(pieces)[k], Joined(pieces), pieces[k]);
  }

  lemma RowIs(f: Fragment, data: seq<byte>, p: Piece)
    requires f.offset + f.length <= |data| && Cut(data, f) == p.data && Transmittable(p)
    ensures RtpH264.InData(f, data) && Plain(f, data) && Framed(f, data) == [0, 0, 0, 1] + p.data
  {
    assert Cut(data, f)[0] == data[f.offset];
  }

  lemma PiecesSendable(pieces: seq<Piece>, most: nat)
    requires AllTransmittable(pieces) && 3 <= most < 0x1_0000
    ensures Sendable(TableOf(pieces), Joined(pieces), most)
    ensures ByteStream(TableOf(pieces), Joined(pieces)) == Flat(Prefixed(pieces))
  {
    var t, data := TableOf(pieces), Joined(pieces);
    forall k | 0 <= k < |pieces|
      ensures RtpH264.InData(t[k], data) && Plain(t[k], data) && FramedAll(t, data)[k] == Prefixed(pieces)[k]
    {
      PieceRow(pieces, k);
    }
    assert FramedAll(t, data) == Prefixed(pieces);
  }

  /** Whether the payload of theirs that is the last to arrive for the first time counts as one of a key frame. */
  predicate KeyFor(pieces: seq<Piece>, most: nat, order: seq<nat>)
    requires most >= 3
  {
    WireFormat.KeyAfter(RtpH264.Plan(TableOf(pieces), 0, most), Joined(pieces), order)
  }

  /** A delivery of such NAL units that can be received: its packets, all of them and in whatever order, leave the NAL
      units in the buffer, in order, each behind a start code. */
  method ReceivePieces(fb: FrameBuffer.VCMFrameBuffer, ps: seq<SessionInfo.packet>, order: seq<nat>,
                       ghost pieces: seq<Piece>, ghost most: nat, ghost s: SessionInfo.seqnum)
    requires fb.Valid() && AllTransmittable(pieces)
    requires Receivable(TableOf(pieces), Joined(pieces), most, fb.buffer.Length)
    requires ps == FramePackets(TableOf(pieces), Joined(pieces), most, s) && Delivered(ps, order)
    modifies fb, fb.buffer, fb.sessionInfo
    ensures fb.Valid() && (fb.buffer == old(fb.buffer) || fresh(fb.buffer))
    ensures fb.buffer[..fb.length] == Flat(Prefixed(pieces)) && fb.sessionInfo.complete
    ensures fb.sessionInfo.keyFrame <==> KeyFor(pieces, most, order)
  {
    PiecesSendable(pieces, most);
    FrameHasRoom(TableOf(pieces), Joined(pieces), most, s, order, fb.buffer.Length);
    ReceiveFrame(fb, ps, order, TableOf(pieces), Joined(pieces), most, s);
  }

  /** The packets in which a delivery is sent to a receiver whose buffer has this size. */
  predicate SentAs(ps: seq<SessionInfo.packet>, d: Delivery, most: nat, s: SessionInfo.seqnum, size: nat) {
    Receivable(d.table, d.bytes, most, size) && ps == FramePackets(d.table, d.bytes, most, s)
  }

  lemma SomeBytes(pieces: seq<Piece>)
    requires AllTransmittable(pieces)
    ensures Joined(pieces) != []
  {
    PieceRow(pieces, 0);
  }

  /** From x264: of a frame that Encode delivers, the receiver's buffer holds the NAL units that x264 returned, with
      start codes in place of their prefixes. */
  method ReceiveX264(fb: FrameBuffer.VCMFrameBuffer, ps: seq<SessionInfo.packet>, order: seq<nat>,
                     ghost v: H264Encoder.View, ghost f: H264Encoder.Frame, ghost d: Delivery,
                     ghost most: nat, ghost s: SessionInfo.seqnum)
    requires f.size > 0 && f.HasPrefixes() && AllTransmittable(H264Encoder.Stripped(f.nals))
    requires H264Encoder.Step(v, f).delivered == v.delivered + [d]
    requires fb.Valid() && SentAs(ps, d, most, s, fb.buffer.Length) && Delivered(ps, order)
    modifies fb, fb.buffer, fb.sessionInfo
    ensures fb.Valid() && (fb.buffer == old(fb.buffer) || fresh(fb.buffer))
    ensures fb.buffer[..fb.length] == Flat(Prefixed(H264Encoder.Stripped(f.nals)))
    ensures fb.sessionInfo.complete
    ensures fb.sessionInfo.keyFrame <==> KeyFor(H264Encoder.Stripped(f.nals), most, order)
  {
    X264Delivers(v, f);
    assert d == (v.delivered + [d])[|v.delivered|];
    ReceivePieces(fb, ps, order, H264Encoder.Stripped(f.nals), most, s);
  }

  lemma X264Delivers(v: H264Encoder.View, f: H264Encoder.Frame)
    requires f.size > 0 && f.HasPrefixes() && AllTransmittable(H264Encoder.Stripped(f.nals))
    ensures H264Encoder.Step(v, f).delivered == v.delivered + [H264Encoder.Packed(H264Encoder.Stripped(f.nals))]
  {
    SomeBytes(H264Encoder.Stripped(f.nals));
  }

  // ----- From OpenH264 -----

  /** NAL unit k of a layer begins with the start code of four bytes, and can be sent: it is not empty and not of type
      14, 24 or 28. */
  predicate UsableAt(layer: OpenH264.Layer, k: nat)
    requires OpenH264.Holds(layer) && k < |layer.lengths|
  {
    OpenH264.SizesGrow(layer.lengths, k + 1);
    var begin, nal := OpenH264.LayerSize(layer.lengths, k), OpenH264.NalBytes(layer, k);
    && layer.bs[begin..begin + 4] == [0, 0, 0, 1]
    && Transmittable(Piece(nal, nal[0] % 32)) && nal[0] % 32 != OpenH264.PREFIX_NAL
  }

  /** A layer of up to two such NAL units. */
  predicate Usable(layer: OpenH264.Layer) {
    && OpenH264.Holds(layer) && |layer.lengths| <= 2
    && forall k :: 0 <= k < |layer.lengths| ==> UsableAt(layer, k)
  }

  predicate AllUsable(layers: seq<OpenH264.Layer>) {
    forall l :: l in layers ==> OpenH264.Holds(l) && Usable(l)
  }

  /** What OpenH264 wrote: the NAL units of all layers, with their start codes. */
  function Bitstream(layers: seq<OpenH264.Layer>): seq<byte>
    requires forall l :: l in layers ==> OpenH264.Holds(l)
  {
    if layers == [] then []
    else
      var last := layers[|layers| - 1];
      assert OpenH264.Holds(last);
      Bitstream(layers[..|layers| - 1]) + last.bs[..OpenH264.LayerSize(last.lengths, |last.lengths|)]
  }

  lemma PrefixedOne(pieces: seq<Piece>, p: Piece)
    ensures Flat(Prefixed(pieces + [p])) == Flat(Prefixed(pieces)) + ([0, 0, 0, 1] + p.data)
  {
    PrefixedBoth(pieces, [p]);
    assert Prefixed([p]) == [[0, 0, 0, 1] + p.data];
    FlatOne([0, 0, 0, 1] + p.data);
  }

  lemma PrefixedBoth(a: seq<Piece>, b: seq<Piece>)
    ensures Flat(Prefixed(a + b)) == Flat(Prefixed(a)) + Flat(Prefixed(b))
  {
    assert Prefixed(a + b) == Prefixed(a) + Prefixed(b);
    FlatSplit(Prefixed(a), Prefixed(b));
  }

  lemma TransmittableBoth(a: seq<Piece>, b: seq<Piece>)
    requires (a == [] || AllTransmittable(a)) && (b == [] || AllTransmittable(b))
    ensures a + b == [] || AllTransmittable(a + b)
  {
  }

  lemma OnePiece(layer: OpenH264.Layer, k: nat)
    requires OpenH264.Holds(layer) && k < |layer.lengths| && UsableAt(layer, k)
    ensures OpenH264.LayerSize(layer.lengths, k) <= OpenH264.LayerSize(layer.lengths, k + 1) <= |layer.bs|
    ensures layer.bs[OpenH264.LayerSize(layer.lengths, k)..OpenH264.LayerSize(layer.lengths, k + 1)]
         == [0, 0, 0, 1] + OpenH264.NalBytes(layer, k)
  {
    OpenH264.SizesGrow(layer.lengths, k + 1);
  }

  /** What is to be shown of the first k NAL units of a layer. */
  predicate StreamTo(layer: OpenH264.Layer, k: nat)
    requires OpenH264.Holds(layer) && k <= |layer.lengths|
  {
    && (k > 0 ==> AllTransmittable(OpenH264.OwnPieces(layer, k)))
    && |OpenH264.OwnPieces(layer, k)| == k && OpenH264.LayerSize(layer.lengths, k) <= |layer.bs|
    && Flat(Prefixed(OpenH264.OwnPieces(layer, k))) == layer.bs[..OpenH264.LayerSize(layer.lengths, k)]
  }

  lemma StreamNext(layer: OpenH264.Layer, k: nat)
    requires OpenH264.Holds(layer) && k < |layer.lengths| && UsableAt(layer, k) && StreamTo(layer, k)
    ensures StreamTo(layer, k + 1)
  {
    var nal := OpenH264.NalBytes(layer, k);
    var pieces, p := OpenH264.OwnPieces(layer, k), Piece(nal, nal[0] % 32);
    OnePiece(layer, k);
    PrefixedOne(pieces, p);
    TransmittableBoth(pieces, [p]);
    OwnPiecesNext(layer, k, p);
    UpTo(layer.bs, OpenH264.LayerSize(layer.lengths, k), OpenH264.LayerSize(layer.lengths, k + 1));
  }

  lemma OwnPiecesNext(layer: OpenH264.Layer, k: nat, p: Piece)
    requires OpenH264.Holds(layer) && k < |layer.lengths| && UsableAt(layer, k)
    requires p.data == OpenH264.NalBytes(layer, k) && p.plType == p.data[0] % 32
    ensures OpenH264.OwnPieces(layer, k + 1) == OpenH264.OwnPieces(layer, k) + [p]
  {
  }

  lemma UpTo(bs: seq<byte>, a: nat, b: nat)
    requires a <= b <= |bs|
    ensures bs[..b] == bs[..a] + bs[a..b]
  {
  }

  lemma {:induction false} LayerStream(layer: OpenH264.Layer, k: nat)
    requires Usable(layer) && k <= |layer.lengths|
    ensures StreamTo(layer, k)
  {
    if k > 0 {
      LayerStream(layer, k - 1);
      assert UsableAt(layer, k - 1);
      StreamNext(layer, k - 1);
    }
  }

  lemma {:induction false} LayersStream(layers: seq<OpenH264.Layer>)
    requires AllUsable(layers)
    ensures OpenH264.OwnPiecesOf(layers) == [] || AllTransmittable(OpenH264.OwnPiecesOf(layers))
    ensures |OpenH264.OwnPiecesOf(layers)| == OpenH264.NalCount(layers)
    ensures Flat(Prefixed(OpenH264.OwnPiecesOf(layers))) == Bitstream(layers)
  {
    if layers != [] {
      var front, last := layers[..|layers| - 1], layers[|layers| - 1];
      LayersStream(front);
      LayerStream(last, |last.lengths|);
      PrefixedBoth(OpenH264.OwnPiecesOf(front), OpenH264.OwnPieces(last, |last.lengths|));
      TransmittableBoth(OpenH264.OwnPiecesOf(front), OpenH264.OwnPieces(last, |last.lengths|));
    }
  }

  lemma OpenH264Delivers(layers: seq<OpenH264.Layer>)
    requires OpenH264.NalCount(layers) > 0 && AllUsable(layers)
    ensures forall l :: l in layers ==> OpenH264.Readable(l)
    ensures AllTransmittable(OpenH264.OwnPiecesOf(layers))
    ensures OpenH264.Outcome(layers) == [H264Encoder.Packed(OpenH264.OwnPiecesOf(layers))]
  {
    LayersStream(layers);
    OpenH264.SmallFramesArePacked(layers);
    SomeBytes(OpenH264.OwnPiecesOf(layers));
    OutcomeIs(layers, OpenH264.OwnPiecesOf(layers), []);
    assert TableOf(OpenH264.OwnPiecesOf(layers)) + [] == TableOf(OpenH264.OwnPiecesOf(layers));
  }

  lemma OutcomeIs(layers: seq<OpenH264.Layer>, pieces: seq<Piece>, rest: seq<Fragment>)
    requires forall l :: l in layers ==> OpenH264.Readable(l)
    requires OpenH264.KeptAll(layers) == pieces && Joined(pieces) != []
    requires rest == seq(OpenH264.NalCount(layers) - |pieces|, _ => NO_FRAGMENT)
    ensures OpenH264.Outcome(layers) == [Delivery(Joined(pieces), TableOf(pieces) + rest)]
  {
  }

  /** The encoder calls back once for the frame, with this delivery. */
  predicate CallsBackWith(layers: seq<OpenH264.Layer>, d: Delivery) {
    (forall l :: l in layers ==> OpenH264.Readable(l)) && OpenH264.Outcome(layers) == [d]
  }

  /** From OpenH264: of a frame that has NAL units, but no more than two to a layer and none of type 14, the receiver's
      buffer holds byte for byte what the encoder wrote. */
  method ReceiveOpenH264(fb: FrameBuffer.VCMFrameBuffer, ps: seq<SessionInfo.packet>, order: seq<nat>,
                         ghost layers: seq<OpenH264.Layer>, ghost d: Delivery, ghost most: nat,
                         ghost s: SessionInfo.seqnum)
    requires OpenH264.NalCount(layers) > 0 && AllUsable(layers) && CallsBackWith(layers, d)
    requires fb.Valid() && SentAs(ps, d, most, s, fb.buffer.Length) && Delivered(ps, order)
    modifies fb, fb.buffer, fb.sessionInfo
    ensures fb.Valid() && (fb.buffer == old(fb.buffer) || fresh(fb.buffer))
    ensures fb.buffer[..fb.length] == Bitstream(layers) && fb.sessionInfo.complete
    ensures fb.sessionInfo.keyFrame <==> KeyFor(OpenH264.OwnPiecesOf(layers), most, order)
  {
    OpenH264Delivers(layers);
    LayersStream(layers);
    ReceivePieces(fb, ps, order, OpenH264.OwnPiecesOf(layers), most, s);
  }

  // ----- The objects from end to end -----

  /** A payload as the receiver gets it, read and made a packet. */
  method MakePacket(p: RtpH264.Payload, number: SessionInfo.seqnum, ghost share: seq<byte>)
    returns (packet: SessionInfo.packet)
    requires Gives(p.bytes, share)
    ensures packet == Packet(p, number, share)
  {
    var payload := new byte[|p.bytes|](i requires 0 <= i < |p.bytes| => p.bytes[i]);
    assert payload[..] == p.bytes;
    assert p == RtpH264.Payload(p.bytes, p.marker);
    assert PacketGives(p, number, share);
    var parsed := RtpH264.Parse(payload);
    packet := SessionInfo.VCMPacket(number, parsed.data, parsed.first, parsed.stapA, p.marker, parsed.key);
  }

  /** All payloads of a frame, numbered on from s. */
  method MakePackets(sent: seq<RtpH264.Payload>, s: SessionInfo.seqnum, ghost shares: seq<seq<byte>>)
    returns (ps: seq<SessionInfo.packet>)
    requires AllGive(sent, shares)
    ensures ps == Packets(sent, shares, s)
  {
    ps := [];
    ghost var all := Packets(sent, shares, s);
    for k := 0 to |sent|
      invariant ps == all[..k]
    {
      var packet := MakePacket(sent[k], (s + k) % 0x1_0000, shares[k]);
      ps := ps + [packet];
    }
    assert all[..|sent|] == all;
  }

  /** A delivery cut into payloads, and those read on arrival. */
  method Transmit(d: Delivery, most: nat, s: SessionInfo.seqnum) returns (ps: seq<SessionInfo.packet>)
    requires Sendable(d.table, d.bytes, most)
    ensures ps == FramePackets(d.table, d.bytes, most, s)
  {
    SentGives(d.table, d.bytes, most);
    var ok, sent := RtpH264.SendH264(d.bytes, d.table, most);
    ps := MakePackets(sent, s, Shares(RtpH264.Plan(d.table, 0, most), d.bytes));
  }

  /** What a frame has to be like for its pieces to reach a receiver whose buffer has this size. */
  predicate Reaches(pieces: seq<Piece>, most: nat, s: SessionInfo.seqnum, order: seq<nat>, size: nat) {
    && AllTransmittable(pieces) && Receivable(TableOf(pieces), Joined(pieces), most, size)
    && Delivered(FramePackets(TableOf(pieces), Joined(pieces), most, s), order)
  }

  /** A frame of x264 through the objects: Encode, SendH264, Parse, and InsertPacket in the order of arrival. */
  method CarryX264(encoder: H264Encoder.H264EncoderImpl, iFrameSize: int, nals: seq<H264Encoder.Nal>, most: nat,
                   s: SessionInfo.seqnum, order: seq<nat>, fb: FrameBuffer.VCMFrameBuffer)
    requires encoder.Valid() && encoder.open && iFrameSize > 0
    requires H264Encoder.Frame(iFrameSize, nals).Fits(encoder.encodedImage.buffer.Length)
    requires fb.Valid() && fb.buffer != encoder.encodedImage.buffer
    requires Reaches(H264Encoder.Stripped(nals), most, s, order, fb.buffer.Length)
    modifies encoder`open, encoder`frames, encoder`delivered
    modifies encoder.encodedImage`length, encoder.encodedImage.buffer
    modifies fb, fb.buffer, fb.sessionInfo
    ensures encoder.Valid() && encoder.open
    ensures encoder.delivered == old(encoder.delivered) + [H264Encoder.Packed(H264Encoder.Stripped(nals))]
    ensures fb.Valid() && (fb.buffer == old(fb.buffer) || fresh(fb.buffer))
    ensures fb.buffer[..fb.length] == Flat(Prefixed(H264Encoder.Stripped(nals)))
    ensures fb.sessionInfo.complete
    ensures fb.sessionInfo.keyFrame <==> KeyFor(H264Encoder.Stripped(nals), most, order)
  {
    ghost var pieces := H264Encoder.Stripped(nals);
    X264Delivers(encoder.Seen(), H264Encoder.Frame(iFrameSize, nals));
    var status := encoder.EncodeX264(iFrameSize, nals);
    var ps := Transmit(encoder.delivered[|encoder.delivered| - 1], most, s);
    ReceivePieces(fb, ps, order, pieces, most, s);
  }

  /** A frame of OpenH264 through the objects. */
  method CarryOpenH264(encoder: OpenH264.H264EncoderImpl, layers: seq<OpenH264.Layer>, most: nat,
                       s: SessionInfo.seqnum, order: seq<nat>, fb: FrameBuffer.VCMFrameBuffer)
    requires encoder.Valid() && AllUsable(layers) && 0 < OpenH264.NalCount(layers) < 0x1_0000
    requires |Joined(OpenH264.OwnPiecesOf(layers))| <= encoder.encodedImage.buffer.Length
    requires fb.Valid() && fb.buffer != encoder.encodedImage.buffer
    requires Reaches(OpenH264.OwnPiecesOf(layers), most, s, order, fb.buffer.Length)
    modifies encoder`delivered, encoder.encodedImage`length, encoder.encodedImage.buffer
    modifies fb, fb.buffer, fb.sessionInfo
    ensures encoder.Valid()
    ensures encoder.delivered == old(encoder.delivered) + [H264Encoder.Packed(OpenH264.OwnPiecesOf(layers))]
    ensures fb.Valid() && (fb.buffer == old(fb.buffer) || fresh(fb.buffer))
    ensures fb.buffer[..fb.length] == Bitstream(layers) && fb.sessionInfo.complete
    ensures fb.sessionInfo.keyFrame <==> KeyFor(OpenH264.OwnPiecesOf(layers), most, order)
  {
    ghost var pieces := OpenH264.OwnPiecesOf(layers);
    OpenH264Delivers(layers);
    OpenH264.SmallFramesArePacked(layers);
    LayersStream(layers);
    var status := encoder.Encode(layers);
    var ps := Transmit(encoder.delivered[|encoder.delivered| - 1], most, s);
    ReceivePieces(fb, ps, order, pieces, most, s);
  }

  // ----- What the packetizer accepts -----

  /** The table OpenH264's branch hands over is one the packetizer accepts, which asserts that no row is empty, exactly
      when no NAL unit is taken for a prefix NAL unit and all are longer than their start codes. */
  lemma AcceptedExactly(layers: seq<OpenH264.Layer>)
    requires forall l :: l in layers ==> OpenH264.Readable(l)
    requires OpenH264.Outcome(layers) != []
    ensures var d := OpenH264.Outcome(layers)[0];
            RtpH264.AllInData(d.table, d.bytes) <==>
              forall l, k :: l in layers && 0 <= k < |l.lengths| ==>
                               !OpenH264.TakenForPrefix(l, k) && l.lengths[k] > 4
  {
    OpenH264.FillsAllRowsExactly(layers);
    AcceptedWhen(layers);
    if OpenH264.LeftOut(layers) == 0 {
      OpenH264.FrameNotEmpty(layers);
      assert forall l :: l in layers && OpenH264.LongFrom(l, |l.lengths|) ==>
                           forall k :: 0 <= k < |l.lengths| ==> l.lengths[k] > 4;
    }
  }

  lemma AcceptedWhen(layers: seq<OpenH264.Layer>)
    requires forall l :: l in layers ==> OpenH264.Readable(l)
    requires OpenH264.Outcome(layers) != []
    ensures var d := OpenH264.Outcome(layers)[0];
            RtpH264.AllInData(d.table, d.bytes) <==>
              OpenH264.LeftOut(layers) == 0 && OpenH264.NoneEmpty(OpenH264.KeptAll(layers))
  {
    var d, pieces := OpenH264.Outcome(layers)[0], OpenH264.KeptAll(layers);
    forall k | 0 <= k < |pieces|
      ensures RtpH264.InData(d.table[k], d.bytes) <==> pieces[k].data != []
    {
      TableInverts(pieces, k);
    }
    if OpenH264.LeftOut(layers) > 0 {
      assert d.table[|pieces|] == NO_FRAGMENT;
    }
  }

  /** A prefix NAL unit and a slice behind it: the second row of the table stands for nothing, and is refused. */
  lemma PrefixNalRefused(layer: OpenH264.Layer)
    requires layer.lengths == [5, 5] && layer.bs == [0, 0, 0, 1, 14, 0, 0, 0, 1, 5]
    ensures OpenH264.Readable(layer)
    ensures OpenH264.Outcome([layer]) == [Delivery([5], [Fragment(0, 1, 5, 0), NO_FRAGMENT])]
    ensures var d := OpenH264.Outcome([layer])[0];
            !RtpH264.AllInData(d.table, d.bytes)
  {
    PrefixNalPieces(layer);
    var p := Piece([5], 5);
    LayerAlone(layer);
    H264Encoder.OneTable(p);
    OutcomeIs([layer], [p], [NO_FRAGMENT]);
    EmptyRowRefused(Fragment(0, 1, 5, 0), p.data);
  }

  lemma EmptyRowRefused(f: Fragment, data: seq<byte>)
    ensures [f] + [NO_FRAGMENT] == [f, NO_FRAGMENT] && !RtpH264.AllInData([f, NO_FRAGMENT], data)
  {
    assert !RtpH264.InData([f, NO_FRAGMENT][1], data);
  }

  lemma LayerAlone(layer: OpenH264.Layer)
    requires OpenH264.Holds(layer) && |layer.lengths| <= 2
    ensures OpenH264.Readable(layer) && OpenH264.KeptAll([layer]) == OpenH264.OwnPieces(layer, |layer.lengths|)
    ensures OpenH264.NalCount([layer]) == |layer.lengths|
  {
    assert [layer][..0] == [];
    OpenH264.SmallLayersArePacked(layer);
    assert OpenH264.KeptAll([layer]) == OpenH264.KeptAll([]) + OpenH264.Kept(layer);
  }

  lemma PrefixNalPieces(layer: OpenH264.Layer)
    requires layer.lengths == [5, 5] && layer.bs == [0, 0, 0, 1, 14, 0, 0, 0, 1, 5]
    ensures OpenH264.Holds(layer) && OpenH264.OwnPieces(layer, 2) == [Piece([5], 5)]
  {
    assert OpenH264.LayerSize(layer.lengths, 0) == 0;
    assert OpenH264.LayerSize(layer.lengths, 1) == 5;
    assert OpenH264.LayerSize(layer.lengths, 2) == 10;
    assert OpenH264.NalBytes(layer, 0) == [14];
    assert OpenH264.NalBytes(layer, 1) == [5];
    assert OpenH264.OwnPieces(layer, 1) == [];
  }
}

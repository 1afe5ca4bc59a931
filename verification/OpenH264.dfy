/** H264EncoderImpl::Encode of h264_impl.cc in the variant built on OpenH264: one pass over the layers of a frame counts
    the NAL units, a second packs them. */
module OpenH264 {
  import opened Bits
  import opened Fragments
  import opened Sequences

  /** SLayerBSInfo, as far as Encode reads it: the memory at pBsBuf and the NAL lengths. */
  datatype Layer = Layer(bs: seq<byte>, lengths: seq<nat>)

  datatype Status = Ok

  /** The first k NAL lengths of a layer added up: `layer_size` after k rounds. */
  function LayerSize(lengths: seq<nat>, k: nat): nat
    requires k <= |lengths|
  {
    if k == 0 then 0 else LayerSize(lengths, k - 1) + lengths[k - 1]
  }

  /** Where in the layer's memory round k reads: `nal_begin`, which each round moves on by `layer_size`. */
  function NalBegin(lengths: seq<nat>, k: nat): nat
    requires k <= |lengths|
  {
    if k == 0 then 4 else NalBegin(lengths, k - 1) + LayerSize(lengths, k)
  }

  /** Where NAL unit k of the layer starts, behind its start code. */
  function NalStart(lengths: seq<nat>, k: nat): nat
    requires k <= |lengths|
  {
    LayerSize(lengths, k) + 4
  }

  /** NAL unit k has a start code, and round k of the loop reads within the layer's memory. */
  predicate ReadableAt(layer: Layer, k: nat)
    requires k < |layer.lengths|
  {
    && layer.lengths[k] >= 4
    && NalBegin(layer.lengths, k) < |layer.bs|
    && NalBegin(layer.lengths, k) + layer.lengths[k] - 4 <= |layer.bs|
  }

  predicate Readable(layer: Layer) {
    forall k :: 0 <= k < |layer.lengths| ==> ReadableAt(layer, k)
  }

  /** `nal_buffer[0] & 0x1F` for a NAL unit taken to start at `at`. */
  function TypeAt(layer: Layer, at: nat): byte
    requires at < |layer.bs|
  {
    layer.bs[at] % 32
  }

  /** Type 14, a prefix NAL unit, is left out. */
  const PREFIX_NAL: byte := 14

  function PieceAt(layer: Layer, at: nat, length: nat): seq<Piece>
    requires at < |layer.bs| && length >= 4 && at + length - 4 <= |layer.bs|
  {
    if TypeAt(layer, at) == PREFIX_NAL then [] else [Piece(layer.bs[at..at + length - 4], TypeAt(layer, at))]
  }

  /** What round k of the fill pass keeps. */
  function Round(layer: Layer, k: nat): (pieces: seq<Piece>)
    requires k < |layer.lengths| && ReadableAt(layer, k)
    ensures |pieces| <= 1
  {
    PieceAt(layer, NalBegin(layer.lengths, k), layer.lengths[k])
  }

  function Rounds(layer: Layer): (rounds: seq<seq<Piece>>)
    requires Readable(layer)
    ensures |rounds| == |layer.lengths|
    ensures forall k :: 0 <= k < |rounds| ==> |rounds[k]| <= 1
  {
    seq(|layer.lengths|, k requires 0 <= k < |layer.lengths| && ReadableAt(layer, k) => Round(layer, k))
  }

  /** What all of them keep of a layer. */
  function Kept(layer: Layer): seq<Piece>
    requires Readable(layer)
  {
    Flat(Rounds(layer))
  }

  function KeptAll(layers: seq<Layer>): (pieces: seq<Piece>)
    requires forall l :: l in layers ==> Readable(l)
    ensures |pieces| <= NalCount(layers)
  {
    if layers == [] then []
    else
      var front, last := layers[..|layers| - 1], layers[|layers| - 1];
      FlatCount(Rounds(last));
      KeptAll(front) + Kept(last)
  }

  lemma {:induction false} FlatCount(rounds: seq<seq<Piece>>)
    requires forall k :: 0 <= k < |rounds| ==> |rounds[k]| <= 1
    ensures |Flat(rounds)| <= |rounds|
  {
    if rounds != [] {
      FlatCount(rounds[..|rounds| - 1]);
    }
  }

  /** The count pass: all NAL units, those of type 14 too. */
  function NalCount(layers: seq<Layer>): nat {
    if layers == [] then 0 else NalCount(layers[..|layers| - 1]) + |layers[|layers| - 1].lengths|
  }

  /** What a frame's callback is given: the kept pieces, and a table with an empty row for each one left out. */
  function Outcome(layers: seq<Layer>): seq<Delivery>
    requires forall l :: l in layers ==> Readable(l)
  {
    var pieces := KeptAll(layers);
    if Joined(pieces) == [] then []
    else [Delivery(Joined(pieces), TableOf(pieces) + seq(NalCount(layers) - |pieces|, _ => NO_FRAGMENT))]
  }

  // ----- The code -----

  class H264EncoderImpl {
    const encodedImage: EncodedImage
    var delivered: seq<Delivery>

    ghost predicate Valid()
      reads this, encodedImage
    {
      encodedImage.Valid()
    }

    constructor (size: nat)
      ensures Valid() && fresh(encodedImage) && fresh(encodedImage.buffer)
      ensures encodedImage.buffer.Length == size && delivered == []
    {
      encodedImage := new EncodedImage(size);
      delivered := [];
    }

    /** Encode after EncodeFrame has returned a frame that is not to be skipped. */
    method Encode(layers: seq<Layer>) returns (status: Status)
      requires Valid()
      requires forall l :: l in layers ==> Readable(l)
      requires NalCount(layers) < 0x1_0000 && |Joined(KeptAll(layers))| <= encodedImage.buffer.Length
      modifies this`delivered, encodedImage`length, encodedImage.buffer
      ensures Valid() && delivered == old(delivered) + Outcome(layers)
      ensures encodedImage.Bytes()
           == if NalCount(layers) > 0 then Joined(KeptAll(layers)) else old(encodedImage.Bytes())
    {
      var totalNaluCount := CountPass(layers);
      if totalNaluCount == 0 {
        return Ok;
      }
      var fragInfo := Allocate(totalNaluCount);
      FillPass(encodedImage, fragInfo, layers);
      Deliver(fragInfo, layers);
      return Ok;
    }

    /** The end of Encode: the callback, for an image that is not empty. */
    method Deliver(fragInfo: RTPFragmentationHeader, ghost layers: seq<Layer>)
      requires Valid() && fragInfo.Valid()
      requires forall l :: l in layers ==> Readable(l)
      requires Filled(encodedImage, fragInfo, KeptAll(layers)) && fragInfo.size == NalCount(layers)
      modifies this`delivered
      ensures delivered == old(delivered) + Outcome(layers)
    {
      if encodedImage.length > 0 {
        delivered := delivered + [Delivery(encodedImage.buffer[..encodedImage.length], fragInfo.Table())];
      }
    }
  }

  method CountPass(layers: seq<Layer>) returns (totalNaluCount: nat)
    ensures totalNaluCount == NalCount(layers)
  {
    totalNaluCount := 0;
    var layer := 0;
    while layer < |layers|
      invariant layer <= |layers| && totalNaluCount == NalCount(layers[..layer])
    {
      totalNaluCount := totalNaluCount + |layers[layer].lengths|;
      layer := layer + 1;
      assert layers[..layer][..layer - 1] == layers[..layer - 1];
    }
    assert layers[..layer] == layers;
  }

  method Allocate(totalNaluCount: nat) returns (fragInfo: RTPFragmentationHeader)
    requires totalNaluCount < 0x1_0000
    ensures fresh(fragInfo) && fresh(fragInfo.Arrays()) && fragInfo.Valid()
    ensures fragInfo.size == totalNaluCount && fragInfo.Table() == seq(totalNaluCount, _ => NO_FRAGMENT)
  {
    fragInfo := new RTPFragmentationHeader();
    fragInfo.VerifyAndAllocate(totalNaluCount);
  }

  method FillPass(image: EncodedImage, fragInfo: RTPFragmentationHeader, layers: seq<Layer>)
    requires forall l :: l in layers ==> Readable(l)
    requires image.Valid() && |Joined(KeptAll(layers))| <= image.buffer.Length
    requires fragInfo.Valid() && fragInfo.size == NalCount(layers)
    requires fragInfo.Table() == seq(fragInfo.size, _ => NO_FRAGMENT)
    requires image.buffer !in fragInfo.Arrays()
    modifies image`length, image.buffer, fragInfo.offset, fragInfo.length, fragInfo.timeDiff, fragInfo.plType
    ensures image.Valid() && fragInfo.Valid()
    ensures Filled(image, fragInfo, KeptAll(layers)) && fragInfo.size == NalCount(layers)
  {
    image.length := 0;
    var layer := 0;
    var totalNaluIndex := 0;
    ghost var done: seq<Piece> := [];
    assert Filled(image, fragInfo, done);
    while layer < |layers|
      invariant layer <= |layers| && done == KeptAll(layers[..layer]) && totalNaluIndex == |done|
      invariant image.Valid() && fragInfo.Valid() && Filled(image, fragInfo, done)
    {
      LayerFits(layers, layer, done, image.buffer.Length);
      totalNaluIndex := FillLayer(image, fragInfo, layers[layer], totalNaluIndex, done);
      done := done + Kept(layers[layer]);
      layer := layer + 1;
    }
    assert layers[..layer] == layers;
  }

  lemma LayerFits(layers: seq<Layer>, k: nat, done: seq<Piece>, room: nat)
    requires k < |layers| && (forall l :: l in layers ==> Readable(l)) && done == KeptAll(layers[..k])
    requires |Joined(KeptAll(layers))| <= room
    ensures KeptAll(layers[..k + 1]) == done + Kept(layers[k])
    ensures HasRoom(layers[k], done, room) && |done| + |layers[k].lengths| <= NalCount(layers)
  {
    LayerNext(layers, k);
    LayersGrow(layers, k + 1);
  }

  lemma LayerNext(layers: seq<Layer>, k: nat)
    requires k < |layers| && forall l :: l in layers ==> Readable(l)
    ensures KeptAll(layers[..k + 1]) == KeptAll(layers[..k]) + Kept(layers[k])
    ensures NalCount(layers[..k + 1]) == NalCount(layers[..k]) + |layers[k].lengths|
  {
    assert layers[..k + 1][..k] == layers[..k];
  }

  lemma {:induction false} LayersGrow(layers: seq<Layer>, k: nat)
    requires k <= |layers| && forall l :: l in layers ==> Readable(l)
    ensures |Joined(KeptAll(layers[..k]))| <= |Joined(KeptAll(layers))|
    ensures NalCount(layers[..k]) <= NalCount(layers)
    decreases |layers| - k
  {
    if k < |layers| {
      LayerNext(layers, k);
      JoinedSplit(KeptAll(layers[..k]), Kept(layers[k]));
      LayersGrow(layers, k + 1);
    } else {
      assert layers[..k] == layers;
    }
  }

  lemma {:induction false} FlatGrows(rounds: seq<seq<Piece>>, k: nat)
    requires k <= |rounds|
    ensures |Joined(Flat(rounds[..k]))| <= |Joined(Flat(rounds))|
    decreases |rounds| - k
  {
    if k < |rounds| {
      FlatNext(rounds, k);
      JoinedSplit(Flat(rounds[..k]), rounds[k]);
      FlatGrows(rounds, k + 1);
    } else {
      assert rounds[..k] == rounds;
    }
  }

  lemma RoomFor(before: seq<Piece>, a: seq<Piece>, b: seq<Piece>, all: seq<Piece>)
    requires |Joined(a + b)| <= |Joined(all)|
    ensures |Joined(before + a)| + |Joined(b)| <= |Joined(before + all)|
  {
    JoinedSplit(before, all);
    JoinedSplit(before, a);
    JoinedSplit(a, b);
  }

  predicate RoundIs(layer: Layer, k: nat, kept: seq<Piece>)
    requires k < |layer.lengths|
  {
    ReadableAt(layer, k) && kept == Round(layer, k)
  }

  lemma RoundsAre(layer: Layer)
    requires Readable(layer)
    ensures forall k :: 0 <= k < |layer.lengths| ==> RoundIs(layer, k, Rounds(layer)[k])
  {
    forall k | 0 <= k < |layer.lengths|
      ensures RoundIs(layer, k, Rounds(layer)[k])
    {
      assert ReadableAt(layer, k);
    }
  }

  /** What is packed once k rounds of a layer have been added to what was packed before. */
  function Packed(layer: Layer, before: seq<Piece>, k: nat): seq<Piece>
    requires Readable(layer) && k <= |layer.lengths|
  {
    before + Flat(Rounds(layer)[..k])
  }

  predicate HasRoom(layer: Layer, before: seq<Piece>, room: nat) {
    Readable(layer) && |Joined(before + Kept(layer))| <= room
  }

  /** Each round fits where all that is kept does. */
  lemma RoundFits(layer: Layer, before: seq<Piece>, k: nat, room: nat)
    requires HasRoom(layer, before, room) && k < |layer.lengths|
    ensures ReadableAt(layer, k)
    ensures var kept := PieceAt(layer, NalBegin(layer.lengths, k), layer.lengths[k]);
            && Packed(layer, before, k + 1) == Packed(layer, before, k) + kept
            && |Joined(Packed(layer, before, k))| + |Joined(kept)| <= room
            && |kept| <= 1
  {
    var rounds := Rounds(layer);
    RoundsAre(layer);
    assert RoundIs(layer, k, rounds[k]);
    FlatNext(rounds, k);
    FlatGrows(rounds, k + 1);
    RoomFor(before, Flat(rounds[..k]), rounds[k], Flat(rounds));
    assert before + (Flat(rounds[..k]) + rounds[k]) == before + Flat(rounds[..k]) + rounds[k];
  }

  lemma FirstAndLast(layer: Layer, before: seq<Piece>)
    requires Readable(layer)
    ensures Packed(layer, before, 0) == before
    ensures Packed(layer, before, |layer.lengths|) == before + Kept(layer)
  {
    assert Rounds(layer)[..|layer.lengths|] == Rounds(layer);
  }

  /** A layer's share of the fill pass. */
  method FillLayer(image: EncodedImage, fragInfo: RTPFragmentationHeader, layer: Layer, index: nat,
                   ghost before: seq<Piece>) returns (totalNaluIndex: nat)
    requires HasRoom(layer, before, image.buffer.Length)
    requires image.Valid() && fragInfo.Valid() && image.buffer !in fragInfo.Arrays()
    requires Filled(image, fragInfo, before) && index == |before| && index + |layer.lengths| <= fragInfo.size
    modifies image`length, image.buffer, fragInfo.offset, fragInfo.length, fragInfo.timeDiff, fragInfo.plType
    ensures image.Valid() && fragInfo.Valid()
    ensures Filled(image, fragInfo, before + Kept(layer))
    ensures totalNaluIndex == |before + Kept(layer)|
  {
    totalNaluIndex := index;
    var layerSize := 0;
    var nalBegin := 4;
    ghost var done := before;
    FirstAndLast(layer, before);
    for nalIndex := 0 to |layer.lengths|
      invariant layerSize == LayerSize(layer.lengths, nalIndex) && nalBegin == NalBegin(layer.lengths, nalIndex)
      invariant done == Packed(layer, before, nalIndex) && totalNaluIndex == |done| <= index + nalIndex
      invariant image.Valid() && fragInfo.Valid() && Filled(image, fragInfo, done)
    {
      layerSize, nalBegin, totalNaluIndex, done :=
        FillRound(image, fragInfo, layer, nalIndex, layerSize, nalBegin, totalNaluIndex, before, done);
    }
  }

  /** One round of the loop: step over NAL unit nalIndex and pack it. */
  method FillRound(image: EncodedImage, fragInfo: RTPFragmentationHeader, layer: Layer, nalIndex: nat,
                   layerSize: nat, nalBegin: nat, index: nat, ghost before: seq<Piece>, ghost done: seq<Piece>)
    returns (layerSize': nat, nalBegin': nat, totalNaluIndex: nat, ghost done': seq<Piece>)
    requires HasRoom(layer, before, image.buffer.Length) && nalIndex < |layer.lengths|
    requires layerSize == LayerSize(layer.lengths, nalIndex) && nalBegin == NalBegin(layer.lengths, nalIndex)
    requires image.Valid() && fragInfo.Valid() && image.buffer !in fragInfo.Arrays()
    requires Filled(image, fragInfo, done) && done == Packed(layer, before, nalIndex)
    requires index == |done| < fragInfo.size
    modifies image`length, image.buffer, fragInfo.offset, fragInfo.length, fragInfo.timeDiff, fragInfo.plType
    ensures layerSize' == LayerSize(layer.lengths, nalIndex + 1) && nalBegin' == NalBegin(layer.lengths, nalIndex + 1)
    ensures image.Valid() && fragInfo.Valid() && Filled(image, fragInfo, done')
    ensures done' == Packed(layer, before, nalIndex + 1) && totalNaluIndex == |done'| <= index + 1
  {
    RoundFits(layer, before, nalIndex, image.buffer.Length);
    done' := Packed(layer, before, nalIndex + 1);
    var nalBuffer := nalBegin;
    layerSize' := layerSize + layer.lengths[nalIndex];
    nalBegin' := nalBegin + layerSize';
    totalNaluIndex := FillRow(image, fragInfo, layer, nalBuffer, layer.lengths[nalIndex], index, done);
  }

  /** The rest of a round: nothing for a prefix NAL unit, else a copy and a row. */
  method FillRow(image: EncodedImage, fragInfo: RTPFragmentationHeader, layer: Layer, nalBuffer: nat, length: nat,
                 index: nat, ghost done: seq<Piece>) returns (totalNaluIndex: nat)
    requires nalBuffer < |layer.bs| && length >= 4 && nalBuffer + length - 4 <= |layer.bs|
    requires image.Valid() && fragInfo.Valid() && image.buffer !in fragInfo.Arrays()
    requires Filled(image, fragInfo, done) && index == |done| < fragInfo.size
    requires |Joined(done)| + |Joined(PieceAt(layer, nalBuffer, length))| <= image.buffer.Length
    modifies image`length, image.buffer, fragInfo.offset, fragInfo.length, fragInfo.timeDiff, fragInfo.plType
    ensures image.Valid() && fragInfo.Valid()
    ensures Filled(image, fragInfo, done + PieceAt(layer, nalBuffer, length))
    ensures totalNaluIndex == |done + PieceAt(layer, nalBuffer, length)|
  {
    Pow2Values();
    AndMask(layer.bs[nalBuffer], 5);
    var nalType := And(layer.bs[nalBuffer], 0x1F);
    if nalType == PREFIX_NAL {
      assert done + [] == done;
      return index;
    }
    var currentNaluSize := length - 4;
    var nal := layer.bs[nalBuffer..nalBuffer + currentNaluSize];
    JoinedOne([], Piece(nal, nalType));
    assert [] + [Piece(nal, nalType)] == PieceAt(layer, nalBuffer, length);
    Pack(image, fragInfo, index, nal, nalType, done);
    return index + 1;
  }

  // ----- What the two passes agree on -----

  /** How many NAL units the fill pass takes for prefix NAL units. */
  function LeftOut(layers: seq<Layer>): nat
    requires forall l :: l in layers ==> Readable(l)
  {
    NalCount(layers) - |KeptAll(layers)|
  }

  predicate TakenForPrefix(layer: Layer, k: nat)
    requires Readable(layer) && k < |layer.lengths|
  {
    assert ReadableAt(layer, k);
    TypeAt(layer, NalBegin(layer.lengths, k)) == PREFIX_NAL
  }

  lemma {:induction false} FlatFull(rounds: seq<seq<Piece>>)
    requires forall k :: 0 <= k < |rounds| ==> |rounds[k]| <= 1
    ensures |Flat(rounds)| == |rounds| <==> forall k :: 0 <= k < |rounds| ==> rounds[k] != []
  {
    if rounds != [] {
      var front := rounds[..|rounds| - 1];
      FlatFull(front);
      FlatCount(front);
      assert rounds[|rounds| - 1] == [] || |Flat(rounds)| == |Flat(front)| + 1;
      assert forall k :: 0 <= k < |front| ==> rounds[k] == front[k];
    }
  }

  lemma KeepsAllOfLayer(layer: Layer)
    requires Readable(layer)
    ensures |Kept(layer)| <= |layer.lengths|
    ensures |Kept(layer)| == |layer.lengths| <==>
              forall k :: 0 <= k < |layer.lengths| ==> !TakenForPrefix(layer, k)
  {
    FlatFull(Rounds(layer));
    FlatCount(Rounds(layer));
    RoundsAre(layer);
    forall k | 0 <= k < |layer.lengths|
      ensures Rounds(layer)[k] != [] <==> !TakenForPrefix(layer, k)
    {
      assert RoundIs(layer, k, Rounds(layer)[k]);
    }
  }

  /** The fill pass never needs more rows than the count pass allocated, and fills all of them exactly when it takes no
      NAL unit for a prefix NAL unit. Otherwise the callback's table ends in rows that stand for nothing. */
  lemma {:induction false} FillsAllRowsExactly(layers: seq<Layer>)
    requires forall l :: l in layers ==> Readable(l)
    ensures LeftOut(layers) == 0 <==>
              forall l, k :: l in layers && 0 <= k < |l.lengths| ==> !TakenForPrefix(l, k)
  {
    if layers != [] {
      var front, last := layers[..|layers| - 1], layers[|layers| - 1];
      FillsAllRowsExactly(front);
      KeepsAllOfLayer(last);
      assert forall l :: l in layers <==> l in front || l == last;
    }
  }

  /** How many of the first k NAL units of a layer are not taken for prefix NAL units, and how many bytes they have
      without their start codes. */
  function RowsIn(layer: Layer, k: nat): nat
    requires Readable(layer) && k <= |layer.lengths|
  {
    if k == 0 then 0 else RowsIn(layer, k - 1) + if TakenForPrefix(layer, k - 1) then 0 else 1
  }

  function BytesIn(layer: Layer, k: nat): nat
    requires Readable(layer) && k <= |layer.lengths|
  {
    if k == 0 then 0
    else
      assert ReadableAt(layer, k - 1);
      BytesIn(layer, k - 1) + if TakenForPrefix(layer, k - 1) then 0 else layer.lengths[k - 1] - 4
  }

  function RowsOf(layers: seq<Layer>): nat
    requires forall l :: l in layers ==> Readable(l)
  {
    if layers == [] then 0
    else RowsOf(layers[..|layers| - 1]) + RowsIn(layers[|layers| - 1], |layers[|layers| - 1].lengths|)
  }

  function BytesOf(layers: seq<Layer>): nat
    requires forall l :: l in layers ==> Readable(l)
  {
    if layers == [] then 0
    else BytesOf(layers[..|layers| - 1]) + BytesIn(layers[|layers| - 1], |layers[|layers| - 1].lengths|)
  }

  lemma RoundCounts(layer: Layer, k: nat)
    requires Readable(layer) && k < |layer.lengths|
    ensures ReadableAt(layer, k)
    ensures |Round(layer, k)| == if TakenForPrefix(layer, k) then 0 else 1
    ensures |Joined(Round(layer, k))| == if TakenForPrefix(layer, k) then 0 else layer.lengths[k] - 4
  {
    assert ReadableAt(layer, k);
    if !TakenForPrefix(layer, k) {
      JoinedOne([], Round(layer, k)[0]);
      assert [] + Round(layer, k) == [] + [Round(layer, k)[0]] == Round(layer, k);
    }
  }

  lemma {:induction false} LayerCounts(layer: Layer, k: nat)
    requires Readable(layer) && k <= |layer.lengths|
    ensures |Flat(Rounds(layer)[..k])| == RowsIn(layer, k)
    ensures |Joined(Flat(Rounds(layer)[..k]))| == BytesIn(layer, k)
  {
    if k > 0 {
      LayerCounts(layer, k - 1);
      RoundCounts(layer, k - 1);
      FlatNext(Rounds(layer), k - 1);
      JoinedSplit(Flat(Rounds(layer)[..k - 1]), Rounds(layer)[k - 1]);
    }
  }

  /** The filled rows number the NAL units not taken for prefix NAL units, and the image has their lengths, less four
      each. */
  lemma {:induction false} FrameCounts(layers: seq<Layer>)
    requires forall l :: l in layers ==> Readable(l)
    ensures |KeptAll(layers)| == RowsOf(layers) && |Joined(KeptAll(layers))| == BytesOf(layers)
  {
    if layers != [] {
      var front, last := layers[..|layers| - 1], layers[|layers| - 1];
      FrameCounts(front);
      LayerCounts(last, |last.lengths|);
      assert Rounds(last)[..|last.lengths|] == Rounds(last);
      JoinedSplit(KeptAll(front), Kept(last));
    }
  }

  // ----- Empty pieces -----

  predicate NoneEmpty(pieces: seq<Piece>) {
    forall k :: 0 <= k < |pieces| ==> pieces[k].data != []
  }

  lemma NoneEmptyBoth(a: seq<Piece>, b: seq<Piece>)
    ensures NoneEmpty(a + b) <==> NoneEmpty(a) && NoneEmpty(b)
  {
    if NoneEmpty(a + b) {
      assert forall k :: 0 <= k < |a| ==> (a + b)[k] == a[k];
      assert forall k :: 0 <= k < |b| ==> (a + b)[|a| + k] == b[k];
    }
  }

  predicate LongFrom(layer: Layer, k: nat)
    requires k <= |layer.lengths|
  {
    forall j :: 0 <= j < k ==> layer.lengths[j] > 4
  }

  lemma LongNext(layer: Layer, k: nat)
    requires k < |layer.lengths|
    ensures LongFrom(layer, k + 1) <==> LongFrom(layer, k) && layer.lengths[k] > 4
  {
  }

  lemma RoundNotEmpty(layer: Layer, k: nat)
    requires Readable(layer) && k < |layer.lengths| && !TakenForPrefix(layer, k)
    ensures NoneEmpty(Rounds(layer)[k]) <==> layer.lengths[k] > 4
  {
    assert ReadableAt(layer, k);
    var at := NalBegin(layer.lengths, k);
    var p := Piece(layer.bs[at..at + layer.lengths[k] - 4], TypeAt(layer, at));
    assert Rounds(layer)[k] == [p] && Rounds(layer)[k][0] == p;
  }

  lemma {:induction false} LayerNotEmpty(layer: Layer, k: nat)
    requires Readable(layer) && k <= |layer.lengths|
    requires forall j :: 0 <= j < |layer.lengths| ==> !TakenForPrefix(layer, j)
    ensures NoneEmpty(Flat(Rounds(layer)[..k])) <==> LongFrom(layer, k)
  {
    if k > 0 {
      LayerNotEmpty(layer, k - 1);
      assert !TakenForPrefix(layer, k - 1);
      RoundNotEmpty(layer, k - 1);
      FlatNext(Rounds(layer), k - 1);
      NoneEmptyBoth(Flat(Rounds(layer)[..k - 1]), Rounds(layer)[k - 1]);
      LongNext(layer, k - 1);
    }
  }

  /** When nothing is left out, no piece is empty exactly when every NAL unit is longer than its start code. */
  lemma {:induction false} FrameNotEmpty(layers: seq<Layer>)
    requires forall l :: l in layers ==> Readable(l)
    requires forall l, k :: l in layers && 0 <= k < |l.lengths| ==> !TakenForPrefix(l, k)
    ensures NoneEmpty(KeptAll(layers)) <==> forall l :: l in layers ==> LongFrom(l, |l.lengths|)
  {
    if layers != [] {
      var front, last := layers[..|layers| - 1], layers[|layers| - 1];
      FrameNotEmpty(front);
      LayerNotEmpty(last, |last.lengths|);
      assert Rounds(last)[..|last.lengths|] == Rounds(last);
      NoneEmptyBoth(KeptAll(front), Kept(last));
      assert forall l :: l in layers <==> l in front || l == last;
    }
  }

  // ----- What is read -----

  /** How far round k reads behind the start of NAL unit k. */
  function Excess(lengths: seq<nat>, k: nat): nat
    requires k <= |lengths|
  {
    if k == 0 then 0 else Excess(lengths, k - 1) + LayerSize(lengths, k - 1)
  }

  lemma {:induction false} Drift(lengths: seq<nat>, k: nat)
    requires k <= |lengths|
    ensures NalBegin(lengths, k) == NalStart(lengths, k) + Excess(lengths, k)
  {
    if k > 0 {
      Drift(lengths, k - 1);
    }
  }

  lemma {:induction false} ExcessGrows(lengths: seq<nat>, k: nat)
    requires 2 <= k <= |lengths|
    ensures Excess(lengths, k) >= lengths[0]
  {
    if k == 2 {
      assert LayerSize(lengths, 1) == lengths[0];
    } else {
      ExcessGrows(lengths, k - 1);
    }
  }

  /** The loop reads every NAL unit of a layer at its own start exactly when the layer has at most two: `nal_begin`
      moves on by the sizes so far, not by the size of the NAL unit just passed. */
  lemma ReadsAtStartsExactly(lengths: seq<nat>)
    requires forall k :: 0 <= k < |lengths| ==> lengths[k] >= 4
    ensures (forall k :: 0 <= k < |lengths| ==> NalBegin(lengths, k) == NalStart(lengths, k)) <==> |lengths| <= 2
  {
    if |lengths| > 2 {
      Drift(lengths, 2);
      ExcessGrows(lengths, 2);
      assert NalBegin(lengths, 2) != NalStart(lengths, 2);
    } else {
      forall k | 0 <= k < |lengths|
        ensures NalBegin(lengths, k) == NalStart(lengths, k)
      {
        Drift(lengths, k);
        assert k == 1 ==> LayerSize(lengths, 0) == 0;
      }
    }
  }

  /** A layer's memory is its NAL units one after the other, each behind its start code. */
  predicate Holds(layer: Layer) {
    && (forall k :: 0 <= k < |layer.lengths| ==> layer.lengths[k] > 4)
    && LayerSize(layer.lengths, |layer.lengths|) <= |layer.bs|
  }

  lemma {:induction false} SizesGrow(lengths: seq<nat>, k: nat)
    requires k <= |lengths|
    ensures LayerSize(lengths, k) <= LayerSize(lengths, |lengths|)
    decreases |lengths| - k
  {
    if k < |lengths| {
      SizesGrow(lengths, k + 1);
    }
  }

  /** NAL unit k without its start code. */
  function NalBytes(layer: Layer, k: nat): (nal: seq<byte>)
    requires Holds(layer) && k < |layer.lengths|
    ensures |nal| == layer.lengths[k] - 4
  {
    SizesGrow(layer.lengths, k + 1);
    layer.bs[LayerSize(layer.lengths, k) + 4..LayerSize(layer.lengths, k + 1)]
  }

  /** The pieces a layer should give: its NAL units, without those of type 14. */
  function OwnPieces(layer: Layer, k: nat): seq<Piece>
    requires Holds(layer) && k <= |layer.lengths|
  {
    if k == 0 then []
    else
      var nal := NalBytes(layer, k - 1);
      OwnPieces(layer, k - 1) + if nal[0] % 32 == PREFIX_NAL then [] else [Piece(nal, nal[0] % 32)]
  }

  lemma ReadsOwnPiece(layer: Layer, k: nat)
    requires Holds(layer) && |layer.lengths| <= 2 && k < |layer.lengths| && ReadableAt(layer, k)
    ensures OwnPieces(layer, k + 1) == OwnPieces(layer, k) + Round(layer, k)
  {
    ReadsAtStartsExactly(layer.lengths);
    assert NalBegin(layer.lengths, k) == NalStart(layer.lengths, k);
    SizesGrow(layer.lengths, k + 1);
  }

  lemma {:induction false} ReadsOwnPieces(layer: Layer, k: nat)
    requires Holds(layer) && Readable(layer) && |layer.lengths| <= 2 && k <= |layer.lengths|
    ensures Flat(Rounds(layer)[..k]) == OwnPieces(layer, k)
  {
    if k > 0 {
      ReadsOwnPieces(layer, k - 1);
      FlatNext(Rounds(layer), k - 1);
      RoundsAre(layer);
      assert RoundIs(layer, k - 1, Rounds(layer)[k - 1]);
      ReadsOwnPiece(layer, k - 1);
    }
  }

  /** So a layer of at most two NAL units is packed as it should be: its own NAL units, in order, without their start
      codes and without those of type 14. */
  lemma SmallLayersArePacked(layer: Layer)
    requires Holds(layer) && |layer.lengths| <= 2
    ensures Readable(layer) && Kept(layer) == OwnPieces(layer, |layer.lengths|)
  {
    ReadsAtStartsExactly(layer.lengths);
    forall k | 0 <= k < |layer.lengths|
      ensures ReadableAt(layer, k)
    {
      SizesGrow(layer.lengths, k + 1);
      assert NalBegin(layer.lengths, k) == NalStart(layer.lengths, k);
    }
    ReadsOwnPieces(layer, |layer.lengths|);
    assert Rounds(layer)[..|layer.lengths|] == Rounds(layer);
  }

  function OwnPiecesOf(layers: seq<Layer>): seq<Piece>
    requires forall l :: l in layers ==> Holds(l)
  {
    if layers == [] then []
    else
      var front, last := layers[..|layers| - 1], layers[|layers| - 1];
      OwnPiecesOf(front) + OwnPieces(last, |last.lengths|)
  }

  /** And so is a frame of such layers. */
  lemma {:induction false} SmallFramesArePacked(layers: seq<Layer>)
    requires forall l :: l in layers ==> Holds(l) && |l.lengths| <= 2
    ensures forall l :: l in layers ==> Readable(l)
    ensures KeptAll(layers) == OwnPiecesOf(layers)
  {
    if layers != [] {
      var front, last := layers[..|layers| - 1], layers[|layers| - 1];
      SmallFramesArePacked(front);
      SmallLayersArePacked(last);
      assert forall l :: l in layers <==> l in front || l == last;
    }
  }

  /** A layer of three NAL units of five bytes: the third piece packed is not the third NAL unit. */
  lemma ThirdNalMisread(layer: Layer)
    requires layer.lengths == [5, 5, 5]
    requires layer.bs == [0, 0, 0, 1, 1, 0, 0, 0, 1, 2, 0, 0, 0, 1, 3, 0, 0, 0, 1, 4]
    ensures Holds(layer) && Readable(layer)
    ensures NalBytes(layer, 2) == [3] && NalStart(layer.lengths, 2) == 14
    ensures NalBegin(layer.lengths, 2) == 19 && Rounds(layer)[2] == [Piece([4], 4)]
  {
    var l := layer.lengths;
    assert LayerSize(l, 0) == 0;
    assert LayerSize(l, 1) == 5;
    assert LayerSize(l, 2) == 10;
    assert LayerSize(l, 3) == 15;
    assert NalBegin(l, 0) == 4;
    assert NalBegin(l, 1) == 9;
    assert NalBegin(l, 2) == 19;
    assert ReadableAt(layer, 0) && ReadableAt(layer, 1) && ReadableAt(layer, 2);
    assert layer.bs[19..20] == [4] && layer.bs[14..15] == [3];
    assert RoundIs(layer, 2, [Piece([4], 4)]);
  }

  /** The part of the table that is filled still cuts the buffer into the pieces kept. */
  lemma DeliveryInverts(layers: seq<Layer>, k: nat)
    requires forall l :: l in layers ==> Readable(l)
    requires Outcome(layers) != [] && k < |KeptAll(layers)|
    ensures var d := Outcome(layers)[0];
            && |d.table| == NalCount(layers)
            && d.table[k].offset + d.table[k].length <= |d.bytes|
            && Piece(Cut(d.bytes, d.table[k]), d.table[k].plType) == KeptAll(layers)[k]
            && d.table[k].offset == (if k == 0 then 0 else d.table[k - 1].offset + d.table[k - 1].length)
            && (k == |KeptAll(layers)| - 1 ==> d.table[k].offset + d.table[k].length == |d.bytes|)
  {
    TableInverts(KeptAll(layers), k);
    TablePartitions(KeptAll(layers), k);
    TablePartitions(KeptAll(layers), k + 1);
  }

  /** There is a callback exactly for a frame of which any bytes are kept; its table has a row for each NAL unit of the
      frame, the last of them all zero, one for each that was left out. */
  lemma CallsBackExactly(layers: seq<Layer>)
    requires forall l :: l in layers ==> Readable(l)
    ensures |Outcome(layers)| == if BytesOf(layers) > 0 then 1 else 0
    ensures BytesOf(layers) > 0 ==>
              var d := Outcome(layers)[0];
              && |d.table| == NalCount(layers) && |d.bytes| == BytesOf(layers) && RowsOf(layers) <= |d.table|
              && forall k :: RowsOf(layers) <= k < |d.table| ==> d.table[k] == Fragment(0, 0, 0, 0)
  {
    FrameCounts(layers);
  }
}

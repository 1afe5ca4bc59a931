/** What H264EncoderImpl::Encode of h264_impl.cc does with the NAL units an encoder hands it: it packs them into one
    buffer, fills the fragmentation table and calls back. This is the variant built on x264; the other is in
    OpenH264.dfy. */
module H264Encoder {
  import opened Bits
  import opened Fragments
  import opened Sequences

  /** x264_nal_t, as far as Encode reads it: i_type and the i_payload bytes at p_payload. */
  datatype Nal = Nal(plType: byte, payload: seq<byte>)

  datatype Status = Ok | Error

  function Packed(pieces: seq<Piece>): Delivery {
    Delivery(Joined(pieces), TableOf(pieces))
  }

  /** What is kept of a NAL unit: all but the four bytes x264 puts in front of it, a size with `b_annexb` 0, which is
      how the encoder is set up, and else a start code. */
  function Stripped(nals: seq<Nal>): (pieces: seq<Piece>)
    requires forall n :: n in nals ==> |n.payload| >= 4
    ensures |pieces| == |nals|
  {
    seq(|nals|, i requires 0 <= i < |nals| => Piece(nals[i].payload[4..], nals[i].plType))
  }

  /** One frame as x264_encoder_encode returns it: the frame size and the NAL units. */
  datatype Frame = Frame(size: int, nals: seq<Nal>) {
    /** The header's contract: each NAL unit of a frame that is there begins with those four bytes. */
    predicate HasPrefixes() {
      size > 0 ==> forall n :: n in nals ==> |n.payload| >= 4
    }

    predicate Fits(capacity: nat) {
      HasPrefixes() && (size > 0 ==> |nals| < 0x1_0000 && |Joined(Stripped(nals))| <= capacity)
    }
  }

  /** The encoder as its caller sees it: the bytes of the image, whether x264 is still open, and every callback made. */
  datatype View = View(image: seq<byte>, open: bool, frames: nat, delivered: seq<Delivery>)

  /** One call of Encode. */
  function Step(v: View, f: Frame): View
    requires f.HasPrefixes()
  {
    if f.size < 0 then v.(open := false)
    else if f.size > 0 && f.nals == [] then v
    else
      var image := if f.size > 0 then Joined(Stripped(f.nals)) else v.image;
      var table := if f.size > 0 then TableOf(Stripped(f.nals)) else [];
      View(image, v.open, v.frames + 1,
           if image == [] then v.delivered else v.delivered + [Delivery(image, table)])
  }

  class H264EncoderImpl {
    const encodedImage: EncodedImage
    var open: bool
    var frames: nat
    var delivered: seq<Delivery>

    ghost predicate Valid()
      reads this, encodedImage
    {
      encodedImage.Valid()
    }

    ghost function Seen(): View
      reads this, encodedImage, encodedImage.buffer
      requires Valid()
    {
      View(encodedImage.Bytes(), open, frames, delivered)
    }

    constructor (size: nat)
      ensures Valid() && fresh(encodedImage) && fresh(encodedImage.buffer)
      ensures encodedImage.buffer.Length == size && Seen() == View([], true, 0, [])
    {
      encodedImage := new EncodedImage(size);
      open := true;
      frames := 0;
      delivered := [];
    }

    /** Encode after x264_encoder_encode has returned `iFrameSize` and the NAL units. */
    method EncodeX264(iFrameSize: int, nals: seq<Nal>) returns (status: Status)
      requires Valid() && open
      requires Frame(iFrameSize, nals).Fits(encodedImage.buffer.Length)
      modifies this`open, this`frames, this`delivered, encodedImage`length, encodedImage.buffer
      ensures Valid() && Seen() == Step(old(Seen()), Frame(iFrameSize, nals))
      ensures status == if iFrameSize < 0 then Error else Ok
    {
      if iFrameSize < 0 {
        open := false;
        return Error;
      }
      var fragInfo := new RTPFragmentationHeader();
      if iFrameSize != 0 {
        if |nals| == 0 {
          return Ok;
        }
        PackX264(encodedImage, fragInfo, nals);
      }
      frames := frames + 1;
      Deliver(fragInfo);
      return Ok;
    }

    /** The end of Encode: the callback, for an image that is not empty. */
    method Deliver(fragInfo: RTPFragmentationHeader)
      requires Valid() && fragInfo.Valid()
      modifies this`delivered
      ensures delivered == old(delivered) + if encodedImage.Bytes() == [] then []
                                            else [Delivery(encodedImage.Bytes(), fragInfo.Table())]
    {
      if encodedImage.length > 0 {
        delivered := delivered + [Delivery(encodedImage.buffer[..encodedImage.length], fragInfo.Table())];
      }
    }
  }

  /** The packing of the x264 branch: empty the image, make room in the table, and run the loop. */
  method PackX264(image: EncodedImage, fragInfo: RTPFragmentationHeader, nals: seq<Nal>)
    requires |nals| > 0 && Frame(1, nals).Fits(image.buffer.Length)
    requires image.Valid() && fragInfo.Valid() && fragInfo.size == 0 && image.buffer !in fragInfo.Arrays()
    modifies image`length, image.buffer, fragInfo
    ensures image.Valid() && fragInfo.Valid()
    ensures image.Bytes() == Joined(Stripped(nals)) && fragInfo.Table() == TableOf(Stripped(nals))
  {
    fragInfo.VerifyAndAllocate(|nals|);
    image.length := 0;
    PackLoop(image, fragInfo, nals);
  }

  method PackLoop(image: EncodedImage, fragInfo: RTPFragmentationHeader, nals: seq<Nal>)
    requires Frame(1, nals).Fits(image.buffer.Length) && |nals| == fragInfo.size
    requires image.Valid() && fragInfo.Valid() && image.buffer !in fragInfo.Arrays()
    requires Filled(image, fragInfo, [])
    modifies image`length, image.buffer, fragInfo.offset, fragInfo.length, fragInfo.timeDiff, fragInfo.plType
    ensures image.Valid() && fragInfo.Valid() && Filled(image, fragInfo, Stripped(nals))
  {
    ghost var pieces, done := Stripped(nals), [];
    for nalIndex := 0 to |nals|
      invariant image.Valid() && fragInfo.Valid() && Filled(image, fragInfo, done)
      invariant done == pieces[..nalIndex]
    {
      PieceNext(nals, nalIndex, image.buffer.Length);
      Pack(image, fragInfo, nalIndex, nals[nalIndex].payload[4..], nals[nalIndex].plType, done);
      done := done + [pieces[nalIndex]];
    }
    assert done == pieces;
  }

  lemma PieceNext(nals: seq<Nal>, k: nat, capacity: nat)
    requires Frame(1, nals).Fits(capacity) && k < |nals|
    ensures |nals[k].payload| >= 4 && Stripped(nals)[k] == Piece(nals[k].payload[4..], nals[k].plType)
    ensures Stripped(nals)[..k + 1] == Stripped(nals)[..k] + [Stripped(nals)[k]]
    ensures |Joined(Stripped(nals)[..k])| + |nals[k].payload[4..]| <= capacity
  {
    JoinedNext(Stripped(nals), k);
  }

  /** Each piece in turn still fits where all of them do. */
  lemma JoinedNext(pieces: seq<Piece>, k: nat)
    requires k < |pieces|
    ensures pieces[..k + 1] == pieces[..k] + [pieces[k]]
    ensures |Joined(pieces[..k])| + |pieces[k].data| <= |Joined(pieces)|
  {
    JoinedOne(pieces[..k], pieces[k]);
    JoinedSplit(pieces[..k + 1], pieces[k + 1..]);
    assert pieces[..k + 1] == pieces[..k] + [pieces[k]];
    assert pieces == pieces[..k + 1] + pieces[k + 1..];
  }

  /** What a receiver makes of a delivery: the bytes each row of the table points at. */
  function Unpack(d: Delivery): seq<seq<byte>>
    requires forall f :: f in d.table ==> f.offset + f.length <= |d.bytes|
  {
    seq(|d.table|, k requires 0 <= k < |d.table| => Cut(d.bytes, d.table[k]))
  }

  function TotalPayload(nals: seq<Nal>): nat {
    if nals == [] then 0 else TotalPayload(nals[..|nals| - 1]) + |nals[|nals| - 1].payload|
  }

  lemma {:induction false} PackedLength(nals: seq<Nal>)
    requires forall n :: n in nals ==> |n.payload| >= 4
    ensures |Joined(Stripped(nals))| == TotalPayload(nals) - 4 * |nals|
  {
    if nals != [] {
      var front := nals[..|nals| - 1];
      PackedLength(front);
      JoinedLast(Stripped(nals));
      assert Stripped(nals)[..|nals| - 1] == Stripped(front);
    }
  }

  /** Packing and cutting along the table gives back every NAL unit without its prefix, in order; the buffer holds
      their bytes and no others. */
  lemma PackingInverts(nals: seq<Nal>)
    requires forall n :: n in nals ==> |n.payload| >= 4
    ensures var d := Packed(Stripped(nals));
            && (forall f :: f in d.table ==> f.offset + f.length <= |d.bytes|)
            && Unpack(d) == seq(|nals|, i requires 0 <= i < |nals| => nals[i].payload[4..])
            && |d.bytes| == TotalPayload(nals) - 4 * |nals|
            && |d.table| == |nals| && forall k :: 0 <= k < |nals| ==> d.table[k].plType == nals[k].plType
  {
    var pieces := Stripped(nals);
    var d := Packed(pieces);
    forall k | 0 <= k < |pieces|
      ensures d.table[k].offset + d.table[k].length <= |d.bytes|
      ensures Cut(d.bytes, d.table[k]) == pieces[k].data && d.table[k].plType == pieces[k].plType
    {
      TableInverts(pieces, k);
    }
    PackedLength(nals);
  }

  // ----- Whole runs of the x264 branch -----

  function Run(v: View, frames: seq<Frame>): View
    requires forall f :: f in frames ==> f.HasPrefixes()
  {
    if frames == [] then v else Step(Run(v, frames[..|frames| - 1]), frames[|frames| - 1])
  }

  /** What a frame should lead to: one callback with its own NAL units, if it has any bytes. */
  function OwnDelivery(f: Frame): seq<Delivery>
    requires f.HasPrefixes()
  {
    if f.size > 0 && Joined(Stripped(f.nals)) != [] then [Packed(Stripped(f.nals))] else []
  }

  function OwnDeliveries(frames: seq<Frame>): seq<Delivery>
    requires forall f :: f in frames ==> f.HasPrefixes()
  {
    if frames == [] then [] else OwnDeliveries(frames[..|frames| - 1]) + OwnDelivery(frames[|frames| - 1])
  }

  /** `_length` is reset only for frames of positive size: a call in which x264 returns 0, which it does while it holds
      frames back, calls back again with the image of an earlier call and an empty table. */
  predicate Repeats(v: View, f: Frame) {
    f.size == 0 && v.image != []
  }

  function Repetitions(v: View, frames: seq<Frame>): nat
    requires forall f :: f in frames ==> f.HasPrefixes()
  {
    if frames == [] then 0
    else
      var front, last := frames[..|frames| - 1], frames[|frames| - 1];
      Repetitions(v, front) + if Repeats(Run(v, front), last) then 1 else 0
  }

  lemma StepDelivers(v: View, f: Frame)
    requires f.HasPrefixes()
    ensures Step(v, f).delivered == v.delivered + if Repeats(v, f) then [Delivery(v.image, [])] else OwnDelivery(f)
  {
  }

  /** Over any run, the callbacks made are those of the frames' own NAL units and one for each repetition. */
  lemma {:induction false} DeliveriesCounted(v: View, frames: seq<Frame>)
    requires forall f :: f in frames ==> f.HasPrefixes()
    ensures |Run(v, frames).delivered| == |v.delivered| + |OwnDeliveries(frames)| + Repetitions(v, frames)
    ensures Repetitions(v, frames) == 0 ==> Run(v, frames).delivered == v.delivered + OwnDeliveries(frames)
  {
    if frames != [] {
      var front, last := frames[..|frames| - 1], frames[|frames| - 1];
      DeliveriesCounted(v, front);
      StepDelivers(Run(v, front), last);
    }
  }

  /** x264 has counted a frame: it was held back, or came with NAL units. */
  predicate Counted(f: Frame) {
    f.size == 0 || (f.size > 0 && f.nals != [])
  }

  function CountOf(frames: seq<Frame>): nat {
    if frames == [] then 0 else CountOf(frames[..|frames| - 1]) + if Counted(frames[|frames| - 1]) then 1 else 0
  }

  /** `i_frame`, the time stamp of the next picture, counts the calls that succeeded, those in which x264 held the frame
      back among them, but not one that came with a size and no NAL units. */
  lemma {:induction false} FramesCounted(v: View, frames: seq<Frame>)
    requires forall f :: f in frames ==> f.HasPrefixes()
    ensures Run(v, frames).frames == v.frames + CountOf(frames)
  {
    if frames != [] {
      FramesCounted(v, frames[..|frames| - 1]);
    }
  }

  /** What the image holds: the NAL units of the last frame that came with any. */
  function ImageAfter(image: seq<byte>, frames: seq<Frame>): seq<byte>
    requires forall f :: f in frames ==> f.HasPrefixes()
  {
    if frames == [] then image
    else
      var last := frames[|frames| - 1];
      assert last.HasPrefixes();
      if last.size > 0 && last.nals != [] then Joined(Stripped(last.nals))
      else ImageAfter(image, frames[..|frames| - 1])
  }

  /** The callback of call k of a run, if it makes one: the frame's own NAL units, or, for one held back, the image as
      it is and an empty table. */
  function CallbackAt(image: seq<byte>, frames: seq<Frame>, k: nat): seq<Delivery>
    requires (forall f :: f in frames ==> f.HasPrefixes()) && k < |frames|
  {
    if frames[k].size != 0 then OwnDelivery(frames[k])
    else if ImageAfter(image, frames[..k]) == [] then []
    else [Delivery(ImageAfter(image, frames[..k]), [])]
  }

  /** The first n of them. */
  function Callbacks(image: seq<byte>, frames: seq<Frame>, n: nat): seq<Delivery>
    requires (forall f :: f in frames ==> f.HasPrefixes()) && n <= |frames|
  {
    if n == 0 then [] else Callbacks(image, frames, n - 1) + CallbackAt(image, frames, n - 1)
  }

  lemma {:induction false} SameCallbacks(image: seq<byte>, frames: seq<Frame>, front: seq<Frame>, n: nat)
    requires (forall f :: f in frames ==> f.HasPrefixes()) && front <= frames && n <= |front|
    ensures Callbacks(image, frames, n) == Callbacks(image, front, n)
  {
    if n > 0 {
      SameCallbacks(image, frames, front, n - 1);
      assert frames[..n - 1] == front[..n - 1];
    }
  }

  /** Every callback of every run, in order, and the image it leaves. */
  lemma {:induction false} CallbacksExactly(v: View, frames: seq<Frame>)
    requires forall f :: f in frames ==> f.HasPrefixes()
    ensures Run(v, frames).image == ImageAfter(v.image, frames)
    ensures Run(v, frames).delivered == v.delivered + Callbacks(v.image, frames, |frames|)
  {
    if frames != [] {
      var front, last := frames[..|frames| - 1], frames[|frames| - 1];
      CallbacksExactly(v, front);
      CallbackIs(Run(v, front), last);
      CallbacksNext(v.image, frames);
      Regroup(v.delivered, Callbacks(v.image, front, |front|), CallbackAt(v.image, frames, |front|));
    }
  }

  lemma CallbacksNext(image: seq<byte>, frames: seq<Frame>)
    requires frames != [] && forall f :: f in frames ==> f.HasPrefixes()
    ensures var front, last := frames[..|frames| - 1], frames[|frames| - 1];
            && Callbacks(image, frames, |frames|)
            == Callbacks(image, front, |front|) + CallbackAt(image, frames, |front|)
            && CallbackAt(image, frames, |front|)
            == if last.size != 0 then OwnDelivery(last)
               else if ImageAfter(image, front) == [] then [] else [Delivery(ImageAfter(image, front), [])]
  {
    var front := frames[..|frames| - 1];
    SameCallbacks(image, frames, front, |front|);
  }

  lemma CallbackIs(v: View, f: Frame)
    requires f.HasPrefixes()
    ensures Step(v, f).delivered == v.delivered + if f.size != 0 then OwnDelivery(f)
                                                  else if v.image == [] then [] else [Delivery(v.image, [])]
    ensures Step(v, f).image == if f.size > 0 && f.nals != [] then Joined(Stripped(f.nals)) else v.image
  {
  }

  /** The last frame packed, if any, had bytes. */
  predicate HadBytes(frames: seq<Frame>) {
    if frames == [] then false
    else
      var last := frames[|frames| - 1];
      if last.size > 0 && last.nals != [] then TotalPayload(last.nals) > 4 * |last.nals|
      else HadBytes(frames[..|frames| - 1])
  }

  /** x264 holds a frame back in call k, after a frame that had bytes. */
  predicate HeldBackAt(frames: seq<Frame>, k: nat)
    requires k < |frames|
  {
    frames[k].size == 0 && HadBytes(frames[..k])
  }

  lemma {:induction false} ImageIs(v: View, frames: seq<Frame>)
    requires (forall f :: f in frames ==> f.HasPrefixes()) && v.image == []
    ensures Run(v, frames).image != [] <==> HadBytes(frames)
  {
    if frames != [] {
      var front, last := frames[..|frames| - 1], frames[|frames| - 1];
      ImageIs(v, front);
      if last.size > 0 && last.nals != [] {
        assert last.HasPrefixes();
        PackedLength(last.nals);
      }
    }
  }

  lemma {:induction false} RepetitionsAre(v: View, frames: seq<Frame>)
    requires (forall f :: f in frames ==> f.HasPrefixes()) && v.image == []
    ensures Repetitions(v, frames) == 0 <==> forall k :: 0 <= k < |frames| ==> !HeldBackAt(frames, k)
  {
    if frames != [] {
      var front, last := frames[..|frames| - 1], frames[|frames| - 1];
      RepetitionsAre(v, front);
      ImageIs(v, front);
      assert HeldBackAt(frames, |front|) <==> Repeats(Run(v, front), last);
      forall k | 0 <= k < |front|
        ensures HeldBackAt(frames, k) <==> HeldBackAt(front, k)
      {
        assert frames[..k] == front[..k];
      }
    }
  }

  /** So from an empty image a run delivers each frame once exactly when no frame is held back while the last frame
      packed before it had bytes. */
  lemma DeliversOnceExactly(v: View, frames: seq<Frame>)
    requires (forall f :: f in frames ==> f.HasPrefixes()) && v.image == []
    ensures Run(v, frames).delivered == v.delivered + OwnDeliveries(frames) <==>
              forall k :: 0 <= k < |frames| ==> !HeldBackAt(frames, k)
  {
    DeliveriesCounted(v, frames);
    RepetitionsAre(v, frames);
  }

  /** The encoder may be called as long as no call has failed: a failure closes x264, and nothing opens it again. */
  lemma {:induction false} OpenExactly(v: View, frames: seq<Frame>)
    requires forall f :: f in frames ==> f.HasPrefixes()
    ensures Run(v, frames).open <==> v.open && forall k :: 0 <= k < |frames| ==> frames[k].size >= 0
  {
    if frames != [] {
      OpenExactly(v, frames[..|frames| - 1]);
    }
  }

  lemma OneTable(p: Piece)
    ensures Joined([p]) == p.data && TableOf([p]) == [Fragment(0, |p.data|, p.plType, 0)]
  {
    JoinedOne([], p);
    assert [] + [p] == [p];
  }

  /** One frame of one NAL unit. */
  lemma OneDelivery(n: Nal, v: View)
    requires |n.payload| > 4
    ensures var data := n.payload[4..];
            Step(v, Frame(1, [n]))
            == View(data, v.open, v.frames + 1, v.delivered + [Delivery(data, [Fragment(0, |data|, n.plType, 0)])])
  {
    var p := Piece(n.payload[4..], n.plType);
    assert Stripped([n]) == [p];
    OneTable(p);
  }

  lemma RunOfTwo(v: View, f: Frame, g: Frame)
    requires f.HasPrefixes() && g.HasPrefixes()
    ensures Run(v, [f, g]) == Step(Step(v, f), g)
  {
    assert [f, g][..1] == [f] && [f][..0] == [];
    assert Run(v, [f]) == Step(v, f);
  }

  /** A frame and then a held-back one: the first frame's bytes go out twice. */
  lemma HeldBackFrameRepeats(n: Nal, v: View)
    requires |n.payload| > 4
    ensures var frames := [Frame(1, [n]), Frame(0, [])];
            Run(v, frames).delivered
            == v.delivered + [Delivery(n.payload[4..], [Fragment(0, |n.payload| - 4, n.plType, 0)]),
                              Delivery(n.payload[4..], [])]
  {
    RunOfTwo(v, Frame(1, [n]), Frame(0, []));
    OneDelivery(n, v);
  }
}

/** An encoded frame in one buffer with the table that says where its NAL units lie, and the two objects the encoder
    fills: EncodedImage and RTPFragmentationHeader (webrtc/modules/interface/module_common_types.h). */
module Fragments {
  import opened Bits
  import opened Sequences

  /** One row of the table: the four parallel arrays of RTPFragmentationHeader at one index. */
  datatype Fragment = Fragment(offset: nat, length: nat, plType: byte, timeDiff: nat)

  const NO_FRAGMENT := Fragment(0, 0, 0, 0)

  /** One call of the encode-complete callback: the image's bytes and the table. */
  datatype Delivery = Delivery(bytes: seq<byte>, table: seq<Fragment>)

  /** A piece of a frame: the bytes of a NAL unit without its start code, and its type. */
  datatype Piece = Piece(data: seq<byte>, plType: byte)

  function DataOf(pieces: seq<Piece>): (rows: seq<seq<byte>>)
    ensures |rows| == |pieces|
  {
    seq(|pieces|, k requires 0 <= k < |pieces| => pieces[k].data)
  }

  /** The bytes of pieces laid end to end. */
  function Joined(pieces: seq<Piece>): seq<byte> {
    Flat(DataOf(pieces))
  }

  /** The table of pieces laid end to end. */
  function TableOf(pieces: seq<Piece>): (t: seq<Fragment>)
    ensures |t| == |pieces|
  {
    if pieces == [] then []
    else
      var front, last := pieces[..|pieces| - 1], pieces[|pieces| - 1];
      TableOf(front) + [Fragment(|Joined(front)|, |last.data|, last.plType, 0)]
  }

  /** What a table cuts out of a buffer. */
  function Cut(bytes: seq<byte>, f: Fragment): seq<byte>
    requires f.offset + f.length <= |bytes|
  {
    bytes[f.offset..f.offset + f.length]
  }

  // ----- What the layout promises -----

  lemma JoinedSplit(a: seq<Piece>, b: seq<Piece>)
    ensures Joined(a + b) == Joined(a) + Joined(b)
  {
    assert DataOf(a + b) == DataOf(a) + DataOf(b);
    FlatSplit(DataOf(a), DataOf(b));
  }

  lemma JoinedOne(pieces: seq<Piece>, p: Piece)
    ensures Joined(pieces + [p]) == Joined(pieces) + p.data
    ensures TableOf(pieces + [p]) == TableOf(pieces) + [Fragment(|Joined(pieces)|, |p.data|, p.plType, 0)]
  {
    JoinedSplit(pieces, [p]);
    assert DataOf([p]) == [p.data];
    FlatOne(p.data);
    assert (pieces + [p])[..|pieces|] == pieces;
  }

  lemma JoinedLast(pieces: seq<Piece>)
    requires pieces != []
    ensures Joined(pieces) == Joined(pieces[..|pieces| - 1]) + pieces[|pieces| - 1].data
  {
    assert pieces == pieces[..|pieces| - 1] + [pieces[|pieces| - 1]];
    JoinedOne(pieces[..|pieces| - 1], pieces[|pieces| - 1]);
  }

  /** Cutting along row k gives piece k back. */
  lemma {:induction false} TableInverts(pieces: seq<Piece>, k: nat)
    requires k < |pieces|
    ensures TableOf(pieces)[k].offset + TableOf(pieces)[k].length <= |Joined(pieces)|
    ensures Piece(Cut(Joined(pieces), TableOf(pieces)[k]), TableOf(pieces)[k].plType) == pieces[k]
    ensures TableOf(pieces)[k].timeDiff == 0
  {
    var front := pieces[..|pieces| - 1];
    JoinedLast(pieces);
    if k < |front| {
      TableInverts(front, k);
      var f := TableOf(front)[k];
      assert Cut(Joined(pieces), f) == Cut(Joined(front), f);
    }
  }

  /** The rows start at 0, each begins where the one before ends, and the last ends with the buffer. */
  lemma {:induction false} TablePartitions(pieces: seq<Piece>, k: nat)
    requires k <= |pieces|
    ensures var t := TableOf(pieces);
            && (k < |pieces| ==> t[k].offset == if k == 0 then 0 else t[k - 1].offset + t[k - 1].length)
            && (k == |pieces| > 0 ==> t[k - 1].offset + t[k - 1].length == |Joined(pieces)|)
  {
    if pieces != [] {
      JoinedLast(pieces);
    }
    if k < |pieces| {
      TablePartitions(pieces[..|pieces| - 1], k);
    }
  }

  // ----- The objects -----

  class EncodedImage {
    const buffer: array<byte>
    var length: nat

    ghost predicate Valid()
      reads this
    {
      length <= buffer.Length
    }

    ghost function Bytes(): seq<byte>
      reads this, buffer
      requires Valid()
    {
      buffer[..length]
    }

    constructor (size: nat)
      ensures Valid() && fresh(buffer) && buffer.Length == size && Bytes() == []
    {
      buffer := new byte[size](_ => 0);
      length := 0;
    }

    /** memcpy to the end of what the buffer holds, and count it in. */
    method Append(src: seq<byte>)
      requires Valid() && length + |src| <= buffer.Length
      modifies this`length, buffer
      ensures Valid() && Bytes() == old(Bytes()) + src
      ensures buffer[length..] == old(buffer[length + |src|..])
    {
      forall i | 0 <= i < |src| {
        buffer[length + i] := src[i];
      }
      length := length + |src|;
    }
  }

  class RTPFragmentationHeader {
    var size: nat
    var offset: array<nat>
    var length: array<nat>
    var timeDiff: array<nat>
    var plType: array<byte>

    ghost predicate Valid()
      reads this
    {
      && offset.Length == length.Length == timeDiff.Length == plType.Length == size
      && offset != length && offset != timeDiff && length != timeDiff
    }

    ghost function Arrays(): set<object>
      reads this
    {
      {offset as object, length as object, timeDiff as object, plType as object}
    }

    function Table(): (t: seq<Fragment>)
      reads this, offset, length, timeDiff, plType
      requires Valid()
      ensures |t| == size
    {
      var n, o, l, t, p := size, offset[..], length[..], timeDiff[..], plType[..];
      seq(n, k requires 0 <= k < n => Fragment(o[k], l[k], p[k], t[k]))
    }

    constructor ()
      ensures Valid() && fresh(Arrays()) && Table() == []
    {
      size := 0;
      offset := new nat[0];
      length := new nat[0];
      timeDiff := new nat[0];
      plType := new byte[0];
    }

    /** VerifyAndAllocateFragmentationHeader: grow to n rows, keeping the old ones and zeroing the new. */
    method VerifyAndAllocate(n: nat)
      requires Valid() && n < 0x1_0000
      modifies this
      ensures Valid() && (fresh(Arrays()) || Arrays() == old(Arrays()))
      ensures Table() == if n <= old(size) then old(Table())
                         else old(Table()) + seq(n - old(size), _ => NO_FRAGMENT)
    {
      if size < n {
        ghost var before := Table();
        var o, l, t, p := offset, length, timeDiff, plType;
        var s := size;
        offset := new nat[n](i requires 0 <= i < n reads o => if i < o.Length then o[i] else 0);
        length := new nat[n](i requires 0 <= i < n reads l => if i < l.Length then l[i] else 0);
        timeDiff := new nat[n](i requires 0 <= i < n reads t => if i < t.Length then t[i] else 0);
        plType := new byte[n](i requires 0 <= i < n reads p => if i < p.Length then p[i] else 0);
        size := n;
      }
    }

    /** The four stores that fill row k. */
    method SetRow(k: nat, f: Fragment)
      requires Valid() && k < size
      modifies offset, length, timeDiff, plType
      ensures Table() == old(Table())[k := f]
    {
      offset[k] := f.offset;
      length[k] := f.length;
      plType[k] := f.plType;
      timeDiff[k] := f.timeDiff;
    }
  }

  /** The image holds these pieces; the table's first rows are theirs and the others are still empty. */
  ghost predicate Filled(image: EncodedImage, header: RTPFragmentationHeader, pieces: seq<Piece>)
    requires image.Valid() && header.Valid()
    reads image, image.buffer, header, header.offset, header.length, header.timeDiff, header.plType
  {
    && |pieces| <= header.size
    && image.Bytes() == Joined(pieces)
    && header.Table() == TableOf(pieces) + seq(header.size - |pieces|, _ => NO_FRAGMENT)
  }

  /** The body shared by the packing loops: copy a NAL unit to the end of the image and fill row k for it. */
  method Pack(image: EncodedImage, header: RTPFragmentationHeader, k: nat, nal: seq<byte>, plType: byte,
              ghost pieces: seq<Piece>)
    requires image.Valid() && header.Valid() && image.buffer !in header.Arrays()
    requires Filled(image, header, pieces) && k == |pieces| < header.size
    requires image.length + |nal| <= image.buffer.Length
    modifies image`length, image.buffer, header.offset, header.length, header.timeDiff, header.plType
    ensures image.Valid() && header.Valid()
    ensures Filled(image, header, pieces + [Piece(nal, plType)])
  {
    JoinedOne(pieces, Piece(nal, plType));
    var currentNaluSize := |nal|;
    image.Append(nal);
    assert header.Table() == old(header.Table());
    header.SetRow(k, Fragment(image.length - currentNaluSize, currentNaluSize, plType, 0));
  }
}

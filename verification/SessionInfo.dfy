/** The receiving end: VCMSessionInfo puts the packets of a frame in order and keeps their bytes laid end to end in the
    frame buffer, whatever order they arrive in (webrtc/modules/video_coding/main/source/session_info.cc), here for
    H.264. */
module SessionInfo {
  import opened Bits
  import opened Sequences
  import ByteOrder

  type seqnum = x: int | 0 <= x < 0x1_0000

  /** VCMPacket. `first` is isFirstPacket, which for H.264 is also insertStartCode. */
  datatype VCMPacket = VCMPacket(seqNum: seqnum, data: seq<byte>, first: bool, stapA: bool, marker: bool, key: bool)

  /** A packet whose aggregated NAL units are as long as they say. */
  type packet = p: VCMPacket | Readable(p) witness VCMPacket(0, [], false, false, false, false)

  const START_CODE: seq<byte> := [0, 0, 0, 1]

  const MAX_PACKETS: nat := 800

  // ----- What a packet puts into the frame -----

  function Word16At(s: seq<byte>): nat
    requires |s| >= 2
  {
    s[0] as int * 256 + s[1]
  }

  /** s is NAL units each behind its size. */
  predicate Entries(s: seq<byte>) {
    s == [] || (|s| >= 2 && 2 + Word16At(s) <= |s| && Entries(s[2 + Word16At(s)..]))
  }

  /** The NAL units, each behind the prefix instead. */
  function Unpacked(s: seq<byte>, prefix: seq<byte>): seq<byte>
    requires Entries(s)
  {
    if s == [] then []
    else prefix + s[2..2 + Word16At(s)] + Unpacked(s[2 + Word16At(s)..], prefix)
  }

  predicate Readable(p: VCMPacket) {
    p.stapA ==> |p.data| >= 1 && Entries(p.data[1..])
  }

  function Prefix(p: packet): seq<byte> {
    if p.first then START_CODE else []
  }

  function Content(p: packet): seq<byte> {
    if p.stapA then Unpacked(p.data[1..], Prefix(p)) else Prefix(p) + p.data
  }

  function Contents(list: seq<packet>): (rows: seq<seq<byte>>)
    ensures |rows| == |list| && forall k :: 0 <= k < |list| ==> rows[k] == Content(list[k])
  {
    seq(|list|, k requires 0 <= k < |list| => Content(list[k]))
  }

  function Frame(list: seq<packet>): seq<byte> {
    Flat(Contents(list))
  }

  // ----- Order -----

  predicate IsNewerSequenceNumber(a: seqnum, b: seqnum) {
    a != b && (a - b) % 0x1_0000 < 0x8000
  }

  function LatestSequenceNumber(a: seqnum, b: seqnum): seqnum {
    if IsNewerSequenceNumber(a, b) then a else b
  }

  /** Newer is ahead by less than half the numbers there are, across the wrap; of two numbers half of them apart neither
      is newer. */
  lemma NewerExactly(b: seqnum, d: nat)
    requires d < 65536
    ensures var a := (b + d) % 65536;
            && (IsNewerSequenceNumber(a, b) <==> 1 <= d <= 32767)
            && (IsNewerSequenceNumber(b, a) <==> 32769 <= d)
            && (LatestSequenceNumber(a, b) == a <==> d <= 32767)
  {
  }

  /** Where a packet goes: behind the last one it is not older than. */
  function Position(list: seq<packet>, s: seqnum): (k: nat)
    ensures k <= |list|
  {
    if list == [] then 0
    else if LatestSequenceNumber(s, list[|list| - 1].seqNum) == s then |list|
    else Position(list[..|list| - 1], s)
  }

  /** All packets behind that place are newer, or half the numbers away, and the one before it is neither. */
  lemma {:induction false} PositionExactly(list: seq<packet>, s: seqnum, k: nat)
    requires k <= |list|
    ensures Position(list, s) == k <==>
              && (forall j :: k <= j < |list| ==> list[j].seqNum != s && !IsNewerSequenceNumber(s, list[j].seqNum))
              && (k > 0 ==> list[k - 1].seqNum == s || IsNewerSequenceNumber(s, list[k - 1].seqNum))
  {
    if list != [] {
      var n := |list| - 1;
      if k <= n {
        PositionExactly(list[..n], s, k);
      } else {
        assert Position(list[..n], s) <= n;
      }
    }
  }

  predicate Consecutive(list: seq<packet>) {
    forall k :: 1 <= k < |list| ==> list[k].seqNum == (list[k - 1].seqNum + 1) % 0x1_0000
  }

  /** The session as its user sees it. */
  datatype View = View(list: seq<packet>, first: int, last: int, complete: bool, key: bool)

  const EMPTY := View([], -1, -1, false, false)

  predicate IsDuplicate(v: View, p: packet) {
    var k := Position(v.list, p.seqNum);
    k > 0 && v.list[k - 1].seqNum == p.seqNum && Content(v.list[k - 1]) != []
  }

  predicate Refused(v: View, p: packet) {
    |v.list| == MAX_PACKETS || IsDuplicate(v, p)
  }

  function First(v: View, p: packet): int {
    if p.first && (v.first == -1 || IsNewerSequenceNumber(v.first % 0x1_0000, p.seqNum)) then p.seqNum else v.first
  }

  function Last(v: View, p: packet): int {
    if p.marker && (v.last == -1 || IsNewerSequenceNumber(p.seqNum, v.last % 0x1_0000)) then p.seqNum else v.last
  }

  function Inserted(list: seq<packet>, p: packet): seq<packet> {
    var k := Position(list, p.seqNum);
    list[..k] + [p] + list[k..]
  }

  /** One call of InsertPacket. */
  function Step(v: View, p: packet): View {
    if Refused(v, p) then v
    else
      var list, first, last := Inserted(v.list, p), First(v, p), Last(v, p);
      View(list, first, last, if first != -1 && last != -1 then Consecutive(list) else v.complete, p.key)
  }

  /** A packet that comes again is refused exactly when it put any bytes into the frame, or the session is full. */
  lemma AgainExactly(v: View, p: packet)
    requires !Refused(v, p)
    ensures Refused(Step(v, p), p) <==> Content(p) != [] || |v.list| == 799
  {
    PositionAgain(v.list, p);
  }

  lemma PositionAgain(list: seq<packet>, p: packet)
    ensures var k := Position(list, p.seqNum);
            Position(Inserted(list, p), p.seqNum) == k + 1 && Inserted(list, p)[k] == p
  {
    var k := Position(list, p.seqNum);
    PositionExactly(list, p.seqNum, k);
    PositionExactly(Inserted(list, p), p.seqNum, k + 1);
  }

  function StepAll(v: View, ps: seq<packet>): View {
    if ps == [] then v else Step(StepAll(v, ps[..|ps| - 1]), ps[|ps| - 1])
  }

  /** Whatever packets arrive, a session never holds more than 800, and once it does it stays as it is. */
  lemma {:induction false} NeverMore(ps: seq<packet>)
    ensures |StepAll(EMPTY, ps).list| <= 800
    ensures |StepAll(EMPTY, ps).list| == 800 ==> forall p: packet :: Step(StepAll(EMPTY, ps), p) == StepAll(EMPTY, ps)
    ensures |StepAll(EMPTY, ps).list| < 800 ==>
              forall p: packet :: Refused(StepAll(EMPTY, ps), p) <==> IsDuplicate(StepAll(EMPTY, ps), p)
  {
    if ps != [] {
      NeverMore(ps[..|ps| - 1]);
    }
  }

  // ----- The code -----

  /** An element of `packets_`; `dataPtr` is an offset into the frame buffer. */
  datatype Entry = Entry(packet: packet, dataPtr: nat, sizeBytes: nat)

  function PacketsOf(es: seq<Entry>): (list: seq<packet>)
    ensures |list| == |es| && forall k :: 0 <= k < |es| ==> list[k] == es[k].packet
  {
    seq(|es|, k requires 0 <= k < |es| => es[k].packet)
  }

  /** Entry k points at row k of rows laid end to end. */
  predicate PointsAt(es: seq<Entry>, k: nat, rows: seq<seq<byte>>)
    requires k < |es| == |rows|
  {
    es[k].dataPtr == Start(rows, k) && es[k].sizeBytes == |rows[k]|
  }

  predicate PointsInto(es: seq<Entry>, rows: seq<seq<byte>>) {
    |es| == |rows| && forall k :: 0 <= k < |es| ==> PointsAt(es, k, rows)
  }

  predicate Begins(bytes: seq<byte>, content: seq<byte>) {
    |content| <= |bytes| && bytes[..|content|] == content
  }

  /** The buffer with the bytes from `at` on moved up by n, and what lies in the gap not said. */
  predicate Moved(before: seq<byte>, after: seq<byte>, at: nat, total: nat, n: nat) {
    && at <= total <= |before| && total + n <= |after|
    && after[..at] == before[..at]
    && after[at + n..total + n] == before[at..total]
  }

  /** Moving up what lies behind a place and filling the gap puts a row in that place. */
  lemma RowInserted(before: seq<byte>, after: seq<byte>, rows: seq<seq<byte>>, k: nat, row: seq<byte>)
    requires k <= |rows| && Begins(before, Flat(rows))
    requires Moved(before, after, Start(rows, k), |Flat(rows)|, |row|)
    requires after[Start(rows, k)..Start(rows, k) + |row|] == row
    ensures Begins(after, Flat(WithRow(rows, k, row)))
  {
    FlatWith(rows, k, row);
    Spliced(before, after, Flat(rows[..k]), row, Flat(rows[k..]));
  }

  lemma Spliced(before: seq<byte>, after: seq<byte>, a: seq<byte>, b: seq<byte>, c: seq<byte>)
    requires Begins(before, a + c) && Moved(before, after, |a|, |a + c|, |b|) && after[|a|..|a| + |b|] == b
    ensures Begins(after, a + b + c)
  {
    assert before[..|a|] == (a + c)[..|a|] == a;
    assert before[|a|..|a + c|] == (a + c)[|a|..] == c;
    assert after[..|a + b + c|] == after[..|a|] + after[|a|..|a| + |b|] + after[|a| + |b|..|a + b + c|];
  }

  method Insert(buffer: seq<byte>, insertStartCode: bool, fb: array<byte>, at: nat) returns (length: nat)
    requires at + (if insertStartCode then 4 else 0) + |buffer| <= fb.Length
    modifies fb
    ensures length == (if insertStartCode then 4 else 0) + |buffer|
    ensures fb[..] == Written(old(fb[..]), at, (if insertStartCode then START_CODE else []) + buffer)
  {
    if insertStartCode {
      forall i | 0 <= i < 4 {
        fb[at + i] := START_CODE[i];
      }
    }
    var from := at + if insertStartCode then 4 else 0;
    forall i | 0 <= i < |buffer| {
      fb[from + i] := buffer[i];
    }
    length := |buffer| + if insertStartCode then 4 else 0;
  }

  /** The buffer after `row` has been written over it at `at`. */
  function Written(bytes: seq<byte>, at: nat, row: seq<byte>): seq<byte>
    requires at + |row| <= |bytes|
  {
    bytes[..at] + row + bytes[at + |row|..]
  }

  lemma WrittenOn(bytes: seq<byte>, at: nat, a: seq<byte>, b: seq<byte>)
    requires at + |a + b| <= |bytes|
    ensures Written(Written(bytes, at, a), at + |a|, b) == Written(bytes, at, a + b)
  {
  }

  method BufferToUWord16(data: seq<byte>, at: nat) returns (length: nat)
    requires at + 2 <= |data|
    ensures length == Word16At(data[at..])
  {
    ByteOrder.PairIs(data[at], data[at + 1]);
    length := Or(Shl(data[at], 8), data[at + 1]);
  }

  lemma UnpackedNext(s: seq<byte>, n: nat, nal: seq<byte>, rest: seq<byte>, prefix: seq<byte>)
    requires 2 <= 2 + n <= |s| && n == Word16At(s) && nal == s[2..2 + n] && rest == s[2 + n..]
    ensures Entries(s) <==> Entries(rest)
    ensures Entries(rest) ==> Unpacked(s, prefix) == prefix + nal + Unpacked(rest, prefix)
  {
  }

  /** The next NAL unit of an aggregation packet. */
  lemma NextEntry(data: seq<byte>, at: nat, prefix: seq<byte>)
    requires at < |data| && Entries(data[at..])
    ensures at + 2 <= |data|
    ensures var n := Word16At(data[at..]);
            && at + 2 + n <= |data| && Entries(data[at + 2 + n..])
            && Unpacked(data[at..], prefix) == prefix + data[at + 2..at + 2 + n] + Unpacked(data[at + 2 + n..], prefix)
  {
    var s, n := data[at..], Word16At(data[at..]);
    Slices(data, at, n);
    UnpackedNext(s, n, data[at + 2..at + 2 + n], data[at + 2 + n..], prefix);
  }

  lemma Slices(data: seq<byte>, at: nat, n: nat)
    requires at + 2 + n <= |data|
    ensures data[at + 2..at + 2 + n] == data[at..][2..2 + n] && data[at + 2 + n..] == data[at..][2 + n..]
  {
  }

  /** The length of the next NAL unit, and what it and the NAL units behind it will put into the frame. */
  method NextLength(data: seq<byte>, at: nat, ghost prefix: seq<byte>)
    returns (length: nat, next: nat, ghost piece: seq<byte>, ghost rest: seq<byte>)
    requires at < |data| && Entries(data[at..])
    ensures next == at + 2 + length <= |data| && Entries(data[next..])
    ensures piece == prefix + data[at + 2..next] && rest == Unpacked(data[next..], prefix)
    ensures Unpacked(data[at..], prefix) == piece + rest
  {
    NextEntry(data, at, prefix);
    length := BufferToUWord16(data, at);
    next := at + 2 + length;
    piece, rest := prefix + data[at + 2..next], Unpacked(data[next..], prefix);
  }

  /** The first pass over an aggregation packet: how many bytes it will take. */
  method RequiredLength(data: seq<byte>, first: bool, ghost prefix: seq<byte>) returns (requiredLength: nat)
    requires data != [] && Entries(data[1..]) && |prefix| == if first then 4 else 0
    ensures requiredLength == |Unpacked(data[1..], prefix)|
  {
    var nalu := 1;
    requiredLength := 0;
    ghost var all, piece, rest := Unpacked(data[1..], prefix), [], Unpacked(data[1..], prefix);
    while nalu < |data|
      invariant 1 <= nalu <= |data| && Entries(data[nalu..]) && rest == Unpacked(data[nalu..], prefix)
      invariant requiredLength + |rest| == |all|
    {
      var length;
      length, nalu, piece, rest := NextLength(data, nalu, prefix);
      requiredLength := requiredLength + length + if first then 4 else 0;
    }
  }

  /** Of what a packet puts into the frame, `done` has been written at `at`; the NAL units from `nalu` on are left. */
  predicate Partly(bytes: seq<byte>, before: seq<byte>, at: nat, data: seq<byte>, nalu: nat, done: seq<byte>,
                   prefix: seq<byte>)
    requires data != [] && Entries(data[1..]) && at + |Unpacked(data[1..], prefix)| <= |before|
  {
    && 1 <= nalu <= |data| && Entries(data[nalu..])
    && Unpacked(data[1..], prefix) == done + Unpacked(data[nalu..], prefix)
    && bytes == Written(before, at, done)
  }

  /** The second pass: the NAL units into the frame buffer. */
  method InsertEntries(data: seq<byte>, first: bool, fb: array<byte>, at: nat, ghost prefix: seq<byte>)
    requires data != [] && Entries(data[1..]) && prefix == if first then START_CODE else []
    requires at + |Unpacked(data[1..], prefix)| <= fb.Length
    modifies fb
    ensures fb[..] == Written(old(fb[..]), at, Unpacked(data[1..], prefix))
  {
    var nalu, ptr := 1, at;
    ghost var before, done := fb[..], [];
    while nalu < |data|
      invariant Partly(fb[..], before, at, data, nalu, done, prefix) && ptr == at + |done|
      decreases |data| - nalu
    {
      nalu, ptr, done := InsertEntry(data, first, fb, nalu, ptr, before, at, done, prefix);
    }
    assert Unpacked(data[1..], prefix) == done;
  }

  /** One round of it. */
  method InsertEntry(data: seq<byte>, first: bool, fb: array<byte>, nalu: nat, ptr: nat,
                     ghost before: seq<byte>, ghost at: nat, ghost done: seq<byte>, ghost prefix: seq<byte>)
    returns (nalu': nat, ptr': nat, ghost done': seq<byte>)
    requires data != [] && Entries(data[1..]) && prefix == if first then START_CODE else []
    requires |before| == fb.Length && at + |Unpacked(data[1..], prefix)| <= |before| && nalu < |data|
    requires Partly(fb[..], before, at, data, nalu, done, prefix) && ptr == at + |done|
    modifies fb
    ensures Partly(fb[..], before, at, data, nalu', done', prefix) && ptr' == at + |done'| && nalu < nalu'
  {
    ghost var piece, rest;
    var length, n;
    length, nalu', piece, rest := NextLength(data, nalu, prefix);
    Taken(Unpacked(data[1..], prefix), done, piece, rest);
    done' := done + piece;
    n := InsertBehind(data[nalu + 2..nalu'], first, fb, ptr, before, at, done, piece);
    ptr' := ptr + n;
  }

  /** Insert behind what has been written so far. */
  method InsertBehind(nal: seq<byte>, first: bool, fb: array<byte>, ptr: nat,
                      ghost before: seq<byte>, ghost at: nat, ghost done: seq<byte>, ghost piece: seq<byte>)
    returns (n: nat)
    requires piece == (if first then START_CODE else []) + nal
    requires ptr == at + |done| && |before| == fb.Length && at + |done + piece| <= |before|
    requires fb[..] == Written(before, at, done)
    modifies fb
    ensures n == |piece| && fb[..] == Written(before, at, done + piece)
  {
    n := Insert(nal, first, fb, ptr);
    WrittenOn(before, at, done, piece);
  }

  lemma Taken(all: seq<byte>, done: seq<byte>, piece: seq<byte>, rest: seq<byte>)
    requires all == done + (piece + rest)
    ensures all == (done + piece) + rest && |done + piece| <= |all|
  {
  }

  /** memmove of n bytes up by `steps`. */
  method MoveUp(fb: array<byte>, from: nat, n: nat, steps: nat)
    requires from + steps + n <= fb.Length
    modifies fb
    ensures Moved(old(fb[..]), fb[..], from, from + n, steps)
  {
    forall i | 0 <= i < n {
      fb[from + steps + i] := fb[from + i];
    }
  }

  /** The entries other than k point at these rows; entry k has no bytes in the buffer yet. */
  predicate Gap(es: seq<Entry>, k: nat, rows: seq<seq<byte>>) {
    && k < |es| == |rows| + 1
    && (forall j :: 0 <= j < k ==> PointsAtRow(es[j], rows, j))
    && (forall j :: k < j < |es| ==> PointsAtRow(es[j], rows, j - 1))
  }

  predicate PointsAtRow(e: Entry, rows: seq<seq<byte>>, j: nat)
    requires j < |rows|
  {
    e.dataPtr == Start(rows, j) && e.sizeBytes == |rows[j]|
  }

  /** How far up an entry's data pointer is moved by n when it is behind entry k. */
  predicate MovedUp(e0: Entry, e1: Entry, n: nat) {
    e1 == e0.(dataPtr := e0.dataPtr + n)
  }

  predicate Shifted(es0: seq<Entry>, es1: seq<Entry>, k: nat, n: nat) {
    && k < |es0| == |es1| && es1[..k + 1] == es0[..k + 1]
    && (forall j :: k < j < |es0| ==> MovedUp(es0[j], es1[j], n))
  }

  /** Once the entries behind it have been moved up and its own size is set, entry k points at its row too. */
  lemma GapFilled(es0: seq<Entry>, es1: seq<Entry>, k: nat, rows: seq<seq<byte>>, row: seq<byte>)
    requires Gap(es0, k, rows) && Shifted(es0, es1, k, |row|) && es0[k].dataPtr == Start(rows, k)
    ensures var es := es1[k := es1[k].(sizeBytes := |row|)];
            PointsInto(es, WithRow(rows, k, row)) && PacketsOf(es) == PacketsOf(es0)
  {
    var es := es1[k := es1[k].(sizeBytes := |row|)];
    assert forall j :: 0 <= j <= k ==> es1[j] == es1[..k + 1][j] == es0[..k + 1][j] == es0[j];
    forall j | 0 <= j < |es|
      ensures PointsAt(es, j, WithRow(rows, k, row)) && es[j].packet == es0[j].packet
    {
      StartWith(rows, k, row, j);
      if j < k {
        assert PointsAtRow(es0[j], rows, j);
      } else if j > k {
        assert MovedUp(es0[j], es1[j], |row|) && PointsAtRow(es0[j], rows, j - 1);
      }
    }
  }

  lemma RowWritten(before: seq<byte>, moved: seq<byte>, rows: seq<seq<byte>>, k: nat, row: seq<byte>)
    requires k <= |rows| && Begins(before, Flat(rows))
    requires Moved(before, moved, Start(rows, k), |Flat(rows)|, |row|)
    ensures Begins(Written(moved, Start(rows, k), row), Flat(WithRow(rows, k, row)))
  {
    var at, after := Start(rows, k), Written(moved, Start(rows, k), row);
    assert after[at + |row|..|Flat(rows)| + |row|] == moved[at + |row|..|Flat(rows)| + |row|];
    RowInserted(before, after, rows, k, row);
  }

  class VCMSessionInfo {
    var packets: seq<Entry>
    var firstPacketSeqNum: int
    var lastPacketSeqNum: int
    var complete: bool
    var keyFrame: bool

    ghost function Seen(): View
      reads this
    {
      View(PacketsOf(packets), firstPacketSeqNum, lastPacketSeqNum, complete, keyFrame)
    }

    /** The frame buffer holds the frame, and each entry knows where its bytes are. */
    ghost predicate Holds(bytes: seq<byte>)
      reads this
    {
      PointsInto(packets, Contents(PacketsOf(packets))) && Begins(bytes, Frame(PacketsOf(packets)))
    }

    constructor ()
      ensures Seen() == EMPTY && forall bytes :: Holds(bytes)
    {
      packets := [];
      firstPacketSeqNum, lastPacketSeqNum := -1, -1;
      complete, keyFrame := false, false;
    }

    method Reset()
      modifies this
      ensures Seen() == EMPTY && forall bytes :: Holds(bytes)
    {
      complete, keyFrame := false, false;
      packets := [];
      firstPacketSeqNum, lastPacketSeqNum := -1, -1;
      assert PacketsOf(packets) == EMPTY.list;
      assert Contents(EMPTY.list) == [];
    }

    method ShiftSubsequentPackets(fb: array<byte>, k: nat, steps: nat, ghost rows: seq<seq<byte>>)
      requires Gap(packets, k, rows) && |Flat(rows)| + steps <= fb.Length
      modifies this`packets, fb
      ensures Shifted(old(packets), packets, k, steps)
      ensures Moved(old(fb[..]), fb[..], Start(rows, k), |Flat(rows)|, steps)
    {
      ghost var before := packets;
      StartEnd(rows, k);
      var it := k + 1;
      if it == |packets| {
        return;
      }
      assert PointsAtRow(packets[it], rows, k);
      var firstPacketPtr := packets[it].dataPtr;
      var shiftLength := 0;
      while it < |packets|
        invariant k < it <= |packets| == |before| && fb[..] == old(fb[..])
        invariant firstPacketPtr + shiftLength == Start(rows, it - 1)
        invariant packets[..k + 1] == before[..k + 1] && packets[it..] == before[it..]
        invariant forall j :: k < j < it ==> MovedUp(before[j], packets[j], steps)
      {
        assert packets[it] == before[it..][0] == before[it] && PointsAtRow(before[it], rows, it - 1);
        StartNext(rows, it - 1);
        shiftLength := shiftLength + packets[it].sizeBytes;
        packets := packets[it := packets[it].(dataPtr := packets[it].dataPtr + steps)];
        it := it + 1;
      }
      MoveUp(fb, firstPacketPtr, shiftLength, steps);
    }

    /** The bytes of packet k into the frame buffer, in between those of the packets around it. */
    method InsertBuffer(fb: array<byte>, k: nat, ghost rows: seq<seq<byte>>) returns (n: nat)
      requires Gap(packets, k, rows) && Begins(fb[..], Flat(rows))
      requires |Flat(rows)| + |Content(packets[k].packet)| <= fb.Length
      modifies this`packets, fb
      ensures PacketsOf(packets) == old(PacketsOf(packets)) && n == |Content(old(packets[k].packet))|
      ensures var more := WithRow(rows, k, Content(old(packets[k].packet)));
              PointsInto(packets, more) && Begins(fb[..], Flat(more))
    {
      var packet := packets[k].packet;
      var offset := OffsetOf(k, rows);
      GapMarked(packets, k, rows, offset);
      packets := packets[k := packets[k].(dataPtr := offset)];
      if packet.stapA {
        n := RequiredLength(packet.data, packet.first, Prefix(packet));
        n := InsertStapA(fb, k, rows, packet, offset, n);
      } else {
        n := InsertSingle(fb, k, rows, packet, offset);
      }
    }

    method OffsetOf(k: nat, ghost rows: seq<seq<byte>>) returns (offset: nat)
      requires Gap(packets, k, rows)
      ensures offset == Start(rows, k)
    {
      offset := 0;
      for it := 0 to k
        invariant offset == Start(rows, it)
      {
        assert PointsAtRow(packets[it], rows, it);
        StartNext(rows, it);
        offset := offset + packets[it].sizeBytes;
      }
    }

    method InsertStapA(fb: array<byte>, k: nat, ghost rows: seq<seq<byte>>, packet: packet, offset: nat, length: nat)
      returns (n: nat)
      requires Gap(packets, k, rows) && Begins(fb[..], Flat(rows))
      requires packets[k].dataPtr == offset == Start(rows, k) && packet.stapA
      requires length == |Content(packet)| && |Flat(rows)| + length <= fb.Length
      modifies this`packets, fb
      ensures PacketsOf(packets) == old(PacketsOf(packets)) && n == |Content(packet)|
      ensures var more := WithRow(rows, k, Content(packet));
              PointsInto(packets, more) && Begins(fb[..], Flat(more))
    {
      ShiftSubsequentPackets(fb, k, length, rows);
      GapFilled(old(packets), packets, k, rows, Content(packet));
      RowWritten(old(fb[..]), fb[..], rows, k, Content(packet));
      InsertEntries(packet.data, packet.first, fb, offset, Prefix(packet));
      packets := packets[k := packets[k].(sizeBytes := length)];
      n := length;
    }

    method InsertSingle(fb: array<byte>, k: nat, ghost rows: seq<seq<byte>>, packet: packet, offset: nat)
      returns (n: nat)
      requires Gap(packets, k, rows) && Begins(fb[..], Flat(rows))
      requires packets[k].dataPtr == offset == Start(rows, k) && !packet.stapA
      requires |Flat(rows)| + |Content(packet)| <= fb.Length
      modifies this`packets, fb
      ensures PacketsOf(packets) == old(PacketsOf(packets)) && n == |Content(packet)|
      ensures var more := WithRow(rows, k, Content(packet));
              PointsInto(packets, more) && Begins(fb[..], Flat(more))
    {
      ShiftSubsequentPackets(fb, k, |packet.data| + (if packet.first then 4 else 0), rows);
      GapFilled(old(packets), packets, k, rows, Content(packet));
      RowWritten(old(fb[..]), fb[..], rows, k, Content(packet));
      n := Insert(packet.data, packet.first, fb, offset);
      packets := packets[k := packets[k].(sizeBytes := n)];
    }

    /** InsertPacket, for an H.264 packet that is not an empty one: -1 when the frame has too many packets, -2 for a
        duplicate, else how many bytes the frame has grown by. */
    method InsertPacket(packet: packet, fb: array<byte>) returns (r: int)
      requires Holds(fb[..])
      requires !Refused(Seen(), packet) ==> |Frame(PacketsOf(packets))| + |Content(packet)| <= fb.Length
      modifies this, fb
      ensures Holds(fb[..]) && Seen() == Step(old(Seen()), packet)
      ensures r == if |old(packets)| == MAX_PACKETS then -1
                   else if IsDuplicate(old(Seen()), packet) then -2 else |Content(packet)|
    {
      if |packets| == MAX_PACKETS {
        return -1;
      }
      var rit := FindPosition(packet.seqNum);
      var duplicate := HasDuplicateAt(packet, rit, fb[..]);
      if duplicate {
        return -2;
      }
      TrackEnds(packet);
      r := InsertAt(packet, fb, rit);
      UpdateCompleteSession();
    }

    method HasDuplicateAt(packet: packet, rit: nat, ghost bytes: seq<byte>) returns (duplicate: bool)
      requires Holds(bytes) && rit == Position(PacketsOf(packets), packet.seqNum)
      ensures duplicate == IsDuplicate(Seen(), packet)
    {
      assert rit > 0 ==> PointsAt(packets, rit - 1, Contents(PacketsOf(packets)));
      duplicate := rit > 0 && packets[rit - 1].packet.seqNum == packet.seqNum && packets[rit - 1].sizeBytes > 0;
    }

    method TrackEnds(packet: packet)
      modifies this`keyFrame, this`firstPacketSeqNum, this`lastPacketSeqNum
      ensures keyFrame == packet.key
      ensures firstPacketSeqNum == First(old(Seen()), packet) && lastPacketSeqNum == Last(old(Seen()), packet)
    {
      keyFrame := packet.key;
      if packet.first
         && (firstPacketSeqNum == -1 || IsNewerSequenceNumber(firstPacketSeqNum % 0x1_0000, packet.seqNum)) {
        firstPacketSeqNum := packet.seqNum;
      }
      if packet.marker
         && (lastPacketSeqNum == -1 || IsNewerSequenceNumber(packet.seqNum, lastPacketSeqNum % 0x1_0000)) {
        lastPacketSeqNum := packet.seqNum;
      }
    }

    method FindPosition(s: seqnum) returns (rit: nat)
      ensures rit == Position(PacketsOf(packets), s) <= |packets|
    {
      rit := |packets|;
      ghost var list := PacketsOf(packets);
      assert list[..rit] == list;
      while rit > 0 && LatestSequenceNumber(s, packets[rit - 1].packet.seqNum) != s
        invariant rit <= |list| && Position(list, s) == Position(list[..rit], s)
      {
        assert list[..rit][..rit - 1] == list[..rit - 1];
        rit := rit - 1;
      }
    }

    method InsertAt(packet: packet, fb: array<byte>, k: nat) returns (n: nat)
      requires Holds(fb[..]) && |Frame(PacketsOf(packets))| + |Content(packet)| <= fb.Length && k <= |packets|
      modifies this`packets, fb
      ensures Holds(fb[..]) && n == |Content(packet)|
      ensures PacketsOf(packets) == old(PacketsOf(packets)[..k] + [packet] + PacketsOf(packets)[k..])
    {
      ghost var rows := Contents(PacketsOf(packets));
      var entry := Entry(packet, 0, |packet.data|);
      GapOpened(packets, k, rows, entry);
      PacketsWith(packets, k, entry);
      ContentsWith(PacketsOf(packets), k, packet);
      packets := packets[..k] + [entry] + packets[k..];
      n := InsertBuffer(fb, k, rows);
    }

    method UpdateCompleteSession()
      requires packets != []
      modifies this`complete
      ensures complete == if firstPacketSeqNum != -1 && lastPacketSeqNum != -1 then Consecutive(PacketsOf(packets))
                          else old(complete)
    {
      if firstPacketSeqNum != -1 && lastPacketSeqNum != -1 {
        var completeSession := true;
        ghost var list := PacketsOf(packets);
        var it := 1;
        while it < |packets|
          invariant 1 <= it <= |packets|
          invariant completeSession && forall j :: 1 <= j < it ==> list[j].seqNum == (list[j - 1].seqNum + 1) % 0x1_0000
        {
          if packets[it].packet.seqNum != (packets[it - 1].packet.seqNum + 1) % 0x1_0000 {
            completeSession := false;
            break;
          }
          it := it + 1;
        }
        complete := completeSession;
      }
    }
  }

  lemma GapOpened(es: seq<Entry>, k: nat, rows: seq<seq<byte>>, e: Entry)
    requires PointsInto(es, rows) && k <= |es|
    ensures Gap(es[..k] + [e] + es[k..], k, rows)
  {
    var es' := es[..k] + [e] + es[k..];
    forall j | 0 <= j < |es'| && j != k
      ensures j < k ==> PointsAtRow(es'[j], rows, j)
      ensures j > k ==> PointsAtRow(es'[j], rows, j - 1)
    {
      assert PointsAt(es, if j < k then j else j - 1, rows);
    }
  }

  lemma PacketsWith(es: seq<Entry>, k: nat, e: Entry)
    requires k <= |es|
    ensures PacketsOf(es[..k] + [e] + es[k..]) == PacketsOf(es)[..k] + [e.packet] + PacketsOf(es)[k..]
  {
  }

  lemma ContentsWith(list: seq<packet>, k: nat, p: packet)
    requires k <= |list|
    ensures Contents(list[..k] + [p] + list[k..]) == WithRow(Contents(list), k, Content(p))
  {
    ContentsSplit(list[..k] + [p], list[k..]);
    ContentsSplit(list[..k], [p]);
    ContentsSplit(list[..k], list[k..]);
    assert list == list[..k] + list[k..];
    assert Contents([p]) == [Content(p)];
  }

  lemma ContentsSplit(a: seq<packet>, b: seq<packet>)
    ensures Contents(a + b) == Contents(a) + Contents(b)
  {
  }

  lemma GapMarked(es: seq<Entry>, k: nat, rows: seq<seq<byte>>, at: nat)
    requires Gap(es, k, rows)
    ensures Gap(es[k := es[k].(dataPtr := at)], k, rows)
    ensures PacketsOf(es[k := es[k].(dataPtr := at)]) == PacketsOf(es)
  {
    var es' := es[k := es[k].(dataPtr := at)];
    forall j | 0 <= j < |es| && j != k
      ensures es'[j] == es[j]
      ensures j < k ==> PointsAtRow(es'[j], rows, j)
      ensures j > k ==> PointsAtRow(es'[j], rows, j - 1)
    {
    }
  }

  lemma StartEnd(rows: seq<seq<byte>>, k: nat)
    requires k <= |rows|
    ensures Start(rows, |rows|) == |Flat(rows)| && Start(rows, k) <= |Flat(rows)|
  {
    assert rows[..|rows|] == rows;
    FlatWith(rows, k, []);
  }
}

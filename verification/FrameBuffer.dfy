/** The owner of a session's frame buffer: VCMFrameBuffer makes room for each packet before it is inserted
    (webrtc/modules/video_coding/main/source/frame_buffer.cc and encoded_frame.cc). */
module FrameBuffer {
  import opened Bits
  import opened Sequences
  import opened SessionInfo
  import Reassembly

  /** kBufferIncStepSizeBytes and kMaxJBFrameSizeBytes. */
  const INC_STEP: nat := 30000
  const MAX_SIZE: nat := 4000000

  datatype Outcome = SizeError | DuplicatePacket | Incomplete | CompleteSession

  // ----- The reservation -----

  /** What a packet is taken to need, in a frame of this length. */
  function Required(length: nat, p: packet): nat {
    length + |p.data| + if p.first then 4 else 0
  }

  function Increments(required: nat): nat {
    required / INC_STEP + if required % INC_STEP > 0 then 1 else 0
  }

  /** The size of the buffer once it has been grown for a packet, if it is. */
  function Reserved(length: nat, size: nat, p: packet): nat {
    if Required(length, p) >= size then size + Increments(Required(length, p)) * INC_STEP else size
  }

  /** The buffer would grow beyond what a frame may have: the packet is not inserted. */
  predicate TooBig(length: nat, size: nat, p: packet) {
    Required(length, p) >= size && Reserved(length, size, p) > MAX_SIZE
  }

  /** The packet's bytes fit into what is reserved for them. */
  predicate HasRoom(length: nat, size: nat, p: packet) {
    TooBig(length, size, p) || length + |Content(p)| <= Reserved(length, size, p)
  }

  // ----- The specification -----

  /** The session and the size of its buffer. */
  datatype State = State(v: View, size: nat)

  /** An object that holds no packet, new or given out again after a Reset, which keeps the buffer. */
  function Cleared(size: nat): State {
    State(EMPTY, size)
  }

  function FrameStep(s: State, p: packet): State {
    var length := |Frame(s.v.list)|;
    if TooBig(length, s.size, p) then s else State(Step(s.v, p), Reserved(length, s.size, p))
  }

  function OutcomeOf(s: State, p: packet): Outcome {
    if TooBig(|Frame(s.v.list)|, s.size, p) || |s.v.list| == MAX_PACKETS then SizeError
    else if IsDuplicate(s.v, p) then DuplicatePacket
    else if Step(s.v, p).complete then CompleteSession
    else Incomplete
  }

  predicate StepHasRoom(s: State, p: packet) {
    Refused(s.v, p) || HasRoom(|Frame(s.v.list)|, s.size, p)
  }

  // ----- The code -----

  class VCMFrameBuffer {
    var buffer: array<byte>
    var length: nat
    const sessionInfo: VCMSessionInfo

    ghost predicate Valid()
      reads this, sessionInfo, buffer
    {
      sessionInfo.Holds(buffer[..]) && length == |Frame(PacketsOf(sessionInfo.packets))|
    }

    ghost function Now(): State
      reads this, sessionInfo, buffer
    {
      State(sessionInfo.Seen(), buffer.Length)
    }

    constructor ()
      ensures Valid() && fresh(sessionInfo) && fresh(buffer) && Now() == Cleared(0)
    {
      buffer := new byte[0];
      length := 0;
      sessionInfo := new VCMSessionInfo();
      new;
      assert PacketsOf(sessionInfo.packets) == EMPTY.list;
      assert Contents(EMPTY.list) == [];
    }

    /** What the jitter buffer calls before it gives the object out for another frame. */
    method Reset()
      requires Valid()
      modifies this`length, sessionInfo
      ensures Valid() && Now() == Cleared(buffer.Length)
    {
      length := 0;
      sessionInfo.Reset();
      assert PacketsOf(sessionInfo.packets) == EMPTY.list;
      assert Contents(EMPTY.list) == [];
    }

    /** InsertPacket, without decoding of incomplete frames. */
    method InsertPacket(packet: packet) returns (outcome: Outcome)
      requires Valid() && StepHasRoom(Now(), packet)
      modifies this, buffer, sessionInfo
      ensures Valid() && (buffer == old(buffer) || fresh(buffer))
      ensures Now() == FrameStep(old(Now()), packet) && outcome == OutcomeOf(old(Now()), packet)
    {
      var ok := Reserve(packet);
      if !ok {
        return SizeError;
      }
      outcome := InsertInto(packet);
    }

    /** The buffer grown for the packet, if that is needed, or false if it would become too large. */
    method Reserve(packet: packet) returns (ok: bool)
      requires Valid()
      modifies this`buffer
      ensures Valid() && (buffer == old(buffer) || fresh(buffer))
      ensures ok <==> !TooBig(length, old(buffer.Length), packet)
      ensures buffer.Length == if ok then Reserved(length, old(buffer.Length), packet) else old(buffer.Length)
    {
      var requiredSizeBytes := length + |packet.data| + if packet.first then 4 else 0;
      if requiredSizeBytes >= buffer.Length {
        var increments := requiredSizeBytes / INC_STEP + if requiredSizeBytes % INC_STEP > 0 then 1 else 0;
        var newSize := buffer.Length + increments * INC_STEP;
        if newSize > MAX_SIZE {
          return false;
        }
        VerifyAndAllocate(newSize);
      }
      return true;
    }

    method InsertInto(packet: packet) returns (outcome: Outcome)
      requires Valid()
      requires !Refused(sessionInfo.Seen(), packet) ==> length + |Content(packet)| <= buffer.Length
      modifies this`length, buffer, sessionInfo
      ensures Valid() && sessionInfo.Seen() == Step(old(sessionInfo.Seen()), packet)
      ensures var v := old(sessionInfo.Seen());
              outcome == if |v.list| == MAX_PACKETS then SizeError
                         else if IsDuplicate(v, packet) then DuplicatePacket
                         else if Step(v, packet).complete then CompleteSession else Incomplete
    {
      StepGrows(sessionInfo.Seen(), packet);
      var r := sessionInfo.InsertPacket(packet, buffer);
      if r == -1 {
        return SizeError;
      } else if r == -2 {
        return DuplicatePacket;
      }
      length := length + r;
      return if sessionInfo.complete then CompleteSession else Incomplete;
    }

    /** A larger buffer with the bytes of the old one. */
    method VerifyAndAllocate(minimumSize: nat)
      requires Valid()
      modifies this`buffer
      ensures Valid() && (buffer == old(buffer) || fresh(buffer))
      ensures buffer.Length == if minimumSize > old(buffer.Length) then minimumSize else old(buffer.Length)
      ensures buffer[..old(buffer.Length)] == old(buffer[..])
    {
      if minimumSize > buffer.Length {
        var before := buffer;
        var newBuffer := new byte[minimumSize](i requires 0 <= i < minimumSize reads before =>
          if i < before.Length then before[i] else 0);
        buffer := newBuffer;
        StillBegins(before[..], buffer[..], Frame(PacketsOf(sessionInfo.packets)));
      }
    }
  }

  /** A packet that is inserted makes the frame longer by its content. */
  lemma StepGrows(v: View, p: packet)
    ensures |Frame(Step(v, p).list)| == |Frame(v.list)| + if Refused(v, p) then 0 else |Content(p)|
  {
    var k := Position(v.list, p.seqNum);
    ContentsWith(v.list, k, p);
    FlatWith(Contents(v.list), k, Content(p));
  }

  lemma StillBegins(before: seq<byte>, after: seq<byte>, content: seq<byte>)
    requires Begins(before, content) && before <= after
    ensures Begins(after, content)
  {
  }

  // ----- When what is reserved suffices -----

  /** How many NAL units an aggregation packet has. */
  function EntryCount(s: seq<byte>): nat
    requires Entries(s)
  {
    if s == [] then 0 else 1 + EntryCount(s[2 + Word16At(s)..])
  }

  lemma {:induction false} UnpackedSize(s: seq<byte>, prefix: seq<byte>)
    requires Entries(s)
    ensures |prefix| == 4 ==> |Unpacked(s, prefix)| == |s| + 2 * EntryCount(s)
    ensures |prefix| == 0 ==> |Unpacked(s, prefix)| + 2 * EntryCount(s) == |s|
    decreases |s|
  {
    if s != [] {
      var n := Word16At(s);
      UnpackedNext(s, n, s[2..2 + n], s[2 + n..], prefix);
      UnpackedSize(s[2 + n..], prefix);
    }
  }

  /** A start code is two bytes longer than the size it takes the place of. */
  lemma ContentSize(p: packet)
    ensures !p.stapA ==> |Content(p)| == |p.data| + if p.first then 4 else 0
    ensures p.stapA && p.first ==> |Content(p)| == |p.data| - 1 + 2 * EntryCount(p.data[1..])
    ensures p.stapA && !p.first ==> |Content(p)| < |p.data|
  {
    if p.stapA {
      UnpackedSize(p.data[1..], Prefix(p));
    }
  }

  /** The packet has room in whatever frame it is inserted, in a buffer of whatever size. */
  ghost predicate AlwaysHasRoom(p: packet) {
    forall length: nat, size: nat :: length <= size ==> HasRoom(length, size, p)
  }

  lemma StepsHold(required: nat)
    ensures required <= Increments(required) * INC_STEP < required + INC_STEP
    ensures required % INC_STEP != 0 ==> required < Increments(required) * INC_STEP
  {
  }

  /** What a buffer becomes. Let k be the least number of steps of 30000 bytes that holds the frame so far, the packet
      and one start code: a buffer that is not larger than those bytes grows by k steps, however large it is already,
      and the packet is refused, with nothing changed, exactly when that is more than 4000000; a larger one stays as
      it is. So it is for a duplicate too. */
  lemma GrowthExactly(s: State, p: packet, k: nat)
    requires var bytes := |Frame(s.v.list)| + |p.data| + if p.first then 4 else 0;
             (k - 1) * 30000 < bytes <= k * 30000
    ensures var bytes := |Frame(s.v.list)| + |p.data| + if p.first then 4 else 0;
            && (bytes < s.size ==> FrameStep(s, p) == State(Step(s.v, p), s.size))
            && (bytes >= s.size && s.size + k * 30000 <= 4000000 ==>
                  FrameStep(s, p) == State(Step(s.v, p), s.size + k * 30000))
            && (bytes >= s.size && s.size + k * 30000 > 4000000 ==>
                  FrameStep(s, p) == s && OutcomeOf(s, p) == SizeError)
            && (TooBig(|Frame(s.v.list)|, s.size, p) <==> bytes >= s.size && s.size + k * 30000 > 4000000)
  {
    assert Increments(Required(|Frame(s.v.list)|, p)) == k;
  }

  /** Four bytes for a start code, once for the packet, are enough for up to two NAL units, and with the byte that is
      kept free, for three; a packet of more can be without room. */
  lemma RoomExactly(p: packet)
    requires |p.data| < 0x1_0000
    ensures AlwaysHasRoom(p) <==>
              || !p.stapA || !p.first || EntryCount(p.data[1..]) <= 2
              || (EntryCount(p.data[1..]) == 3 && (|p.data| + 4) % INC_STEP != 0)
  {
    ContentSize(p);
    if p.stapA && p.first && EntryCount(p.data[1..]) > 3 {
      assert !HasRoom(90000 - |p.data| - 5, 90000, p);
    } else if p.stapA && p.first && EntryCount(p.data[1..]) == 3 && (|p.data| + 4) % INC_STEP == 0 {
      StepsHold(|p.data| + 4);
      assert !HasRoom(0, 0, p);
    } else {
      forall length: nat, size: nat | length <= size
        ensures HasRoom(length, size, p)
      {
        StepsHold(Required(length, p));
      }
    }
  }

  lemma OneByteEntry(b: byte, rest: seq<byte>)
    requires Entries(rest)
    ensures var s := [0, 1, b] + rest;
            Entries(s) && EntryCount(s) == 1 + EntryCount(rest)
  {
    var s := [0, 1, b] + rest;
    assert Word16At(s) == 1 && s[3..] == rest;
  }

  lemma {:induction false} OneByteEntries(bytes: seq<byte>)
    ensures Entries(EntriesOf(bytes)) && EntryCount(EntriesOf(bytes)) == |bytes|
    ensures |EntriesOf(bytes)| == 3 * |bytes|
  {
    if bytes != [] {
      OneByteEntries(bytes[1..]);
      OneByteEntry(bytes[0], EntriesOf(bytes[1..]));
    }
  }

  /** NAL units of a byte each, behind their sizes. */
  function EntriesOf(bytes: seq<byte>): seq<byte> {
    if bytes == [] then [] else [0, 1, bytes[0]] + EntriesOf(bytes[1..])
  }

  lemma FourUnits(p: packet)
    requires p.stapA && p.first && p.data == [24] + EntriesOf([6, 7, 8, 5])
    ensures |Content(p)| == 20 && !HasRoom(29982, 30000, p)
  {
    OneByteEntries([6, 7, 8, 5]);
    assert p.data[1..] == EntriesOf([6, 7, 8, 5]);
    FourUnitsSize(p);
  }

  lemma FourUnitsSize(p: packet)
    requires p.stapA && p.first && |p.data| == 13 && EntryCount(p.data[1..]) == 4
    ensures |Content(p)| == 20 && Reserved(29982, 30000, p) == 30000 && !HasRoom(29982, 30000, p)
  {
    ContentSize(p);
  }

  // ----- Whole frames -----

  function FrameRun(ps: seq<packet>, order: seq<nat>, s: State): State
    requires Reassembly.AllBelow(order, |ps|)
  {
    if order == [] then s else FrameStep(FrameRun(ps, order[..|order| - 1], s), ps[order[|order| - 1]])
  }

  /** Each packet has room when it arrives. */
  predicate RoomAlong(ps: seq<packet>, order: seq<nat>, s: State)
    requires Reassembly.AllBelow(order, |ps|)
  {
    order == [] ||
    (RoomAlong(ps, order[..|order| - 1], s) &&
     StepHasRoom(FrameRun(ps, order[..|order| - 1], s), ps[order[|order| - 1]]))
  }

  /** Packets inserted as they arrive: the buffer holds the frame that the specification says. */
  method Receive(fb: VCMFrameBuffer, ps: seq<packet>, order: seq<nat>)
    requires fb.Valid() && Reassembly.AllBelow(order, |ps|) && RoomAlong(ps, order, fb.Now())
    modifies fb, fb.buffer, fb.sessionInfo
    ensures fb.Valid() && (fb.buffer == old(fb.buffer) || fresh(fb.buffer))
    ensures fb.Now() == FrameRun(ps, order, old(fb.Now()))
    ensures fb.buffer[..fb.length] == Frame(fb.Now().v.list)
  {
    ghost var start := fb.Now();
    assert order[..0] == [];
    for k := 0 to |order|
      invariant fb.Valid() && (fb.buffer == old(fb.buffer) || fresh(fb.buffer))
      invariant fb.Now() == FrameRun(ps, order[..k], start)
    {
      RunNext(ps, order, k, start);
      var outcome := fb.InsertPacket(ps[order[k]]);
    }
    assert order[..|order|] == order;
  }

  predicate RunsOn(ps: seq<packet>, order: seq<nat>, k: nat, s: State)
    requires Reassembly.AllBelow(order, |ps|) && k < |order|
  {
    && FrameRun(ps, order[..k + 1], s) == FrameStep(FrameRun(ps, order[..k], s), ps[order[k]])
    && StepHasRoom(FrameRun(ps, order[..k], s), ps[order[k]])
  }

  lemma {:induction false} RunNext(ps: seq<packet>, order: seq<nat>, k: nat, s: State)
    requires Reassembly.AllBelow(order, |ps|) && RoomAlong(ps, order, s) && k < |order|
    ensures RunsOn(ps, order, k, s)
    decreases |order|
  {
    var front := order[..|order| - 1];
    if k < |front| {
      RunNext(ps, front, k, s);
      RunFront(ps, order, k, s);
    } else {
      RunLast(ps, order, k, s);
    }
  }

  lemma RunFront(ps: seq<packet>, order: seq<nat>, k: nat, s: State)
    requires Reassembly.AllBelow(order, |ps|) && k < |order| - 1 && RunsOn(ps, order[..|order| - 1], k, s)
    ensures RunsOn(ps, order, k, s)
  {
    var front := order[..|order| - 1];
    assert front[..k] == order[..k] && front[..k + 1] == order[..k + 1] && front[k] == order[k];
  }

  lemma RunLast(ps: seq<packet>, order: seq<nat>, k: nat, s: State)
    requires Reassembly.AllBelow(order, |ps|) && RoomAlong(ps, order, s) && k + 1 == |order|
    ensures RunsOn(ps, order, k, s)
  {
    assert order[..k + 1] == order;
  }

  // ----- A run without room -----

  /** The state after a packet for an object that holds none. */
  lemma FirstStep(size: nat, p: packet)
    requires !TooBig(0, size, p)
    ensures FrameStep(Cleared(size), p).v.list == [p] && |Frame([p])| == |Content(p)|
    ensures FrameStep(Cleared(size), p).size == Reserved(0, size, p)
  {
    assert Contents(EMPTY.list) == [];
    StepGrows(EMPTY, p);
    assert Step(EMPTY, p).list == [p];
  }

  /** Four NAL units of a byte each, behind a packet that nearly fills a new buffer: they need two bytes more than there
      are. */
  lemma FourUnitsLackRoom(b: packet, p: packet)
    requires !b.stapA && b.first && |b.data| == 29978 && b.seqNum == 0
    requires p.stapA && p.first && p.data == [24] + EntriesOf([6, 7, 8, 5]) && p.seqNum == 1
    ensures RoomAlong([b, p], [0], Cleared(0)) && !RoomAlong([b, p], [0, 1], Cleared(0))
    ensures var s := FrameRun([b, p], [0], Cleared(0));
            s.size == 30000 && |Frame(s.v.list)| == 29982 && |Content(p)| == 20
  {
    FourUnits(p);
    NearlyFull(b, p);
    var s := FrameRun([b, p], [0], Cleared(0));
    NotRefused(s.v, b, p);
    assert [0, 1][..1] == [0];
  }

  lemma NearlyFull(b: packet, p: packet)
    requires !b.stapA && b.first && |b.data| == 29978
    ensures RoomAlong([b, p], [0], Cleared(0))
    ensures var s := FrameRun([b, p], [0], Cleared(0));
            s.v.list == [b] && s.size == 30000 && |Frame(s.v.list)| == 29982
  {
    ContentSize(b);
    FirstStep(0, b);
    assert Contents(EMPTY.list) == [];
    assert [0][..0] == [];
    assert FrameRun([b, p], [], Cleared(0)) == Cleared(0);
  }

  lemma NotRefused(v: View, b: packet, p: packet)
    requires v.list == [b] && b.seqNum != p.seqNum
    ensures !Refused(v, p)
  {
  }

  // ----- From an object that holds no packet -----

  lemma StepFits(s: State, p: packet)
    requires |Frame(s.v.list)| <= s.size && StepHasRoom(s, p)
    ensures |Frame(FrameStep(s, p).v.list)| <= FrameStep(s, p).size
  {
    StepGrows(s.v, p);
  }

  /** A frame of packets that always have room is received without running out of it. */
  lemma {:induction false} RoomForAll(ps: seq<packet>, order: seq<nat>, size: nat)
    requires Reassembly.AllBelow(order, |ps|) && forall i :: 0 <= i < |ps| ==> AlwaysHasRoom(ps[i])
    ensures RoomAlong(ps, order, Cleared(size))
    ensures var s := FrameRun(ps, order, Cleared(size));
            |Frame(s.v.list)| <= s.size
  {
    if order == [] {
      assert Contents(EMPTY.list) == [];
    } else {
      var front, p := order[..|order| - 1], ps[order[|order| - 1]];
      RoomForAll(ps, front, size);
      var s := FrameRun(ps, front, Cleared(size));
      assert HasRoom(|Frame(s.v.list)|, s.size, p);
      StepFits(s, p);
    }
  }

  /** No packet is refused because the buffer would become too large. */
  predicate NoneTooBig(ps: seq<packet>, order: seq<nat>, s: State)
    requires Reassembly.AllBelow(order, |ps|)
  {
    order == [] ||
    (NoneTooBig(ps, order[..|order| - 1], s) &&
     var before := FrameRun(ps, order[..|order| - 1], s);
     !TooBig(|Frame(before.v.list)|, before.size, ps[order[|order| - 1]]))
  }

  /** Then the session is the one that the packets alone determine. */
  lemma {:induction false} SameSession(ps: seq<packet>, order: seq<nat>, size: nat)
    requires Reassembly.AllBelow(order, |ps|) && NoneTooBig(ps, order, Cleared(size))
    ensures FrameRun(ps, order, Cleared(size)).v == Reassembly.Run(ps, order)
  {
    if order != [] {
      SameSession(ps, order[..|order| - 1], size);
    }
  }

  /** Of the first k packets those that have arrived have no more bytes than all of them. */
  predicate Shorter(ps: seq<packet>, arrived: set<nat>, k: nat)
    requires k <= |ps|
  {
    |Frame(Reassembly.Kept(ps, arrived, k))| <= |Frame(ps[..k])|
  }

  lemma {:induction false} KeptFrame(ps: seq<packet>, arrived: set<nat>, k: nat)
    requires k <= |ps|
    ensures Shorter(ps, arrived, k)
  {
    if k == 0 {
      ShorterNone(ps, arrived);
    } else {
      KeptFrame(ps, arrived, k - 1);
      ShorterNext(ps, arrived, k);
    }
  }

  lemma ShorterNone(ps: seq<packet>, arrived: set<nat>)
    ensures Shorter(ps, arrived, 0)
  {
    assert Reassembly.Kept(ps, arrived, 0) == ps[..0];
  }

  lemma ShorterNext(ps: seq<packet>, arrived: set<nat>, k: nat)
    requires 0 < k <= |ps| && Shorter(ps, arrived, k - 1)
    ensures Shorter(ps, arrived, k)
  {
    KeptFrameNext(ps, arrived, k);
    FrontFrameNext(ps, k);
  }

  lemma FrontFrameNext(ps: seq<packet>, k: nat)
    requires 0 < k <= |ps|
    ensures |Frame(ps[..k])| == |Frame(ps[..k - 1])| + |Content(ps[k - 1])|
  {
    assert ps[..k] == ps[..k - 1] + [ps[k - 1]];
    FrameNext(ps[..k - 1], ps[k - 1]);
  }

  lemma KeptFrameNext(ps: seq<packet>, arrived: set<nat>, k: nat)
    requires 0 < k <= |ps|
    ensures |Frame(Reassembly.Kept(ps, arrived, k))|
         <= |Frame(Reassembly.Kept(ps, arrived, k - 1))| + |Content(ps[k - 1])|
  {
    Reassembly.KeptNext(ps, arrived, k);
    FrameNext(Reassembly.Kept(ps, arrived, k - 1), ps[k - 1]);
  }

  lemma FrameNext(list: seq<packet>, p: packet)
    ensures |Frame(list + [p])| == |Frame(list)| + |Content(p)|
  {
    ContentsSplit(list, [p]);
    FlatSplit(Contents(list), Contents([p]));
    assert Contents([p]) == [Content(p)];
    FlatOne(Content(p));
  }

  lemma {:induction false} KeptFull(ps: seq<packet>, arrived: set<nat>, k: nat)
    requires k <= |ps|
    ensures |Reassembly.Kept(ps, arrived, k)| == k <==> forall j :: 0 <= j < k ==> j in arrived
  {
    if k > 0 {
      KeptFull(ps, arrived, k - 1);
    }
  }

  /** What InsertPacket says of packet i of a frame after others have arrived: an error when the buffer would become too
      large, and also for a packet that is repeated when the frame has 800 and they are all there; else whether it is a
      duplicate, and if not, whether the frame counts as complete with it. */
  lemma OutcomeExactly(ps: seq<packet>, n: seqnum, order: seq<nat>, size: nat, i: nat)
    requires Reassembly.IsFrame(ps, n) && Reassembly.AllBelow(order, |ps|) && i < |ps|
    requires NoneTooBig(ps, order, Cleared(size))
    ensures var s, had := FrameRun(ps, order, Cleared(size)), Reassembly.Arrived(order);
            var has := had + {i};
            OutcomeOf(s, ps[i])
            == if TooBig(|Frame(s.v.list)|, s.size, ps[i]) then SizeError
               else if i in had then if |ps| == 800 && Reassembly.Whole(ps, order) then SizeError else DuplicatePacket
               else if Reassembly.StartArrived(ps, has) && |ps| - 1 in has && Reassembly.NoGapAfter(has, |ps|)
               then CompleteSession else Incomplete
  {
    var v, had := Reassembly.Run(ps, order), Reassembly.Arrived(order);
    SameSession(ps, order, size);
    Reassembly.HoldsArrived(ps, n, order);
    if i in had {
      RepeatedOutcome(ps, n, v, had, i);
    } else {
      Reassembly.EndsSeen(ps, n, order);
      NewOutcome(ps, n, v, had, i);
    }
  }

  lemma RepeatedOutcome(ps: seq<packet>, n: seqnum, v: View, had: set<nat>, i: nat)
    requires Reassembly.IsStretch(ps, n) && i < |ps| && i in had && v.list == Reassembly.Kept(ps, had, |ps|)
    ensures IsDuplicate(v, ps[i])
    ensures |v.list| == 800 <==> |ps| == 800 && forall j :: 0 <= j < |ps| ==> j in had
  {
    KeptFull(ps, had, |ps|);
    Reassembly.Again(ps, n, had, i);
  }

  lemma NewOutcome(ps: seq<packet>, n: seqnum, v: View, had: set<nat>, i: nat)
    requires Reassembly.IsFrame(ps, n) && i < |ps| && i !in had && v.list == Reassembly.Kept(ps, had, |ps|)
    requires Reassembly.EndsAre(ps, v, had)
    ensures !Refused(v, ps[i])
    ensures var has := had + {i};
            Step(v, ps[i]).complete <==>
              Reassembly.StartArrived(ps, has) && |ps| - 1 in has && Reassembly.NoGapAfter(has, |ps|)
  {
    Reassembly.ArrivesAnew(ps, n, v, had, i);
    Reassembly.EndsNext(ps, n, v, had, i);
    Reassembly.CompleteOf(ps, n, Step(v, ps[i]), had + {i});
  }

  /** What has arrived of a frame has no more bytes than the frame. */
  lemma NoLonger(ps: seq<packet>, n: seqnum, order: seq<nat>, size: nat)
    requires Reassembly.IsFrame(ps, n) && Reassembly.AllBelow(order, |ps|)
    requires NoneTooBig(ps, order, Cleared(size))
    ensures |Frame(FrameRun(ps, order, Cleared(size)).v.list)| <= |Frame(ps)|
  {
    SameSession(ps, order, size);
    Reassembly.HoldsArrived(ps, n, order);
    KeptFrame(ps, Reassembly.Arrived(order), |ps|);
    assert ps[..|ps|] == ps;
  }

  /** The buffer grows to twice what is needed at most, so a frame of up to 1.9 million bytes is never too large for
      it, whatever size it has to begin with. */
  lemma {:induction false} SmallFramesFit(ps: seq<packet>, n: seqnum, order: seq<nat>, size: nat)
    requires Reassembly.IsFrame(ps, n) && Reassembly.AllBelow(order, |ps|)
    requires 2 * |Frame(ps)| + 170000 <= MAX_SIZE && forall i :: 0 <= i < |ps| ==> |ps[i].data| < 0x1_0000
    ensures NoneTooBig(ps, order, Cleared(size))
  {
    if order != [] {
      var front, p := order[..|order| - 1], ps[order[|order| - 1]];
      SmallFramesFit(ps, n, front, size);
      NoLonger(ps, n, front, size);
      StepsHold(Required(|Frame(FrameRun(ps, front, Cleared(size)).v.list)|, p));
    }
  }

  /** A buffer of this size will do for that many bytes: it has as many, or it is a new one, which begins with a
      step. */
  predicate Suffices(size: nat, bytes: nat) {
    bytes <= size || (size == 0 && bytes <= INC_STEP)
  }

  /** In such a buffer every packet of the frame has room, whatever its payload, in any order of arrival. */
  lemma {:induction false} RoomInLarge(ps: seq<packet>, n: seqnum, order: seq<nat>, size: nat)
    requires Reassembly.IsFrame(ps, n) && Reassembly.AllBelow(order, |ps|)
    requires Suffices(size, |Frame(ps)|) && NoneTooBig(ps, order, Cleared(size))
    ensures RoomAlong(ps, order, Cleared(size))
    ensures order != [] ==> |Frame(ps)| <= FrameRun(ps, order, Cleared(size)).size
  {
    if order != [] {
      var front, p := order[..|order| - 1], ps[order[|order| - 1]];
      var s := FrameRun(ps, front, Cleared(size));
      RoomInLarge(ps, n, front, size);
      NoLonger(ps, n, order, size);
      RoomForOne(s, p, |Frame(ps)|);
    }
  }

  lemma RoomForOne(s: State, p: packet, bytes: nat)
    requires !TooBig(|Frame(s.v.list)|, s.size, p) && |Frame(FrameStep(s, p).v.list)| <= bytes
    requires bytes <= s.size || (s.size == 0 && bytes <= INC_STEP && Content(p) != [])
    ensures StepHasRoom(s, p) && bytes <= FrameStep(s, p).size
  {
    StepGrows(s.v, p);
    ReservedSuffices(|Frame(s.v.list)|, s.size, p, bytes);
  }

  lemma ReservedSuffices(length: nat, size: nat, p: packet, bytes: nat)
    requires bytes <= size || (size == 0 && bytes <= INC_STEP && Content(p) != [])
    ensures bytes <= Reserved(length, size, p)
  {
    StepsHold(Required(length, p));
    assert size == 0 && bytes > 0 ==> Required(length, p) > 0;
  }
}

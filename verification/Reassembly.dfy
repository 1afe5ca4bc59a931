/** What becomes of a frame whose packets arrive in any order, more than once or not at all, in the hands of
    VCMSessionInfo. */
module Reassembly {
  import opened SessionInfo

  /** The packets are numbered on from s, modulo 2^16. */
  predicate Numbered(ps: seq<packet>, s: seqnum) {
    |ps| <= MAX_PACKETS && forall i :: 0 <= i < |ps| ==> ps[i].seqNum == (s + i) % 0x1_0000
  }

  /** None of them is empty. */
  predicate IsStretch(ps: seq<packet>, s: seqnum) {
    Numbered(ps, s) && forall i :: 0 <= i < |ps| ==> Content(ps[i]) != []
  }

  /** The packets of one frame as they were sent: the last is marked, and no other. */
  predicate IsFrame(ps: seq<packet>, s: seqnum) {
    && IsStretch(ps, s) && ps != []
    && (forall i :: 0 <= i < |ps| ==> (ps[i].marker <==> i == |ps| - 1))
  }

  predicate AllBelow(order: seq<nat>, n: nat) {
    forall j :: 0 <= j < |order| ==> order[j] < n
  }

  /** The session after packets of the frame have arrived in this order. */
  function Run(ps: seq<packet>, order: seq<nat>): View
    requires AllBelow(order, |ps|)
  {
    if order == [] then EMPTY else Step(Run(ps, order[..|order| - 1]), ps[order[|order| - 1]])
  }

  function Arrived(order: seq<nat>): set<nat> {
    set i | i in order
  }

  /** Of the first k packets those that have arrived, in the order they were sent. */
  function Kept(ps: seq<packet>, arrived: set<nat>, k: nat): (list: seq<packet>)
    requires k <= |ps|
    ensures |list| <= k
  {
    if k == 0 then [] else Kept(ps, arrived, k - 1) + if k - 1 in arrived then [ps[k - 1]] else []
  }

  // ----- Where a packet goes -----

  lemma Newer(s: seqnum, i: nat, j: nat)
    requires i < MAX_PACKETS && j < MAX_PACKETS
    ensures var a, b := (s + i) % 0x1_0000, (s + j) % 0x1_0000;
            && (IsNewerSequenceNumber(a, b) <==> i > j)
            && (a == b <==> i == j)
            && (b == (a + 1) % 0x1_0000 <==> j == i + 1)
  {
  }

  lemma KeptNext(ps: seq<packet>, arrived: set<nat>, k: nat)
    requires 0 < k <= |ps|
    ensures k - 1 in arrived ==> Kept(ps, arrived, k) == Kept(ps, arrived, k - 1) + [ps[k - 1]]
    ensures k - 1 !in arrived ==> Kept(ps, arrived, k) == Kept(ps, arrived, k - 1)
  {
  }

  lemma PositionNext(list: seq<packet>, p: packet, s: seqnum)
    ensures Position(list + [p], s) == if LatestSequenceNumber(s, p.seqNum) == s then |list| + 1 else Position(list, s)
  {
    assert (list + [p])[..|list|] == list;
  }

  /** Behind those sent before it, and itself if it has arrived already. */
  lemma {:induction false} PositionIs(ps: seq<packet>, s: seqnum, arrived: set<nat>, i: nat, k: nat)
    requires Numbered(ps, s) && i < k <= |ps|
    ensures Position(Kept(ps, arrived, k), ps[i].seqNum) == |Kept(ps, arrived, i + 1)|
  {
    KeptNext(ps, arrived, k);
    Newer(s, i, k - 1);
    PositionNext(Kept(ps, arrived, k - 1), ps[k - 1], ps[i].seqNum);
    if k == i + 1 {
      PositionBehind(ps, s, arrived, i, i);
    } else {
      PositionIs(ps, s, arrived, i, k - 1);
    }
  }

  lemma {:induction false} PositionBehind(ps: seq<packet>, s: seqnum, arrived: set<nat>, i: nat, k: nat)
    requires Numbered(ps, s) && k <= i < |ps|
    ensures Position(Kept(ps, arrived, k), ps[i].seqNum) == |Kept(ps, arrived, k)|
  {
    if k > 0 {
      PositionBehind(ps, s, arrived, i, k - 1);
      Newer(s, i, k - 1);
      KeptNext(ps, arrived, k);
      PositionNext(Kept(ps, arrived, k - 1), ps[k - 1], ps[i].seqNum);
    }
  }

  /** No packet numbered like packet i is among those sent before it. */
  lemma {:induction false} LastKept(ps: seq<packet>, s: seqnum, arrived: set<nat>, k: nat, i: nat)
    requires Numbered(ps, s) && k <= i < |ps|
    ensures var list := Kept(ps, arrived, k);
            list != [] ==> list[|list| - 1].seqNum != ps[i].seqNum
  {
    if k > 0 {
      LastKept(ps, s, arrived, k - 1, i);
      Newer(s, i, k - 1);
    }
  }

  lemma {:induction false} KeptWith(ps: seq<packet>, arrived: set<nat>, i: nat, k: nat)
    requires k <= |ps| && i !in arrived
    ensures k <= i ==> Kept(ps, arrived + {i}, k) == Kept(ps, arrived, k)
    ensures k > i ==> |Kept(ps, arrived, i)| <= |Kept(ps, arrived, k)| < k
    ensures k > i ==> var list, c := Kept(ps, arrived, k), |Kept(ps, arrived, i)|;
                      Kept(ps, arrived + {i}, k) == list[..c] + [ps[i]] + list[c..]
  {
    if k > 0 {
      KeptWith(ps, arrived, i, k - 1);
    }
  }

  // ----- Any order -----

  lemma Again(ps: seq<packet>, s: seqnum, arrived: set<nat>, i: nat)
    requires Numbered(ps, s) && i < |ps| && i in arrived
    ensures var list := Kept(ps, arrived, |ps|);
            var k := Position(list, ps[i].seqNum);
            k > 0 && list[k - 1] == ps[i]
  {
    PositionIs(ps, s, arrived, i, |ps|);
    KeptBelow(ps, arrived, i + 1, |ps|);
  }

  lemma Anew(ps: seq<packet>, s: seqnum, arrived: set<nat>, i: nat)
    requires Numbered(ps, s) && i < |ps| && i !in arrived
    ensures var list := Kept(ps, arrived, |ps|);
            var k := Position(list, ps[i].seqNum);
            && |list| < |ps| && (k > 0 ==> list[k - 1].seqNum != ps[i].seqNum)
            && Inserted(list, ps[i]) == Kept(ps, arrived + {i}, |ps|)
  {
    PositionIs(ps, s, arrived, i, |ps|);
    KeptWith(ps, arrived, i, |ps|);
    KeptBelow(ps, arrived, i, |ps|);
    LastKept(ps, s, arrived, i, i);
    assert Kept(ps, arrived, i + 1) == Kept(ps, arrived, i);
  }

  /** One more arrival: refused when the packet is there already, put in its place when not. */
  lemma ArrivesAgain(ps: seq<packet>, s: seqnum, v: View, arrived: set<nat>, i: nat)
    requires IsStretch(ps, s) && i < |ps| && v.list == Kept(ps, arrived, |ps|) && i in arrived
    ensures Step(v, ps[i]) == v
  {
    Again(ps, s, arrived, i);
  }

  lemma ArrivesAnew(ps: seq<packet>, s: seqnum, v: View, arrived: set<nat>, i: nat)
    requires IsStretch(ps, s) && i < |ps| && v.list == Kept(ps, arrived, |ps|) && i !in arrived
    ensures !Refused(v, ps[i]) && Step(v, ps[i]).list == Kept(ps, arrived + {i}, |ps|)
  {
    Anew(ps, s, arrived, i);
  }

  lemma {:induction false} KeptBelow(ps: seq<packet>, arrived: set<nat>, j: nat, k: nat)
    requires j <= k <= |ps|
    ensures Kept(ps, arrived, j) <= Kept(ps, arrived, k)
  {
    if k > j {
      KeptBelow(ps, arrived, j, k - 1);
    }
  }

  /** Whatever the order and however often packets are repeated, the session holds those that have arrived, in the
      order they were sent. */
  lemma {:induction false} HoldsArrived(ps: seq<packet>, s: seqnum, order: seq<nat>)
    requires IsStretch(ps, s) && AllBelow(order, |ps|)
    ensures Run(ps, order).list == Kept(ps, Arrived(order), |ps|)
  {
    if order == [] {
      assert Arrived(order) == {};
      KeptNone(ps, |ps|);
    } else {
      var front, i := order[..|order| - 1], order[|order| - 1];
      HoldsArrived(ps, s, front);
      ArrivedNext(order);
      if i in Arrived(front) {
        ArrivesAgain(ps, s, Run(ps, front), Arrived(front), i);
      } else {
        ArrivesAnew(ps, s, Run(ps, front), Arrived(front), i);
      }
    }
  }

  lemma ArrivedNext(order: seq<nat>)
    requires order != []
    ensures var front, i := order[..|order| - 1], order[|order| - 1];
            Arrived(order) == Arrived(front) + {i} && (i in Arrived(front) ==> Arrived(order) == Arrived(front))
  {
    assert order == order[..|order| - 1] + [order[|order| - 1]];
  }

  lemma {:induction false} KeptNone(ps: seq<packet>, k: nat)
    requires k <= |ps|
    ensures Kept(ps, {}, k) == []
  {
    if k > 0 {
      KeptNone(ps, k - 1);
    }
  }

  lemma {:induction false} KeptAll(ps: seq<packet>, arrived: set<nat>, k: nat)
    requires k <= |ps| && forall i :: 0 <= i < k ==> i in arrived
    ensures Kept(ps, arrived, k) == ps[..k]
  {
    if k > 0 {
      KeptAll(ps, arrived, k - 1);
    }
  }

  /** So once all have arrived, in any order, the frame buffer holds what the packets put into it, one after the other,
      as they were sent. */
  lemma WholeFrame(ps: seq<packet>, s: seqnum, order: seq<nat>)
    requires IsFrame(ps, s) && AllBelow(order, |ps|) && Whole(ps, order)
    ensures Run(ps, order).list == ps && Frame(Run(ps, order).list) == Frame(ps)
  {
    HoldsArrived(ps, s, order);
    KeptAll(ps, Arrived(order), |ps|);
    assert ps[..|ps|] == ps;
  }

  // ----- When a session counts as complete -----

  /** With each packet that has arrived, all that were sent after it have. */
  predicate NoGapAfter(arrived: set<nat>, n: nat) {
    forall i: nat, j: nat :: i in arrived && i <= j < n ==> j in arrived
  }

  lemma {:induction false} ConsecutiveKept(ps: seq<packet>, s: seqnum, arrived: set<nat>, k: nat)
    requires Numbered(ps, s) && 1 <= k <= |ps| && k - 1 in arrived
    ensures Consecutive(Kept(ps, arrived, k)) <==> NoGapAfter(arrived, k)
  {
    var before := Kept(ps, arrived, k - 1);
    if k >= 2 && k - 2 in arrived {
      ConsecutiveKept(ps, s, arrived, k - 1);
      ConsecutiveNext(before, ps[k - 1]);
      Newer(s, k - 2, k - 1);
      assert NoGapAfter(arrived, k) <==> NoGapAfter(arrived, k - 1);
    } else {
      GapBelow(ps, s, arrived, k);
    }
  }

  lemma GapBelow(ps: seq<packet>, s: seqnum, arrived: set<nat>, k: nat)
    requires Numbered(ps, s) && 1 <= k <= |ps| && k - 1 in arrived && (k >= 2 ==> k - 2 !in arrived)
    ensures Consecutive(Kept(ps, arrived, k)) <==> NoGapAfter(arrived, k)
  {
    if Kept(ps, arrived, k - 1) == [] {
      Alone(ps, arrived, k);
    } else {
      Broken(ps, s, arrived, k);
    }
  }

  lemma Alone(ps: seq<packet>, arrived: set<nat>, k: nat)
    requires 1 <= k <= |ps| && k - 1 in arrived && Kept(ps, arrived, k - 1) == []
    ensures Consecutive(Kept(ps, arrived, k)) && NoGapAfter(arrived, k)
  {
    KeptNext(ps, arrived, k);
    NoneBelow(ps, arrived, k - 1);
  }

  lemma Broken(ps: seq<packet>, s: seqnum, arrived: set<nat>, k: nat)
    requires Numbered(ps, s) && 2 <= k <= |ps| && k - 1 in arrived && k - 2 !in arrived
    requires Kept(ps, arrived, k - 1) != []
    ensures !Consecutive(Kept(ps, arrived, k)) && !NoGapAfter(arrived, k)
  {
    var j := LastIndex(ps, arrived, k - 1);
    KeptNext(ps, arrived, k);
    ConsecutiveNext(Kept(ps, arrived, k - 1), ps[k - 1]);
    Newer(s, j, k - 1);
    assert j in arrived && j <= k - 2 < k;
  }

  lemma ConsecutiveNext(list: seq<packet>, p: packet)
    requires list != []
    ensures Consecutive(list + [p]) <==>
              Consecutive(list) && p.seqNum == (list[|list| - 1].seqNum + 1) % 0x1_0000
  {
    var more := list + [p];
    assert forall k :: 0 <= k < |list| ==> more[k] == list[k];
    if Consecutive(more) {
      forall k | 1 <= k < |list|
        ensures list[k].seqNum == (list[k - 1].seqNum + 1) % 0x1_0000
      {
        assert more[k].seqNum == (more[k - 1].seqNum + 1) % 0x1_0000;
      }
      assert more[|list|].seqNum == (more[|list| - 1].seqNum + 1) % 0x1_0000;
    }
  }

  lemma {:induction false} NoneBelow(ps: seq<packet>, arrived: set<nat>, k: nat)
    requires k <= |ps| && Kept(ps, arrived, k) == []
    ensures forall i: nat :: i < k ==> i !in arrived
  {
    if k > 0 {
      NoneBelow(ps, arrived, k - 1);
    }
  }

  lemma {:induction false} LastIndex(ps: seq<packet>, arrived: set<nat>, k: nat) returns (j: nat)
    requires k <= |ps| && Kept(ps, arrived, k) != []
    ensures j < k && j in arrived && Kept(ps, arrived, k)[|Kept(ps, arrived, k)| - 1] == ps[j]
  {
    if k - 1 in arrived {
      j := k - 1;
    } else {
      assert Kept(ps, arrived, k) == Kept(ps, arrived, k - 1);
      j := LastIndex(ps, arrived, k - 1);
    }
  }

  predicate StartArrived(ps: seq<packet>, arrived: set<nat>) {
    exists i: nat :: i in arrived && i < |ps| && ps[i].first
  }

  predicate CompleteWhen(v: View) {
    v.complete <==> v.first != -1 && v.last != -1 && Consecutive(v.list)
  }

  lemma StepEnds(v: View, p: packet)
    requires !Refused(v, p)
    ensures Step(v, p).first != -1 <==> v.first != -1 || p.first
    ensures Step(v, p).last != -1 <==> v.last != -1 || p.marker
    ensures CompleteWhen(v) ==> CompleteWhen(Step(v, p))
  {
  }

  predicate EndsAre(ps: seq<packet>, v: View, arrived: set<nat>) {
    && (v.first != -1 <==> StartArrived(ps, arrived))
    && (v.last != -1 <==> |ps| - 1 in arrived)
    && CompleteWhen(v)
  }

  lemma EndsNext(ps: seq<packet>, s: seqnum, v: View, arrived: set<nat>, i: nat)
    requires IsFrame(ps, s) && i < |ps| && EndsAre(ps, v, arrived) && !Refused(v, ps[i])
    ensures EndsAre(ps, Step(v, ps[i]), arrived + {i})
  {
    StepEnds(v, ps[i]);
    StartNext(ps, arrived, i);
  }

  lemma {:induction false} EndsSeen(ps: seq<packet>, s: seqnum, order: seq<nat>)
    requires IsFrame(ps, s) && AllBelow(order, |ps|)
    ensures EndsAre(ps, Run(ps, order), Arrived(order))
  {
    if order != [] {
      var front, i := order[..|order| - 1], order[|order| - 1];
      EndsSeen(ps, s, front);
      HoldsArrived(ps, s, front);
      ArrivedNext(order);
      if i in Arrived(front) {
        ArrivesAgain(ps, s, Run(ps, front), Arrived(front), i);
      } else {
        ArrivesAnew(ps, s, Run(ps, front), Arrived(front), i);
        EndsNext(ps, s, Run(ps, front), Arrived(front), i);
      }
    }
  }

  lemma StartNext(ps: seq<packet>, arrived: set<nat>, i: nat)
    requires i < |ps|
    ensures StartArrived(ps, arrived + {i}) <==> StartArrived(ps, arrived) || ps[i].first
  {
    if StartArrived(ps, arrived) {
      var j: nat :| j in arrived && j < |ps| && ps[j].first;
      assert j in arrived + {i};
    }
    if ps[i].first {
      assert i in arrived + {i};
    }
  }

  /** A session counts as complete exactly when some packet that starts a NAL unit has arrived, and the last one, and
      with each packet all those after it: it may then lack any number of packets at its front. */
  lemma CompleteExactly(ps: seq<packet>, s: seqnum, order: seq<nat>)
    requires IsFrame(ps, s) && AllBelow(order, |ps|)
    ensures var arrived := Arrived(order);
            Run(ps, order).complete <==>
              StartArrived(ps, arrived) && |ps| - 1 in arrived && NoGapAfter(arrived, |ps|)
  {
    EndsSeen(ps, s, order);
    HoldsArrived(ps, s, order);
    CompleteOf(ps, s, Run(ps, order), Arrived(order));
  }

  lemma CompleteOf(ps: seq<packet>, s: seqnum, v: View, arrived: set<nat>)
    requires IsFrame(ps, s) && EndsAre(ps, v, arrived) && v.list == Kept(ps, arrived, |ps|)
    ensures v.complete <==> StartArrived(ps, arrived) && |ps| - 1 in arrived && NoGapAfter(arrived, |ps|)
  {
    if |ps| - 1 in arrived {
      ConsecutiveKept(ps, s, arrived, |ps|);
    }
  }

  predicate Whole(ps: seq<packet>, order: seq<nat>) {
    forall i :: 0 <= i < |ps| ==> i in Arrived(order)
  }

  /** Once all have arrived the session does count as complete. */
  lemma WholeIsComplete(ps: seq<packet>, s: seqnum, order: seq<nat>)
    requires IsFrame(ps, s) && ps[0].first && AllBelow(order, |ps|) && Whole(ps, order)
    ensures Run(ps, order).complete
  {
    CompleteExactly(ps, s, order);
    assert 0 in Arrived(order);
  }

  lemma CompleteIsWhole(ps: seq<packet>, s: seqnum, order: seq<nat>)
    requires IsFrame(ps, s) && AllBelow(order, |ps|) && Run(ps, order).complete
    requires forall i :: 0 < i < |ps| ==> !ps[i].first
    ensures Whole(ps, order)
  {
    CompleteExactly(ps, s, order);
    var j: nat :| j in Arrived(order) && j < |ps| && ps[j].first;
    assert j == 0;
  }

  /** Without a packet at its front a session counts as complete if the next one starts a NAL unit. */
  lemma FrontLost(ps: seq<packet>, s: seqnum, i: nat) returns (order: seq<nat>)
    requires IsFrame(ps, s) && 0 < i < |ps| && ps[i].first
    ensures AllBelow(order, |ps|) && Run(ps, order).complete && !Whole(ps, order)
  {
    order := From(i, |ps|);
    ArrivedFrom(i, |ps|);
    CompleteExactly(ps, s, order);
    assert i in Arrived(order) && 0 !in Arrived(order);
  }

  function From(i: nat, n: nat): (order: seq<nat>)
    requires i <= n
    ensures AllBelow(order, n)
    decreases n - i
  {
    if i == n then [] else [i] + From(i + 1, n)
  }

  lemma {:induction false} ArrivedFrom(i: nat, n: nat)
    requires i <= n
    ensures forall j: nat :: j in Arrived(From(i, n)) <==> i <= j < n
    decreases n - i
  {
    if i < n {
      ArrivedFrom(i + 1, n);
      assert Arrived(From(i, n)) == {i} + Arrived(From(i + 1, n));
    }
  }

  ghost predicate CompleteMeansWhole(ps: seq<packet>) {
    forall order: seq<nat> :: AllBelow(order, |ps|) && Run(ps, order).complete ==> Whole(ps, order)
  }

  /** `complete` can be relied on for a frame exactly when no packet after its first starts a NAL unit, since each that
      does is taken for the first of the frame. */
  lemma CompleteMeansWholeExactly(ps: seq<packet>, s: seqnum)
    requires IsFrame(ps, s)
    ensures CompleteMeansWhole(ps) <==> forall i :: 0 < i < |ps| ==> !ps[i].first
  {
    if i :| 0 < i < |ps| && ps[i].first {
      var order := FrontLost(ps, s, i);
    } else {
      forall order: seq<nat> | AllBelow(order, |ps|) && Run(ps, order).complete
        ensures Whole(ps, order)
      {
        CompleteIsWhole(ps, s, order);
      }
    }
  }

  // ----- The two ends -----

  /** Of the packets that have arrived and start a NAL unit, packet i is the first. */
  predicate FirstStart(ps: seq<packet>, arrived: set<nat>, i: nat) {
    && i in arrived && i < |ps| && ps[i].first
    && forall j :: 0 <= j < i && j in arrived ==> !ps[j].first
  }

  /** Of those that are marked, the last. */
  predicate LastMarked(ps: seq<packet>, arrived: set<nat>, i: nat) {
    && i in arrived && i < |ps| && ps[i].marker
    && forall j :: i < j < |ps| && j in arrived ==> !ps[j].marker
  }

  predicate FirstIs(ps: seq<packet>, arrived: set<nat>, first: int) {
    && (first == -1 ==> forall j :: 0 <= j < |ps| && j in arrived ==> !ps[j].first)
    && (first != -1 ==> exists i :: 0 <= i < |ps| && FirstStart(ps, arrived, i) && first == ps[i].seqNum)
  }

  predicate LastIs(ps: seq<packet>, arrived: set<nat>, last: int) {
    && (last == -1 ==> forall j :: 0 <= j < |ps| && j in arrived ==> !ps[j].marker)
    && (last != -1 ==> exists i :: 0 <= i < |ps| && LastMarked(ps, arrived, i) && last == ps[i].seqNum)
  }

  lemma FirstNext(ps: seq<packet>, s: seqnum, arrived: set<nat>, v: View, i: nat)
    requires Numbered(ps, s) && i < |ps| && i !in arrived && FirstIs(ps, arrived, v.first)
    ensures FirstIs(ps, arrived + {i}, First(v, ps[i]))
  {
    if v.first == -1 {
      assert ps[i].first ==> FirstStart(ps, arrived + {i}, i);
    } else {
      var k :| 0 <= k < |ps| && FirstStart(ps, arrived, k) && v.first == ps[k].seqNum;
      FirstReplaced(ps, s, arrived, v, i, k);
    }
  }

  lemma FirstReplaced(ps: seq<packet>, s: seqnum, arrived: set<nat>, v: View, i: nat, k: nat)
    requires Numbered(ps, s) && i < |ps| && k < |ps| && i !in arrived
    requires FirstStart(ps, arrived, k) && v.first == ps[k].seqNum
    ensures var j := if ps[i].first && i < k then i else k;
            FirstStart(ps, arrived + {i}, j) && First(v, ps[i]) == ps[j].seqNum
  {
    StartWith(ps, arrived, i, k);
    FirstNumber(ps, s, v, i, k);
  }

  lemma StartWith(ps: seq<packet>, arrived: set<nat>, i: nat, k: nat)
    requires i < |ps| && FirstStart(ps, arrived, k)
    ensures FirstStart(ps, arrived + {i}, if ps[i].first && i < k then i else k)
  {
  }

  lemma FirstNumber(ps: seq<packet>, s: seqnum, v: View, i: nat, k: nat)
    requires Numbered(ps, s) && i < |ps| && k < |ps| && v.first == ps[k].seqNum
    ensures First(v, ps[i]) == ps[if ps[i].first && i < k then i else k].seqNum
  {
    Newer(s, k, i);
    FirstOf(v, ps[i], ps[k].seqNum);
  }

  lemma FirstOf(v: View, p: packet, first: seqnum)
    requires v.first == first
    ensures First(v, p) == if p.first && IsNewerSequenceNumber(first, p.seqNum) then p.seqNum else first
  {
  }

  lemma LastNext(ps: seq<packet>, s: seqnum, arrived: set<nat>, v: View, i: nat)
    requires Numbered(ps, s) && i < |ps| && i !in arrived && LastIs(ps, arrived, v.last)
    ensures LastIs(ps, arrived + {i}, Last(v, ps[i]))
  {
    if v.last == -1 {
      assert ps[i].marker ==> LastMarked(ps, arrived + {i}, i);
    } else {
      var k :| 0 <= k < |ps| && LastMarked(ps, arrived, k) && v.last == ps[k].seqNum;
      LastReplaced(ps, s, arrived, v, i, k);
    }
  }

  lemma LastReplaced(ps: seq<packet>, s: seqnum, arrived: set<nat>, v: View, i: nat, k: nat)
    requires Numbered(ps, s) && i < |ps| && k < |ps| && i !in arrived
    requires LastMarked(ps, arrived, k) && v.last == ps[k].seqNum
    ensures var j := if ps[i].marker && i > k then i else k;
            LastMarked(ps, arrived + {i}, j) && Last(v, ps[i]) == ps[j].seqNum
  {
    MarkedWith(ps, arrived, i, k);
    LastNumber(ps, s, v, i, k);
  }

  lemma MarkedWith(ps: seq<packet>, arrived: set<nat>, i: nat, k: nat)
    requires i < |ps| && LastMarked(ps, arrived, k)
    ensures LastMarked(ps, arrived + {i}, if ps[i].marker && i > k then i else k)
  {
  }

  lemma LastNumber(ps: seq<packet>, s: seqnum, v: View, i: nat, k: nat)
    requires Numbered(ps, s) && i < |ps| && k < |ps| && v.last == ps[k].seqNum
    ensures Last(v, ps[i]) == ps[if ps[i].marker && i > k then i else k].seqNum
  {
    Newer(s, i, k);
    LastOf(v, ps[i], ps[k].seqNum);
  }

  lemma LastOf(v: View, p: packet, last: seqnum)
    requires v.last == last
    ensures Last(v, p) == if p.marker && IsNewerSequenceNumber(p.seqNum, last) then p.seqNum else last
  {
  }

  /** In whatever order packets arrive, and whichever of them are flagged: the session's first number is that of the
      first in sequence that starts a NAL unit, its last number that of the last in sequence that is marked. */
  lemma {:induction false} EndsExactly(ps: seq<packet>, s: seqnum, order: seq<nat>)
    requires IsStretch(ps, s) && AllBelow(order, |ps|)
    ensures FirstIs(ps, Arrived(order), Run(ps, order).first) && LastIs(ps, Arrived(order), Run(ps, order).last)
  {
    if order != [] {
      var front, i := order[..|order| - 1], order[|order| - 1];
      EndsExactly(ps, s, front);
      HoldsArrived(ps, s, front);
      ArrivedNext(order);
      if i in Arrived(front) {
        ArrivesAgain(ps, s, Run(ps, front), Arrived(front), i);
      } else {
        ArrivesAnew(ps, s, Run(ps, front), Arrived(front), i);
        FirstNext(ps, s, Arrived(front), Run(ps, front), i);
        LastNext(ps, s, Arrived(front), Run(ps, front), i);
      }
    }
  }

  // ----- The frame type -----

  /** The packet that was the last to arrive for the first time. */
  function LastNew(order: seq<nat>): (i: nat)
    requires order != []
    ensures i in order
  {
    var front, i := order[..|order| - 1], order[|order| - 1];
    if i in Arrived(front) then LastNew(front) else i
  }

  /** The frame's type is that packet's, whatever came before it and whatever is repeated after it. */
  lemma {:induction false} TypeIsLastNew(ps: seq<packet>, s: seqnum, order: seq<nat>)
    requires IsStretch(ps, s) && AllBelow(order, |ps|)
    ensures Run(ps, order).key == if order == [] then false else ps[LastNew(order)].key
  {
    if order != [] {
      var front, i := order[..|order| - 1], order[|order| - 1];
      HoldsArrived(ps, s, front);
      if i in Arrived(front) {
        ArrivesAgain(ps, s, Run(ps, front), Arrived(front), i);
        TypeIsLastNew(ps, s, front);
      } else {
        ArrivesAnew(ps, s, Run(ps, front), Arrived(front), i);
      }
    }
  }

  ghost predicate TypeIs(ps: seq<packet>, key: bool) {
    forall order: seq<nat> :: AllBelow(order, |ps|) && Whole(ps, order) ==> Run(ps, order).key == key
  }

  /** The packet that arrives last decides the type of the frame: it is the same for every order exactly when all
      packets have it. */
  lemma TypeIsExactly(ps: seq<packet>, s: seqnum, key: bool)
    requires IsFrame(ps, s)
    ensures TypeIs(ps, key) <==> forall i :: 0 <= i < |ps| ==> ps[i].key == key
  {
    if i :| 0 <= i < |ps| && ps[i].key != key {
      LastDecides(ps, s, i);
    } else {
      forall order: seq<nat> | AllBelow(order, |ps|) && Whole(ps, order)
        ensures Run(ps, order).key == key
      {
        assert 0 in Arrived(order);
        TypeOfAny(ps, s, order, key);
      }
    }
  }

  lemma LastDecides(ps: seq<packet>, s: seqnum, i: nat)
    requires IsFrame(ps, s) && i < |ps|
    ensures var order := Others(i, |ps|) + [i];
            AllBelow(order, |ps|) && Whole(ps, order) && Run(ps, order).key == ps[i].key
  {
    var front, n := Others(i, |ps|), |ps|;
    var order := front + [i];
    OthersAre(i, n);
    ArrivesLast(ps, s, front, i);
    assert order[..|order| - 1] == front;
    ArrivedNext(order);
  }

  lemma ArrivesLast(ps: seq<packet>, s: seqnum, front: seq<nat>, i: nat)
    requires IsFrame(ps, s) && AllBelow(front, |ps|) && i < |ps| && i !in Arrived(front)
    ensures AllBelow(front + [i], |ps|) && Run(ps, front + [i]).key == ps[i].key
  {
    HoldsArrived(ps, s, front);
    ArrivesAnew(ps, s, Run(ps, front), Arrived(front), i);
    assert (front + [i])[..|front|] == front;
  }

  /** All packets but number i. */
  function Others(i: nat, n: nat): (order: seq<nat>)
    ensures AllBelow(order, n)
  {
    if n == 0 then [] else Others(i, n - 1) + if n - 1 == i then [] else [n - 1]
  }

  lemma {:induction false} OthersAre(i: nat, n: nat)
    ensures forall j: nat :: j in Arrived(Others(i, n)) <==> j < n && j != i
  {
    if n > 0 {
      OthersAre(i, n - 1);
      assert Arrived(Others(i, n)) == Arrived(Others(i, n - 1)) + if n - 1 == i then {} else {n - 1};
    }
  }

  lemma {:induction false} TypeOfAny(ps: seq<packet>, s: seqnum, order: seq<nat>, key: bool)
    requires IsFrame(ps, s) && AllBelow(order, |ps|) && order != []
    requires forall i :: 0 <= i < |ps| ==> ps[i].key == key
    ensures Run(ps, order).key == key
  {
    var front, i := order[..|order| - 1], order[|order| - 1];
    HoldsArrived(ps, s, front);
    if i in Arrived(front) {
      ArrivesAgain(ps, s, Run(ps, front), Arrived(front), i);
      TypeOfAny(ps, s, front, key);
    } else {
      ArrivesAnew(ps, s, Run(ps, front), Arrived(front), i);
    }
  }
}

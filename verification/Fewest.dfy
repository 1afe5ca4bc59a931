/** The packetizer of rtp_format_h264.cc sends a frame in the fewest payloads: no way to cut the same NAL units, in
    order, into payloads that fit has fewer than its own greedy one. */
module Fewest {
  import opened Fragments
  import opened RtpH264

  /** The units carry the rows from row i on, in order and all of them, each in a payload of at most `most` bytes; of
      row i the bytes from `from` on if it is not 0. Any row may be fragmented, in parts of any size. */
  predicate Covers(us: seq<Unit>, t: seq<Fragment>, i: nat, from: nat, most: nat)
    requires i <= |t|
    decreases |us|
  {
    if us == [] then i == |t| && from == 0
    else
      i < |t| &&
      match us[0]
      case Group(fs) =>
        && from == 0 && fs != [] && i + |fs| <= |t| && fs == t[i..i + |fs|] && GroupSize(fs) <= most
        && Covers(us[1..], t, i + |fs|, 0, most)
      case Part(f, begin, size) =>
        && f == t[i] && begin == (if from == 0 then 1 else from) && size > 0 && size + 2 <= most
        && begin + size <= f.length
        && if begin + size == f.length then Covers(us[1..], t, i + 1, 0, most)
           else Covers(us[1..], t, i, begin + size, most)
  }

  // ----- Groups -----

  lemma {:induction false} SizeFirst(t: seq<Fragment>, i: nat, j: nat)
    requires i < j <= |t|
    ensures EntriesSize(t[i..j]) == 2 + t[i].length + EntriesSize(t[i + 1..j])
  {
    assert t[i..j][..j - i - 1] == t[i..j - 1];
    if i + 1 < j {
      assert t[i + 1..j][..j - i - 2] == t[i + 1..j - 1];
      SizeFirst(t, i, j - 1);
    } else {
      assert EntriesSize(t[i..i]) == 0;
    }
  }

  /** Fewer rows never make a larger payload. */
  lemma SizeWithoutFirst(t: seq<Fragment>, i: nat, j: nat)
    requires i < j <= |t|
    ensures GroupSize(t[i + 1..j]) <= GroupSize(t[i..j]) && t[i].length <= GroupSize(t[i..j])
  {
    SizeFirst(t, i, j);
    if i + 1 < j {
      SizeFirst(t, i + 1, j);
    }
  }

  lemma {:induction false} SizeWithoutLast(t: seq<Fragment>, i: nat, e: nat, j: nat)
    requires i <= e <= j <= |t|
    ensures GroupSize(t[i..e]) <= GroupSize(t[i..j])
  {
    if e < j {
      SizeWithoutLast(t, i, e, j - 1);
      GroupSizeNext(t, i, j - 1);
    }
  }

  /** A group of the packetizer is as long as any that fits. */
  lemma LongestGroup(t: seq<Fragment>, i: nat, j: nat, most: nat)
    requires i < j <= |t| && GroupSize(t[i..j]) <= most
    ensures t[i].length <= most && j <= GroupEnd(t, i, most, 0)
  {
    SizeWithoutFirst(t, i, j);
    GroupFits(t, i, i, most, 0, most);
    var e := GroupEnd(t, i, most, 0);
    if e < j {
      SizeWithoutLast(t, i, e + 1, j);
    }
  }

  // ----- Fewer rows never need more payloads -----

  lemma PlanLength(t: seq<Fragment>, i: nat, most: nat)
    requires i < |t| && most >= 3
    ensures t[i].length > most ==>
              |Plan(t, i, most)| == |Parts(t[i], 1, PartSize(t[i].length, most))| + |Plan(t, i + 1, most)|
    ensures t[i].length <= most ==>
              i < GroupEnd(t, i, most, 0) && |Plan(t, i, most)| == 1 + |Plan(t, GroupEnd(t, i, most, 0), most)|
  {
    PlanNext(t, i, most);
  }

  lemma {:induction false} PlanShrinks(t: seq<Fragment>, i: nat, most: nat)
    requires i < |t| && most >= 3
    ensures |Plan(t, i + 1, most)| <= |Plan(t, i, most)|
    decreases |t| - i, 0
  {
    PlanLength(t, i, most);
    if t[i].length <= most && i + 1 < GroupEnd(t, i, most, 0) {
      var e := GroupEnd(t, i, most, 0);
      GroupFits(t, i, i, most, 0, most);
      SizeWithoutFirst(t, i, e);
      LongestGroup(t, i + 1, e, most);
      PlanLength(t, i + 1, most);
      PlanShrinksTo(t, e, GroupEnd(t, i + 1, most, 0), most);
    }
  }

  lemma {:induction false} PlanShrinksTo(t: seq<Fragment>, i: nat, j: nat, most: nat)
    requires i <= j <= |t| && most >= 3
    ensures |Plan(t, j, most)| <= |Plan(t, i, most)|
    decreases |t| - i, 1
  {
    if i < j {
      PlanShrinks(t, i, most);
      PlanShrinksTo(t, i + 1, j, most);
    }
  }

  // ----- No split does with fewer -----

  lemma FirstPart(us: seq<Unit>, t: seq<Fragment>, i: nat, from: nat, most: nat)
    requires us != [] && us[0].Part? && i < |t| && Covers(us, t, i, from, most)
    ensures var begin, size := us[0].from, us[0].size;
            && begin == (if from == 0 then 1 else from) && 0 < size <= most - 2 && begin + size <= t[i].length
            && if begin + size == t[i].length then Covers(us[1..], t, i + 1, 0, most)
               else us[1..] != [] && us[1].Part? && Covers(us[1..], t, i, begin + size, most)
  {
  }

  /** A row that is fragmented takes payloads of its own, enough to hold its bytes. */
  lemma {:induction false} FragmentedRow(us: seq<Unit>, t: seq<Fragment>, i: nat, from: nat, most: nat) returns (k: nat)
    requires us != [] && us[0].Part? && i < |t| && Covers(us, t, i, from, most)
    ensures 1 <= k <= |us| && Covers(us[k..], t, i + 1, 0, most)
    ensures t[i].length - (if from == 0 then 1 else from) <= k * (most - 2)
    decreases |us|
  {
    FirstPart(us, t, i, from, most);
    var next := us[0].from + us[0].size;
    if next == t[i].length {
      k := 1;
    } else {
      var rest := FragmentedRow(us[1..], t, i, next, most);
      k := rest + 1;
      DropMore(us, rest);
      OneMore(rest, most - 2);
    }
  }

  lemma DropMore(us: seq<Unit>, k: nat)
    requires k + 1 <= |us|
    ensures us[1..][k..] == us[k + 1..]
  {
  }

  lemma OneMore(k: int, room: int)
    ensures (k + 1) * room == k * room + room
  {
  }

  lemma AtLeastAsMany(k: nat, c: nat, room: nat, length: nat)
    requires room > 0 && (c - 1) * room < length <= k * room
    ensures c <= k
  {
    Monotone(k, c - 1, room);
  }

  lemma FewestGroup(t: seq<Fragment>, i: nat, j: nat, most: nat, rest: nat)
    requires i < j <= |t| && most >= 3 && GroupSize(t[i..j]) <= most && |Plan(t, j, most)| <= rest
    ensures |Plan(t, i, most)| <= 1 + rest
  {
    LongestGroup(t, i, j, most);
    PlanLength(t, i, most);
    PlanShrinksTo(t, j, GroupEnd(t, i, most, 0), most);
  }

  lemma FewestFragments(t: seq<Fragment>, i: nat, k: nat, most: nat, rest: nat)
    requires i < |t| && most >= 3 && 1 <= k && t[i].length - 1 <= k * (most - 2) && |Plan(t, i + 1, most)| <= rest
    ensures |Plan(t, i, most)| <= k + rest
  {
    PlanLength(t, i, most);
    if t[i].length > most {
      FewestParts(t[i], most);
      AtLeastAsMany(k, |Parts(t[i], 1, PartSize(t[i].length, most))|, most - 2, t[i].length - 1);
    } else {
      PlanShrinksTo(t, i + 1, GroupEnd(t, i, most, 0), most);
    }
  }

  lemma FirstGroup(us: seq<Unit>, t: seq<Fragment>, i: nat, most: nat)
    requires us != [] && us[0].Group? && i <= |t| && Covers(us, t, i, 0, most)
    ensures var j := i + |us[0].fs|;
            i < j <= |t| && GroupSize(t[i..j]) <= most && Covers(us[1..], t, j, 0, most)
  {
  }

  /** Every split of the rows has at least as many payloads as the packetizer's. */
  lemma {:induction false} PlanIsFewest(us: seq<Unit>, t: seq<Fragment>, i: nat, most: nat)
    requires i <= |t| && most >= 3 && Covers(us, t, i, 0, most)
    ensures |Plan(t, i, most)| <= |us|
    decreases |us|
  {
    if us != [] {
      match us[0]
      case Group(fs) =>
        FirstGroup(us, t, i, most);
        PlanIsFewest(us[1..], t, i + |fs|, most);
        FewestGroup(t, i, i + |fs|, most, |us[1..]|);
      case Part(_, _, _) =>
        var k := FragmentedRow(us, t, i, 0, most);
        PlanIsFewest(us[k..], t, i + 1, most);
        FewestFragments(t, i, k, most, |us[k..]|);
    }
  }

  // ----- And it is one of them -----

  lemma {:induction false} PartsCover(f: Fragment, from: nat, size: nat, rest: seq<Unit>, t: seq<Fragment>, i: nat,
                                      most: nat)
    requires i < |t| && f == t[i] && 1 <= from < f.length && 0 < size && size + 2 <= most
    requires Covers(rest, t, i + 1, 0, most)
    ensures Covers(Parts(f, from, size) + rest, t, i, from, most)
    ensures from == 1 ==> Covers(Parts(f, from, size) + rest, t, i, 0, most)
    decreases f.length - from
  {
    var next := if f.length - from < size then f.length else from + size;
    PartsNext(f, from, size, next);
    var us := Parts(f, from, size) + rest;
    assert us[0] == Part(f, from, next - from) && us[1..] == Parts(f, next, size) + rest;
    if next < f.length {
      PartsCover(f, next, size, rest, t, i, most);
    } else {
      assert us[1..] == rest;
    }
  }

  /** The packetizer's plan is such a split. */
  lemma {:induction false} PlanCovers(t: seq<Fragment>, i: nat, most: nat)
    requires i <= |t| && most >= 3
    ensures Covers(Plan(t, i, most), t, i, 0, most)
    decreases |t| - i
  {
    if i < |t| {
      if t[i].length > most {
        PlanCovers(t, i + 1, most);
        PartsCover(t[i], 1, PartSize(t[i].length, most), Plan(t, i + 1, most), t, i, most);
      } else {
        var e := GroupEnd(t, i, most, 0);
        GroupFits(t, i, i, most, 0, most);
        PlanCovers(t, e, most);
        assert Plan(t, i, most)[1..] == Plan(t, e, most);
      }
    }
  }

  /** One payload is enough exactly for rows that all go into one group. */
  lemma OneGroupExactly(t: seq<Fragment>, most: nat)
    requires t != [] && most >= 3
    ensures |Plan(t, 0, most)| == 1 <==> GroupSize(t) <= most
  {
    PlanLength(t, 0, most);
    assert t[0..|t|] == t;
    if GroupSize(t) <= most {
      LongestGroup(t, 0, |t|, most);
    } else if t[0].length > most {
      FewestParts(t[0], most);
      AtLeastAsMany(|Parts(t[0], 1, PartSize(t[0].length, most))|, 2, most - 2, most - 1);
    } else if GroupEnd(t, 0, most, 0) == |t| {
      GroupFits(t, 0, 0, most, 0, most);
    } else {
      PlanNotEmptyFrom(t, GroupEnd(t, 0, most, 0), most);
    }
  }

  lemma PlanNotEmptyFrom(t: seq<Fragment>, i: nat, most: nat)
    requires i < |t| && most >= 3
    ensures Plan(t, i, most) != []
  {
    PlanLength(t, i, most);
    if t[i].length > most {
      PartsCount(t[i], 1, PartSize(t[i].length, most));
    }
  }
}

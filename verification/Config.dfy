/** The options of webrtc/common.h: class Config keeps one owned value per type and deletes what it owns. Pointers are
    numbers, 0 the null pointer; `deleted` counts how often each has been given to `delete`, which ignores null. */
module Config {

  type Pointer = nat
  const NULL: Pointer := 0

  /** The address of identifier<T>'s placeholder, one for each type. */
  type TypeId = nat

  /** What Get returns a reference to: a value set, or the static default of the type. */
  datatype Reference = Own(p: Pointer) | Default(t: TypeId)

  /** A configuration as its user sees it: the values held, by type, and the deletions made. */
  datatype View = View(options: map<TypeId, Pointer>, deleted: multiset<Pointer>)

  datatype Op = Set(t: TypeId, value: Pointer)

  function Delete(deleted: multiset<Pointer>, p: Pointer): multiset<Pointer> {
    if p == NULL then deleted else deleted + multiset{p}
  }

  function Step(v: View, op: Op): View {
    View(v.options[op.t := op.value],
         if op.t in v.options then Delete(v.deleted, v.options[op.t]) else v.deleted)
  }

  function Run(ops: seq<Op>): View {
    if ops == [] then View(map[], multiset{}) else Step(Run(ops[..|ops| - 1]), ops[|ops| - 1])
  }

  function Lookup(v: View, t: TypeId): Reference {
    if t in v.options && v.options[t] != NULL then Own(v.options[t]) else Default(t)
  }

  /** The types that hold p. */
  function Holders(options: map<TypeId, Pointer>, p: Pointer): set<TypeId> {
    set t | t in options && options[t] == p
  }

  // ----- The code -----

  class Config {
    var options: map<TypeId, Pointer>
    var deleted: multiset<Pointer>

    ghost function Seen(): View
      reads this
    {
      View(options, deleted)
    }

    constructor ()
      ensures Seen() == Run([])
    {
      options := map[];
      deleted := multiset{};
    }

    method Get(t: TypeId) returns (r: Reference)
      ensures r == Lookup(Seen(), t)
    {
      if t in options {
        var value := options[t];
        if value != NULL {
          return Own(value);
        }
      }
      return Default(t);
    }

    /** `options_[...]` finds the entry or makes an empty one; ~Option deletes the value it held. */
    method Put(t: TypeId, value: Pointer)
      modifies this
      ensures Seen() == Step(old(Seen()), Set(t, value))
    {
      if t in options {
        DeleteOption(options[t]);
      }
      options := options[t := value];
    }

    method DeleteOption(value: Pointer)
      modifies this`deleted
      ensures deleted == Delete(old(deleted), value)
    {
      if value != NULL {
        deleted := deleted + multiset{value};
      }
    }

    /** ~Config: delete every entry, in whatever order the map gives. */
    method Destroy()
      modifies this`deleted
      ensures forall p :: p != NULL ==> deleted[p] == old(deleted)[p] + |Holders(options, p)|
      ensures deleted[NULL] == old(deleted)[NULL]
    {
      var left := options.Keys;
      ghost var before := deleted;
      while left != {}
        invariant left <= options.Keys && deleted[NULL] == before[NULL]
        invariant forall p :: p != NULL ==>
                    deleted[p] + |HoldersIn(options, p, left)| == before[p] + |Holders(options, p)|
        decreases left
      {
        var t :| t in left;
        forall p | p != NULL
          ensures |HoldersIn(options, p, left)|
               == |HoldersIn(options, p, left - {t})| + if options[t] == p then 1 else 0
        {
          OneFewer(options, p, left, t);
        }
        DeleteOption(options[t]);
        left := left - {t};
      }
    }
  }

  function HoldersIn(options: map<TypeId, Pointer>, p: Pointer, keys: set<TypeId>): set<TypeId>
    requires keys <= options.Keys
  {
    set t | t in keys && options[t] == p
  }

  lemma OneFewer(options: map<TypeId, Pointer>, p: Pointer, keys: set<TypeId>, t: TypeId)
    requires keys <= options.Keys && t in keys
    ensures |HoldersIn(options, p, keys)| == |HoldersIn(options, p, keys - {t})| + if options[t] == p then 1 else 0
  {
    if options[t] == p {
      assert HoldersIn(options, p, keys) == HoldersIn(options, p, keys - {t}) + {t};
    } else {
      assert HoldersIn(options, p, keys) == HoldersIn(options, p, keys - {t});
    }
  }

  // ----- Ownership over whole runs -----

  /** How often p has been given to Set. */
  function Given(ops: seq<Op>, p: Pointer): nat {
    if ops == [] then 0 else Given(ops[..|ops| - 1], p) + if ops[|ops| - 1].value == p then 1 else 0
  }

  lemma SizeWith(s: set<TypeId>, t: TypeId)
    requires t !in s
    ensures |s + {t}| == |s| + 1
  {
  }

  lemma HoldersAfter(options: map<TypeId, Pointer>, t: TypeId, value: Pointer, p: Pointer)
    ensures |Holders(options[t := value], p)| + (if t in options && options[t] == p then 1 else 0)
         == |Holders(options, p)| + (if value == p then 1 else 0)
  {
    var others := Holders(options, p) - {t};
    SizeWith(others, t);
    assert Holders(options, p) == if t in options && options[t] == p then others + {t} else others;
    assert Holders(options[t := value], p) == if value == p then others + {t} else others;
  }

  /** Whatever pointers a run sets: each is deleted or held as often as it was given, no more and no less. */
  lemma {:induction false} Conservation(ops: seq<Op>, p: Pointer)
    requires p != NULL
    ensures Run(ops).deleted[p] + |Holders(Run(ops).options, p)| == Given(ops, p)
  {
    if ops == [] {
      assert Holders(map[], p) == {};
    } else {
      var front, last := ops[..|ops| - 1], ops[|ops| - 1];
      Conservation(front, p);
      HoldersAfter(Run(front).options, last.t, last.value, p);
    }
  }

  /** Nothing happens to the null pointer. */
  lemma {:induction false} NullNeverDeleted(ops: seq<Op>)
    ensures Run(ops).deleted[0] == 0
  {
    if ops != [] {
      NullNeverDeleted(ops[..|ops| - 1]);
    }
  }

  /** Deletions after ~Config. */
  function Final(ops: seq<Op>, p: Pointer): nat {
    Run(ops).deleted[p] + |Holders(Run(ops).options, p)|
  }

  ghost predicate NoneDeletedTwice(ops: seq<Op>) {
    forall p: Pointer :: p != NULL ==> Final(ops, p) <= 1
  }

  ghost predicate NoneGivenTwice(ops: seq<Op>) {
    forall p: Pointer :: p != NULL ==> Given(ops, p) <= 1
  }

  /** Nothing leaks, and nothing is deleted twice exactly when no pointer is given twice. */
  lemma DeletedOnceExactly(ops: seq<Op>)
    ensures NoneDeletedTwice(ops) <==> NoneGivenTwice(ops)
    ensures forall p: Pointer :: p != NULL && Given(ops, p) >= 1 ==> Final(ops, p) >= 1
  {
    if NoneDeletedTwice(ops) {
      forall p: Pointer | p != NULL
        ensures Given(ops, p) <= 1
      {
        Conservation(ops, p);
        assert Final(ops, p) <= 1;
      }
    }
    forall p: Pointer | p != NULL
      ensures Final(ops, p) == Given(ops, p)
    {
      Conservation(ops, p);
    }
  }

  /** A Set of p has been followed by a Set of the same type. */
  predicate Replaced(ops: seq<Op>, p: Pointer) {
    exists i, j :: 0 <= i < j < |ops| && ops[i].value == p && ops[i].t == ops[j].t
  }

  /** The last Set of a type, -1 if there is none. */
  function LastAt(ops: seq<Op>, t: TypeId): int {
    if ops == [] then -1
    else if ops[|ops| - 1].t == t then |ops| - 1
    else LastAt(ops[..|ops| - 1], t)
  }

  /** A type holds what its last Set gave it. */
  lemma {:induction false} HeldSince(ops: seq<Op>, t: TypeId)
    ensures var k := LastAt(ops, t);
            && -1 <= k < |ops|
            && (t in Run(ops).options <==> k >= 0)
            && (k >= 0 ==> ops[k].t == t && Run(ops).options[t] == ops[k].value)
            && forall j :: k < j < |ops| ==> ops[j].t != t
  {
    if ops != [] {
      HeldSince(ops[..|ops| - 1], t);
    }
  }

  /** One Set more replaces p if it was replaced before, or was what the type held. */
  lemma ReplacedNext(front: seq<Op>, last: Op, p: Pointer)
    ensures Replaced(front + [last], p) <==>
              Replaced(front, p) || (last.t in Run(front).options && Run(front).options[last.t] == p)
  {
    var ops, k := front + [last], LastAt(front, last.t);
    HeldSince(front, last.t);
    if Replaced(front, p) {
      var i, j :| 0 <= i < j < |front| && front[i].value == p && front[i].t == front[j].t;
      assert ops[i] == front[i] && ops[j] == front[j];
    }
    if k >= 0 && front[k].value == p {
      assert ops[k] == front[k] && ops[|front|] == last;
    }
    if Replaced(ops, p) {
      var i, j :| 0 <= i < j < |ops| && ops[i].value == p && ops[i].t == ops[j].t;
      assert ops[i] == front[i];
      if j < |front| {
        assert ops[j] == front[j];
      } else if i < k {
        assert front[i].t == front[k].t;
      }
    }
  }

  /** What has been deleted before the end: exactly the pointers that were set and whose type was set again. */
  lemma {:induction false} DeletedExactly(ops: seq<Op>, p: Pointer)
    requires p != NULL
    ensures Run(ops).deleted[p] > 0 <==> Replaced(ops, p)
  {
    if ops != [] {
      var front, last := ops[..|ops| - 1], ops[|ops| - 1];
      DeletedExactly(front, p);
      HeldSince(front, last.t);
      ReplacedNext(front, last, p);
      assert ops == front + [last];
    }
  }

  /** A reference Get hands out is to a value that is alive exactly when no Set of that pointer has been followed by a
      Set of the same type. */
  lemma ReferencesAreAlive(ops: seq<Op>, t: TypeId)
    requires Lookup(Run(ops), t).Own?
    ensures var p := Lookup(Run(ops), t).p;
            Run(ops).deleted[p] == 0 <==> !Replaced(ops, p)
  {
    DeletedExactly(ops, Lookup(Run(ops), t).p);
  }

  /** In particular they all are while no pointer is given twice. */
  lemma AliveWhenGivenOnce(ops: seq<Op>, t: TypeId)
    requires NoneGivenTwice(ops)
    ensures var r := Lookup(Run(ops), t);
            r.Own? ==> Run(ops).deleted[r.p] == 0
  {
    var v := Run(ops);
    var r := Lookup(v, t);
    if r.Own? {
      Conservation(ops, r.p);
      assert t in Holders(v.options, r.p);
      assert Given(ops, r.p) <= 1;
    }
  }

  /** Setting the pointer that is already held deletes it and then hands it out. */
  lemma SettingTwiceDangles(t: TypeId, p: Pointer)
    requires p != NULL
    ensures var ops := [Set(t, p), Set(t, p)];
            Lookup(Run(ops), t) == Own(p) && Run(ops).deleted[p] == 1 && Final(ops, p) == 2
  {
    var ops := [Set(t, p), Set(t, p)];
    assert ops[..1] == [Set(t, p)] && ops[..1][..0] == [];
    assert Run(ops[..1]) == View(map[t := p], multiset{});
    assert Holders(map[t := p], p) == {t};
    assert map[t := p][t := p] == map[t := p];
  }

  /** The value last set for t, if any. */
  function LastSet(ops: seq<Op>, t: TypeId): Pointer {
    if ops == [] then NULL
    else if ops[|ops| - 1].t == t then ops[|ops| - 1].value
    else LastSet(ops[..|ops| - 1], t)
  }

  /** Get finds the value last set for its own type, whatever was set for others; a null value, or none, gives the
      default. */
  lemma {:induction false} GetFindsLast(ops: seq<Op>, t: TypeId)
    ensures Lookup(Run(ops), t) == if LastSet(ops, t) != NULL then Own(LastSet(ops, t)) else Default(t)
  {
    if ops != [] {
      GetFindsLast(ops[..|ops| - 1], t);
    }
  }

  /** The last value set for t that was not null. */
  function LastValue(ops: seq<Op>, t: TypeId): Pointer {
    if ops == [] then NULL
    else if ops[|ops| - 1].t == t && ops[|ops| - 1].value != NULL then ops[|ops| - 1].value
    else LastValue(ops[..|ops| - 1], t)
  }

  /** That need not be the last value there was: after one has been set, setting null brings the default back. Get finds
      the last value exactly when the type's last Set was not of null, or none before it was of a value. */
  lemma FindsLastValueExactly(ops: seq<Op>, t: TypeId)
    ensures Lookup(Run(ops), t) == (if LastValue(ops, t) != NULL then Own(LastValue(ops, t)) else Default(t)) <==>
              LastSet(ops, t) != NULL || LastValue(ops, t) == NULL
  {
    GetFindsLast(ops, t);
    LastOfBoth(ops, t);
  }

  lemma {:induction false} LastOfBoth(ops: seq<Op>, t: TypeId)
    ensures LastSet(ops, t) != NULL ==> LastValue(ops, t) == LastSet(ops, t)
  {
    if ops != [] && ops[|ops| - 1].t != t {
      LastOfBoth(ops[..|ops| - 1], t);
    }
  }

  lemma NullResets(t: TypeId, p: Pointer)
    requires p != NULL
    ensures var ops := [Set(t, p), Set(t, NULL)];
            LastValue(ops, t) == p && Lookup(Run(ops), t) == Default(t) && Run(ops).deleted[p] == 1
  {
    var ops := [Set(t, p), Set(t, NULL)];
    assert ops[..1] == [Set(t, p)] && ops[..1][..0] == [];
    assert Run(ops[..1]) == View(map[t := p], multiset{});
  }
}

/**
 Order independence of linear probing: the slots that end up in use, and the total distance all
 keys are displaced from their starts, do not depend on the order of insertion.
 */
module ProbeOrder {
  import opened Common
  import opened Probing
  import opened HashRuns

  // ---- Slots as a set ----

  ghost predicate Within(n: nat, occ: set<nat>) {
    forall p :: p in occ ==> p < n
  }

  /** `p` is the first slot from `s` on that is not occupied. */
  ghost predicate IsFirst(n: nat, occ: set<nat>, s: nat, p: nat)
    requires s < n
  {
    && p < n && p !in occ
    && forall e: nat :: e < Dist(n, s, p) ==> Slide(n, s, e) in occ
  }

  lemma {:induction false} FirstUnique(n: nat, occ: set<nat>, s: nat, p: nat, q: nat)
    requires s < n && IsFirst(n, occ, s, p) && IsFirst(n, occ, s, q)
    ensures p == q
  {
    assert p == Slide(n, s, Dist(n, s, p)) && q == Slide(n, s, Dist(n, s, q));
  }

  lemma {:induction false} FirstFrom(n: nat, occ: set<nat>, s: nat, d: nat, p: nat) returns (q: nat)
    requires s < n && d < n && p < n && p !in occ && d <= Dist(n, s, p)
    requires forall e: nat :: e < d ==> Slide(n, s, e) in occ
    ensures IsFirst(n, occ, s, q)
    decreases n - d
  {
    q := Slide(n, s, d);
    DistSlide(n, s, d);
    if q in occ {
      assert q != p;
      q := FirstFrom(n, occ, s, d + 1, p);
    }
  }

  lemma {:induction false} FreeSlot(n: nat, occ: set<nat>) returns (p: nat)
    requires Within(n, occ) && |occ| < n
    ensures p < n && p !in occ
  {
    var free := Range(n) - occ;
    SubsetSize(Range(n), occ + free);
    p :| p in free;
  }

  ghost function First(n: nat, occ: set<nat>, s: nat): (p: nat)
    requires s < n && Within(n, occ) && |occ| < n
    ensures IsFirst(n, occ, s, p)
  {
    assert exists q :: IsFirst(n, occ, s, q) by {
      var p := FreeSlot(n, occ);
      var q := FirstFrom(n, occ, s, 0, p);
    }
    var p :| IsFirst(n, occ, s, p);
    p
  }

  /** Occupied slots on the way to `p` may be probed first without changing where the probe ends. */
  lemma {:induction false} FirstUnshift(n: nat, occ: set<nat>, s: nat, p: nat, r: nat)
    requires s < n && p < n && IsFirst(n, occ, p, r)
    requires forall e: nat :: e < Dist(n, s, p) ==> Slide(n, s, e) in occ
    ensures IsFirst(n, occ, s, r) && Dist(n, s, r) == Dist(n, s, p) + Dist(n, p, r)
  {
    forall e: nat | e < Dist(n, s, r) ensures Slide(n, s, e) in occ {
      if e >= Dist(n, s, p) {
        assert Slide(n, s, e) == Slide(n, p, e - Dist(n, s, p));
      }
    }
  }

  // ---- Placing starts one after the other ----

  datatype Placed = Placed(occ: set<nat>, cost: nat)

  ghost function Place(n: nat, at: Placed, s: nat): (r: Placed)
    requires s < n && Within(n, at.occ) && |at.occ| < n
    ensures Within(n, r.occ) && |r.occ| == |at.occ| + 1
  {
    var p := First(n, at.occ, s);
    Placed(at.occ + {p}, at.cost + Dist(n, s, p))
  }

  function Start(n: nat, op: Op): (s: nat)
    requires n > 0
    ensures s < n
  {
    op.key.hash % n
  }

  ghost function PlaceAll(n: nat, at: Placed, ops: seq<Op>): (r: Placed)
    requires n > 0 && Within(n, at.occ) && |at.occ| + |ops| <= n
    ensures Within(n, r.occ) && |r.occ| == |at.occ| + |ops|
    decreases |ops|
  {
    if ops == [] then at else PlaceAll(n, Place(n, at, Start(n, ops[0])), ops[1..])
  }

  /** If both probes end on the same slot, whoever comes second lands where the other would have. */
  lemma {:induction false} SecondLandsSame(n: nat, occ: set<nat>, a: nat, b: nat, p: nat)
    requires a < n && b < n && Within(n, occ) && |occ| + 2 <= n && p !in occ
    requires IsFirst(n, occ, a, p) && IsFirst(n, occ, b, p)
    ensures |occ + {p}| < n && Within(n, occ + {p})
    ensures First(n, occ + {p}, a) == First(n, occ + {p}, b)
    ensures var r := First(n, occ + {p}, a);
            Dist(n, a, r) == Dist(n, a, p) + Dist(n, p, r) && Dist(n, b, r) == Dist(n, b, p) + Dist(n, p, r)
  {
    var r := First(n, occ + {p}, p);
    FirstUnshift(n, occ + {p}, a, p, r);
    FirstUnshift(n, occ + {p}, b, p, r);
    FirstUnique(n, occ + {p}, a, r, First(n, occ + {p}, a));
    FirstUnique(n, occ + {p}, b, r, First(n, occ + {p}, b));
  }

  /** A slot taken elsewhere does not change where a probe ends. */
  lemma {:induction false} FirstUnaffected(n: nat, occ: set<nat>, b: nat, p: nat, q: nat)
    requires b < n && Within(n, occ) && p < n && p != q && IsFirst(n, occ, b, q)
    requires |occ + {p}| < n
    ensures Within(n, occ + {p}) && First(n, occ + {p}, b) == q
  {
    assert IsFirst(n, occ + {p}, b, q);
    FirstUnique(n, occ + {p}, b, q, First(n, occ + {p}, b));
  }

  /** Adjacent insertions commute. */
  lemma {:induction false} PlacesCommute(n: nat, at: Placed, a: nat, b: nat)
    requires a < n && b < n && Within(n, at.occ) && |at.occ| + 2 <= n
    ensures Place(n, Place(n, at, a), b) == Place(n, Place(n, at, b), a)
  {
    var p, q := First(n, at.occ, a), First(n, at.occ, b);
    if p == q {
      SecondLandsSame(n, at.occ, a, b, p);
    } else {
      FirstUnaffected(n, at.occ, b, p, q);
      FirstUnaffected(n, at.occ, a, q, p);
      assert at.occ + {p} + {q} == at.occ + {q} + {p};
    }
  }

  /** Any insertion of the list may be done first. */
  lemma {:induction false} PlaceFirst(n: nat, at: Placed, ops: seq<Op>, i: nat)
    requires n > 0 && Within(n, at.occ) && |at.occ| + |ops| <= n && i < |ops|
    ensures PlaceAll(n, at, ops) == PlaceAll(n, Place(n, at, Start(n, ops[i])), ops[..i] + ops[i + 1..])
    decreases |ops|
  {
    if i == 0 {
      assert ops[..i] + ops[i + 1..] == ops[1..];
    } else {
      SplitWithout(ops, i);
      PlaceFirst(n, Place(n, at, Start(n, ops[0])), ops[1..], i - 1);
      PlacesCommute(n, at, Start(n, ops[0]), Start(n, ops[i]));
    }
  }

  lemma {:induction false} SplitWithout<T>(ss: seq<T>, i: nat)
    requires 0 < i < |ss|
    ensures var rest := ss[..i] + ss[i + 1..];
            rest[0] == ss[0] && rest[1..] == ss[1..][..i - 1] + ss[1..][i..] && ss[1..][i - 1] == ss[i]
  {
  }

  /** The occupied set and the total displacement depend only on the multiset of insertions. */
  lemma {:induction false} PlaceAllPermuted(n: nat, at: Placed, ops: seq<Op>, ops': seq<Op>)
    requires n > 0 && multiset(ops) == multiset(ops')
    requires Within(n, at.occ) && |at.occ| + |ops| <= n
    ensures |ops'| == |ops| && PlaceAll(n, at, ops) == PlaceAll(n, at, ops')
    decreases |ops|
  {
    assert |multiset(ops)| == |ops| && |multiset(ops')| == |ops'|;
    if ops != [] {
      assert ops[0] in multiset(ops');
      var i :| 0 <= i < |ops'| && ops'[i] == ops[0];
      PlaceFirst(n, at, ops', i);
      RemoveFromBoth(ops, ops', i);
      PlaceAllPermuted(n, Place(n, at, Start(n, ops[0])), ops[1..], ops'[..i] + ops'[i + 1..]);
    }
  }

  lemma {:induction false} RemoveFromBoth<T>(ss: seq<T>, ss': seq<T>, i: nat)
    requires ss != [] && i < |ss'| && ss'[i] == ss[0] && multiset(ss) == multiset(ss')
    ensures multiset(ss[1..]) == multiset(ss'[..i] + ss'[i + 1..])
  {
    assert ss == [ss[0]] + ss[1..];
    assert ss' == ss'[..i] + [ss'[i]] + ss'[i + 1..];
    assert multiset(ss'[..i] + ss'[i + 1..]) == multiset(ss') - multiset{ss[0]};
  }

  // ---- The table ----

  /** How many used slots the insertions of a run step over in all. */
  function ProbeCost(t: Slots, ops: seq<Op>): nat
    requires |t| > 0
    decreases |ops|
  {
    if ops == [] then 0
    else
      ApplyLength(t, ops[0]);
      var probe := Lookup(t, Start(|t|, ops[0]), ops[0].key.fp);
      (if probe.Hole? then Dist(|t|, Start(|t|, ops[0]), probe.pos) else 0)
      + ProbeCost(Apply(t, ops[0]).slots, ops[1..])
  }

  /** Inserting a new key occupies the first free slot from its start. */
  lemma {:induction false} SetPlaces(t: Slots, key: Key, ud: nat)
    requires |t| > 0 && !Has(t, key.fp) && |UsedSlots(t)| < |t|
    ensures Within(|t|, UsedSlots(t))
    ensures var p := First(|t|, UsedSlots(t), key.hash % |t|);
            && Lookup(t, key.hash % |t|, key.fp) == Hole(p)
            && UsedSlots(Apply(t, Set(key, ud)).slots) == UsedSlots(t) + {p}
    ensures forall f :: Has(Apply(t, Set(key, ud)).slots, f) ==> f == key.fp || Has(t, f)
  {
    var n, start := |t|, key.hash % |t|;
    var t' := Apply(t, Set(key, ud)).slots;
    var p := First(n, UsedSlots(t), start);
    forall e: nat | e < Dist(n, start, p) ensures PassedAt(t, start, key.fp, e) {
      var q := Slide(n, start, e);
      assert q in UsedSlots(t);
      assert Used(t, q);
    }
    LookupAt(t, start, key.fp, p);
    assert forall q: int :: Used(t', q) <==> q == p || Used(t, q);
    forall f | Has(t', f) ensures f == key.fp || Has(t, f) {
      var q :| Used(t', q) && t'[q].fp == f;
      assert q != p ==> Used(t, q);
    }
  }

  ghost predicate Distinct(ops: seq<Op>) {
    |Fingerprints(ops)| == |ops|
  }

  lemma {:induction false} FingerprintsAtMost(ops: seq<Op>)
    ensures |Fingerprints(ops)| <= |ops|
    ensures ops != [] ==> Fingerprints(ops) == {ops[0].key.fp} + Fingerprints(ops[1..])
    decreases |ops|
  {
    if ops == [] {
      assert Fingerprints(ops) == {};
    } else {
      FingerprintsAtMost(ops[1..]);
      FingerprintsCons(ops);
    }
  }

  lemma {:induction false} FingerprintsCons(ops: seq<Op>)
    requires ops != []
    ensures Fingerprints(ops) == {ops[0].key.fp} + Fingerprints(ops[1..])
  {
    forall f | f in Fingerprints(ops) ensures f in {ops[0].key.fp} + Fingerprints(ops[1..]) {
      var i :| 0 <= i < |ops| && ops[i].key.fp == f;
      if i > 0 { assert ops[1..][i - 1].key.fp == f; }
    }
    forall f | f in Fingerprints(ops[1..]) ensures f in Fingerprints(ops) {
      var i :| 0 <= i < |ops[1..]| && ops[1..][i].key.fp == f;
      assert ops[i + 1].key.fp == f;
    }
  }

  ghost predicate Insertable(t: Slots, ops: seq<Op>) {
    && |t| > 0 && |UsedSlots(t)| + |ops| <= |t|
    && Distinct(ops)
    && (forall i :: 0 <= i < |ops| ==> ops[i].Set? && !Has(t, ops[i].key.fp))
  }

  lemma {:induction false} RunPlaces(t: Slots, ops: seq<Op>, cost: nat)
    requires Insertable(t, ops)
    ensures Within(|t|, UsedSlots(t))
    ensures PlaceAll(|t|, Placed(UsedSlots(t), cost), ops)
            == Placed(UsedSlots(SlotsAfter(t, ops)), cost + ProbeCost(t, ops))
    decreases |ops|
  {
    if ops != [] {
      var op := ops[0];
      ApplyLength(t, op);
      assert op == Set(op.key, op.ud);
      SetPlaces(t, op.key, op.ud);
      InsertableTail(t, ops);
      var cost' := cost + Dist(|t|, Start(|t|, op), First(|t|, UsedSlots(t), Start(|t|, op)));
      assert Place(|t|, Placed(UsedSlots(t), cost), Start(|t|, op)) == Placed(UsedSlots(Apply(t, op).slots), cost');
      RunPlaces(Apply(t, op).slots, ops[1..], cost');
    }
  }

  lemma {:induction false} InsertableTail(t: Slots, ops: seq<Op>)
    requires Insertable(t, ops) && ops != []
    ensures Insertable(Apply(t, ops[0]).slots, ops[1..])
  {
    var op, t', rest := ops[0], Apply(t, ops[0]).slots, ops[1..];
    assert op == Set(op.key, op.ud);
    SetPlaces(t, op.key, op.ud);
    FingerprintsAtMost(ops);
    FingerprintsAtMost(rest);
    assert op.key.fp !in Fingerprints(rest);
    forall i | 0 <= i < |rest| ensures rest[i].Set? && !Has(t', rest[i].key.fp) {
      assert rest[i] == ops[i + 1];
      assert rest[i].key.fp in Fingerprints(rest);
    }
  }

  lemma {:induction false} FingerprintsSubset(ops: seq<Op>, ops': seq<Op>)
    requires forall op :: op in ops ==> op in ops'
    ensures Fingerprints(ops) <= Fingerprints(ops')
  {
    forall f | f in Fingerprints(ops) ensures f in Fingerprints(ops') {
      var i :| 0 <= i < |ops| && ops[i].key.fp == f;
      assert ops[i] in ops';
    }
  }

  lemma {:induction false} InsertablePermuted(t: Slots, ops: seq<Op>, ops': seq<Op>)
    requires Insertable(t, ops) && multiset(ops) == multiset(ops')
    ensures Insertable(t, ops')
  {
    assert |multiset(ops)| == |ops| && |multiset(ops')| == |ops'|;
    assert forall op :: op in ops <==> op in multiset(ops);
    assert forall op :: op in ops' <==> op in multiset(ops');
    FingerprintsSubset(ops, ops');
    FingerprintsSubset(ops', ops);
    assert Fingerprints(ops) == Fingerprints(ops');
    forall i | 0 <= i < |ops'| ensures ops'[i].Set? && !Has(t, ops'[i].key.fp) {
      assert ops'[i] in ops;
    }
  }

  /**
   Inserting the same new keys into the same table in any two orders, without growth, puts the
   same slots in use and steps over the same total number of used slots.
   */
  lemma {:induction false} InsertionOrderIrrelevant(t: Slots, ops: seq<Op>, ops': seq<Op>)
    requires Insertable(t, ops) && multiset(ops) == multiset(ops')
    ensures UsedSlots(SlotsAfter(t, ops)) == UsedSlots(SlotsAfter(t, ops'))
    ensures ProbeCost(t, ops) == ProbeCost(t, ops')
  {
    InsertablePermuted(t, ops, ops');
    RunPlaces(t, ops, 0);
    RunPlaces(t, ops', 0);
    PlaceAllPermuted(|t|, Placed(UsedSlots(t), 0), ops, ops');
  }
}

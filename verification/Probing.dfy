/**
 Linear probing over the slots of hmap.c, on values: what a probe from a start slot meets, the
 probe-chain invariant, and what inserting, deleting and growing do to lookups.
 */
module Probing {
  import opened Common

  const NULL: nat := 0

  /** The two words that identify a key; the key string itself is not stored. */
  datatype Fingerprint = Fingerprint(a: nat, b: nat)

  /** `struct hash_table`. A slot is in use when `exist` is 1, and only then. */
  datatype Slot = Slot(exist: nat, fp: Fingerprint, ud: nat)

  type Slots = seq<Slot>

  const NO_WORD: nat := 0xFFFF_FFFF
  const EMPTY_SLOT := Slot(0, Fingerprint(NO_WORD, NO_WORD), NULL)

  predicate Used(t: Slots, p: int) {
    0 <= p < |t| && t[p].exist == 1
  }

  ghost predicate AllUsed(t: Slots) {
    forall p: nat :: p < |t| ==> Used(t, p)
  }

  // ---- The circle of slots ----

  /** The slot `d` places after `s` on a circle of `n`. */
  function Slide(n: nat, s: nat, d: nat): (p: nat)
    requires s < n && d < n
    ensures p < n
  {
    if s + d < n then s + d else s + d - n
  }

  /** How many places `p` is after `s`. */
  function Dist(n: nat, s: nat, p: nat): (d: nat)
    requires s < n && p < n
    ensures d < n && Slide(n, s, d) == p
  {
    if s <= p then p - s else p + n - s
  }

  lemma {:induction false} DistSlide(n: nat, s: nat, d: nat)
    requires s < n && d < n
    ensures Dist(n, s, Slide(n, s, d)) == d
  {
  }

  // ---- Probing ----

  datatype Probe =
    | Hit(pos: nat)    // the fingerprint is stored at `pos`
    | Hole(pos: nat)   // the probe ended on the unused slot `pos`
    | Full             // every slot is in use and none matches

  /** The probe loop of get, set and del, `d` slots after the start. */
  function Scan(t: Slots, start: nat, fp: Fingerprint, d: nat): (r: Probe)
    requires start < |t| && d <= |t|
    ensures !r.Full? ==> r.pos < |t|
    decreases |t| - d
  {
    if d == |t| then Full
    else
      var p := Slide(|t|, start, d);
      if t[p].exist != 1 then Hole(p)
      else if t[p].fp == fp then Hit(p)
      else Scan(t, start, fp, d + 1)
  }

  function Lookup(t: Slots, start: nat, fp: Fingerprint): (r: Probe)
    requires start < |t|
    ensures !r.Full? ==> r.pos < |t|
  {
    Scan(t, start, fp, 0)
  }

  /** The first `d` slots from `start` are in use by other keys. */
  ghost predicate Passed(t: Slots, start: nat, fp: Fingerprint, d: nat)
    requires start < |t| && d <= |t|
  {
    forall e: nat :: e < d ==> PassedAt(t, start, fp, e)
  }

  predicate PassedAt(t: Slots, start: nat, fp: Fingerprint, e: nat)
    requires start < |t| && e < |t|
  {
    var s := t[Slide(|t|, start, e)];
    s.exist == 1 && s.fp != fp
  }

  lemma {:induction false} ScanFrom(t: Slots, start: nat, fp: Fingerprint, d: nat)
    requires start < |t| && d <= |t| && Passed(t, start, fp, d)
    ensures Lookup(t, start, fp) == Scan(t, start, fp, d)
  {
    if d > 0 {
      ScanFrom(t, start, fp, d - 1);
      assert PassedAt(t, start, fp, d - 1);
    }
  }

  lemma {:induction false} ScanMeets(t: Slots, start: nat, fp: Fingerprint, d: nat)
    requires start < |t| && d <= |t| && Passed(t, start, fp, d)
    ensures match Scan(t, start, fp, d)
            case Hit(p) => Used(t, p) && t[p].fp == fp && Passed(t, start, fp, Dist(|t|, start, p))
            case Hole(p) => p < |t| && !Used(t, p) && Passed(t, start, fp, Dist(|t|, start, p))
            case Full => Passed(t, start, fp, |t|)
    decreases |t| - d
  {
    if d < |t| {
      DistSlide(|t|, start, d);
      if PassedAt(t, start, fp, d) { ScanMeets(t, start, fp, d + 1); }
    }
  }

  /** What each outcome of a lookup means. */
  lemma {:induction false} LookupMeets(t: Slots, start: nat, fp: Fingerprint)
    requires start < |t|
    ensures match Lookup(t, start, fp)
            case Hit(p) => Used(t, p) && t[p].fp == fp && Passed(t, start, fp, Dist(|t|, start, p))
            case Hole(p) => p < |t| && !Used(t, p) && Passed(t, start, fp, Dist(|t|, start, p))
            case Full => Passed(t, start, fp, |t|)
  {
    ScanMeets(t, start, fp, 0);
  }

  /** A probe that passes every slot before `p` ends at `p` or goes beyond it, as `p` decides. */
  lemma {:induction false} LookupAt(t: Slots, start: nat, fp: Fingerprint, p: nat)
    requires start < |t| && p < |t| && Passed(t, start, fp, Dist(|t|, start, p))
    ensures !Used(t, p) ==> Lookup(t, start, fp) == Hole(p)
    ensures Used(t, p) && t[p].fp == fp ==> Lookup(t, start, fp) == Hit(p)
  {
    ScanFrom(t, start, fp, Dist(|t|, start, p));
  }

  lemma {:induction false} PassedEverySlot(t: Slots, start: nat, fp: Fingerprint, p: nat)
    requires start < |t| && p < |t| && Passed(t, start, fp, |t|)
    ensures Used(t, p) && t[p].fp != fp
  {
    assert PassedAt(t, start, fp, Dist(|t|, start, p));
  }

  // ---- The probe-chain invariant ----

  /** Where each fingerprint's probe starts: `hash % size` of any string that has it. */
  type Home = Fingerprint -> nat

  ghost predicate InRange(home: Home, n: nat) {
    n > 0 && forall f :: home(f) < n
  }

  /** `r` lies on the way from the start of the entry at `q` to `q`, before `q` itself. */
  predicate OnPath(t: Slots, start: nat, q: nat, r: nat)
    requires start < |t| && q < |t| && r < |t|
  {
    Dist(|t|, start, r) < Dist(|t|, start, q)
  }

  ghost predicate Chained(t: Slots, home: Home)
    requires InRange(home, |t|)
  {
    forall q, r | Used(t, q) && 0 <= r < |t| && OnPath(t, home(t[q].fp), q, r) :: Used(t, r)
  }

  ghost predicate Unique(t: Slots) {
    forall p, q | Used(t, p) && Used(t, q) && t[p].fp == t[q].fp :: p == q
  }

  ghost predicate Probeable(t: Slots, home: Home) {
    InRange(home, |t|) && Chained(t, home) && Unique(t)
  }

  ghost predicate Has(t: Slots, f: Fingerprint) {
    exists p :: Used(t, p) && t[p].fp == f
  }

  lemma {:induction false} PathPassed(t: Slots, home: Home, q: nat)
    requires Probeable(t, home) && Used(t, q)
    ensures Passed(t, home(t[q].fp), t[q].fp, Dist(|t|, home(t[q].fp), q))
  {
    var start := home(t[q].fp);
    forall e: nat | e < Dist(|t|, start, q) ensures PassedAt(t, start, t[q].fp, e) {
      var r := Slide(|t|, start, e);
      DistSlide(|t|, start, e);
      assert OnPath(t, home(t[q].fp), q, r);
      assert Used(t, r);
    }
  }

  /** Under the invariant a stored key is found, at its own slot. */
  lemma {:induction false} StoredIsFound(t: Slots, home: Home, q: nat)
    requires Probeable(t, home) && Used(t, q)
    ensures Lookup(t, home(t[q].fp), t[q].fp) == Hit(q)
  {
    PathPassed(t, home, q);
    LookupAt(t, home(t[q].fp), t[q].fp, q);
  }

  /** From any start, a fingerprint that is not stored is not found. */
  lemma {:induction false} AbsentIsNotFound(t: Slots, start: nat, f: Fingerprint)
    requires start < |t| && !Has(t, f)
    ensures !Lookup(t, start, f).Hit?
    ensures Lookup(t, start, f).Full? <==> forall p: nat :: p < |t| ==> Used(t, p)
  {
    LookupMeets(t, start, f);
    if Lookup(t, start, f).Full? {
      forall p: nat | p < |t| ensures Used(t, p) { PassedEverySlot(t, start, f, p); }
    }
  }

  // ---- Insertion ----

  function Put(t: Slots, p: nat, f: Fingerprint, ud: nat): Slots
    requires p < |t|
  {
    t[p := Slot(1, f, ud)]
  }

  lemma {:induction false} PutKeepsProbeable(t: Slots, home: Home, f: Fingerprint, ud: nat, p: nat)
    requires Probeable(t, home) && Lookup(t, home(f), f) == Hole(p)
    ensures p < |t| && Probeable(Put(t, p, f, ud), home)
  {
    LookupMeets(t, home(f), f);
    var t' := Put(t, p, f, ud);
    forall q, r | Used(t', q) && 0 <= r < |t'| && OnPath(t', home(t'[q].fp), q, r) ensures Used(t', r) {
      if q == p {
        assert PassedAt(t, home(f), f, Dist(|t|, home(f), r));
      } else {
        assert Used(t, q) && OnPath(t, home(t[q].fp), q, r);
        assert Used(t, r);
      }
    }
    forall q | Used(t, q) ensures t[q].fp != f {
      if t[q].fp == f { StoredIsFound(t, home, q); }
    }
    forall q, r | Used(t', q) && Used(t', r) && t'[q].fp == t'[r].fp ensures q == r {
      assert q != p ==> Used(t, q);
      assert r != p ==> Used(t, r);
    }
  }

  // ---- Deletion ----

  function Erase(t: Slots, p: nat): Slots
    requires p < |t|
  {
    t[p := EMPTY_SLOT]
  }

  lemma {:induction false} ErasedIsGone(t: Slots, home: Home, p: nat)
    requires Probeable(t, home) && Used(t, p)
    ensures !Has(Erase(t, p), t[p].fp)
    ensures Unique(Erase(t, p))
    ensures !Lookup(Erase(t, p), home(t[p].fp), t[p].fp).Hit?
  {
    var t' := Erase(t, p);
    forall q | Used(t', q) ensures Used(t, q) && t'[q] == t[q] && q != p {}
    AbsentIsNotFound(t', home(t[p].fp), t[p].fp);
  }

  /**
   Deleting the key at `p` leaves another stored key findable if and only if `p` is not on that
   key's path; and a key that is lost is lost because its probe now stops at `p`.
   */
  lemma {:induction false} FoundAfterErase(t: Slots, home: Home, p: nat, q: nat)
    requires Probeable(t, home) && Used(t, p) && Used(t, q) && p != q
    ensures var f := t[q].fp;
            var found := Lookup(Erase(t, p), home(f), f);
            if OnPath(t, home(f), q, p) then found == Hole(p) else found == Hit(q)
  {
    var t', start, f := Erase(t, p), home(t[q].fp), t[q].fp;
    PathPassed(t, home, q);
    var stop := if OnPath(t, start, q, p) then p else q;
    forall e: nat | e < Dist(|t|, start, stop) ensures PassedAt(t', start, f, e) {
      assert PassedAt(t, start, f, e);
      DistSlide(|t|, start, e);
    }
    LookupAt(t', start, f, stop);
  }

  /** No other entry's path runs over `p`. */
  ghost predicate Harmless(t: Slots, home: Home, p: nat)
    requires InRange(home, |t|) && p < |t|
  {
    forall q | Used(t, q) && q != p :: !OnPath(t, home(t[q].fp), q, p)
  }

  /** The invariant survives a deletion exactly when no other entry's path runs over the freed slot. */
  lemma {:induction false} EraseKeepsProbeable(t: Slots, home: Home, p: nat)
    requires Probeable(t, home) && Used(t, p)
    ensures Probeable(Erase(t, p), home) <==> Harmless(t, home, p)
  {
    var t' := Erase(t, p);
    ErasedIsGone(t, home, p);
    if Harmless(t, home, p) {
      forall q, r | Used(t', q) && 0 <= r < |t'| && OnPath(t', home(t'[q].fp), q, r) ensures Used(t', r) {
        assert Used(t, q) && q != p && t'[q] == t[q];
        assert !OnPath(t, home(t[q].fp), q, p);
        assert OnPath(t, home(t[q].fp), q, r);
        assert r != p && Used(t, r);
      }
    } else {
      var q :| Used(t, q) && q != p && OnPath(t, home(t[q].fp), q, p);
      assert Used(t', q) && OnPath(t', home(t'[q].fp), q, p) && !Used(t', p);
    }
  }

  // ---- Growth ----

  /** `_expand`: the slots keep their places and the second half is whatever the allocator returned. */
  function Grow(t: Slots, half: Slots): Slots
    requires |half| == |t|
  {
    t + half
  }

  lemma {:induction false} HalvesOfModulus(h: nat, n: nat)
    requires n > 0
    ensures h % (2 * n) == h % n || h % (2 * n) == h % n + n
  {
    HalfOfModulus(h, n, 2 * n);
  }

  lemma {:induction false} HalfOfModulus(h: nat, n: nat, m: nat)
    requires n > 0 && m == n + n
    ensures h % n == if h % m < n then h % m else h % m - n
  {
    DivMod(h, m);
    HalfOf(h, n, m, h / m, h % m);
  }

  lemma {:induction false} HalfOf(h: nat, n: nat, m: nat, q: nat, r: nat)
    requires n > 0 && m == n + n && r < m && h == m * q + r
    ensures h % n == if r < n then r else r - n
  {
    Regroup(n, m, q);
    if r < n {
      ModUnique(h, n, 2 * q, r);
    } else {
      ModUnique(h, n, 2 * q + 1, r - n);
    }
  }

  lemma {:induction false} Regroup(n: nat, m: nat, q: nat)
    requires m == n + n
    ensures m * q == n * (2 * q) && n * (2 * q + 1) == n * (2 * q) + n
  {
  }

  lemma {:induction false} PassedAfterGrowth(t: Slots, home: Home, q: nat, half: Slots, start: nat)
    requires Probeable(t, home) && Used(t, q) && |half| == |t|
    requires start == home(t[q].fp) <= q
    ensures Passed(Grow(t, half), start, t[q].fp, q - start)
  {
    PathPassed(t, home, q);
    forall e: nat | e < q - start ensures PassedAt(Grow(t, half), start, t[q].fp, e) {
      assert PassedAt(t, start, t[q].fp, e);
    }
  }

  /**
   Growth copies slots without rehashing. Whatever the new half holds, the key at `q` is still
   found when its new start is at or before its old place.
   */
  lemma {:induction false} FoundAfterGrowth(t: Slots, home: Home, q: nat, half: Slots, hash: nat)
    requires Probeable(t, home) && Used(t, q) && |half| == |t| && home(t[q].fp) == hash % |t|
    requires hash % (2 * |t|) <= q
    ensures Lookup(Grow(t, half), hash % (2 * |t|), t[q].fp) == Hit(q)
  {
    HalvesOfModulus(hash, |t|);
    PassedAfterGrowth(t, home, q, half, hash % |t|);
    LookupAt(Grow(t, half), hash % |t|, t[q].fp, q);
  }

  /** Every slot of the new half that the probe would cross on its way round is used by another key. */
  ghost predicate Crossable(half: Slots, start: nat, f: Fingerprint) {
    forall p: nat :: p < |half| && start <= |half| + p ==> CrossableAt(half, p, f)
  }

  predicate CrossableAt(half: Slots, p: nat, f: Fingerprint) {
    Used(half, p) && half[p].fp != f
  }

  lemma {:induction false} PassedRound(t: Slots, q: nat, half: Slots, start: nat)
    requires Unique(t) && AllUsed(t) && q < |t| == |half| && q < start < 2 * |t|
    requires Crossable(half, start, t[q].fp)
    ensures Passed(Grow(t, half), start, t[q].fp, Dist(2 * |t|, start, q))
  {
    var n, g, f := |t|, Grow(t, half), t[q].fp;
    forall e: nat | e < Dist(2 * n, start, q) ensures PassedAt(g, start, f, e) {
      var p := Slide(2 * n, start, e);
      if p < n {
        assert Used(t, p) && Used(t, q);
      } else {
        assert CrossableAt(half, p - n, f);
      }
    }
  }

  /**
   A table grows when it is full. After that, whatever the allocator left in the new half, a key
   is found if and only if its new start is at or before its place, or the new half happens to look
   in use by other keys all along the way round.
   */
  lemma {:induction false} FoundAfterGrowthExactly(t: Slots, home: Home, q: nat, half: Slots, hash: nat)
    requires Probeable(t, home) && AllUsed(t) && q < |t| == |half| && home(t[q].fp) == hash % |t|
    ensures var start := hash % (2 * |t|);
            Lookup(Grow(t, half), start, t[q].fp) == Hit(q) <==> start <= q || Crossable(half, start, t[q].fp)
  {
    var n, g, start, f := |t|, Grow(t, half), hash % (2 * |t|), t[q].fp;
    assert Used(t, q);
    if start <= q {
      FoundAfterGrowth(t, home, q, half, hash);
    } else if Crossable(half, start, f) {
      PassedRound(t, q, half, start);
      LookupAt(g, start, f, q);
    } else {
      var p: nat :| p < n && start <= n + p && !CrossableAt(half, p, f);
      LookupMeets(g, start, f);
      assert Slide(2 * n, start, n + p - start) == n + p && g[n + p] == half[p];
      assert !PassedAt(g, start, f, n + p - start);
    }
  }

  // ---- Looking in a grown table for a key the old slots do not hold ----

  /** Where a probe that starts at `start` enters the second of two halves of `n` slots. */
  function EntersHalf(n: nat, start: nat): (s: nat)
    requires start < 2 * n
    ensures s < n
  {
    if start < n then 0 else start - n
  }

  function Shifted(n: nat, probe: Probe): Probe {
    match probe
    case Hit(p) => Hit(n + p)
    case Hole(p) => Hole(n + p)
    case Full => Full
  }

  /** A slot the probe of the grown table crosses is an old one, or one the probe of the half crosses. */
  lemma {:induction false} CrossedBefore(n: nat, start: nat, p: nat, e: nat)
    requires start < 2 * n && p < n && e < Dist(2 * n, start, n + p)
    ensures var q := Slide(2 * n, start, e);
            q >= n ==> Dist(n, EntersHalf(n, start), q - n) < Dist(n, EntersHalf(n, start), p)
  {
  }

  lemma {:induction false} PassedInHalf(t: Slots, half: Slots, start: nat, f: Fingerprint, p: nat)
    requires 0 < |t| == |half| && start < 2 * |t| && p < |half| && Passed(t, 0, f, |t|)
    requires Passed(half, EntersHalf(|t|, start), f, Dist(|t|, EntersHalf(|t|, start), p))
    ensures Passed(Grow(t, half), start, f, Dist(2 * |t|, start, |t| + p))
  {
    var n, g := |t|, Grow(t, half);
    forall e: nat | e < Dist(2 * n, start, n + p) ensures PassedAt(g, start, f, e) {
      var q := Slide(2 * n, start, e);
      if q < n {
        PassedEverySlot(t, 0, f, q);
      } else {
        CrossedBefore(n, start, p, e);
        assert PassedAt(half, EntersHalf(n, start), f, Dist(n, EntersHalf(n, start), q - n));
      }
    }
  }

  lemma {:induction false} FullHalf(t: Slots, half: Slots, start: nat, f: Fingerprint)
    requires 0 < |t| == |half| && start < 2 * |t| && Passed(t, 0, f, |t|)
    requires Passed(half, EntersHalf(|t|, start), f, |t|)
    ensures Lookup(Grow(t, half), start, f) == Full
  {
    var n, g := |t|, Grow(t, half);
    forall e: nat | e < 2 * n ensures PassedAt(g, start, f, e) {
      var q := Slide(2 * n, start, e);
      if q < n { PassedEverySlot(t, 0, f, q); } else { PassedEverySlot(half, EntersHalf(n, start), f, q - n); }
    }
    ScanFrom(g, start, f, 2 * n);
  }

  lemma {:induction false} PassedFromAnywhere(t: Slots, start: nat, f: Fingerprint, start': nat)
    requires start < |t| && start' < |t| && Passed(t, start, f, |t|)
    ensures Passed(t, start', f, |t|)
  {
    forall e: nat | e < |t| ensures PassedAt(t, start', f, e) {
      PassedEverySlot(t, start, f, Slide(|t|, start', e));
    }
  }

  /**
   A table that is full without the key grows, and then the key's probe finds in it what it finds in
   the new half alone, from where it enters that half.
   */
  lemma {:induction false} LookupInHalf(t: Slots, half: Slots, from: nat, start: nat, f: Fingerprint)
    requires from < |t| == |half| && start < 2 * |t| && Lookup(t, from, f) == Full
    ensures Lookup(Grow(t, half), start, f) == Shifted(|t|, Lookup(half, EntersHalf(|t|, start), f))
  {
    var n, s := |t|, EntersHalf(|t|, start);
    LookupMeets(t, from, f);
    PassedFromAnywhere(t, from, f, 0);
    LookupMeets(half, s, f);
    match Lookup(half, s, f) {
      case Full => FullHalf(t, half, start, f);
      case Hit(p) =>
        PassedInHalf(t, half, start, f, p);
        LookupAt(Grow(t, half), start, f, n + p);
      case Hole(p) =>
        PassedInHalf(t, half, start, f, p);
        LookupAt(Grow(t, half), start, f, n + p);
    }
  }

  /** What a set has just stored, a get with the same start finds. */
  lemma {:induction false} PutIsFound(t: Slots, start: nat, f: Fingerprint, ud: nat, p: nat)
    requires start < |t| && Lookup(t, start, f) == Hole(p)
    ensures p < |t| && Lookup(Put(t, p, f, ud), start, f) == Hit(p)
  {
    LookupMeets(t, start, f);
    var t' := Put(t, p, f, ud);
    forall e: nat | e < Dist(|t|, start, p) ensures PassedAt(t', start, f, e) {
      assert PassedAt(t, start, f, e);
      DistSlide(|t|, start, e);
    }
    LookupAt(t', start, f, p);
  }

  /** So a cleared new half loses every key whose new start lies behind its place. */
  lemma {:induction false} ClearedHalfLosesKeys(t: Slots, home: Home, q: nat, half: Slots, hash: nat)
    requires Probeable(t, home) && AllUsed(t) && q < |t| == |half| && home(t[q].fp) == hash % |t|
    requires forall p: nat :: p < |half| ==> !Used(half, p)
    ensures Lookup(Grow(t, half), hash % (2 * |t|), t[q].fp) == Hit(q) <==> hash % (2 * |t|) <= q
  {
    FoundAfterGrowthExactly(t, home, q, half, hash);
    assert !CrossableAt(half, |t| - 1, t[q].fp);
  }
}

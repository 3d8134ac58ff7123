/**
 Whole runs of khlist_set, khlist_get and khlist_del against a first-write-wins map keyed by
 fingerprint, and the exact points where growth and deletion end the agreement.
 */
module HashRuns {
  import opened Common
  import opened Probing

  /** A key as the table sees it: its offset hash and its fingerprint. */
  datatype Key = Key(hash: nat, fp: Fingerprint)

  datatype Op = Set(key: Key, ud: nat) | Get(key: Key) | Del(key: Key)

  datatype Answer =
    | Stored              // set placed the key
    | Refused             // set found the key already there
    | NeedsRoom           // set found neither the key nor an unused slot
    | Found(ud: nat)      // get
    | Taken(ud: nat)      // del freed the key's slot
    | Missing             // get or del did not find the key

  datatype Outcome = Outcome(slots: Slots, answer: Answer)

  function Apply(t: Slots, op: Op): Outcome
    requires |t| > 0
  {
    var probe := Lookup(t, op.key.hash % |t|, op.key.fp);
    match op
    case Get(_) => Outcome(t, if probe.Hit? then Found(t[probe.pos].ud) else Missing)
    case Set(key, ud) => (
      match probe
      case Hit(_) => Outcome(t, Refused)
      case Hole(p) => Outcome(Put(t, p, key.fp, ud), Stored)
      case Full => Outcome(t, NeedsRoom))
    case Del(_) =>
      match probe
      case Hit(p) => Outcome(Erase(t, p), Taken(t[p].ud))
      case Hole(p) => Outcome(Erase(t, p), Missing)
      case Full => Outcome(t, Missing)
  }

  lemma {:induction false} ApplyLength(t: Slots, op: Op)
    requires |t| > 0
    ensures |Apply(t, op).slots| == |t|
  {
  }

  function Answers(t: Slots, ops: seq<Op>): seq<Answer>
    requires |t| > 0
    decreases |ops|
  {
    if ops == [] then []
    else
      ApplyLength(t, ops[0]);
      [Apply(t, ops[0]).answer] + Answers(Apply(t, ops[0]).slots, ops[1..])
  }

  // ---- The map it is meant to be ----

  type Dict = map<Fingerprint, nat>

  function MapAfter(m: Dict, op: Op): Dict {
    match op
    case Get(_) => m
    case Set(key, ud) => if key.fp in m then m else m[key.fp := ud]
    case Del(key) => m - {key.fp}
  }

  function MapAnswer(m: Dict, op: Op): Answer {
    match op
    case Get(key) => if key.fp in m then Found(m[key.fp]) else Missing
    case Set(key, _) => if key.fp in m then Refused else Stored
    case Del(key) => if key.fp in m then Taken(m[key.fp]) else Missing
  }

  function MapAnswers(m: Dict, ops: seq<Op>): seq<Answer>
    decreases |ops|
  {
    if ops == [] then [] else [MapAnswer(m, ops[0])] + MapAnswers(MapAfter(m, ops[0]), ops[1..])
  }

  // ---- The simulation relation ----

  ghost predicate Represents(t: Slots, m: Dict) {
    && (forall p | Used(t, p) :: t[p].fp in m && m[t[p].fp] == t[p].ud)
    && (forall f | f in m :: Has(t, f))
  }

  lemma {:induction false} LookupRepresents(t: Slots, m: Dict, home: Home, f: Fingerprint)
    requires Probeable(t, home) && Represents(t, m)
    ensures match Lookup(t, home(f), f)
            case Hit(p) => f in m && Used(t, p) && t[p].fp == f && t[p].ud == m[f]
            case Hole(p) => f !in m && p < |t| && !Used(t, p)
            case Full => f !in m
  {
    LookupMeets(t, home(f), f);
    if f in m {
      var q :| Used(t, q) && t[q].fp == f;
      StoredIsFound(t, home, q);
    }
  }

  // ---- A full table holds as many keys as it has slots ----

  ghost function UsedSlots(t: Slots): set<nat> {
    set p: nat | p < |t| && Used(t, p)
  }

  lemma {:induction false} KeysOfSlots(t: Slots, ps: set<nat>, keys: set<Fingerprint>)
    requires Unique(t) && (forall p | p in ps :: Used(t, p))
    requires forall f :: f in keys <==> exists p :: p in ps && Used(t, p) && t[p].fp == f
    ensures |keys| == |ps|
    decreases |ps|
  {
    if p :| p in ps {
      var f := t[p].fp;
      assert f in keys;
      forall g | g in keys - {f} ensures exists q :: q in ps - {p} && Used(t, q) && t[q].fp == g {
        assert g in keys;
        var q :| q in ps && Used(t, q) && t[q].fp == g;
      }
      KeysOfSlots(t, ps - {p}, keys - {f});
    } else {
      assert ps == {} && keys == {};
    }
  }

  lemma {:induction false} FullExactly(t: Slots, m: Dict)
    requires Unique(t) && Represents(t, m)
    ensures |m| <= |t|
    ensures |m| == |t| <==> AllUsed(t)
  {
    var ps := UsedSlots(t);
    forall f ensures f in m.Keys <==> exists p :: p in ps && Used(t, p) && t[p].fp == f {
      if f in m {
        var p :| Used(t, p) && t[p].fp == f;
        assert p in ps;
      }
    }
    KeysOfSlots(t, ps, m.Keys);
    UsedOfAll(t);
  }

  lemma {:induction false} UsedOfAll(t: Slots)
    ensures |UsedSlots(t)| <= |t|
    ensures |UsedSlots(t)| == |t| <==> AllUsed(t)
  {
    var used, unused := UsedSlots(t), set p: nat | p < |t| && !Used(t, p);
    assert used + unused == Range(|t|);
    assert |used + unused| == |used| + |unused|;
    if !AllUsed(t) {
      var p: nat :| p < |t| && !Used(t, p);
      assert p in unused;
    }
  }

  /** A set asks for growth exactly when the key is new and there are as many keys as slots. */
  lemma {:induction false} NeedsRoomExactly(t: Slots, m: Dict, home: Home, key: Key, ud: nat)
    requires Probeable(t, home) && Represents(t, m) && home(key.fp) == key.hash % |t|
    ensures Apply(t, Set(key, ud)).answer == NeedsRoom <==> key.fp !in m && |m| == |t|
  {
    LookupRepresents(t, m, home, key.fp);
    FullExactly(t, m);
    if key.fp !in m {
      assert !Has(t, key.fp);
      AbsentIsNotFound(t, home(key.fp), key.fp);
    }
  }

  // ---- One step ----

  /** The step stays inside the table's domain: room for a new key, and no chain cut by a delete. */
  ghost predicate Tame(t: Slots, m: Dict, home: Home, op: Op)
    requires InRange(home, |t|)
  {
    match op
    case Get(_) => true
    case Set(key, _) => key.fp in m || |m| < |t|
    case Del(key) => forall p | Used(t, p) && t[p].fp == key.fp :: Harmless(t, home, p)
  }

  ghost predicate Simulates(t: Slots, m: Dict, home: Home) {
    Probeable(t, home) && Represents(t, m)
  }

  lemma {:induction false} SetSimulates(t: Slots, m: Dict, home: Home, key: Key, ud: nat)
    requires Simulates(t, m, home) && home(key.fp) == key.hash % |t|
    requires key.fp in m || |m| < |t|
    ensures Apply(t, Set(key, ud)).answer == MapAnswer(m, Set(key, ud))
    ensures Simulates(Apply(t, Set(key, ud)).slots, MapAfter(m, Set(key, ud)), home)
  {
    LookupRepresents(t, m, home, key.fp);
    NeedsRoomExactly(t, m, home, key, ud);
    var probe := Lookup(t, key.hash % |t|, key.fp);
    if probe.Hole? {
      PutKeepsProbeable(t, home, key.fp, ud, probe.pos);
      PutRepresents(t, m, probe.pos, key.fp, ud);
    }
  }

  lemma {:induction false} PutRepresents(t: Slots, m: Dict, p: nat, f: Fingerprint, ud: nat)
    requires Represents(t, m) && p < |t| && !Used(t, p) && f !in m
    ensures Represents(Put(t, p, f, ud), m[f := ud])
  {
    var t', m' := Put(t, p, f, ud), m[f := ud];
    forall q | Used(t', q) ensures t'[q].fp in m' && m'[t'[q].fp] == t'[q].ud {
      if q != p { assert Used(t, q); }
    }
    forall g | g in m' ensures Has(t', g) {
      if g == f {
        assert Used(t', p);
      } else {
        var q :| Used(t, q) && t[q].fp == g;
        assert Used(t', q) && t'[q].fp == g;
      }
    }
  }

  lemma {:induction false} EraseRepresents(t: Slots, m: Dict, p: nat)
    requires Represents(t, m) && Unique(t) && Used(t, p)
    ensures Represents(Erase(t, p), m - {t[p].fp})
  {
    var t', m' := Erase(t, p), m - {t[p].fp};
    forall q | Used(t', q) ensures t'[q].fp in m' && m'[t'[q].fp] == t'[q].ud {
      assert Used(t, q) && t'[q] == t[q];
    }
    forall g | g in m' ensures Has(t', g) {
      var q :| Used(t, q) && t[q].fp == g;
      assert Used(t', q) && t'[q].fp == g;
    }
  }

  lemma {:induction false} SameScan(t: Slots, t': Slots, start: nat, f: Fingerprint, d: nat)
    requires |t'| == |t| && start < |t| && d <= |t|
    requires forall q: nat | q < |t| :: Used(t, q) == Used(t', q) && (Used(t, q) ==> t'[q] == t[q])
    ensures Scan(t', start, f, d) == Scan(t, start, f, d)
    decreases |t| - d
  {
    if d < |t| {
      var q := Slide(|t|, start, d);
      assert Used(t, q) == Used(t', q);
      SameScan(t, t', start, f, d + 1);
    }
  }

  /**
   Deleting a key that is not there: the probe stops on an unused slot, del "frees" that slot and
   returns its index as if it had deleted something, and no lookup of any key from any start changes.
   Only in a full table does it report that the key is missing.
   */
  lemma {:induction false} DelAbsent(t: Slots, key: Key)
    requires |t| > 0 && !Has(t, key.fp)
    ensures var t' := Apply(t, Del(key)).slots;
            && |t'| == |t|
            && (forall start: nat, f: Fingerprint | start < |t| :: Lookup(t', start, f) == Lookup(t, start, f))
    ensures Lookup(t, key.hash % |t|, key.fp).Full? <==> AllUsed(t)
    ensures !Lookup(t, key.hash % |t|, key.fp).Hit?
  {
    var t' := Apply(t, Del(key)).slots;
    AbsentIsNotFound(t, key.hash % |t|, key.fp);
    LookupMeets(t, key.hash % |t|, key.fp);
    forall start: nat, f: Fingerprint | start < |t| ensures Lookup(t', start, f) == Lookup(t, start, f) {
      SameScan(t, t', start, f, 0);
    }
  }

  /**
   What a cut chain leads to: when the freed slot was on the path of another stored key, a later set
   of that key does not see it and stores it a second time, in the freed slot.
   */
  lemma {:induction false} CutChainDuplicates(t: Slots, home: Home, p: nat, q: nat, key: Key, ud: nat)
    requires Probeable(t, home) && Used(t, p) && Used(t, q) && p != q
    requires key.fp == t[q].fp && home(key.fp) == key.hash % |t| && OnPath(t, home(key.fp), q, p)
    ensures var r := Apply(Erase(t, p), Set(key, ud));
            && r.answer == Stored
            && Used(r.slots, p) && Used(r.slots, q) && r.slots[p].fp == r.slots[q].fp == key.fp
  {
    FoundAfterErase(t, home, p, q);
  }

  lemma {:induction false} HoleErased(t: Slots, m: Dict, home: Home, p: nat)
    requires Simulates(t, m, home) && p < |t| && !Used(t, p)
    ensures Simulates(Erase(t, p), m, home)
  {
    var t' := Erase(t, p);
    forall q: int ensures Used(t', q) == Used(t, q) && (Used(t, q) ==> t'[q] == t[q]) {}
    forall q, r | Used(t', q) && 0 <= r < |t'| && OnPath(t', home(t'[q].fp), q, r) ensures Used(t', r) {
      assert OnPath(t, home(t[q].fp), q, r);
      assert Used(t, r);
    }
    forall f | f in m ensures Has(t', f) {
      var q :| Used(t, q) && t[q].fp == f;
      assert Used(t', q);
    }
  }

  lemma {:induction false} DelSimulates(t: Slots, m: Dict, home: Home, key: Key)
    requires Simulates(t, m, home) && home(key.fp) == key.hash % |t| && Tame(t, m, home, Del(key))
    ensures Apply(t, Del(key)).answer == MapAnswer(m, Del(key))
    ensures Simulates(Apply(t, Del(key)).slots, MapAfter(m, Del(key)), home)
  {
    LookupRepresents(t, m, home, key.fp);
    match Lookup(t, key.hash % |t|, key.fp) {
      case Hit(p) =>
        EraseKeepsProbeable(t, home, p);
        EraseRepresents(t, m, p);
      case Hole(p) =>
        HoleErased(t, m, home, p);
        assert m - {key.fp} == m;
      case Full =>
        assert m - {key.fp} == m;
    }
  }

  lemma {:induction false} StepSimulates(t: Slots, m: Dict, home: Home, op: Op)
    requires Simulates(t, m, home) && home(op.key.fp) == op.key.hash % |t| && Tame(t, m, home, op)
    ensures Apply(t, op).answer == MapAnswer(m, op)
    ensures Simulates(Apply(t, op).slots, MapAfter(m, op), home)
  {
    match op {
      case Get(key) => LookupRepresents(t, m, home, key.fp);
      case Set(key, ud) => SetSimulates(t, m, home, key, ud);
      case Del(key) => DelSimulates(t, m, home, key);
    }
  }

  // ---- Whole runs ----

  ghost predicate TameRun(t: Slots, m: Dict, home: Home, ops: seq<Op>)
    requires InRange(home, |t|) && |t| > 0
    decreases |ops|
  {
    ops == [] ||
    (ApplyLength(t, ops[0]);
     Tame(t, m, home, ops[0]) && TameRun(Apply(t, ops[0]).slots, MapAfter(m, ops[0]), home, ops[1..]))
  }

  /** Every operation's probe starts where its fingerprint's probes start. */
  ghost predicate Homed(home: Home, n: nat, ops: seq<Op>)
    requires n > 0
  {
    forall i :: 0 <= i < |ops| ==> home(ops[i].key.fp) == ops[i].key.hash % n
  }

  function SlotsAfter(t: Slots, ops: seq<Op>): (t': Slots)
    requires |t| > 0
    ensures |t'| == |t|
    decreases |ops|
  {
    if ops == [] then t
    else
      ApplyLength(t, ops[0]);
      SlotsAfter(Apply(t, ops[0]).slots, ops[1..])
  }

  function MapAfterAll(m: Dict, ops: seq<Op>): Dict
    decreases |ops|
  {
    if ops == [] then m else MapAfterAll(MapAfter(m, ops[0]), ops[1..])
  }

  /**
   From any table that represents a map, every tame run answers as the map does and ends in a table
   that represents the final map.
   */
  lemma {:induction false} RunRefines(t: Slots, m: Dict, home: Home, ops: seq<Op>)
    requires Simulates(t, m, home) && |t| > 0
    requires Homed(home, |t|, ops) && TameRun(t, m, home, ops)
    ensures Answers(t, ops) == MapAnswers(m, ops)
    ensures Simulates(SlotsAfter(t, ops), MapAfterAll(m, ops), home)
    decreases |ops|
  {
    if ops != [] {
      ApplyLength(t, ops[0]);
      StepSimulates(t, m, home, ops[0]);
      forall i | 0 <= i < |ops[1..]| ensures home(ops[1..][i].key.fp) == ops[1..][i].key.hash % |t| {
        assert ops[1..][i] == ops[i + 1];
      }
      RunRefines(Apply(t, ops[0]).slots, MapAfter(m, ops[0]), home, ops[1..]);
    }
  }

  function Empty(n: nat): (t: Slots)
    ensures |t| == n
  {
    seq(n, _ => EMPTY_SLOT)
  }

  lemma {:induction false} EmptySimulates(n: nat, home: Home)
    requires InRange(home, n)
    ensures Simulates(Empty(n), map[], home)
  {
    assert forall p :: !Used(Empty(n), p);
  }

  // ---- Runs of sets and gets ----

  ghost function Fingerprints(ops: seq<Op>): set<Fingerprint> {
    set i | 0 <= i < |ops| :: ops[i].key.fp
  }

  /** The start slot depends on the fingerprint only. */
  ghost predicate StartsAgree(ops: seq<Op>, n: nat)
    requires n > 0
  {
    forall i, j :: 0 <= i < |ops| && 0 <= j < |ops| && ops[i].key.fp == ops[j].key.fp
                   ==> ops[i].key.hash % n == ops[j].key.hash % n
  }

  ghost function HomeIn(ops: seq<Op>, n: nat, f: Fingerprint): (p: nat)
    requires n > 0
    ensures p < n
  {
    if f in Fingerprints(ops) then
      var i :| 0 <= i < |ops| && ops[i].key.fp == f;
      ops[i].key.hash % n
    else 0
  }

  lemma {:induction false} HomeInHomed(ops: seq<Op>, n: nat)
    requires n > 0 && StartsAgree(ops, n)
    ensures InRange(f => HomeIn(ops, n, f), n)
    ensures Homed(f => HomeIn(ops, n, f), n, ops)
  {
    forall i | 0 <= i < |ops| ensures HomeIn(ops, n, ops[i].key.fp) == ops[i].key.hash % n {
      assert ops[i].key.fp in Fingerprints(ops);
    }
  }

  lemma {:induction false} FewKeysAreTame(t: Slots, m: Dict, home: Home, ops: seq<Op>, keys: set<Fingerprint>)
    requires |t| > 0 && InRange(home, |t|)
    requires forall i :: 0 <= i < |ops| ==> !ops[i].Del? && ops[i].key.fp in keys
    requires m.Keys <= keys && |keys| <= |t|
    ensures TameRun(t, m, home, ops)
    decreases |ops|
  {
    if ops != [] {
      var op := ops[0];
      ApplyLength(t, op);
      if op.key.fp !in m {
        assert m.Keys <= keys - {op.key.fp};
        SubsetSize(m.Keys, keys - {op.key.fp});
      }
      forall i | 0 <= i < |ops[1..]| ensures !ops[1..][i].Del? && ops[1..][i].key.fp in keys {
        assert ops[1..][i] == ops[i + 1];
      }
      FewKeysAreTame(Apply(t, op).slots, MapAfter(m, op), home, ops[1..], keys);
    }
  }

  /**
   From khlist_create(n), every run of sets and gets that uses at most `n` distinct fingerprints is
   answered exactly as by a map in which the first write of a key wins, and stores that map.
   */
  lemma {:induction false} FirstWriteWins(n: nat, ops: seq<Op>)
    requires n > 0 && StartsAgree(ops, n) && |Fingerprints(ops)| <= n
    requires forall i :: 0 <= i < |ops| ==> !ops[i].Del?
    ensures Answers(Empty(n), ops) == MapAnswers(map[], ops)
    ensures Represents(SlotsAfter(Empty(n), ops), MapAfterAll(map[], ops))
  {
    var home := f => HomeIn(ops, n, f);
    HomeInHomed(ops, n);
    EmptySimulates(n, home);
    FewKeysAreTame(Empty(n), map[], home, ops, Fingerprints(ops));
    RunRefines(Empty(n), map[], home, ops);
  }
}

/**
 khlist: the table of hmap.c as an object whose slots change in place. Each method is tied to the
 probe functions of Probing and HashRuns, where what the table promises is proved.
 */
module HashTable {
  import opened Common
  import opened CryptHash
  import opened Probing
  import opened HashRuns

  /** What get, set and del return instead of a slot: the unsigned -1. */
  const NOT_FOUND: nat := 0xFFFF_FFFF

  /** The three hashes of a string under a table: where to start, and the two words stored. */
  function KeyUnder(table: seq<nat>, s: seq<byte>): Key
    requires |table| == TABLE_SIZE
  {
    Key(HashOf(table, 0, s), Fingerprint(HashOf(table, 1, s), HashOf(table, 2, s)))
  }

  function KeyOf(s: seq<byte>): Key {
    KeyUnder(CryptTable(), s)
  }

  /** The start comes from row 0 of the table, the two stored words from rows 1 and 2. */
  lemma {:induction false} KeyReadsRows(table: seq<nat>, table': seq<nat>, s: seq<byte>)
    requires |table| == |table'| == TABLE_SIZE
    ensures var k, k' := KeyUnder(table, s), KeyUnder(table', s);
            && (table[..0x100] == table'[..0x100] ==> k.hash == k'.hash)
            && (table[0x100..0x200] == table'[0x100..0x200] ==> k.fp.a == k'.fp.a)
            && (table[0x200..0x300] == table'[0x200..0x300] ==> k.fp.b == k'.fp.b)
  {
    if Row(table, 0) == Row(table', 0) { ReadsOneRow(table, table', 0, FIRST_STATE, s); }
    if Row(table, 1) == Row(table', 1) { ReadsOneRow(table, table', 1, FIRST_STATE, s); }
    if Row(table, 2) == Row(table', 2) { ReadsOneRow(table, table', 2, FIRST_STATE, s); }
  }

  /** Strings that differ only in letter case are the same key. */
  lemma {:induction false} KeyFoldsCase(s: seq<byte>, s': seq<byte>)
    requires CaseTwins(s, s')
    ensures KeyOf(s) == KeyOf(s')
  {
    HashFoldsCase(CryptTable(), 0, FIRST_STATE, s, s');
    HashFoldsCase(CryptTable(), 1, FIRST_STATE, s, s');
    HashFoldsCase(CryptTable(), 2, FIRST_STATE, s, s');
  }

  /** `(npos + 1) % size` is the next slot of the circle, and is the start again after a full turn. */
  lemma {:induction false} NextSlot(n: nat, start: nat, d: nat)
    requires start < n && d < n
    ensures var next := (Slide(n, start, d) + 1) % n;
            if d + 1 < n then next == Slide(n, start, d + 1) != start else next == start
  {
    var p := Slide(n, start, d);
    if p + 1 < n { SmallMod(p + 1, n); } else { ModUnique(p + 1, n, 1, 0); }
  }

  // ---- Growth ----

  /** The slots of a freshly allocated half, as the allocator left them. */
  function Half(n: nat, garbage: nat -> Slot): (half: Slots)
    ensures |half| == n
  {
    seq(n, i requires 0 <= i => garbage(i))
  }

  datatype SetResult = SetResult(slots: Slots, pos: nat)

  /** Whether the next allocation of a doubled table succeeds; sizes stay below 2^32. */
  predicate Granted(n: nat, garbage: seq<nat -> Slot>) {
    garbage != [] && 2 * n < WORD
  }

  /**
   khlist_set with `garbage[i]` the contents of the i-th successful allocation: a full table is
   doubled without rehashing and the whole call is retried.
   */
  function SetSpec(t: Slots, key: Key, ud: nat, garbage: seq<nat -> Slot>): SetResult
    requires |t| > 0
    decreases |garbage|
  {
    match Lookup(t, key.hash % |t|, key.fp)
    case Hit(_) => SetResult(t, NOT_FOUND)
    case Hole(p) => SetResult(Put(t, p, key.fp, ud), p)
    case Full =>
      if Granted(|t|, garbage) then SetSpec(Grow(t, Half(|t|, garbage[0])), key, ud, garbage[1..])
      else SetResult(t, NOT_FOUND)
  }

  /**
   Every set is the first-write-wins step, until the first growth; and a set that grows keeps all
   old slots in place, which is why keys are lost (Probing.FoundAfterGrowthExactly).
   */
  lemma {:induction false} SetSpecIsApply(t: Slots, key: Key, ud: nat, garbage: seq<nat -> Slot>)
    requires |t| > 0
    ensures var r, a := SetSpec(t, key, ud, garbage), Apply(t, HashRuns.Set(key, ud));
            && (a.answer != NeedsRoom ==> r.slots == a.slots)
            && (a.answer == Refused ==> r.pos == NOT_FOUND)
            && (a.answer == Stored ==> r.pos < |t| && !Used(t, r.pos) && r.slots == Put(t, r.pos, key.fp, ud))
            && (a.answer == NeedsRoom ==> |t| <= |r.slots| && r.slots[..|t|] == t)
    decreases |garbage|
  {
    LookupMeets(t, key.hash % |t|, key.fp);
    if Lookup(t, key.hash % |t|, key.fp).Full? && Granted(|t|, garbage) {
      var g := Grow(t, Half(|t|, garbage[0]));
      SetSpecIsApply(g, key, ud, garbage[1..]);
      forall p: nat | p < |t| ensures Used(t, p) {
        PassedEverySlot(t, key.hash % |t|, key.fp, p);
      }
      var r := SetSpec(g, key, ud, garbage[1..]);
      LookupMeets(g, key.hash % |g|, key.fp);
      forall p: nat | p < |t| ensures p < |r.slots| && r.slots[p] == t[p] {
        assert Used(t, p) && Used(g, p);
        if Apply(g, HashRuns.Set(key, ud)).answer == NeedsRoom { assert r.slots[..|g|][p] == g[p]; }
      }
    }
  }

  /** Where the key's probe of the doubled table enters the new half. */
  function EntryPoint(n: nat, hash: nat): (s: nat)
    requires n > 0
    ensures s < n
  {
    EntersHalf(n, hash % (2 * n))
  }

  /**
   When a set of a key the full table `t` lacks stores nothing: allocations run out, or in the first
   new half that has anything but other keys along the probe, the probe meets the key's own words.
   */
  predicate Refuses(t: Slots, key: Key, garbage: seq<nat -> Slot>)
    requires |t| > 0
    decreases |garbage|
  {
    !Granted(|t|, garbage) ||
    var half := Half(|t|, garbage[0]);
    match Lookup(half, EntryPoint(|t|, key.hash), key.fp)
    case Hit(_) => true
    case Hole(_) => false
    case Full => Refuses(Grow(t, half), key, garbage[1..])
  }

  /**
   A set that finds the table full returns -1 exactly when it `Refuses`. Otherwise it returns a slot
   of the new part that now holds the key, where a get finds it. The old slots stay as they were.
   */
  lemma {:induction false} GrowingSet(t: Slots, key: Key, ud: nat, garbage: seq<nat -> Slot>)
    requires 0 < |t| < WORD && Lookup(t, key.hash % |t|, key.fp) == Full
    ensures var r := SetSpec(t, key, ud, garbage);
            && (r.pos == NOT_FOUND <==> Refuses(t, key, garbage))
            && |t| <= |r.slots| < WORD && r.slots[..|t|] == t
            && (r.pos != NOT_FOUND ==>
                  && |t| <= r.pos < |r.slots| && r.slots[r.pos] == Slot(1, key.fp, ud)
                  && Lookup(r.slots, key.hash % |r.slots|, key.fp) == Hit(r.pos))
    decreases |garbage|
  {
    if Granted(|t|, garbage) {
      var n, half := |t|, Half(|t|, garbage[0]);
      var g := Grow(t, half);
      var start := key.hash % (2 * n);
      LookupInHalf(t, half, key.hash % n, start, key.fp);
      match Lookup(g, start, key.fp) {
        case Hit(_) =>
        case Full =>
          GrowingSet(g, key, ud, garbage[1..]);
          KeepsPrefix(t, g, SetSpec(g, key, ud, garbage[1..]).slots);
        case Hole(p) => PutIsFound(g, start, key.fp, ud, p);
      }
    }
  }

  lemma {:induction false} KeepsPrefix(a: Slots, b: Slots, c: Slots)
    requires |a| <= |b| <= |c| && b[..|a|] == a && c[..|b|] == b
    ensures c[..|a|] == a
  {
  }

  /** The table after the first `i` allocations have been appended. */
  function Grown(t: Slots, garbage: seq<nat -> Slot>, i: nat): (r: Slots)
    requires i <= |garbage|
    ensures |r| >= |t|
    decreases i
  {
    if i == 0 then t else Grown(Grow(t, Half(|t|, garbage[0])), garbage[1..], i - 1)
  }

  /**
   How far a set grows the table: `i` times, while the key's probe finds every table full; nothing
   but the slot it returns, if any, differs from the grown table it ends with.
   */
  lemma {:induction false} SetGrows(t: Slots, key: Key, ud: nat, garbage: seq<nat -> Slot>) returns (i: nat)
    requires |t| > 0
    ensures i <= |garbage|
    ensures forall j: nat | j < i :: var g := Grown(t, garbage, j);
              Lookup(g, key.hash % |g|, key.fp) == Full && 2 * |g| < WORD
    ensures var g, r := Grown(t, garbage, i), SetSpec(t, key, ud, garbage);
            match Lookup(g, key.hash % |g|, key.fp)
            case Hole(p) => r == SetResult(g[p := Slot(1, key.fp, ud)], p)
            case Hit(_) => r == SetResult(g, NOT_FOUND)
            case Full => r == SetResult(g, NOT_FOUND) && (i == |garbage| || 2 * |g| >= WORD)
    decreases |garbage|
  {
    i := 0;
    if Lookup(t, key.hash % |t|, key.fp).Full? && Granted(|t|, garbage) {
      var g := Grow(t, Half(|t|, garbage[0]));
      var k := SetGrows(g, key, ud, garbage[1..]);
      i := k + 1;
      forall j: nat | j < i
        ensures var g' := Grown(t, garbage, j); Lookup(g', key.hash % |g'|, key.fp) == Full && 2 * |g'| < WORD {
        if j > 0 { assert Grown(t, garbage, j) == Grown(g, garbage[1..], j - 1); }
      }
    }
  }

  /** A half in which nothing looks in use takes the key at once, at the first slot its probe reaches. */
  lemma {:induction false} SetIntoClearHalf(t: Slots, key: Key, ud: nat, garbage: seq<nat -> Slot>, n: nat)
    requires 0 < n == |t| && Lookup(t, key.hash % n, key.fp) == Full && Granted(n, garbage)
    requires forall i: nat | i < n :: garbage[0](i).exist != 1
    ensures var r := SetSpec(t, key, ud, garbage);
            && r.pos == (if key.hash % (2 * n) < n then n else key.hash % (2 * n))
            && |r.slots| == 2 * n
            && forall p: nat | p < 2 * n ::
                 r.slots[p] == if p == r.pos then Slot(1, key.fp, ud) else if p < n then t[p] else garbage[0](p - n)
  {
    var half, start := Half(n, garbage[0]), key.hash % (2 * n);
    LookupInHalf(t, half, key.hash % n, start, key.fp);
    assert !Used(half, EntersHalf(n, start));
    LookupAt(half, EntersHalf(n, start), key.fp, EntersHalf(n, start));
  }

  // ---- The table object ----

  /** The allocation of khlist_create with the loop that clears every slot. */
  method NewSlots(sz: nat) returns (slots: array<Slot>)
    ensures fresh(slots) && slots.Length == sz && slots[..] == Empty(sz)
  {
    slots := new Slot[sz];
    for i := 0 to sz
      invariant forall k :: 0 <= k < i ==> slots[k] == EMPTY_SLOT
    {
      slots[i] := EMPTY_SLOT;
    }
    assert forall k :: 0 <= k < sz ==> slots[..][k] == Empty(sz)[k];
  }

  class KhList {
    var size: nat
    var slots: array<Slot>
    const crypt: array<nat>

    ghost predicate Valid()
      reads this, slots, crypt
    {
      size == slots.Length < WORD && crypt.Length == TABLE_SIZE && crypt[..] == CryptTable()
    }

    /** khlist_create; `crypt` is the file-static table, filled on first use. */
    constructor (sz: nat, crypt: array<nat>, initialised: bool)
      requires sz < WORD && crypt.Length == TABLE_SIZE
      requires initialised ==> crypt[..] == CryptTable()
      modifies crypt
      ensures Valid() && fresh(slots) && this.crypt == crypt
      ensures slots[..] == Empty(sz)
      ensures forall i :: 0 <= i < sz ==> slots[i] == Slot(0, Fingerprint(0xFFFF_FFFF, 0xFFFF_FFFF), 0)
    {
      size := sz;
      this.crypt := crypt;
      var hashT := NewSlots(sz);
      slots := hashT;
      new;
      if !initialised {
        ghost var trace := InitCryptTable(crypt);
      }
    }

    method HashKey(str: seq<byte>) returns (key: Key)
      requires Valid()
      ensures key == KeyOf(str)
    {
      var hash := HashString(crypt, str, 0);
      var hasha := HashString(crypt, str, 1);
      var hashb := HashString(crypt, str, 2);
      key := Key(hash, Fingerprint(hasha, hashb));
    }

    /** The probe loop that get, set and del share: where it stops, and why. */
    method Probe(key: Key) returns (probe: Probe)
      requires Valid() && size > 0
      ensures probe == Lookup(slots[..], key.hash % size, key.fp)
    {
      var start := key.hash % size;
      var npos := start;
      ghost var d := 0;
      ghost var t := slots[..];
      while slots[npos].exist == 1
        invariant d < size && npos == Slide(size, start, d) && Passed(t, start, key.fp, d)
        decreases size - d
      {
        if slots[npos].fp == key.fp {
          ScanFrom(t, start, key.fp, d);
          return Hit(npos);
        }
        NextSlot(size, start, d);
        assert PassedAt(t, start, key.fp, d);
        npos := (npos + 1) % size;
        d := d + 1;
        if npos == start {
          ScanFrom(t, start, key.fp, d);
          return Full;
        }
      }
      ScanFrom(t, start, key.fp, d);
      return Hole(npos);
    }

    /** khlist_get: the slot and what `*pud` receives. */
    method Get(str: seq<byte>) returns (pos: nat, ud: Option<nat>)
      requires Valid() && size > 0
      ensures match Lookup(slots[..], KeyOf(str).hash % size, KeyOf(str).fp)
              case Hit(p) => pos == p && ud == Some(slots[p].ud)
              case _ => pos == NOT_FOUND && ud == None
    {
      var key := HashKey(str);
      var probe := Probe(key);
      match probe {
        case Hit(p) => pos, ud := p, Some(slots[p].ud);
        case _ => pos, ud := NOT_FOUND, None;
      }
    }

    /** `_expand`, once the allocation has been granted. */
    method Expand(garbage: nat -> Slot)
      requires Valid() && 0 < 2 * size < WORD
      modifies this
      ensures Valid() && fresh(slots) && slots[..] == Grow(old(slots[..]), Half(old(size), garbage))
    {
      var n, hashT := size, slots;
      var nht := new Slot[n * 2](i => garbage(if n <= i then i - n else 0));
      for i := 0 to n
        invariant forall k :: 0 <= k < i ==> nht[k] == hashT[k]
        invariant forall k :: n <= k < 2 * n ==> nht[k] == garbage(k - n)
      {
        nht[i] := hashT[i];
      }
      slots := nht;
      size := n * 2;
      assert forall k :: 0 <= k < 2 * n ==> slots[..][k] == Grow(hashT[..], Half(n, garbage))[k];
    }

    /** khlist_set. */
    method Set(str: seq<byte>, ud: nat, garbage: seq<nat -> Slot>) returns (pos: nat)
      requires Valid() && size > 0
      modifies this, slots
      ensures Valid() && size > 0 && (slots == old(slots) || fresh(slots))
      ensures slots[..] == SetSpec(old(slots[..]), KeyOf(str), ud, garbage).slots
      ensures pos == SetSpec(old(slots[..]), KeyOf(str), ud, garbage).pos
      ensures pos != NOT_FOUND ==>
                && pos < size && slots[pos] == Slot(1, KeyOf(str).fp, ud)
                && Lookup(slots[..], KeyOf(str).hash % size, KeyOf(str).fp) == Hit(pos)
      decreases |garbage|
    {
      var key := HashKey(str);
      var probe := Probe(key);
      match probe {
        case Hit(_) =>
          pos := NOT_FOUND;
        case Full =>
          if garbage == [] || 2 * size >= WORD {
            pos := NOT_FOUND;
          } else {
            Expand(garbage[0]);
            pos := Set(str, ud, garbage[1..]);
          }
        case Hole(p) =>
          PutIsFound(slots[..], key.hash % size, key.fp, ud, p);
          slots[p] := Slot(1, key.fp, ud);
          assert slots[..] == Put(old(slots[..]), p, key.fp, ud);
          pos := p;
      }
    }

    /** khlist_del: the slot and what `*pud` receives. */
    method Del(str: seq<byte>) returns (pos: nat, ud: Option<nat>)
      requires Valid() && size > 0
      modifies slots
      ensures Valid()
      ensures slots[..] == Apply(old(slots[..]), HashRuns.Del(KeyOf(str))).slots
      ensures match Lookup(old(slots[..]), KeyOf(str).hash % size, KeyOf(str).fp)
              case Full => pos == NOT_FOUND && ud == None
              case Hit(p) => pos == p && ud == Some(old(slots[..])[p].ud)
              case Hole(p) => pos == p && ud == Some(old(slots[..])[p].ud)
      ensures pos < size ==> slots[pos] == Slot(0, Fingerprint(0xFFFF_FFFF, 0xFFFF_FFFF), 0)
      ensures forall i :: 0 <= i < size && i != pos ==> slots[i] == old(slots[i])
    {
      var key := HashKey(str);
      var probe := Probe(key);
      match probe {
        case Full =>
          pos, ud := NOT_FOUND, None;
        case _ =>
          var p := probe.pos;
          pos, ud := p, Some(slots[p].ud);
          slots[p] := EMPTY_SLOT;
      }
    }
  }

  // ---- Whole runs of the object ----

  datatype Call = SetCall(str: seq<byte>, ud: nat) | GetCall(str: seq<byte>)

  function OpOf(call: Call): Op {
    match call
    case SetCall(str, ud) => HashRuns.Set(KeyOf(str), ud)
    case GetCall(str) => HashRuns.Get(KeyOf(str))
  }

  function OpsOf(calls: seq<Call>): (ops: seq<Op>)
    ensures |ops| == |calls|
  {
    seq(|calls|, i requires 0 <= i < |calls| => OpOf(calls[i]))
  }

  /** No answer is for want of room. */
  ghost predicate HasRoom(answers: seq<Answer>) {
    forall i :: 0 <= i < |answers| ==> answers[i] != NeedsRoom
  }

  lemma {:induction false} MapHasRoom(m: Dict, ops: seq<Op>)
    ensures |MapAnswers(m, ops)| == |ops| && HasRoom(MapAnswers(m, ops))
    decreases |ops|
  {
    if ops != [] { MapHasRoom(MapAfter(m, ops[0]), ops[1..]); }
  }

  lemma {:induction false} AnswersStep(t: Slots, ops: seq<Op>, i: nat, before: seq<Answer>, all: seq<Answer>)
    requires |t| > 0 && i < |ops| && |before| == i && before + Answers(t, ops[i..]) == all
    ensures i < |all| && all[i] == Apply(t, ops[i]).answer
    ensures |Apply(t, ops[i]).slots| == |t|
    ensures before + [Apply(t, ops[i]).answer] + Answers(Apply(t, ops[i]).slots, ops[i + 1..]) == all
    ensures SlotsAfter(t, ops[i..]) == SlotsAfter(Apply(t, ops[i]).slots, ops[i + 1..])
  {
    ApplyLength(t, ops[i]);
    assert ops[i..][0] == ops[i] && ops[i..][1..] == ops[i + 1..];
  }

  /** What the caller learns from the returned values. */
  method Answered(list: KhList, call: Call) returns (answer: Answer)
    requires list.Valid() && list.size > 0 && Apply(list.slots[..], OpOf(call)).answer != NeedsRoom
    modifies list, list.slots
    ensures list.Valid() && list.size == old(list.size)
    ensures list.slots == old(list.slots) || fresh(list.slots)
    ensures answer == Apply(old(list.slots[..]), OpOf(call)).answer
    ensures list.slots[..] == Apply(old(list.slots[..]), OpOf(call)).slots
  {
    match call {
      case SetCall(str, ud) =>
        SetSpecIsApply(list.slots[..], KeyOf(str), ud, []);
        ApplyLength(list.slots[..], OpOf(call));
        var pos := list.Set(str, ud, []);
        answer := if pos == NOT_FOUND then Refused else Stored;
      case GetCall(str) =>
        var pos, ud := list.Get(str);
        answer := if ud.Some? then Found(ud.value) else Missing;
    }
  }

  /** One call of a run all of whose answers are `all`, none of them for want of room. */
  method PlayOne(list: KhList, calls: seq<Call>, i: nat, answers: seq<Answer>, ghost all: seq<Answer>)
    returns (answers': seq<Answer>)
    requires list.Valid() && list.size > 0 && i == |answers| < |calls|
    requires answers + Answers(list.slots[..], OpsOf(calls)[i..]) == all && i < |all| && all[i] != NeedsRoom
    modifies list, list.slots
    ensures list.Valid() && list.size == old(list.size) && (list.slots == old(list.slots) || fresh(list.slots))
    ensures |answers'| == i + 1 && answers' + Answers(list.slots[..], OpsOf(calls)[i + 1..]) == all
    ensures SlotsAfter(list.slots[..], OpsOf(calls)[i + 1..]) == SlotsAfter(old(list.slots[..]), OpsOf(calls)[i..])
  {
    AnswersStep(list.slots[..], OpsOf(calls), i, answers, all);
    var answer := Answered(list, calls[i]);
    answers' := answers + [answer];
  }

  /** All calls of a run that never wants for room. */
  method PlayAll(list: KhList, calls: seq<Call>, ghost all: seq<Answer>) returns (answers: seq<Answer>)
    requires list.Valid() && list.size > 0 && Answers(list.slots[..], OpsOf(calls)) == all
    requires |all| == |calls| && HasRoom(all)
    modifies list, list.slots
    ensures list.Valid() && list.size == old(list.size) && answers == all
    ensures list.slots[..] == SlotsAfter(old(list.slots[..]), OpsOf(calls))
  {
    answers := [];
    ghost var ops := OpsOf(calls);
    assert ops[0..] == ops;
    for i := 0 to |calls|
      invariant list.Valid() && list.size == old(list.size) && (list.slots == old(list.slots) || fresh(list.slots))
      invariant |answers| == i && answers + Answers(list.slots[..], ops[i..]) == all
      invariant SlotsAfter(list.slots[..], ops[i..]) == SlotsAfter(old(list.slots[..]), ops)
    {
      answers := PlayOne(list, calls, i, answers, all);
    }
    assert ops[|calls|..] == [];
  }

  /**
   An empty table under any sequence of set and get calls on strings: as long as no more distinct
   keys are used than it has slots, every returned value is that of a first-write-wins map, and the
   table ends up with the slots of the value-level run, which hold exactly that map.
   */
  method Play(list: KhList, calls: seq<Call>) returns (answers: seq<Answer>)
    requires list.Valid() && list.size > 0 && list.slots[..] == Empty(list.size)
    requires StartsAgree(OpsOf(calls), list.size) && |Fingerprints(OpsOf(calls))| <= list.size
    modifies list, list.slots
    ensures list.Valid() && list.size == old(list.size)
    ensures answers == MapAnswers(map[], OpsOf(calls))
    ensures list.slots[..] == SlotsAfter(Empty(list.size), OpsOf(calls))
    ensures Represents(list.slots[..], MapAfterAll(map[], OpsOf(calls)))
  {
    ghost var n, ops := list.size, OpsOf(calls);
    FirstWriteWins(n, ops);
    MapHasRoom(map[], ops);
    answers := PlayAll(list, calls, MapAnswers(map[], ops));
  }
}

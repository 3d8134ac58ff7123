/**
 The spinning reader/writer lock of lock.c.

 Every atomic builtin and every plain load of `read` or `write` is one step of one thread; the
 steps of any finite set of threads interleave arbitrarily under sequential consistency.
 `read` is a C `int`, so it is kept modulo 2^32: the theorems say exactly for how many threads
 that word is wide enough.
 */
module RwLock {

  import opened Common

  type Thread = nat

  // Atomic addition on a C `int` wraps around; its bit pattern is a number below WORD.

  function Inc(x: nat): nat { if x == WORD - 1 then 0 else x + 1 }

  function Dec(x: nat): nat { if x == 0 then WORD - 1 else x - 1 }

  /** What a counter reads that has been stepped to `n`. */
  function Wrap(n: nat): nat { if n < WORD then n else Wrap(n - WORD) }

  /** Where a thread stands; each constructor names the access the thread performs next. */
  datatype Pc =
    | Idle        // outside the lock
    | RSpin       // rlock: load `write`, spin while it is set
    | RAnnounce   // rlock: add 1 to `read`
    | RCheck      // rlock: load `write` again
    | RBackoff    // rlock: the flag was set, subtract 1 from `read` and start over
    | RInside     // holds the lock for reading; the next access is runlock's subtraction
    | WSpin       // wlock: test-and-set `write`
    | WDrain      // wlock: load `read`, spin while it is nonzero
    | WInside     // holds the lock for writing; the next access is wunlock's release

  /** The stretches of code the proofs count threads in. */
  datatype Region =
    | Announced   // between rlock's increment of `read` and the matching decrement
    | Checking    // about to re-check `write`
    | Holding     // between wlock's successful test-and-set and wunlock's release
    | Reading     // inside for reading
    | Writing     // inside for writing

  predicate Covers(r: Region, pc: Pc) {
    match r
    case Announced => pc.RCheck? || pc.RBackoff? || pc.RInside?
    case Checking => pc.RCheck?
    case Holding => pc.WDrain? || pc.WInside?
    case Reading => pc.RInside?
    case Writing => pc.WInside?
  }

  datatype State = State(read: nat, write: nat, pc: map<Thread, Pc>)

  /** A scheduled thread, and which lock it asks for should it be idle. */
  datatype Turn = Turn(thread: Thread, wantWrite: bool)

  type Schedule = seq<Turn>

  // ---- The protocol ----

  datatype Words = Words(read: nat, write: nat, pc: Pc)

  /** One access of one thread: what it does to the two words and where it leaves the thread. */
  function Access(w: Words, wantWrite: bool): Words {
    match w.pc
    case Idle => w.(pc := if wantWrite then WSpin else RSpin)
    case RSpin => w.(pc := if w.write != 0 then RSpin else RAnnounce)
    case RAnnounce => w.(read := Inc(w.read), pc := RCheck)
    case RCheck => w.(pc := if w.write != 0 then RBackoff else RInside)
    case RBackoff => w.(read := Dec(w.read), pc := RSpin)
    case RInside => w.(read := Dec(w.read), pc := Idle)
    case WSpin => w.(write := 1, pc := if w.write != 0 then WSpin else WDrain)
    case WDrain => w.(pc := if w.read != 0 then WDrain else WInside)
    case WInside => w.(write := 0, pc := Idle)
  }

  function Step(s: State, turn: Turn): State
    requires turn.thread in s.pc
  {
    var w := Access(Words(s.read, s.write, s.pc[turn.thread]), turn.wantWrite);
    State(w.read, w.write, s.pc[turn.thread := w.pc])
  }

  ghost predicate Among(threads: set<Thread>, sched: Schedule) {
    forall i :: 0 <= i < |sched| ==> sched[i].thread in threads
  }

  ghost function Run(s: State, sched: Schedule): (r: State)
    requires Among(s.pc.Keys, sched)
    ensures r.pc.Keys == s.pc.Keys
    decreases |sched|
  {
    if sched == [] then s
    else
      var last := |sched| - 1;
      var before := Run(s, sched[..last]);
      assert sched[last].thread in s.pc.Keys;
      Step(before, sched[last])
  }

  ghost function Init(threads: set<Thread>): State {
    State(0, 0, map t | t in threads :: Idle)
  }

  lemma {:induction false} RunConcat(s: State, a: Schedule, b: Schedule)
    requires Among(s.pc.Keys, a) && Among(s.pc.Keys, b)
    ensures Among(s.pc.Keys, a + b)
    ensures Run(s, a + b) == Run(Run(s, a), b)
    decreases |b|
  {
    if b == [] {
      assert a + b == a;
    } else {
      RunConcat(s, a, b[..|b| - 1]);
      SnocConcat(a, b);
    }
  }

  lemma {:induction false} SnocConcat<T>(a: seq<T>, b: seq<T>)
    requires b != []
    ensures (a + b)[..|a + b| - 1] == a + b[..|b| - 1] && (a + b)[|a + b| - 1] == b[|b| - 1]
  {
  }

  lemma {:induction false} RunOne(s: State, turn: Turn)
    requires turn.thread in s.pc
    ensures Among(s.pc.Keys, [turn]) && Run(s, [turn]) == Step(s, turn)
  {
    assert [turn][..0] == [];
    assert Run(s, []) == s;
  }

  /** Some schedule of at most `n` steps leads from `s` to `r`. */
  ghost predicate Reaches(s: State, r: State, n: nat) {
    exists sched :: Leads(s, sched, r) && |sched| <= n
  }

  ghost predicate Leads(s: State, sched: Schedule, r: State) {
    Among(s.pc.Keys, sched) && Run(s, sched) == r
  }

  lemma {:induction false} ReachesSelf(s: State)
    ensures Reaches(s, s, 0)
  {
    assert Leads(s, [], s);
  }

  lemma {:induction false} ReachesStep(s: State, turn: Turn)
    requires turn.thread in s.pc
    ensures Reaches(s, Step(s, turn), 1)
  {
    RunOne(s, turn);
    assert Leads(s, [turn], Step(s, turn));
  }

  lemma {:induction false} ReachesThrough(s: State, mid: State, r: State, n: nat, m: nat)
    requires Reaches(s, mid, n) && Reaches(mid, r, m)
    ensures Reaches(s, r, n + m)
  {
    var a :| Leads(s, a, mid) && |a| <= n;
    var b :| Leads(mid, b, r) && |b| <= m;
    RunConcat(s, a, b);
    assert Leads(s, a + b, r);
  }

  // ---- Who is where ----

  ghost function At(pcs: map<Thread, Pc>, r: Region): set<Thread> {
    set t | t in pcs && Covers(r, pcs[t])
  }

  ghost predicate Inside(s: State, t: Thread) {
    t in s.pc && (s.pc[t].RInside? || s.pc[t].WInside?)
  }

  ghost predicate Trying(s: State, t: Thread) {
    t in s.pc && s.pc[t] != Idle && !Inside(s, t)
  }

  /** The bookkeeping of the two words, whatever the number of threads. */
  ghost predicate Inv(s: State) {
    && s.read == Wrap(|At(s.pc, Announced)|)
    && s.write == (if At(s.pc, Holding) == {} then 0 else 1)
    && |At(s.pc, Holding)| <= 1
  }

  /** At most one writer inside, and never together with a reader. */
  ghost predicate Exclusive(s: State) {
    && |At(s.pc, Writing)| <= 1
    && (At(s.pc, Writing) != {} ==> At(s.pc, Reading) == {})
  }

  // ---- Every step keeps the bookkeeping ----

  /** `b` is `a` but for the membership of `t`. */
  ghost predicate Differ(a: set<Thread>, t: Thread, member: bool, b: set<Thread>) {
    && (forall u :: u in b <==> if u == t then member else u in a)
    && |b| == |a| + (if member then 1 else 0) - (if t in a then 1 else 0)
  }

  /** A step moves only the scheduled thread in and out of a region. */
  lemma {:induction false} Move(s: State, turn: Turn, r: Region)
    requires turn.thread in s.pc
    ensures Differ(At(s.pc, r), turn.thread, Covers(r, Step(s, turn).pc[turn.thread]), At(Step(s, turn).pc, r))
    ensures turn.thread in At(s.pc, r) <==> Covers(r, s.pc[turn.thread])
  {
    MovePc(s.pc, turn.thread, Step(s, turn).pc[turn.thread], r);
  }

  lemma {:induction false} MovePc(pcs: map<Thread, Pc>, t: Thread, pc: Pc, r: Region)
    requires t in pcs
    ensures Differ(At(pcs, r), t, Covers(r, pc), At(pcs[t := pc], r))
  {
    SizesDiffer(At(pcs, r), t, At(pcs[t := pc], r));
  }

  lemma {:induction false} SizesDiffer(a: set<Thread>, t: Thread, b: set<Thread>)
    requires forall u :: u != t ==> (u in b <==> u in a)
    ensures |b| == |a| + (if t in b then 1 else 0) - (if t in a then 1 else 0)
  {
    assert a - {t} == b - {t};
    assert t !in a ==> a - {t} == a;
    assert t !in b ==> b - {t} == b;
  }

  lemma {:induction false} AtMostOne<T>(a: set<T>, x: T)
    requires |a| <= 1 && x in a
    ensures a == {x}
  {
    assert |a - {x}| == |a| - 1;
    assert a == a - {x} + {x};
  }

  /** What an access does to the two words, in terms of the thread's own region. */
  lemma {:induction false} AccessKeepsWords(w: Words, wantWrite: bool, announced: nat)
    requires w.read == Wrap(announced) && (Covers(Announced, w.pc) ==> announced > 0)
    ensures var w' := Access(w, wantWrite);
            && w'.read == Wrap(announced + (if Covers(Announced, w'.pc) then 1 else 0)
                                         - (if Covers(Announced, w.pc) then 1 else 0))
            && (Covers(Holding, w.pc) && !Covers(Holding, w'.pc) ==> w'.write == 0)
            && (!Covers(Holding, w.pc) && Covers(Holding, w'.pc) ==> w.write == 0 && w'.write == 1)
            && (Covers(Holding, w.pc) == Covers(Holding, w'.pc) && w.write <= 1 ==> w'.write == w.write)
            && (Covers(Reading, w'.pc) && !Covers(Reading, w.pc) ==> w.write == 0)
  {
    WordArithmetic(announced);
  }

  lemma {:induction false} StepKeepsInv(s: State, turn: Turn)
    requires turn.thread in s.pc && Inv(s)
    ensures Inv(Step(s, turn))
  {
    var t, s' := turn.thread, Step(s, turn);
    Move(s, turn, Announced);
    AccessKeepsWords(Words(s.read, s.write, s.pc[t]), turn.wantWrite, |At(s.pc, Announced)|);
    assert s'.read == Wrap(|At(s'.pc, Announced)|);
    StepKeepsHolder(s, turn);
  }

  lemma {:induction false} StepKeepsHolder(s: State, turn: Turn)
    requires turn.thread in s.pc && Inv(s)
    ensures var s' := Step(s, turn);
            s'.write == (if At(s'.pc, Holding) == {} then 0 else 1) && |At(s'.pc, Holding)| <= 1
  {
    var t, s' := turn.thread, Step(s, turn);
    var before, after := At(s.pc, Holding), At(s'.pc, Holding);
    Move(s, turn, Holding);
    if t in before {
      AtMostOne(before, t);
      assert t !in after ==> after == {};
    } else if t !in after {
      assert after == before;
    }
  }

  lemma {:induction false} WordArithmetic(n: nat)
    ensures Inc(Wrap(n)) == Wrap(n + 1) < WORD
    ensures n > 0 ==> Dec(Wrap(n)) == Wrap(n - 1)
    decreases n
  {
    if n >= WORD { WordArithmetic(n - WORD); }
  }

  /** Entering and leaving as the abstract lock allows it. */
  datatype Abstract = Abstract(readers: set<Thread>, writers: set<Thread>)

  ghost function Abs(s: State): Abstract {
    Abstract(At(s.pc, Reading), At(s.pc, Writing))
  }

  ghost predicate AbstractStep(a: Abstract, t: Thread, a': Abstract) {
    || a' == a
    || (t !in a.readers && a.writers == {} && a' == a.(readers := a.readers + {t}))
    || (t in a.readers && a' == a.(readers := a.readers - {t}))
    || (a.readers == {} && a.writers == {} && a' == a.(writers := {t}))
    || (a.writers == {t} && a' == a.(writers := {}))
  }

  lemma {:induction false} DrainedMeansEmpty(s: State, t: Thread)
    requires Inv(s) && |s.pc| <= WORD && t in s.pc && s.pc[t] == WDrain && s.read == 0
    ensures At(s.pc, Announced) == {}
  {
    SubsetSize(At(s.pc, Announced), s.pc.Keys - {t});
    assert |s.pc.Keys - {t}| == |s.pc| - 1;
  }

  lemma {:induction false} Nested(pcs: map<Thread, Pc>)
    ensures At(pcs, Writing) <= At(pcs, Holding) && At(pcs, Reading) <= At(pcs, Announced)
  {
  }

  lemma {:induction false} Becomes(a: set<Thread>, t: Thread, member: bool, b: set<Thread>)
    requires Differ(a, t, member, b)
    ensures b == if member then a + {t} else a - {t}
    ensures member == (t in a) ==> b == a
  {
  }

  /** The two sets of the abstract lock after a step. */
  lemma {:induction false} AbsAfter(s: State, turn: Turn)
    requires turn.thread in s.pc
    ensures var t, pc, pc' := turn.thread, s.pc[turn.thread], Step(s, turn).pc[turn.thread];
            var r, r' := At(s.pc, Reading), At(Step(s, turn).pc, Reading);
            var w, w' := At(s.pc, Writing), At(Step(s, turn).pc, Writing);
            && (t in r <==> pc.RInside?) && (t in w <==> pc.WInside?)
            && r' == (if pc.RInside? == pc'.RInside? then r else if pc'.RInside? then r + {t} else r - {t})
            && w' == (if pc.WInside? == pc'.WInside? then w else if pc'.WInside? then w + {t} else w - {t})
  {
    var t, s' := turn.thread, Step(s, turn);
    Move(s, turn, Reading);
    Move(s, turn, Writing);
    Becomes(At(s.pc, Reading), t, s'.pc[t].RInside?, At(s'.pc, Reading));
    Becomes(At(s.pc, Writing), t, s'.pc[t].WInside?, At(s'.pc, Writing));
  }

  /** A thread about to enter finds the lock as the abstract lock demands it. */
  lemma {:induction false} GuardsHold(s: State, t: Thread)
    requires t in s.pc && Inv(s) && |s.pc| <= WORD
    ensures s.pc[t].RCheck? && s.write == 0 ==> At(s.pc, Writing) == {}
    ensures s.pc[t].WDrain? ==> At(s.pc, Writing) == {}
    ensures s.pc[t].WDrain? && s.read == 0 ==> At(s.pc, Reading) == {}
    ensures s.pc[t].WInside? ==> At(s.pc, Writing) == {t}
  {
    Nested(s.pc);
    if s.pc[t].WDrain? || s.pc[t].WInside? {
      assert t in At(s.pc, Holding);
      AtMostOne(At(s.pc, Holding), t);
      assert t in At(s.pc, Writing) <==> s.pc[t].WInside?;
      if s.pc[t].WDrain? && s.read == 0 { DrainedMeansEmpty(s, t); }
    }
  }

  lemma {:induction false} StepSimulates(s: State, turn: Turn)
    requires turn.thread in s.pc && Inv(s) && |s.pc| <= WORD
    ensures AbstractStep(Abs(s), turn.thread, Abs(Step(s, turn)))
  {
    var t, a, a' := turn.thread, Abs(s), Abs(Step(s, turn));
    AbsAfter(s, turn);
    GuardsHold(s, t);
    match s.pc[t] {
      case RCheck =>
        assert a' == if s.write == 0 then Abstract(a.readers + {t}, {}) else a;
      case RInside =>
        assert a' == Abstract(a.readers - {t}, a.writers);
      case WDrain =>
        assert a' == if s.read == 0 then Abstract({}, {t}) else a;
      case WInside =>
        assert a' == Abstract(a.readers, {});
      case _ =>
        assert a' == a;
    }
  }

  /** The abstract lock keeps its readers and its writer apart. */
  lemma {:induction false} AbstractExclusive(a: Abstract, t: Thread, a': Abstract)
    requires AbstractStep(a, t, a') && (a.writers == {} || a.readers == {})
    ensures a'.writers == {} || a'.readers == {}
  {
  }

  lemma {:induction false} OneWriter(s: State)
    requires Inv(s)
    ensures |At(s.pc, Writing)| <= 1
  {
    Nested(s.pc);
    SubsetSize(At(s.pc, Writing), At(s.pc, Holding));
  }

  // ---- Whole runs ----

  lemma {:induction false} RunKeepsInv(s: State, sched: Schedule)
    requires Inv(s) && Among(s.pc.Keys, sched)
    ensures Inv(Run(s, sched))
    decreases |sched|
  {
    if sched != [] {
      var last := |sched| - 1;
      RunKeepsInv(s, sched[..last]);
      StepKeepsInv(Run(s, sched[..last]), sched[last]);
    }
  }

  lemma {:induction false} InitInv(threads: set<Thread>)
    ensures Inv(Init(threads)) && Exclusive(Init(threads))
    ensures Init(threads).pc.Keys == threads
  {
    var s := Init(threads);
    assert At(s.pc, Announced) == {} && At(s.pc, Holding) == {} && At(s.pc, Writing) == {};
  }

  /**
   Reachable bookkeeping: after every schedule of any number of threads `read` counts, modulo the
   word, the threads between increment and decrement, and `write` is 1 exactly when one thread
   drains or writes.
   */
  lemma {:induction false} ReachableInv(threads: set<Thread>, sched: Schedule)
    requires Among(threads, sched)
    ensures Init(threads).pc.Keys == threads && Inv(Run(Init(threads), sched))
  {
    InitInv(threads);
    RunKeepsInv(Init(threads), sched);
  }

  lemma {:induction false} RunExclusive(threads: set<Thread>, sched: Schedule)
    requires |threads| <= WORD && Among(threads, sched)
    ensures Init(threads).pc.Keys == threads && Exclusive(Run(Init(threads), sched))
    decreases |sched|
  {
    InitInv(threads);
    if sched != [] {
      var last := |sched| - 1;
      RunExclusive(threads, sched[..last]);
      ReachableInv(threads, sched[..last]);
      ReachableInv(threads, sched);
      var before := Run(Init(threads), sched[..last]);
      StepSimulates(before, sched[last]);
      AbstractExclusive(Abs(before), sched[last].thread, Abs(Run(Init(threads), sched)));
      OneWriter(Run(Init(threads), sched));
    }
  }

  /** Every run of the protocol is, step by step, a run of the abstract reader/writer lock. */
  lemma {:induction false} RunSimulates(threads: set<Thread>, sched: Schedule, i: nat)
    requires |threads| <= WORD && Among(threads, sched) && i < |sched|
    ensures Init(threads).pc.Keys == threads
    ensures AbstractStep(Abs(Run(Init(threads), sched[..i])), sched[i].thread,
                         Abs(Run(Init(threads), sched[..i + 1])))
  {
    ReachableInv(threads, sched[..i]);
    StepSimulates(Run(Init(threads), sched[..i]), sched[i]);
    assert sched[..i + 1][..i] == sched[..i];
    assert sched[..i + 1][i] == sched[i];
  }

  // ---- A thread stands where it asked to be ----

  /** What `t` asked for at its latest turn from outside the lock, if it has had one. */
  ghost function LatestAsk(s: State, sched: Schedule, t: Thread): Option<bool>
    requires Among(s.pc.Keys, sched) && t in s.pc
    decreases |sched|
  {
    if sched == [] then None
    else
      var prefix, turn := sched[..|sched| - 1], sched[|sched| - 1];
      if turn.thread == t && Run(s, prefix).pc[t].Idle? then Some(turn.wantWrite) else LatestAsk(s, prefix, t)
  }

  /** Everywhere in rlock and until runlock; everywhere in wlock and until wunlock. */
  predicate StandsBy(pc: Pc, ask: Option<bool>) {
    match pc
    case Idle => true
    case RSpin | RAnnounce | RCheck | RBackoff | RInside => ask == Some(false)
    case WSpin | WDrain | WInside => ask == Some(true)
  }

  /**
   Over every run of any number of threads: a thread in wlock or inside for writing asked to write
   when it last came from outside, and a thread in rlock or inside for reading asked to read.
   */
  lemma {:induction false} StandsWhereAsked(threads: set<Thread>, sched: Schedule, t: Thread)
    requires Among(threads, sched) && t in threads
    ensures Init(threads).pc.Keys == threads
    ensures StandsBy(Run(Init(threads), sched).pc[t], LatestAsk(Init(threads), sched, t))
    decreases |sched|
  {
    assert Init(threads).pc.Keys == threads;
    if sched != [] { StandsWhereAsked(threads, sched[..|sched| - 1], t); }
  }

  /**
   After a turn of its own a thread is outside the lock if and only if it was inside before the turn;
   a turn from outside takes it into the lock function it asks for. A turn of another moves it not.
   */
  lemma {:induction false} ComesAndGoes(s: State, sched: Schedule, turn: Turn, t: Thread)
    requires Among(s.pc.Keys, sched) && turn.thread in s.pc && t in s.pc
    ensures Among(s.pc.Keys, sched + [turn])
    ensures var before, after := Run(s, sched), Run(s, sched + [turn]);
            if turn.thread != t then after.pc[t] == before.pc[t]
            else && (after.pc[t].Idle? <==> Inside(before, t))
                 && (before.pc[t].Idle? ==> after.pc[t] == if turn.wantWrite then WSpin else RSpin)
  {
    var all := sched + [turn];
    assert all[..|all| - 1] == sched && all[|all| - 1] == turn;
  }

  // ---- The word is wide enough for exactly 2^32 threads ----

  /** The state in which precisely `readers` are inside and every other thread is idle. */
  ghost function AllReading(threads: set<Thread>, readers: set<Thread>): State
    requires readers <= threads
  {
    State(Wrap(|readers|), 0, map t | t in threads :: if t in readers then RInside else Idle)
  }

  lemma {:induction false} OneMoreReader(threads: set<Thread>, readers: set<Thread>, t: Thread)
    requires readers <= threads && t in threads && t !in readers
    ensures Reaches(AllReading(threads, readers), AllReading(threads, readers + {t}), 4)
  {
    var s, turn := AllReading(threads, readers), Turn(t, false);
    var s1 := Step(s, turn);
    var s2 := Step(s1, turn);
    var s3 := Step(s2, turn);
    var s4 := Step(s3, turn);
    WordArithmetic(|readers|);
    assert |readers + {t}| == |readers| + 1;
    assert s4.pc == AllReading(threads, readers + {t}).pc;
    FourSteps(s, turn);
  }

  lemma {:induction false} ThreeSteps(s: State, turn: Turn)
    requires turn.thread in s.pc
    ensures Reaches(s, Step(Step(Step(s, turn), turn), turn), 3)
  {
    var s1 := Step(s, turn);
    var s2 := Step(s1, turn);
    ReachesStep(s, turn);
    ReachesStep(s1, turn);
    ReachesStep(s2, turn);
    ReachesThrough(s, s1, s2, 1, 1);
    ReachesThrough(s, s2, Step(s2, turn), 2, 1);
  }

  lemma {:induction false} FourSteps(s: State, turn: Turn)
    requires turn.thread in s.pc
    ensures Reaches(s, Step(Step(Step(Step(s, turn), turn), turn), turn), 4)
  {
    var s3 := Step(Step(Step(s, turn), turn), turn);
    ThreeSteps(s, turn);
    ReachesStep(s3, turn);
    ReachesThrough(s, s3, Step(s3, turn), 3, 1);
  }

  lemma {:induction false} FillWithReaders(threads: set<Thread>, readers: set<Thread>)
    requires readers <= threads
    ensures Reaches(Init(threads), AllReading(threads, readers), 4 * |readers|)
    decreases |readers|
  {
    if readers == {} {
      assert Init(threads) == AllReading(threads, {});
      ReachesSelf(Init(threads));
    } else {
      var t :| t in readers;
      FillWithReaders(threads, readers - {t});
      OneMoreReader(threads, readers - {t}, t);
      assert readers - {t} + {t} == readers;
      ReachesThrough(Init(threads), AllReading(threads, readers - {t}), AllReading(threads, readers),
                     4 * |readers - {t}|, 4);
    }
  }

  lemma {:induction false} SubsetOfSize<T>(a: set<T>, k: nat) returns (b: set<T>)
    requires k <= |a|
    ensures b <= a && |b| == k
    decreases |a| - k
  {
    if k == |a| {
      b := a;
    } else {
      var c := SubsetOfSize(a, k + 1);
      var x :| x in c;
      b := c - {x};
    }
  }

  lemma {:induction false} Outsider<T>(a: set<T>, b: set<T>) returns (x: T)
    requires a <= b && |a| < |b|
    ensures x in b && x !in a
  {
    assert b == a + (b - a);
    x :| x in b - a;
  }

  /** With 2^32 readers inside the word has wrapped to 0, and a writer walks in among them. */
  lemma {:induction false} WordWraps(threads: set<Thread>) returns (end: State)
    requires |threads| > WORD
    ensures Reaches(Init(threads), end, 4 * WORD + 3)
    ensures |At(end.pc, Reading)| == WORD && |At(end.pc, Writing)| == 1 && !Exclusive(end)
  {
    var readers := SubsetOfSize(threads, WORD);
    FillWithReaders(threads, readers);
    var w := Outsider(readers, threads);
    end := WriterAmongReaders(threads, readers, w);
    ReachesThrough(Init(threads), AllReading(threads, readers), end, 4 * WORD, 3);
  }

  lemma {:induction false} WriterAmongReaders(threads: set<Thread>, readers: set<Thread>, w: Thread)
    returns (end: State)
    requires readers <= threads && |readers| == WORD && w in threads && w !in readers
    ensures Reaches(AllReading(threads, readers), end, 3)
    ensures At(end.pc, Reading) == readers && At(end.pc, Writing) == {w}
  {
    var s := AllReading(threads, readers);
    assert Wrap(WORD) == Wrap(0);
    end := WriteEntry(s, w);
  }

  lemma {:induction false} WriteEntry(s: State, w: Thread) returns (end: State)
    requires w in s.pc && s.pc[w] == Idle && s.read == 0 && s.write == 0
    ensures Reaches(s, end, 3) && end == State(0, 1, s.pc[w := WInside])
  {
    var turn := Turn(w, true);
    ThreeSteps(s, turn);
    end := Step(Step(Step(s, turn), turn), turn);
    assert end.pc == s.pc[w := WInside];
  }

  /** Mutual exclusion holds in every run if and only if there are at most 2^32 threads. */
  lemma {:induction false} ExclusionExact(threads: set<Thread>)
    ensures Init(threads).pc.Keys == threads
    ensures (forall sched | Among(threads, sched) :: Exclusive(Run(Init(threads), sched)))
            <==> |threads| <= WORD
  {
    InitInv(threads);
    if |threads| <= WORD {
      forall sched | Among(threads, sched) ensures Exclusive(Run(Init(threads), sched)) {
        RunExclusive(threads, sched);
      }
    } else {
      var end := WordWraps(threads);
      var sched :| Leads(Init(threads), sched, end);
    }
  }

  // ---- The write flag stops readers ----

  lemma {:induction false} StepShrinksReaders(s: State, turn: Turn, h: Thread)
    requires turn.thread in s.pc && Inv(s) && h in At(s.pc, Holding)
    ensures At(Step(s, turn).pc, Reading) <= At(s.pc, Reading)
  {
    Move(s, turn, Reading);
  }

  /** `h` holds the write flag from `s` on, all along the schedule. */
  ghost predicate Held(s: State, sched: Schedule, h: Thread)
    requires Among(s.pc.Keys, sched)
    decreases |sched|
  {
    && h in At(Run(s, sched).pc, Holding)
    && (sched == [] || Held(s, sched[..|sched| - 1], h))
  }

  /** As long as `h` keeps the write flag, the set of readers inside can only shrink. */
  lemma {:induction false} ReadersOnlyShrink(s: State, sched: Schedule, h: Thread)
    requires Inv(s) && Among(s.pc.Keys, sched) && Held(s, sched, h)
    ensures At(Run(s, sched).pc, Reading) <= At(s.pc, Reading)
    decreases |sched|
  {
    if sched != [] {
      var prefix := sched[..|sched| - 1];
      ReadersOnlyShrink(s, prefix, h);
      RunKeepsInv(s, prefix);
      HeldAt(s, prefix, h);
      StepShrinksReaders(Run(s, prefix), sched[|sched| - 1], h);
    }
  }

  lemma {:induction false} HeldAt(s: State, sched: Schedule, h: Thread)
    requires Among(s.pc.Keys, sched) && Held(s, sched, h)
    ensures h in At(Run(s, sched).pc, Holding)
  {
  }

  // ---- Every fair schedule lets the draining writer in ----

  /** How many of its own steps a thread can still take before it keeps `read` above 0 no longer. */
  function Weight(pc: Pc): nat {
    match pc
    case RAnnounce => 3
    case RCheck => 2
    case RBackoff | RInside => 1
    case Idle | RSpin | WSpin | WDrain | WInside => 0
  }

  function Turns(sched: Schedule, u: Thread): nat {
    if sched == [] then 0
    else Turns(sched[..|sched| - 1], u) + if sched[|sched| - 1].thread == u then 1 else 0
  }

  /** `h` has been inside for writing at some point of the schedule. */
  ghost predicate Entered(s: State, sched: Schedule, h: Thread)
    requires Among(s.pc.Keys, sched) && h in s.pc
    decreases |sched|
  {
    Run(s, sched).pc[h].WInside? || (sched != [] && Entered(s, sched[..|sched| - 1], h))
  }

  function Remaining(weight: nat, turns: nat): nat {
    if turns < weight then weight - turns else 0
  }

  /** Every thread but `h` has lost one unit of weight with each of its turns, down to nothing. */
  ghost predicate Lightened(s: State, sched: Schedule, r: State, h: Thread) {
    forall u | u in s.pc && u != h :: u in r.pc && Weight(r.pc[u]) == Remaining(Weight(s.pc[u]), Turns(sched, u))
  }

  /** Under the flag a turn costs the scheduled thread one unit of weight, and no thread gains any. */
  lemma {:induction false} HeldStepLightens(s: State, turn: Turn, h: Thread)
    requires Inv(s) && turn.thread in s.pc && h in s.pc && s.pc[h].WDrain?
    ensures var u, s' := turn.thread, Step(s, turn);
            && (u != h ==> Weight(s'.pc[u]) == Remaining(Weight(s.pc[u]), 1) && s'.pc[h].WDrain?)
            && (u == h ==> if s.read == 0 then s'.pc[h].WInside? else s' == s)
  {
    assert h in At(s.pc, Holding);
    if turn.thread == h && s.read != 0 { assert s.pc[h := WDrain] == s.pc; }
  }

  lemma {:induction false} WeightsRunOut(s: State, sched: Schedule, h: Thread)
    requires Inv(s) && Among(s.pc.Keys, sched) && h in s.pc && s.pc[h].WDrain?
    ensures Entered(s, sched, h) ||
            (Run(s, sched).pc[h].WDrain? && Lightened(s, sched, Run(s, sched), h))
    decreases |sched|
  {
    if sched != [] {
      var prefix, turn := sched[..|sched| - 1], sched[|sched| - 1];
      WeightsRunOut(s, prefix, h);
      if !Entered(s, prefix, h) {
        RunKeepsInv(s, prefix);
        HeldStepLightens(Run(s, prefix), turn, h);
      }
    }
  }

  lemma {:induction false} NoWeightDrained(s: State, h: Thread)
    requires Inv(s) && h in s.pc && s.pc[h].WDrain?
    requires forall u | u in s.pc && u != h :: Weight(s.pc[u]) == 0
    ensures s.read == 0
  {
    assert At(s.pc, Announced) == {};
  }

  /**
   Bounded waiting, for every schedule and any number of threads: once a writer drains, it has been
   inside by its first turn after every other thread has had three turns, whatever the order and
   whatever the others go on to do.
   */
  lemma {:induction false} DrainingWriterEnters(s: State, sched: Schedule, h: Thread, wantWrite: bool)
    requires Inv(s) && Among(s.pc.Keys, sched) && h in s.pc && s.pc[h].WDrain?
    requires forall u | u in s.pc && u != h :: Turns(sched, u) >= 3
    ensures Among(s.pc.Keys, sched + [Turn(h, wantWrite)])
    ensures Entered(s, sched + [Turn(h, wantWrite)], h)
  {
    var last := Turn(h, wantWrite);
    RunKeepsInv(s, sched);
    DrainedByNow(s, sched, h);
    if !Entered(s, sched, h) { HeldStepLightens(Run(s, sched), last, h); }
    EnteredByNow(s, sched, last, h);
  }

  lemma {:induction false} NoWeightLeft(s: State, sched: Schedule, r: State, h: Thread)
    requires Lightened(s, sched, r, h) && r.pc.Keys == s.pc.Keys
    requires forall u | u in s.pc && u != h :: Turns(sched, u) >= 3
    ensures forall u | u in r.pc && u != h :: Weight(r.pc[u]) == 0
  {
  }

  lemma {:induction false} DrainedByNow(s: State, sched: Schedule, h: Thread)
    requires Inv(s) && Among(s.pc.Keys, sched) && h in s.pc && s.pc[h].WDrain?
    requires forall u | u in s.pc && u != h :: Turns(sched, u) >= 3
    ensures Entered(s, sched, h) || (Run(s, sched).pc[h].WDrain? && Run(s, sched).read == 0)
  {
    WeightsRunOut(s, sched, h);
    if !Entered(s, sched, h) {
      RunKeepsInv(s, sched);
      NoWeightLeft(s, sched, Run(s, sched), h);
      NoWeightDrained(Run(s, sched), h);
    }
  }

  lemma {:induction false} EnteredByNow(s: State, sched: Schedule, turn: Turn, h: Thread)
    requires Among(s.pc.Keys, sched) && h in s.pc && turn.thread in s.pc
    requires Entered(s, sched, h) || Step(Run(s, sched), turn).pc[h].WInside?
    ensures Among(s.pc.Keys, sched + [turn]) && Entered(s, sched + [turn], h)
  {
    var all := sched + [turn];
    assert all[..|all| - 1] == sched && all[|all| - 1] == turn;
  }

  // ---- Readers depend on the flags they see, and can starve ----

  /** In rlock, not yet inside. */
  predicate Entering(pc: Pc) {
    pc.RSpin? || pc.RAnnounce? || pc.RCheck? || pc.RBackoff?
  }

  /** `r` has been inside for reading at some point of the schedule. */
  ghost predicate ReadBy(s: State, sched: Schedule, r: Thread)
    requires Among(s.pc.Keys, sched) && r in s.pc
    decreases |sched|
  {
    Run(s, sched).pc[r].RInside? || (sched != [] && ReadBy(s, sched[..|sched| - 1], r))
  }

  /** Whether the write flag was set at each of `r`'s turns. */
  ghost function FlagsSeen(s: State, sched: Schedule, r: Thread): seq<bool>
    requires Among(s.pc.Keys, sched)
    decreases |sched|
  {
    if sched == [] then []
    else
      var prefix := sched[..|sched| - 1];
      FlagsSeen(s, prefix, r) + if sched[|sched| - 1].thread == r then [Run(s, prefix).write != 0] else []
  }

  /** rlock as its caller reads it: spin while the flag is set, announce, look again, start over. */
  function Onward(pc: Pc, flag: bool): Pc {
    match pc
    case RSpin => if flag then RSpin else RAnnounce
    case RAnnounce => RCheck
    case RCheck => if flag then RBackoff else RInside
    case RBackoff => RSpin
    case _ => pc
  }

  /** Where rlock gets to from `pc` when it sees these flags, one at each turn; inside it stops. */
  function Follow(pc: Pc, flags: seq<bool>): Pc {
    if flags == [] then pc else Onward(Follow(pc, flags[..|flags| - 1]), flags[|flags| - 1])
  }

  lemma {:induction false} FollowSnoc(pc: Pc, flags: seq<bool>, flag: bool)
    ensures Follow(pc, flags + [flag]) == Onward(Follow(pc, flags), flag)
  {
    assert (flags + [flag])[..|flags|] == flags;
  }

  /**
   Exactly when a reader gets in, for every schedule and whatever the other threads do: it has been
   inside if and only if the flags it saw at its own turns take rlock there; until then they alone
   decide where it stands.
   */
  lemma {:induction false} ReaderFollowsFlags(s: State, sched: Schedule, r: Thread)
    requires Among(s.pc.Keys, sched) && r in s.pc && Entering(s.pc[r])
    ensures var p := Follow(s.pc[r], FlagsSeen(s, sched, r));
            && (ReadBy(s, sched, r) <==> p.RInside?)
            && (!ReadBy(s, sched, r) ==> Run(s, sched).pc[r] == p && Entering(p))
    decreases |sched|
  {
    if sched != [] {
      var prefix, turn := sched[..|sched| - 1], sched[|sched| - 1];
      ReaderFollowsFlags(s, prefix, r);
      if turn.thread == r {
        FollowSnoc(s.pc[r], FlagsSeen(s, prefix, r), Run(s, prefix).write != 0);
      } else {
        assert FlagsSeen(s, sched, r) == FlagsSeen(s, prefix, r);
      }
    }
  }

  /** Four turns at which the flag is clear are enough from anywhere in rlock. */
  lemma {:induction false} ClearFlagsEnter(pc: Pc, flags: seq<bool>)
    requires Entering(pc) && forall i :: 0 <= i < |flags| ==> !flags[i]
    ensures if |flags| >= StepsToGo(pc) then Follow(pc, flags).RInside?
            else Entering(Follow(pc, flags)) && StepsToGo(Follow(pc, flags)) == StepsToGo(pc) - |flags|
    decreases |flags|
  {
    if flags != [] { ClearFlagsEnter(pc, flags[..|flags| - 1]); }
  }

  lemma {:induction false} TurnsConcat(a: Schedule, b: Schedule, u: Thread)
    ensures Turns(a + b, u) == Turns(a, u) + Turns(b, u)
    decreases |b|
  {
    if b == [] {
      assert a + b == a;
    } else {
      SnocConcat(a, b);
      TurnsConcat(a, b[..|b| - 1], u);
    }
  }

  lemma {:induction false} ReadByConcat(s: State, a: Schedule, b: Schedule, r: Thread)
    requires Among(s.pc.Keys, a) && Among(s.pc.Keys, b) && r in s.pc
    ensures Among(s.pc.Keys, a + b)
    ensures ReadBy(s, a + b, r) <==> ReadBy(s, a, r) || ReadBy(Run(s, a), b, r)
    decreases |b|
  {
    RunConcat(s, a, b);
    if b == [] {
      assert a + b == a;
    } else {
      SnocConcat(a, b);
      ReadByConcat(s, a, b[..|b| - 1], r);
    }
  }

  /** A schedule along which `r` is never inside, with so many turns of `r` and of `w`. */
  ghost predicate Shuts(s: State, sched: Schedule, e: State, r: Thread, w: Thread, n: nat, m: nat) {
    && Leads(s, sched, e) && r in s.pc && !ReadBy(s, sched, r)
    && Turns(sched, r) == n && Turns(sched, w) == m
  }

  lemma {:induction false} ShutsStep(s: State, turn: Turn, r: Thread, w: Thread)
    requires turn.thread in s.pc && r in s.pc && !s.pc[r].RInside? && !Step(s, turn).pc[r].RInside?
    ensures Shuts(s, [turn], Step(s, turn), r, w, if turn.thread == r then 1 else 0, if turn.thread == w then 1 else 0)
  {
    RunOne(s, turn);
    assert [turn][..0] == [];
    assert Turns([], r) == 0 && Turns([], w) == 0;
    assert Run(s, []) == s;
  }

  lemma {:induction false} ShutsThrough(s: State, a: Schedule, mid: State, b: Schedule, e: State, r: Thread, w: Thread,
                                        n: nat, m: nat, n': nat, m': nat)
    requires Shuts(s, a, mid, r, w, n, m) && Shuts(mid, b, e, r, w, n', m')
    ensures Shuts(s, a + b, e, r, w, n + n', m + m')
  {
    RunConcat(s, a, b);
    ReadByConcat(s, a, b, r);
    TurnsConcat(a, b, r);
    TurnsConcat(a, b, w);
  }

  /** `r` spins, everyone else is idle, and the lock is free. */
  ghost function Spinning(threads: set<Thread>, r: Thread): State {
    State(0, 0, map t | t in threads :: if t == r then RSpin else Idle)
  }

  /** A writer goes in, the reader looks, the writer comes out: nothing has changed. */
  lemma {:induction false} OneMoreRound(threads: set<Thread>, r: Thread, w: Thread) returns (sched: Schedule)
    requires r in threads && w in threads && r != w
    ensures Shuts(Spinning(threads, r), sched, Spinning(threads, r), r, w, 1, 4)
  {
    var s := Spinning(threads, r);
    var into := EnterQuietly(s, r, w);
    var inside := State(0, 1, s.pc[w := WInside]);
    var look, leave := Turn(r, false), Turn(w, true);
    ShutsStep(inside, look, r, w);
    assert inside.pc[r := RSpin] == inside.pc;
    ShutsStep(inside, leave, r, w);
    assert inside.pc[w := Idle] == s.pc;
    ShutsThrough(inside, [look], inside, [leave], s, r, w, 1, 0, 0, 1);
    ShutsThrough(s, into, inside, [look] + [leave], s, r, w, 0, 3, 1, 1);
    sched := into + ([look] + [leave]);
  }

  lemma {:induction false} EnterQuietly(s: State, r: Thread, w: Thread) returns (sched: Schedule)
    requires r in s.pc && w in s.pc && r != w && s.pc[r].RSpin? && s.pc[w].Idle? && s.read == 0 && s.write == 0
    ensures Shuts(s, sched, State(0, 1, s.pc[w := WInside]), r, w, 0, 3)
  {
    var turn := Turn(w, true);
    var s1 := Step(s, turn);
    var s2 := Step(s1, turn);
    var s3 := Step(s2, turn);
    ShutsStep(s, turn, r, w);
    ShutsStep(s1, turn, r, w);
    ShutsStep(s2, turn, r, w);
    ShutsThrough(s, [turn], s1, [turn], s2, r, w, 0, 1, 0, 1);
    ShutsThrough(s, [turn] + [turn], s2, [turn], s3, r, w, 0, 2, 0, 1);
    assert s3.pc == s.pc[w := WInside];
    sched := [turn] + [turn] + [turn];
  }

  /**
   There is no bounded waiting for readers: whatever `n`, from the initial state a schedule exists in
   which a reader and a writer both have at least `n` turns and the reader is never inside.
   */
  lemma {:induction false} ReaderStarves(threads: set<Thread>, r: Thread, w: Thread, n: nat) returns (sched: Schedule)
    requires r in threads && w in threads && r != w
    ensures Shuts(Init(threads), sched, Spinning(threads, r), r, w, n + 1, 4 * n)
    decreases n
  {
    if n == 0 {
      var turn := Turn(r, false);
      ShutsStep(Init(threads), turn, r, w);
      assert Step(Init(threads), turn).pc == Spinning(threads, r).pc;
      sched := [turn];
    } else {
      var before := ReaderStarves(threads, r, w, n - 1);
      var round := OneMoreRound(threads, r, w);
      ShutsThrough(Init(threads), before, Spinning(threads, r), round, Spinning(threads, r), r, w, n, 4 * n - 4, 1, 4);
      sched := before + round;
    }
  }

  // ---- No reachable state is stuck ----

  /** Announced readers still to take one step, counting twice those that have to re-check. */
  ghost function Measure(s: State): nat {
    |At(s.pc, Checking)| + |At(s.pc, Announced)|
  }

  /** What stepping other announced threads does not touch. */
  ghost predicate Undisturbed(s: State, r: State, t: Thread) {
    && Inv(r) && r.pc.Keys == s.pc.Keys && t in r.pc && r.pc[t] == s.pc[t]
    && At(r.pc, Holding) == At(s.pc, Holding)
  }

  lemma {:induction false} HoldersKept(s: State, turn: Turn)
    requires turn.thread in s.pc && Covers(Announced, s.pc[turn.thread])
    ensures At(Step(s, turn).pc, Holding) == At(s.pc, Holding)
  {
    Move(s, turn, Holding);
    Becomes(At(s.pc, Holding), turn.thread, false, At(Step(s, turn).pc, Holding));
  }

  lemma {:induction false} DrainStep(s: State, t: Thread, u: Thread)
    requires Inv(s) && t in s.pc && u in At(s.pc, Announced) && u != t
    ensures var r := Step(s, Turn(u, false)); Undisturbed(s, r, t) && Measure(r) < Measure(s)
  {
    var turn := Turn(u, false);
    StepKeepsInv(s, turn);
    Move(s, turn, Announced);
    Move(s, turn, Checking);
    HoldersKept(s, turn);
  }

  /** Steps every announced thread but `t` out of the announced region; `t` and the flag stand still. */
  lemma {:induction false} DrainOthers(s: State, t: Thread) returns (r: State)
    requires Inv(s) && t in s.pc
    ensures Reaches(s, r, Measure(s)) && Undisturbed(s, r, t) && At(r.pc, Announced) <= {t}
    decreases Measure(s)
  {
    if At(s.pc, Announced) <= {t} {
      r := s;
      ReachesSelf(s);
      Widen(s, s, 0, Measure(s));
    } else {
      var u :| u in At(s.pc, Announced) && u != t;
      var s' := Step(s, Turn(u, false));
      DrainStep(s, t, u);
      r := DrainOthers(s', t);
      ReachesStep(s, Turn(u, false));
      ReachesThrough(s, s', r, 1, Measure(s'));
      Widen(s, r, 1 + Measure(s'), Measure(s));
    }
  }

  lemma {:induction false} Widen(s: State, r: State, n: nat, m: nat)
    requires Reaches(s, r, n) && n <= m
    ensures Reaches(s, r, m)
  {
    var sched :| Leads(s, sched, r) && |sched| <= n;
  }

  function StepsToGo(pc: Pc): nat {
    match pc
    case RBackoff => 4
    case RSpin => 3
    case RAnnounce | WSpin => 2
    case RCheck | WDrain => 1
    case Idle | RInside | WInside => 0
  }

  ghost predicate Alone(s: State, t: Thread) {
    At(s.pc, Holding) <= {t} && At(s.pc, Announced) <= {t}
  }

  /** A trying thread with no competitor inside or announced goes on to its next access. */
  lemma {:induction false} StepAlone(s: State, t: Thread)
    requires Inv(s) && Trying(s, t) && Alone(s, t)
    ensures var s' := Step(s, Turn(t, false));
            && Alone(s', t) && (Trying(s', t) || Inside(s', t))
            && StepsToGo(s'.pc[t]) == StepsToGo(s.pc[t]) - 1
  {
    Move(s, Turn(t, false), Holding);
    Move(s, Turn(t, false), Announced);
    if t in At(s.pc, Holding) {
      assert At(s.pc, Announced) == {};
    } else {
      assert At(s.pc, Holding) == {};
    }
  }

  lemma {:induction false} WalkIn(s: State, t: Thread) returns (r: State)
    requires Inv(s) && Trying(s, t) && Alone(s, t)
    ensures Reaches(s, r, StepsToGo(s.pc[t])) && Inside(r, t)
    decreases StepsToGo(s.pc[t])
  {
    var turn := Turn(t, false);
    var s' := Step(s, turn);
    StepAlone(s, t);
    StepKeepsInv(s, turn);
    ReachesStep(s, turn);
    if Inside(s', t) {
      r := s';
      Widen(s, r, 1, StepsToGo(s.pc[t]));
    } else {
      r := WalkIn(s', t);
      ReachesThrough(s, s', r, 1, StepsToGo(s'.pc[t]));
    }
  }

  /** `h` holds the flag, and only `t` may be announced. */
  ghost predicate Blocked(s: State, t: Thread, h: Thread) {
    Inv(s) && Trying(s, t) && h != t && At(s.pc, Holding) == {h} && At(s.pc, Announced) <= {t}
  }

  /** A reader that announced itself under the flag takes itself back, one access at a time. */
  lemma {:induction false} BackoffStep(s: State, t: Thread, h: Thread)
    requires Blocked(s, t, h) && t in At(s.pc, Announced)
    ensures var s' := Step(s, Turn(t, false));
            Blocked(s', t, h) && (if s.pc[t].RCheck? then s'.pc[t].RBackoff? else s'.pc[t].RSpin?)
  {
    var turn := Turn(t, false);
    StepKeepsInv(s, turn);
    Move(s, turn, Holding);
    Move(s, turn, Announced);
    Becomes(At(s.pc, Holding), t, false, At(Step(s, turn).pc, Holding));
  }

  lemma {:induction false} Backoff(s: State, t: Thread, h: Thread) returns (r: State)
    requires Blocked(s, t, h)
    ensures Reaches(s, r, 2) && Blocked(r, t, h) && At(r.pc, Announced) == {}
  {
    if t !in At(s.pc, Announced) {
      r := s;
      ReachesSelf(s);
      Widen(s, s, 0, 2);
    } else {
      var turn := Turn(t, false);
      r := Step(s, turn);
      BackoffStep(s, t, h);
      ReachesStep(s, turn);
      if s.pc[t].RCheck? {
        var s1 := r;
        BackoffStep(s1, t, h);
        r := Step(s1, turn);
        ReachesStep(s1, turn);
        ReachesThrough(s, s1, r, 1, 1);
      } else {
        Widen(s, r, 1, 2);
      }
      assert t !in At(r.pc, Announced);
    }
  }

  lemma {:induction false} HolderStep(s: State, t: Thread, h: Thread)
    requires Blocked(s, t, h) && At(s.pc, Announced) == {}
    ensures var s' := Step(s, Turn(h, false));
            && Inv(s') && Trying(s', t) && At(s'.pc, Announced) == {}
            && (if s.pc[h].WDrain? then s'.pc[h].WInside? && At(s'.pc, Holding) == {h} else At(s'.pc, Holding) == {})
  {
    assert h in At(s.pc, Holding);
    var turn := Turn(h, false);
    StepKeepsInv(s, turn);
    Move(s, turn, Holding);
    Move(s, turn, Announced);
    Becomes(At(s.pc, Holding), h, Covers(Holding, Step(s, turn).pc[h]), At(Step(s, turn).pc, Holding));
  }

  /** With nobody announced, the thread holding the flag finishes and releases it. */
  lemma {:induction false} Release(s: State, t: Thread, h: Thread) returns (r: State)
    requires Blocked(s, t, h) && At(s.pc, Announced) == {}
    ensures Reaches(s, r, 2) && Inv(r) && Trying(r, t) && Alone(r, t)
  {
    assert h in At(s.pc, Holding);
    var turn := Turn(h, false);
    HolderStep(s, t, h);
    ReachesStep(s, turn);
    r := Step(s, turn);
    if s.pc[h].WDrain? {
      var s1 := r;
      HolderStep(s1, t, h);
      r := Step(s1, turn);
      ReachesStep(s1, turn);
      ReachesThrough(s, s1, r, 1, 1);
    } else {
      Widen(s, r, 1, 2);
    }
  }

  lemma {:induction false} LetHolderFinish(s: State, t: Thread, h: Thread) returns (r: State)
    requires Blocked(s, t, h)
    ensures Reaches(s, r, 4) && Inv(r) && Trying(r, t) && Alone(r, t)
  {
    var mid := Backoff(s, t, h);
    r := Release(mid, t, h);
    ReachesThrough(s, mid, r, 2, 2);
  }

  /** Everyone else can be got out of the way of a trying thread. */
  lemma {:induction false} MakeAlone(s: State, t: Thread) returns (r: State)
    requires Inv(s) && Trying(s, t)
    ensures Reaches(s, r, Measure(s) + 4) && Inv(r) && Trying(r, t) && Alone(r, t)
  {
    var mid := DrainOthers(s, t);
    if h :| h in At(mid.pc, Holding) && h != t {
      AtMostOne(At(mid.pc, Holding), h);
      r := LetHolderFinish(mid, t, h);
      ReachesThrough(s, mid, r, Measure(s), 4);
    } else {
      r := mid;
      Widen(s, r, Measure(s), Measure(s) + 4);
    }
  }

  /** From any state the bookkeeping holds in, a trying thread can be brought inside. */
  lemma {:induction false} EnterFrom(s: State, t: Thread) returns (r: State)
    requires Inv(s) && Trying(s, t)
    ensures Reaches(s, r, Measure(s) + 8) && Inside(r, t)
  {
    var mid := MakeAlone(s, t);
    r := WalkIn(mid, t);
    ReachesThrough(s, mid, r, Measure(s) + 4, StepsToGo(mid.pc[t]));
    Widen(s, r, Measure(s) + 4 + StepsToGo(mid.pc[t]), Measure(s) + 8);
  }

  /**
   No deadlock, for any thread: from every reachable state every thread that is trying to enter
   can be brought inside by a finite schedule, whose length the number of announced readers bounds.
   */
  lemma {:induction false} CanEnter(threads: set<Thread>, history: Schedule, t: Thread) returns (sched: Schedule)
    requires Among(threads, history) && Init(threads).pc.Keys == threads
    requires Trying(Run(Init(threads), history), t)
    ensures Among(threads, sched)
    ensures |sched| <= Measure(Run(Init(threads), history)) + 8
    ensures Inside(Run(Run(Init(threads), history), sched), t)
  {
    var s := Run(Init(threads), history);
    ReachableInv(threads, history);
    var r := EnterFrom(s, t);
    sched :| Leads(s, sched, r) && |sched| <= Measure(s) + 8;
  }
}

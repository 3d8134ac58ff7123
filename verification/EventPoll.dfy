/**
 The interest cache of epoll.c: `last_mask` remembers what the kernel was last told about an event
 and decides between doing nothing, adding, modifying and deleting the registration.

 Control calls fail only as epoll_ctl does on a missing or an existing registration.
 */
module EventPoll {

  const EVMASK_READ: nat := 1
  const EVMASK_WRITE: nat := 2
  const EVMASK_ERROR: nat := 4

  // epoll interest bits; they are disjoint, so sums are bitwise ors
  const EPOLLIN: nat := 0x1
  const EPOLLOUT: nat := 0x4
  const EPOLLERR: nat := 0x8
  const EPOLLHUP: nat := 0x10
  const EPOLLET: nat := 0x8000_0000
  const DEFAULT_POLL_MASK: nat := EPOLLHUP + EPOLLERR + EPOLLET

  /** The fields of an event_t that the cache uses. */
  datatype Ev = Ev(fd: nat, mask: nat, lastMask: nat)

  /** The kernel's registrations: descriptor to interest. */
  type Kernel = map<nat, nat>

  function Interest(k: Kernel, fd: nat): nat {
    if fd in k then k[fd] else 0
  }

  /** The interest an event's mask asks for; 0 asks for none. */
  function Wanted(mask: nat): (m: nat)
    ensures m != DEFAULT_POLL_MASK
  {
    var read, write := mask % 2 == 1, mask / 2 % 2 == 1;
    if read && write then EPOLLIN + EPOLLOUT + DEFAULT_POLL_MASK
    else if read then EPOLLIN + DEFAULT_POLL_MASK
    else if write then EPOLLOUT + DEFAULT_POLL_MASK
    else 0
  }

  predicate HasBit(m: nat, bit: nat)
    requires bit > 0
  {
    m / bit % 2 == 1
  }

  /**
   The interest the mask stands for, bit by bit: input for bit 0, output for bit 1; hang-up, error
   and edge triggering with either; and no other bit.
   */
  predicate Asked(mask: nat, interest: nat) {
    var read, write := mask % 2 == 1, mask / 2 % 2 == 1;
    && (HasBit(interest, 0x1) <==> read)
    && (HasBit(interest, 0x4) <==> write)
    && (HasBit(interest, 0x8) <==> read || write)
    && (HasBit(interest, 0x10) <==> read || write)
    && (HasBit(interest, 0x8000_0000) <==> read || write)
    && !HasBit(interest, 0x2) && interest % 0x8000_0000 < 0x20 && interest < 0x1_0000_0000
  }

  /** Every mask has exactly one such interest. */
  lemma {:induction false} WantedExactly(mask: nat, interest: nat)
    ensures Asked(mask, interest) <==> interest == Wanted(mask)
  {
    if Asked(mask, interest) {
      var high, low := interest / 0x8000_0000, interest % 0x8000_0000;
      assert interest == 0x8000_0000 * high + low && high < 2;
      LowBits(low, high);
      FiveBits(low);
    }
  }

  /** The high bit does not show in the low ones. */
  lemma {:induction false} LowBits(low: nat, high: nat)
    requires low < 0x20 && high < 2
    ensures var m := 0x8000_0000 * high + low;
            && m % 2 == low % 2 && m / 2 % 2 == low / 2 % 2 && m / 4 % 2 == low / 4 % 2
            && m / 8 % 2 == low / 8 % 2 && m / 16 % 2 == low / 16 % 2
  {
    if high == 1 {
      assert (0x8000_0000 + low) / 2 == 0x4000_0000 + low / 2;
      assert (0x8000_0000 + low) / 4 == 0x2000_0000 + low / 4;
      assert (0x8000_0000 + low) / 8 == 0x1000_0000 + low / 8;
      assert (0x8000_0000 + low) / 16 == 0x800_0000 + low / 16;
    }
  }

  lemma {:induction false} FiveBits(low: nat)
    requires low < 0x20
    ensures low == low % 2 + 2 * (low / 2 % 2) + 4 * (low / 4 % 2) + 8 * (low / 8 % 2) + 16 * (low / 16 % 2)
  {
    assert low / 4 == low / 2 / 2 && low / 8 == low / 4 / 2 && low / 16 == low / 8 / 2;
  }

  // ---- epoll_ctl ----

  datatype Errno = OK | EEXIST | ENOENT

  datatype Ctl = Add(m: nat) | Mod(m: nat) | Del

  function CtlErrno(k: Kernel, op: Ctl, fd: nat): Errno {
    match op
    case Add(_) => if fd in k then EEXIST else OK
    case Mod(_) | Del => if fd in k then OK else ENOENT
  }

  function CtlKernel(k: Kernel, op: Ctl, fd: nat): Kernel {
    if CtlErrno(k, op, fd) != OK then k
    else match op
      case Add(m) => k[fd := m]
      case Mod(m) => k[fd := m]
      case Del => k - {fd}
  }

  // ---- eventpoll_apply ----

  datatype Applied = Applied(kernel: Kernel, ev: Ev, ret: int)

  function Applying(k: Kernel, ev: Ev): Applied {
    var newmask := Wanted(ev.mask);
    if newmask == ev.lastMask then Applied(k, ev, 0)
    else if newmask == 0 then Applied(CtlKernel(k, Del, ev.fd), ev, 0)
    else
      var op := if ev.lastMask != 0 then Mod(newmask) else Add(newmask);
      var ev' := ev.(lastMask := newmask);
      match CtlErrno(k, op, ev.fd)
      case OK => Applied(CtlKernel(k, op, ev.fd), ev', 0)
      case EEXIST => Applied(CtlKernel(k, Mod(newmask), ev.fd), ev', 0)
      case ENOENT => Applied(k, ev', -1)
  }

  // ---- eventpoll_poll ----

  /** What epoll_wait reports for one descriptor. */
  datatype Ready = Ready(readable: bool, writable: bool, error: bool, hangup: bool)

  function ReadyMask(r: Ready): nat {
    if r.error || r.hangup then EVMASK_ERROR
    else if r.readable && r.writable then EVMASK_READ + EVMASK_WRITE
    else if r.readable then EVMASK_READ
    else if r.writable then EVMASK_WRITE
    else EVMASK_ERROR
  }

  function Fired(ev: Ev, r: Ready): Ev {
    ev.(lastMask := DEFAULT_POLL_MASK, mask := ReadyMask(r))
  }

  /** Reading and writing are reported unless there is an error; anything else is an error. */
  lemma {:induction false} ReadyBits(r: Ready)
    ensures var m, failed := ReadyMask(r), r.error || r.hangup;
            && (HasBit(m, 1) <==> r.readable && !failed)
            && (HasBit(m, 2) <==> r.writable && !failed)
            && (HasBit(m, 4) <==> failed || (!r.readable && !r.writable))
            && m < 8
  {
  }

  /**
   An apply in any state whatever, agreeing or not: what it asks of the kernel is what the mask says,
   and it fails only where the cache claims a registration the kernel does not have.
   */
  lemma {:induction false} ApplyAnywhere(k: Kernel, ev: Ev)
    ensures var a, none := Applying(k, ev), ev.mask % 4 == 0;
            && (forall fd | fd != ev.fd :: Interest(a.kernel, fd) == Interest(k, fd) && (fd in a.kernel <==> fd in k))
            && (Asked(ev.mask, ev.lastMask) ==> a == Applied(k, ev, 0))
            && (none && ev.lastMask != 0 ==> ev.fd !in a.kernel && a.ev == ev && a.ret == 0)
            && (!none && !Asked(ev.mask, ev.lastMask) ==>
                  && Asked(ev.mask, a.ev.lastMask) && a.ev == ev.(lastMask := a.ev.lastMask)
                  && (a.ret == 0 || a.ret == -1) && (a.ret == 0 <==> ev.lastMask == 0 || ev.fd in k)
                  && if a.ret == 0 then ev.fd in a.kernel && Asked(ev.mask, a.kernel[ev.fd]) else a.kernel == k)
  {
    WantedExactly(ev.mask, ev.lastMask);
    WantedExactly(ev.mask, Wanted(ev.mask));
  }

  /** After an event has fired, the next apply tells the kernel, whatever the kernel holds for it. */
  lemma {:induction false} FiredIsTold(k: Kernel, ev: Ev, r: Ready, mask: nat)
    requires ev.fd in k
    ensures Fired(ev, r).lastMask == 0x8000_0018 && Fired(ev, r).fd == ev.fd
    ensures var a := Applying(k, Fired(ev, r).(mask := mask));
            a.ret == 0 && Asked(mask, Interest(a.kernel, ev.fd))
  {
    WantedExactly(mask, Wanted(mask));
  }

  // ---- Whole runs ----

  type Id = nat

  /** All events of one poller, the kernel, and which events have been deleted from it so far. */
  datatype Sys = Sys(events: map<Id, Ev>, kernel: Kernel, removed: set<Id>)

  datatype Step =
    | Request(id: Id, mask: nat)   // the owner of the event changes its mask
    | ApplyIt(id: Id)              // eventpoll_apply
    | Fire(id: Id, ready: Ready)   // one round of eventpoll_poll's loop

  /**
   epoll_wait reports registered events; one deleted by a callback earlier in the same batch can
   still come up.
   */
  ghost predicate Enabled(s: Sys, step: Step) {
    && step.id in s.events
    && (step.Fire? ==> s.events[step.id].fd in s.kernel || step.id in s.removed)
  }

  predicate Removes(ev: Ev) {
    Wanted(ev.mask) == 0 && ev.lastMask != 0
  }

  function Next(s: Sys, step: Step): Sys
    requires step.id in s.events
  {
    var id, ev := step.id, s.events[step.id];
    match step
    case Request(_, mask) => s.(events := s.events[id := ev.(mask := mask)])
    case Fire(_, ready) => s.(events := s.events[id := Fired(ev, ready)])
    case ApplyIt(_) =>
      var a := Applying(s.kernel, ev);
      Sys(s.events[id := a.ev], a.kernel, if Removes(ev) then s.removed + {id} else s.removed)
  }

  ghost predicate DistinctFds(s: Sys) {
    forall i, j | i in s.events && j in s.events && s.events[i].fd == s.events[j].fd :: i == j
  }

  /** The cache of one event agrees with the kernel. */
  ghost predicate Agrees(ev: Ev, k: Kernel) {
    && (ev.lastMask == 0 <==> ev.fd !in k)
    && (ev.fd in k ==> ev.lastMask == DEFAULT_POLL_MASK || ev.lastMask == k[ev.fd])
  }

  /** After its removal an event is out of the kernel, and its cache says otherwise. */
  ghost predicate Lost(ev: Ev, k: Kernel) {
    ev.lastMask != 0 && ev.fd !in k
  }

  ghost predicate EvInv(ev: Ev, k: Kernel, removed: bool) {
    if removed then Lost(ev, k) else Agrees(ev, k)
  }

  ghost predicate Inv(s: Sys) {
    && DistinctFds(s)
    && s.removed <= s.events.Keys
    && forall i | i in s.events :: EvInv(s.events[i], s.kernel, i in s.removed)
  }

  /** One apply, on the event itself. */
  lemma {:induction false} ApplyEvent(k: Kernel, ev: Ev, removed: bool)
    requires EvInv(ev, k, removed)
    ensures var a := Applying(k, ev);
            && a.ev.fd == ev.fd
            && EvInv(a.ev, a.kernel, removed || Removes(ev))
            && (forall fd | fd != ev.fd :: Interest(a.kernel, fd) == Interest(k, fd) && (fd in a.kernel <==> fd in k))
            && (Interest(a.kernel, ev.fd) == Wanted(ev.mask) <==> !removed || Wanted(ev.mask) == 0)
            && (a.ret == -1 <==> removed && Wanted(ev.mask) != 0 && Wanted(ev.mask) != ev.lastMask)
  {
  }

  lemma {:induction false} OthersKeep(ev: Ev, k: Kernel, k': Kernel, removed: bool)
    requires EvInv(ev, k, removed)
    requires Interest(k', ev.fd) == Interest(k, ev.fd) && (ev.fd in k' <==> ev.fd in k)
    ensures EvInv(ev, k', removed)
  {
  }

  lemma {:induction false} NextKeepsInv(s: Sys, step: Step)
    requires Inv(s) && Enabled(s, step)
    ensures Inv(Next(s, step)) && s.removed <= Next(s, step).removed
    ensures Next(s, step).events.Keys == s.events.Keys
    ensures forall i | i in s.events :: Next(s, step).events[i].fd == s.events[i].fd
  {
    var id, ev, s' := step.id, s.events[step.id], Next(s, step);
    ApplyEvent(s.kernel, ev, id in s.removed);
    forall i | i in s'.events ensures EvInv(s'.events[i], s'.kernel, i in s'.removed) {
      if i != id {
        assert s'.events[i] == s.events[i] && s.events[i].fd != ev.fd;
        OthersKeep(s.events[i], s.kernel, s'.kernel, i in s.removed);
      }
    }
    forall i, j | i in s'.events && j in s'.events && s'.events[i].fd == s'.events[j].fd ensures i == j {
      assert s.events[i].fd == s.events[j].fd;
    }
  }

  ghost predicate EnabledRun(s: Sys, steps: seq<Step>)
    decreases |steps|
  {
    steps == [] || (Enabled(s, steps[0]) && EnabledRun(Next(s, steps[0]), steps[1..]))
  }

  ghost function Run(s: Sys, steps: seq<Step>): Sys
    requires EnabledRun(s, steps)
    decreases |steps|
  {
    if steps == [] then s else Run(Next(s, steps[0]), steps[1..])
  }

  lemma {:induction false} RunKeepsInv(s: Sys, steps: seq<Step>)
    requires Inv(s) && EnabledRun(s, steps)
    ensures Inv(Run(s, steps)) && s.removed <= Run(s, steps).removed
    ensures Run(s, steps).events.Keys == s.events.Keys
    ensures forall i | i in s.events :: Run(s, steps).events[i].fd == s.events[i].fd
    decreases |steps|
  {
    if steps != [] {
      NextKeepsInv(s, steps[0]);
      RunKeepsInv(Next(s, steps[0]), steps[1..]);
    }
  }

  /** event_init has run for every event and none is registered yet. */
  ghost predicate Initial(s: Sys) {
    && DistinctFds(s) && s.removed == {}
    && forall i | i in s.events :: s.events[i].lastMask == 0 && s.events[i].fd !in s.kernel
  }

  /**
   In every run, up to an event's first removal `last_mask` is 0 exactly when the event is not
   registered; and applying it leaves the kernel with the requested interest, although every poll
   overwrites the cache.
   */
  lemma {:induction false} CacheAgrees(s: Sys, steps: seq<Step>, id: Id)
    requires Initial(s) && EnabledRun(s, steps) && id in s.events
    ensures var r := Run(s, steps);
            && id in r.events
            && (id !in r.removed ==>
                  && (r.events[id].lastMask == 0 <==> r.events[id].fd !in r.kernel)
                  && (var a := Applying(r.kernel, r.events[id]);
                      a.ret == 0 && Asked(r.events[id].mask, Interest(a.kernel, r.events[id].fd))))
  {
    RunKeepsInv(s, steps);
    var r := Run(s, steps);
    WantedExactly(r.events[id].mask, Wanted(r.events[id].mask));
    ApplyEvent(r.kernel, r.events[id], id in r.removed);
  }

  /**
   The boundary, exactly: after any run, applying an event gives the kernel the requested interest
   if and only if the event was never removed or nothing is requested. A removed event stays out of
   the kernel for ever; re-applying it fails, or, when it asks for what the cache still holds,
   reports success and does nothing.
   */
  lemma {:induction false} ApplyExactly(s: Sys, steps: seq<Step>, id: Id)
    requires Initial(s) && EnabledRun(s, steps) && id in s.events
    ensures var r := Run(s, steps);
            && id in r.events
            && var ev, a := r.events[id], Applying(r.kernel, r.events[id]);
            && (Interest(a.kernel, ev.fd) == Wanted(ev.mask) <==> id !in r.removed || Wanted(ev.mask) == 0)
            && (a.ret == 0 <==> id !in r.removed || Wanted(ev.mask) == 0 || Wanted(ev.mask) == ev.lastMask)
            && (id in r.removed ==> ev.fd !in r.kernel && ev.fd !in a.kernel)
  {
    RunKeepsInv(s, steps);
    var r := Run(s, steps);
    ApplyEvent(r.kernel, r.events[id], id in r.removed);
  }

  /**
   After any run: a new mask, applied, is what the kernel knows of an event that was never removed,
   and what it knows of the others stays as it was.
   */
  lemma {:induction false} RequestIsTold(s: Sys, steps: seq<Step>, id: Id, mask: nat)
    requires Initial(s) && EnabledRun(s, steps) && id in s.events && id !in Run(s, steps).removed
    ensures var r := Run(s, steps);
            && id in r.events
            && var told, fd := Next(Next(r, Request(id, mask)), ApplyIt(id)), s.events[id].fd;
            && Asked(mask, Interest(told.kernel, fd))
            && forall other | other != fd :: Interest(told.kernel, other) == Interest(r.kernel, other)
  {
    RunKeepsInv(s, steps);
    var r := Run(s, steps);
    ApplyEvent(r.kernel, r.events[id].(mask := mask), false);
    WantedExactly(mask, Wanted(mask));
  }

  /** What firing tells the callback, and that it changes neither the kernel nor another event. */
  lemma {:induction false} FireReports(s: Sys, id: Id, ready: Ready)
    requires id in s.events
    ensures var s', failed := Next(s, Fire(id, ready)), ready.error || ready.hangup;
            && s'.kernel == s.kernel && s'.removed == s.removed && s'.events.Keys == s.events.Keys
            && (forall i | i in s.events && i != id :: s'.events[i] == s.events[i])
            && (HasBit(s'.events[id].mask, 1) <==> ready.readable && !failed)
            && (HasBit(s'.events[id].mask, 2) <==> ready.writable && !failed)
            && (HasBit(s'.events[id].mask, 4) <==> failed || (!ready.readable && !ready.writable))
  {
    ReadyBits(ready);
  }

  /** A removed event is registered in no later state, whatever is done. */
  lemma {:induction false} RemovedForEver(s: Sys, steps: seq<Step>, more: seq<Step>, id: Id)
    requires Initial(s) && EnabledRun(s, steps) && id in s.events && id in Run(s, steps).removed
    requires EnabledRun(Run(s, steps), more)
    ensures var r := Run(Run(s, steps), more); id in r.events && r.events[id].fd !in r.kernel
  {
    RunKeepsInv(s, steps);
    RunKeepsInv(Run(s, steps), more);
    var r := Run(Run(s, steps), more);
    assert EvInv(r.events[id], r.kernel, true);
  }

  /** An event that is removed and asked for again: apply reports success, the kernel knows nothing. */
  lemma {:induction false} SilentLoss()
    ensures var ev := Ev(3, EVMASK_READ, 0);
            var added := Applying(map[], ev);
            var deleted := Applying(added.kernel, added.ev.(mask := 0));
            var again := Applying(deleted.kernel, deleted.ev.(mask := EVMASK_READ));
            added.kernel == map[3 := EPOLLIN + DEFAULT_POLL_MASK] && again.ret == 0 && again.kernel == map[]
  {
    assert map[3 := EPOLLIN + DEFAULT_POLL_MASK] - {3} == map[];
  }

  // ---- The objects ----

  class Event {
    var fd: nat
    var mask: nat
    var lastMask: nat

    /** event_init. */
    constructor (fd: nat, mask: nat)
      ensures State() == Ev(fd, mask, 0)
    {
      this.fd, this.mask, lastMask := fd, mask, 0;
    }

    ghost function State(): Ev
      reads this
    {
      Ev(fd, mask, lastMask)
    }
  }

  class Poller {
    var kernel: Kernel

    /** epoll_ctl. */
    method Control(op: Ctl, fd: nat) returns (errno: Errno)
      modifies this
      ensures errno == CtlErrno(old(kernel), op, fd) && kernel == CtlKernel(old(kernel), op, fd)
    {
      errno := CtlErrno(kernel, op, fd);
      if errno == OK {
        match op {
          case Add(m) => kernel := kernel[fd := m];
          case Mod(m) => kernel := kernel[fd := m];
          case Del => kernel := kernel - {fd};
        }
      }
    }

    /** eventpoll_apply. */
    method Apply(ev: Event) returns (ret: int)
      modifies this, ev
      ensures Applying(old(kernel), old(ev.State())) == Applied(kernel, ev.State(), ret)
    {
      var newmask := Wanted(ev.mask);
      if newmask == ev.lastMask {
        return 0;
      }
      if newmask == 0 {
        var errno := Control(Del, ev.fd);
        ret := if errno == OK || errno == ENOENT then 0 else -1;
      } else {
        var op := if ev.lastMask != 0 then Mod(newmask) else Add(newmask);
        ev.lastMask := newmask;
        var errno := Control(op, ev.fd);
        if errno == EEXIST && op.Add? {
          errno := Control(Mod(newmask), ev.fd);
        }
        ret := if errno == OK then 0 else -1;
      }
    }

    /** The loop of eventpoll_poll over one batch, without the callbacks. */
    method Poll(batch: seq<(Event, Ready)>)
      requires forall i, j :: 0 <= i < j < |batch| ==> batch[i].0 != batch[j].0
      modifies set i | 0 <= i < |batch| :: batch[i].0
      ensures forall i :: 0 <= i < |batch| ==> batch[i].0.State() == Fired(old(batch[i].0.State()), batch[i].1)
    {
      for i := 0 to |batch|
        invariant forall j :: 0 <= j < i ==> batch[j].0.State() == Fired(old(batch[j].0.State()), batch[j].1)
        invariant forall j :: i <= j < |batch| ==> batch[j].0.State() == old(batch[j].0.State())
      {
        var ev := batch[i].0;
        ev.lastMask := DEFAULT_POLL_MASK;
        ev.mask := ReadyMask(batch[i].1);
      }
    }
  }
}

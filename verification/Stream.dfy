/**
 The buffered stream of stream.c over one ByteBuffer.

 What writev will return, call by call, is a script given with the stream: it accepts a prefix of
 what it is offered, or fails; `sink` is everything it has accepted so far. What readv delivers is an
 input. The stream lock is held around each operation, so operations do not overlap.
 */
module Stream {
  import opened Common
  import opened Buffer
  import Framing

  const READALL_LEN: nat := 65535   // STM_READALL_LEN
  const EAGAIN: int := 11
  const MAX_TRANSFER: nat := 0x8000_0000   // writev's count is kept in an int

  // ---- writev ----

  /** What one call of writev does: it takes at most `n` bytes, or fails. */
  datatype Outcome = Accept(n: nat) | Fail(errno: int)

  /** A script that has run out goes on refusing. */
  function Head(script: seq<Outcome>): Outcome {
    if script == [] then Fail(EAGAIN) else script[0]
  }

  function Tail(script: seq<Outcome>): seq<Outcome> {
    if script == [] then [] else script[1..]
  }

  function Took(total: nat, o: Outcome): (n: nat)
    ensures n <= total
  {
    if o.Accept? then Min(o.n, total) else 0
  }

  /** A write loop: how many bytes were accepted, what the last call did, and the script left over. */
  datatype Loop = Loop(accepted: nat, last: Outcome, rest: seq<Outcome>)

  /** Calls for as long as they take some of what is left of `total` bytes and leave some. */
  function WriteLoop(total: nat, script: seq<Outcome>): (r: Loop)
    ensures r.accepted <= total
    decreases |script|
  {
    var n := Took(total, Head(script));
    if n == 0 || n == total then Loop(n, Head(script), Tail(script))
    else
      var r := WriteLoop(total - n, Tail(script));
      r.(accepted := n + r.accepted)
  }

  predicate Refuses(o: Outcome) {
    o.Fail? || o.n == 0
  }

  function Capacity(script: seq<Outcome>): nat {
    if script == [] then 0 else Capacity(script[1..]) + if script[0].Accept? then script[0].n else 0
  }

  /** `f` is the first call of the script that refuses; one after its end does. */
  ghost predicate RefusesFirst(script: seq<Outcome>, f: nat) {
    f <= |script| && Refuses(Head(script[f..])) && forall i :: 0 <= i < f ==> !Refuses(script[i])
  }

  /**
   The loop in closed form: what is accepted is what the calls before the first refusal take together,
   up to the total; and the loop ends on that refusal exactly when there is some left to offer it.
   */
  lemma {:induction false} LoopExactly(total: nat, script: seq<Outcome>, f: nat)
    requires RefusesFirst(script, f)
    ensures var r, sum := WriteLoop(total, script), Capacity(script[..f]);
            && r.accepted == Min(total, sum)
            && (Refuses(r.last) <==> sum < total || (total == 0 && f == 0))
            && (Refuses(r.last) ==> r.last == Head(script[f..]) && r.rest == Tail(script[f..]))
    decreases |script|
  {
    if f > 0 {
      RefusesLater(script, f);
      var n := Took(total, script[0]);
      if 0 < n < total { LoopExactly(total - n, script[1..], f - 1); }
    }
  }

  lemma {:induction false} RefusesLater(script: seq<Outcome>, f: nat)
    requires f > 0 && RefusesFirst(script, f)
    ensures !Refuses(script[0]) && RefusesFirst(script[1..], f - 1) && script[f..] == script[1..][f - 1..]
    ensures Capacity(script[..f]) == script[0].n + Capacity(script[1..][..f - 1])
  {
    assert script[..f][1..] == script[1..][..f - 1];
  }

  /** A loop that gets everything accepted makes no call too many. */
  lemma {:induction false} NoCallTooMany(total: nat, script: seq<Outcome>)
    requires WriteLoop(total, script).accepted == total > 0
    ensures var rest := WriteLoop(total, script).rest; var c := |script| - |rest|;
            LeastCalls(total, script, c) && rest == script[c..]
    decreases |script|
  {
    var n := Took(total, Head(script));
    if n < total {
      NoCallTooMany(total - n, script[1..]);
      OneCallMore(total, script, |script| - |WriteLoop(total, script).rest|);
    } else {
      OneCall(total, script);
    }
  }

  /** `c` calls, and no fewer, have room for the total. */
  ghost predicate LeastCalls(total: nat, script: seq<Outcome>, c: int) {
    0 < c <= |script| && Capacity(script[..c - 1]) < total <= Capacity(script[..c])
  }

  lemma {:induction false} OneCall(total: nat, script: seq<Outcome>)
    requires script != [] && script[0].Accept? && script[0].n >= total > 0
    ensures LeastCalls(total, script, 1)
  {
    assert script[..1][1..] == [];
  }

  lemma {:induction false} OneCallMore(total: nat, script: seq<Outcome>, c: int)
    requires script != [] && script[0].Accept? && script[0].n < total
    requires LeastCalls(total - script[0].n, script[1..], c - 1)
    ensures LeastCalls(total, script, c)
  {
    assert script[..c][1..] == script[1..][..c - 1];
    assert script[..c - 1][1..] == script[1..][..c - 2];
  }

  /** `r` is `k` bytes, and then what a write loop does with `total` more. */
  ghost predicate Continues(r: Loop, k: nat, total: nat, script: seq<Outcome>) {
    var rest := WriteLoop(total, script);
    r == rest.(accepted := k + rest.accepted)
  }

  /** One call more. */
  lemma {:induction false} CallMade(r: Loop, k: nat, total: nat, script: seq<Outcome>, n: nat)
    requires Continues(r, k, total, script) && n == Took(total, Head(script))
    ensures n == 0 || n == total ==> r == Loop(k + n, Head(script), Tail(script))
    ensures 0 < n < total ==> Continues(r, k + n, total - n, Tail(script))
  {
  }

  // ---- What a write loop does to the unread bytes and the data ----

  /** What is left of `u` after its first `k` bytes, or all of them, are gone. */
  function Dropped(u: seq<byte>, k: nat): (r: seq<byte>)
    ensures |r| == |u| - Min(k, |u|)
  {
    u[Min(k, |u|)..]
  }

  /** What has not been accepted yet, after `k` bytes. */
  lemma {:induction false} LeftToOffer(u: seq<byte>, d: seq<byte>, k: nat)
    requires k <= |u| + |d|
    ensures Dropped(u, k) + d[if k < |u| then 0 else k - |u|..] == (u + d)[k..]
  {
  }

  lemma {:induction false} OffersTheRest(u: seq<byte>, d: seq<byte>, k: nat, left: seq<byte>, off: nat)
    requires k <= |u| + |d| && left == Dropped(u, k) && off <= |d| && |left| + |d| - off == |u| + |d| - k
    ensures left + d[off..] == (u + d)[k..]
  {
    LeftToOffer(u, d, k);
  }

  lemma {:induction false} TakeFurther(s: seq<byte>, all: seq<byte>, k: nat, n: nat)
    requires k + n <= |all|
    ensures s + all[..k] + all[k..][..n] == s + all[..k + n]
  {
    assert all[..k] + all[k..][..n] == all[..k + n];
  }

  /** `n` more bytes of what is left, after `k` bytes. */
  lemma {:induction false} AcceptedMore(before: seq<byte>, u: seq<byte>, d: seq<byte>, k: nat, n: nat,
                                        left: seq<byte>, off: nat)
    requires k <= |u| + |d| && left == Dropped(u, k) && off <= |d| && |left| + |d| - off == |u| + |d| - k
    requires n <= |left| + |d| - off
    ensures before + (u + d)[..k] + (left + d[off..])[..n] == before + (u + d)[..k + n]
  {
    OffersTheRest(u, d, k, left, off);
    TakeFurther(before, u + d, k, n);
  }

  /** What an overflowing fill makes of the unread bytes. */
  function Filled(unread: seq<byte>, stored: (bool, bool), found: (seq<byte>, seq<byte>), surplus: seq<byte>): seq<byte>
    requires |found.1| == |surplus|
  {
    var counted := if stored.0 then unread + found.0 else unread;
    if stored.1 then Overwrite(counted + found.1, surplus) else counted
  }

  /** Which of the two buffer writes of an overflowing fill succeed. */
  function StoredWrites(unread: nat, rpos: nat, size: nat, cnt: nat, surplus: nat, grants: (bool, bool)): (bool, bool) {
    var first := grants.0 || (rpos > 0 && unread + cnt <= size);
    (first, grants.1 || unread + (if first then cnt else 0) + surplus <= size)
  }

  /** The fill leaves the unread bytes followed by what was read, whatever the memory it counts in held. */
  ghost predicate FillAppends(unread: seq<byte>, incoming: seq<byte>, space: nat, stored: (bool, bool))
    requires space <= |incoming|
  {
    forall found: (seq<byte>, seq<byte>) | |found.0| == |incoming| && |found.1| == |incoming| - space ::
      Filled(unread, stored, found, incoming[space..]) == unread + incoming
  }

  lemma {:induction false} AppendsWhenStored(unread: seq<byte>, incoming: seq<byte>, space: nat, stored: (bool, bool))
    requires space < |incoming|
    ensures FillAppends(unread, incoming, space, stored) <==> unread == [] && space == 0 && stored == (false, true)
  {
    var surplus := incoming[space..];
    if unread == [] && space == 0 && stored == (false, true) {
      forall found: (seq<byte>, seq<byte>) | |found.0| == |incoming| && |found.1| == |incoming| - space
        ensures Filled(unread, stored, found, surplus) == unread + incoming
      {
        assert surplus == incoming && Overwrite(unread + found.1, surplus) == incoming;
      }
    } else {
      // memory whose last byte differs from what was read
      var last := incoming[|incoming| - 1];
      var other: byte := if last == 0 then 1 else 0;
      var found := (seq(|incoming|, _ => other), seq(|surplus|, _ => other));
      assert |found.0| == |incoming| && |found.1| == |incoming| - space;
      var r := Filled(unread, stored, found, surplus);
      if |r| == |unread| + |incoming| {
        assert r[|r| - 1] == other;
        assert (unread + incoming)[|r| - 1] == last;
      }
    }
  }

  /**
   In terms of the buffer before the call: an overflowing fill is an append, whatever the memory it
   counts in held, if and only if the buffer had no unread bytes and size 0, the first allocation
   is refused and the second granted.
   */
  lemma {:induction false} FillAppendsExactly(unread: seq<byte>, rpos: nat, size: nat, incoming: seq<byte>,
                                              grants: (bool, bool))
    requires rpos + |unread| <= size < rpos + |unread| + |incoming| && (unread == [] ==> rpos == 0)
    ensures var space := size - rpos - |unread|;
            FillAppends(unread, incoming, space,
                        StoredWrites(|unread|, rpos, size, |incoming|, |incoming| - space, grants))
            <==> unread == [] && size == 0 && grants == (false, true)
  {
    var space := size - rpos - |unread|;
    AppendsWhenStored(unread, incoming, space,
                      StoredWrites(|unread|, rpos, size, |incoming|, |incoming| - space, grants));
  }

  /** The two iovecs of `_stream_write`: `blen` unread bytes from `base`, and `dlen` bytes of data from `off`. */
  datatype Vectors = Vectors(iovcnt: nat, base: nat, blen: nat, off: nat, dlen: nat) {
    function Total(): nat {
      if iovcnt == 2 then blen + dlen else dlen
    }
  }

  class BufferedStream {
    const buf: ByteBuffer
    var sink: seq<byte>
    var needWrite: bool   // EVMASK_WRITE in need_mask
    var needRead: bool    // EVMASK_READ in need_mask
    var lastErr: int
    var script: seq<Outcome>   // what writev is going to do

    ghost predicate Valid()
      reads this, buf
    {
      buf.Valid()
    }

    ghost function Unread(): seq<byte>
      requires Valid()
      reads this, buf, buf.mem
    {
      buf.Unread()
    }

    /** stream_new over a ready buffer. */
    constructor (buf: ByteBuffer, script: seq<Outcome>)
      requires buf.Valid()
      ensures Valid() && this.buf == buf && sink == [] && this.script == script
    {
      this.buf, this.script := buf, script;
      sink := [];
      needWrite, needRead, lastErr := false, false, 0;
    }

    /** What a call that took nothing leaves behind: its errno, and a wish to be polled after EAGAIN. */
    ghost predicate Noted(o: Outcome, asked: bool)
      reads this
    {
      && lastErr == (if o.Fail? then o.errno else 0)
      && (needWrite <==> asked || o == Fail(EAGAIN))
    }

    /** fd_writev. */
    method Writev(offered: seq<byte>) returns (ok: bool, n: nat)
      modifies this
      ensures n == Took(|offered|, Head(old(script))) && script == Tail(old(script))
      ensures ok <==> n > 0
      ensures sink == old(sink) + offered[..n] && needRead == old(needRead)
      ensures ok ==> lastErr == old(lastErr) && needWrite == old(needWrite)
      ensures !ok ==> Noted(Head(old(script)), old(needWrite))
    {
      var outcome := Head(script);
      script := Tail(script);
      n := 0;
      match outcome {
        case Fail(errno) =>
          lastErr := errno;
          if errno == EAGAIN {
            needWrite := true;
          }
          ok := false;
        case Accept(limit) =>
          n := Min(limit, |offered|);
          ok := n != 0;
          if ok {
            sink := sink + offered[..n];
          } else {
            lastErr := 0;
          }
      }
    }

    /** The vectors describe what is unread and what is left of `len` bytes of data, in that order. */
    ghost predicate Aligned(v: Vectors, len: nat)
      requires Valid()
      reads this, buf
    {
      && v.off + v.dlen == len && (v.iovcnt == 1 || v.iovcnt == 2)
      && (v.iovcnt == 2 ==> v.blen == buf.Avail() && v.off == 0 && (v.blen > 0 ==> v.base == buf.rpos))
      && (v.iovcnt == 1 ==> buf.Avail() == 0)
    }

    /** One writev over the remaining vectors: two of them, or the data alone. */
    method Offer(v: Vectors, data: seq<byte>) returns (ok: bool, n: nat)
      requires Valid() && Aligned(v, |data|)
      modifies this
      ensures n == Took(v.Total(), Head(old(script))) && script == Tail(old(script))
      ensures ok <==> n > 0
      ensures sink == old(sink) + (Unread() + data[v.off..])[..n] && needRead == old(needRead)
      ensures ok ==> lastErr == old(lastErr) && needWrite == old(needWrite)
      ensures !ok ==> Noted(Head(old(script)), old(needWrite))
    {
      var vector0 := if v.iovcnt == 2 && v.blen > 0 then buf.mem[v.base..v.base + v.blen] else [];
      assert vector0 == Unread();
      ok, n := Writev(vector0 + data[v.off..]);
    }

    /** After a short write of `n` bytes: drop them from the buffer and move the vectors on. */
    method Advance(v: Vectors, n: nat, ravail: nat, ghost len: nat) returns (v': Vectors)
      requires Valid() && Aligned(v, len) && 0 < n < v.Total() && buf.Avail() <= ravail
      modifies buf`rpos, buf`wpos
      ensures Valid() && Aligned(v', len) && v'.Total() == v.Total() - n
      ensures buf.Avail() > 0 ==> buf.wpos == old(buf.wpos)
      ensures buf.Avail() == old(buf.Avail()) - Min(n, old(buf.Avail()))
    {
      if v.iovcnt == 2 && n > v.blen {
        var _, _ := buf.Read(ravail);
        v' := Vectors(1, 0, 0, v.off + (n - v.blen), v.dlen - (n - v.blen));
      } else if v.iovcnt == 2 {
        var _, _ := buf.Read(n);
        v' := v.(base := v.base + n, blen := v.blen - n);
      } else {
        v' := v.(off := v.off + n, dlen := v.dlen - n);
      }
    }

    /** After `k` bytes of the bytes `u` that were unread and of the data, `before` being the sink till then. */
    ghost predicate Progress(before: seq<byte>, u: seq<byte>, data: seq<byte>, k: nat)
      requires Valid()
      reads this, buf, buf.mem
    {
      && k <= |u| + |data|
      && sink == before + (u + data)[..k]
      && Unread() == Dropped(u, k)
    }

    /**
     The same in positions, `w` being the write position till then: the bytes stay where they are in
     the block, and what is unread is the end of `u`.
     */
    ghost predicate Moved(before: seq<byte>, u: seq<byte>, data: seq<byte>, k: nat, w: nat)
      requires Valid()
      reads this, buf
    {
      && k <= |u| + |data|
      && sink == before + (u + data)[..k]
      && buf.Avail() == |u| - Min(k, |u|)
      && (buf.Avail() > 0 ==> buf.wpos == w)
    }

    lemma {:induction false} UnreadEnd(u: seq<byte>, k: nat, w: nat)
      requires Valid() && |u| <= w <= buf.mem.Length && u == buf.mem[w - |u|..w]
      requires buf.Avail() == |u| - Min(k, |u|) && (buf.Avail() > 0 ==> buf.wpos == w)
      ensures Unread() == Dropped(u, k)
    {
    }

    /**
     The direct-write loop of `_stream_write`: first the unread bytes, then the data. Exactly what the
     calls of writev accept has moved to the sink; it fails unless that is everything, and something.
     */
    method WriteDirect(data: seq<byte>) returns (ret: int)
      requires Valid() && |Unread()| + |data| < MAX_TRANSFER
      modifies this, buf`rpos, buf`wpos
      ensures Valid()
      ensures var u, r := old(Unread()), WriteLoop(|old(Unread())| + |data|, old(script));
              && Progress(old(sink), u, data, r.accepted) && script == r.rest
              && ret == (if r.accepted == |u| + |data| > 0 then 0 else -1)
              && (ret == -1 ==> Noted(r.last, old(needWrite)))
      ensures ret == 0 ==> lastErr == old(lastErr) && needWrite == old(needWrite)
      ensures needRead == old(needRead) && (Unread() != [] ==> buf.wpos == old(buf.wpos))
    {
      ghost var u, k := Unread(), 0;
      ret, k := WriteAll(data, u, buf.wpos);
      UnreadEnd(u, k, old(buf.wpos));
    }

    /** The loop itself. */
    method WriteAll(data: seq<byte>, ghost u: seq<byte>, ghost w: nat) returns (ret: int, ghost k: nat)
      requires Valid() && u == Unread() && w == buf.wpos && |u| + |data| < MAX_TRANSFER
      modifies this, buf`rpos, buf`wpos
      ensures Valid()
      ensures var r := WriteLoop(|u| + |data|, old(script));
              && k == r.accepted && Moved(old(sink), u, data, k, w) && script == r.rest
              && ret == (if k == |u| + |data| > 0 then 0 else -1)
              && (ret == -1 ==> Noted(r.last, old(needWrite)))
      ensures ret == 0 ==> lastErr == old(lastErr) && needWrite == old(needWrite)
      ensures needRead == old(needRead)
    {
      var ravail := buf.Avail();
      var v := Vectors(2, buf.rpos, ravail, 0, |data|);
      var towrite := v.Total();
      k := 0;
      ghost var r := WriteLoop(towrite, script);
      assert sink + (u + data)[..0] == sink;
      while true
        invariant Valid() && Aligned(v, |data|) && towrite == v.Total() == |u| + |data| - k && buf.Avail() <= ravail
        invariant Moved(old(sink), u, data, k, w) && Continues(r, k, towrite, script)
        invariant k > 0 ==> towrite > 0
        invariant lastErr == old(lastErr) && needWrite == old(needWrite) && needRead == old(needRead)
        decreases towrite
      {
        var ok, done;
        ok, done, v, towrite, k := WriteOnce(v, data, ravail, towrite, old(sink), u, r, k, w);
        if !ok {
          return -1, k;
        }
        if done {
          return 0, k;
        }
      }
    }

    /** One turn of the loop. */
    method WriteOnce(v: Vectors, data: seq<byte>, ravail: nat, towrite: nat,
                     ghost before: seq<byte>, ghost u: seq<byte>, ghost r: Loop, ghost k: nat, ghost w: nat)
      returns (ok: bool, done: bool, v': Vectors, towrite': nat, ghost k': nat)
      requires Valid() && Aligned(v, |data|) && towrite == v.Total() == |u| + |data| - k && buf.Avail() <= ravail
      requires |u| <= w <= buf.mem.Length && u == buf.mem[w - |u|..w]
      requires Moved(before, u, data, k, w) && Continues(r, k, towrite, script)
      modifies this, buf`rpos, buf`wpos
      ensures Valid() && Moved(before, u, data, k', w) && buf.Avail() <= ravail && needRead == old(needRead)
      ensures ok ==> towrite > 0 && lastErr == old(lastErr) && needWrite == old(needWrite)
      ensures !ok ==> k' == k && r == Loop(k, r.last, script) && Noted(r.last, old(needWrite))
      ensures ok && done ==> k' == |u| + |data| && r == Loop(k', r.last, script)
      ensures ok && !done ==>
                && Aligned(v', |data|) && towrite' == v'.Total() == |u| + |data| - k' && 0 < towrite' < towrite
                && Continues(r, k', towrite', script)
    {
      var n;
      ok, n := OfferMore(v, data, before, u, r, k, w);
      done, v', towrite', k' := false, v, towrite, k + n;
      if ok {
        done, v', towrite' := Drop(v, n, ravail, towrite, |data|);
      }
    }

    /** What was accepted leaves the buffer and the vectors. */
    method Drop(v: Vectors, n: nat, ravail: nat, towrite: nat, ghost len: nat)
      returns (done: bool, v': Vectors, towrite': nat)
      requires Valid() && Aligned(v, len) && 0 < n <= towrite == v.Total() && buf.Avail() <= ravail
      modifies buf`rpos, buf`wpos
      ensures Valid() && (done <==> n == towrite)
      ensures buf.Avail() == old(buf.Avail()) - Min(n, old(buf.Avail()))
      ensures buf.Avail() > 0 ==> buf.wpos == old(buf.wpos)
      ensures !done ==> Aligned(v', len) && towrite' == v'.Total() == towrite - n
    {
      done, v', towrite' := n == towrite, v, towrite;
      if done {
        var _, _ := buf.Read(ravail);
      } else {
        towrite' := towrite - n;
        v' := Advance(v, n, ravail, len);
      }
    }

    /** The call of one turn of that loop: what it accepts follows the `k` bytes before it. */
    method OfferMore(v: Vectors, data: seq<byte>,
                     ghost before: seq<byte>, ghost u: seq<byte>, ghost r: Loop, ghost k: nat, ghost w: nat)
      returns (ok: bool, n: nat)
      requires Valid() && Aligned(v, |data|) && v.Total() == |u| + |data| - k
      requires |u| <= w <= buf.mem.Length && u == buf.mem[w - |u|..w]
      requires Moved(before, u, data, k, w) && Continues(r, k, v.Total(), script)
      modifies this
      ensures (ok <==> n > 0) && n <= v.Total() && needRead == old(needRead)
      ensures sink == before + (u + data)[..k + n]
      ensures ok ==> lastErr == old(lastErr) && needWrite == old(needWrite)
      ensures !ok ==> r == Loop(k, r.last, script) && Noted(r.last, old(needWrite))
      ensures ok && n == v.Total() ==> r == Loop(k + n, r.last, script)
      ensures ok && n < v.Total() ==> Continues(r, k + n, v.Total() - n, script)
    {
      UnreadEnd(u, k, w);
      ok, n := Offer(v, data);
      CallMade(r, k, v.Total(), old(script), n);
      AcceptedMore(before, u, data, k, n, Unread(), v.off);
    }

    /**
     `_stream_write`. Data shorter than the free space is buffered, by a write that lands on the
     read position (`tail` is what lay behind the unread bytes); anything else goes straight out.
     */
    method WriteRaw(data: seq<byte>) returns (ret: int, ghost tail: seq<byte>)
      requires Valid() && |Unread()| + |data| < MAX_TRANSFER
      modifies this, buf, buf.mem
      ensures Valid() && buf.mem == old(buf.mem) && needRead == old(needRead)
      ensures ret == 0 ==> lastErr == old(lastErr) && needWrite == old(needWrite)
      ensures 0 < |data| < old(buf.Space()) ==>
                && ret == 0 && sink == old(sink) && script == old(script) && buf.wpos == old(buf.wpos) + |data|
                && tail == old(buf.mem[buf.wpos..buf.wpos + |data|])
                && Unread() == Overwrite(old(Unread()) + tail, data)
      ensures !(0 < |data| < old(buf.Space())) ==>
                var u, r := old(Unread()), WriteLoop(|old(Unread())| + |data|, old(script));
                && Progress(old(sink), u, data, r.accepted) && script == r.rest
                && ret == (if r.accepted == |u| + |data| > 0 then 0 else -1)
                && (ret == -1 ==> Noted(r.last, old(needWrite)))
                && (Unread() != [] ==> buf.wpos == old(buf.wpos))
    {
      tail := [];
      if |data| > 0 && |data| < buf.Space() {
        var n;
        n, tail := buf.Write(Some(data), |data|, false);
        return 0, tail;
      }
      ret := WriteDirect(data);
    }

    /**
     stream_flush: the sink grows by exactly what the calls of writev accept of the unread bytes; it
     succeeds exactly when that is all of them.
     */
    method Flush() returns (ret: int)
      requires Valid() && |Unread()| < MAX_TRANSFER
      modifies this, buf, buf.mem
      ensures Valid() && buf.mem == old(buf.mem) && needRead == old(needRead)
      ensures old(Unread()) == [] ==>
                && ret == 0 && sink == old(sink) && Unread() == [] && script == old(script)
                && buf.wpos == old(buf.wpos) && lastErr == old(lastErr) && needWrite == old(needWrite)
      ensures old(Unread()) != [] ==>
                var u, r := old(Unread()), WriteLoop(|old(Unread())|, old(script));
                && sink == old(sink) + u[..r.accepted] && Unread() == u[r.accepted..] && script == r.rest
                && ret == (if r.accepted == |u| then 0 else -1)
                && (ret == -1 ==> Noted(r.last, old(needWrite)))
      ensures Unread() != [] ==> buf.wpos == old(buf.wpos)
    {
      ret := 0;
      if buf.Avail() > 0 {
        assert Unread() + [] == Unread();
        var _, _ := WriteRaw([]);
        if buf.Avail() > 0 {
          ret := -1;
        }
      }
    }

    /**
     stream_write. Data that fits the buffer is stored over the unread bytes (`tail` is what lay
     behind them). Otherwise exactly what the calls of writev accept, of the unread bytes and then of
     the data, moves to the sink; it succeeds exactly when that is all of both.
     */
    method Write(data: seq<byte>) returns (ret: int, ghost tail: seq<byte>)
      requires Valid() && |Unread()| + |data| < MAX_TRANSFER
      modifies this, buf, buf.mem
      ensures Valid() && buf.mem == old(buf.mem) && needRead == old(needRead)
      ensures ret == 0 ==> lastErr == old(lastErr) && needWrite == old(needWrite)
      ensures |data| == 0 ==>
                && ret == 0 && sink == old(sink) && Unread() == old(Unread())
                && buf.wpos == old(buf.wpos) && script == old(script)
      ensures 0 < |data| < old(buf.Space()) ==>
                && ret == 0 && sink == old(sink) && script == old(script) && buf.wpos == old(buf.wpos) + |data|
                && tail == old(buf.mem[buf.wpos..buf.wpos + |data|])
                && Unread() == Overwrite(old(Unread()) + tail, data)
      ensures 0 < |data| && |data| >= old(buf.Space()) ==>
                var u, r := old(Unread()), WriteLoop(|old(Unread())| + |data|, old(script));
                && Progress(old(sink), u, data, r.accepted) && script == r.rest
                && ret == (if r.accepted == |u| + |data| then 0 else -1)
                && (ret == -1 ==> Noted(r.last, old(needWrite)))
                && (Unread() != [] ==> buf.wpos == old(buf.wpos))
    {
      if |data| == 0 {
        return 0, [];
      }
      ret, tail := WriteRaw(data);
    }

    /** stream_vprintf for a call that formats to `text`. */
    method Printf(text: seq<byte>, refusals: nat) returns (ret: nat)
      requires Valid() && buf.wpos + |text| < WORD
      modifies buf, buf.mem
      ensures Valid() && (buf.mem == old(buf.mem) || fresh(buf.mem))
      ensures ret == |text|
      ensures |text| <= old(buf.Space()) ==> buf.mem == old(buf.mem) && buf.wpos == old(buf.wpos) + |text|
      ensures Unread() == old(Unread())
                          + Appended(text, FinalRoom(|old(Unread())|, old(buf.rpos), old(buf.size), |text|))
    {
      ret := buf.Vprintf(text, refusals);
    }

    /** readv puts the first bytes into the free space; the rest of `incoming` goes to the side buffer. */
    method Deliver(incoming: seq<byte>)
      requires Valid()
      modifies buf.mem
      ensures Unread() == old(Unread())
      ensures |incoming| <= buf.Space() ==> buf.mem[buf.wpos..buf.wpos + |incoming|] == incoming
    {
      var block, w, n := buf.mem, buf.wpos, buf.size;
      forall i | 0 <= i < |incoming| && w + i < n { block[w + i] := incoming[i]; }
    }

    /**
     stream_fill; `incoming` is what readv delivered, None when it failed, and `grants` says whether
     the two allocations that an overflowing read may need succeed. What fits the free space is
     appended. Past that the whole count is counted in over whatever lies behind the unread bytes,
     then the surplus once more, and the surplus lands on the oldest unread bytes: `stored` says
     which of the two buffer writes succeeded and `found` what they counted in. FillAppendsExactly
     says when the outcome is still an append.
     */
    method Fill(incoming: Option<seq<byte>>, errno: int, grants: (bool, bool))
      returns (ret: int, ghost stored: (bool, bool), ghost found: (seq<byte>, seq<byte>))
      requires Valid()
      requires incoming.Some? ==>
                 1 <= |incoming.value| <= buf.Space() + READALL_LEN
                 && (|incoming.value| <= buf.Space() || buf.wpos + 2 * |incoming.value| < WORD)
      modifies this, buf, buf.mem
      ensures Valid() && sink == old(sink) && (buf.mem == old(buf.mem) || fresh(buf.mem))
      ensures ret == if incoming.None? then -1 else 0
      ensures incoming.None? ==>
                && Unread() == old(Unread()) && buf.mem == old(buf.mem) && buf.wpos == old(buf.wpos)
                && lastErr == errno && (needRead <==> old(needRead) || errno == EAGAIN)
      ensures incoming.Some? ==> lastErr == old(lastErr) && needRead == old(needRead)
      ensures needWrite == old(needWrite) && script == old(script)
      ensures incoming.Some? && |incoming.value| <= old(buf.Space()) ==>
                && Unread() == old(Unread()) + incoming.value
                && buf.mem == old(buf.mem) && buf.wpos == old(buf.wpos) + |incoming.value|
      ensures incoming.Some? && |incoming.value| > old(buf.Space()) ==>
                var cnt, surplus := |incoming.value|, incoming.value[old(buf.Space())..];
                && stored == StoredWrites(|old(Unread())|, old(buf.rpos), old(buf.size), cnt, |surplus|, grants)
                && |found.0| == cnt && |found.1| == |surplus|
                && Unread() == Filled(old(Unread()), stored, found, surplus)
    {
      stored, found := (false, false), ([], []);
      if incoming.None? {
        lastErr := errno;
        if errno == EAGAIN {
          needRead := true;
        }
        return -1, stored, found;
      }
      var bytes := incoming.value;
      var cnt, space := |bytes|, buf.Space();
      Deliver(bytes);
      if cnt <= space {
        var n, tail := buf.Write(None, cnt, grants.0);
      } else {
        stored, found := StoreOverflow(bytes, space, grants);
      }
      ret := 0;
    }

    /** The two buffer writes after a read that overflowed the free space. */
    method StoreOverflow(bytes: seq<byte>, space: nat, grants: (bool, bool))
      returns (ghost stored: (bool, bool), ghost found: (seq<byte>, seq<byte>))
      requires Valid() && space == buf.Space() < |bytes| && buf.wpos + 2 * |bytes| < WORD
      modifies buf, buf.mem
      ensures Valid() && (buf.mem == old(buf.mem) || fresh(buf.mem))
      ensures stored == StoredWrites(|old(Unread())|, old(buf.rpos), old(buf.size), |bytes|, |bytes| - space, grants)
      ensures |found.0| == |bytes| && |found.1| == |bytes| - space
      ensures Unread() == Filled(old(Unread()), stored, found, bytes[space..])
    {
      var cnt := |bytes|;
      var n, tail := buf.Write(None, cnt, grants.0);
      ghost var counted := Unread();
      assert counted == if n == cnt then old(Unread()) + tail else old(Unread());
      var n', tail' := buf.Write(Some(bytes[space..]), cnt - space, grants.1);
      stored := (n == cnt, n' == cnt - space);
      found := (if n == cnt then tail else bytes, if n' == cnt - space then tail' else bytes[space..]);
    }

    /** stream_yield. */
    method Yield(delim: seq<byte>) returns (record: Option<seq<byte>>)
      requires Valid()
      modifies buf`rpos, buf`wpos
      ensures Valid() && (Unread() != [] ==> buf.wpos == old(buf.wpos))
      ensures match FirstIndex(old(Unread()), delim)
              case None => record == None && Unread() == old(Unread())
              case Some(i) => record == Some(old(Unread())[..i + |delim|])
                              && Unread() == old(Unread())[i + |delim|..]
    {
      var start;
      start, record := buf.Yield(delim);
    }
  }

  // ---- Whole runs: output ----

  datatype Output = Print(text: seq<byte>) | Send(data: seq<byte>) | Flush

  /** What a run of output operations depends on and changes. */
  datatype OutState = OutState(sink: seq<byte>, unread: seq<byte>, wpos: nat, size: nat, script: seq<Outcome>)

  ghost function Snapshot(stm: BufferedStream): OutState
    requires stm.Valid()
    reads stm, stm.buf, stm.buf.mem
  {
    OutState(stm.sink, stm.Unread(), stm.buf.wpos, stm.buf.size, stm.script)
  }

  function Payload(step: Output): seq<byte> {
    match step
    case Print(text) => text
    case Send(data) => data
    case Flush => []
  }

  /** The operation does on these bytes what it is for; a run leaves the others out. */
  predicate InDomain(a: OutState, step: Output) {
    match step
    case Print(text) => a.wpos + |text| < a.size
    case Send(data) => (a.unread == [] || a.wpos + |data| >= a.size) && |a.unread| + |data| < MAX_TRANSFER
    case Flush => |a.unread| < MAX_TRANSFER
  }

  /** One operation: the state after it, how much of its payload it took, and what it returned. */
  datatype Done = Done(after: OutState, taken: nat, code: int)

  /** What `_stream_write` takes straight to the sink, for as long as writev accepts it. */
  function Drained(a: OutState, data: seq<byte>): Done {
    var all, u := a.unread + data, |a.unread|;
    var r := WriteLoop(|all|, a.script);
    var left := a.unread[Min(r.accepted, u)..];
    Done(OutState(a.sink + all[..r.accepted], left, if left == [] then 0 else a.wpos, a.size, r.rest),
         if r.accepted <= u then 0 else r.accepted - u,
         if r.accepted == |all| then 0 else -1)
  }

  function Perform(a: OutState, step: Output): Done {
    if !InDomain(a, step) then Done(a, 0, 0)
    else match step
      case Print(text) => Done(a.(unread := a.unread + text, wpos := a.wpos + |text|), |text|, |text|)
      case Send(data) =>
        if data == [] then Done(a, 0, 0)
        else if a.wpos + |data| < a.size then Done(a.(unread := data, wpos := a.wpos + |data|), |data|, 0)
        else Drained(a, data)
      case Flush => if a.unread == [] then Done(a, 0, 0) else Drained(a, [])
  }

  function OutRun(a: OutState, steps: seq<Output>): OutState {
    if steps == [] then a else Perform(OutRun(a, steps[..|steps| - 1]), steps[|steps| - 1]).after
  }

  function Codes(a: OutState, steps: seq<Output>): seq<int> {
    if steps == [] then []
    else Codes(a, steps[..|steps| - 1]) + [Perform(OutRun(a, steps[..|steps| - 1]), steps[|steps| - 1]).code]
  }

  /** The bytes the steps of a run have taken, in order. */
  function Taken(a: OutState, steps: seq<Output>): seq<byte> {
    if steps == [] then []
    else
      var last, p := |steps| - 1, Payload(steps[|steps| - 1]);
      var n := Perform(OutRun(a, steps[..last]), steps[last]).taken;
      Taken(a, steps[..last]) + if n <= |p| then p[..n] else p
  }

  /** Accepted bytes split into the unread ones and those of the data. */
  lemma {:induction false} Splits(sink: seq<byte>, u: seq<byte>, data: seq<byte>, k: nat)
    requires k <= |u| + |data|
    ensures sink + (u + data)[..k] + u[Min(k, |u|)..] == sink + u + data[..if k <= |u| then 0 else k - |u|]
  {
    if k <= |u| {
      assert (u + data)[..k] == u[..k];
    } else {
      assert (u + data)[..k] == u + data[..k - |u|];
    }
  }

  lemma {:induction false} PerformConserves(a: OutState, step: Output)
    ensures var d, p := Perform(a, step), Payload(step);
            && d.taken <= |p| && d.after.sink + d.after.unread == a.sink + a.unread + p[..d.taken]
            && a.sink <= d.after.sink
  {
    var d, p := Perform(a, step), Payload(step);
    assert d == Done(a, 0, 0) ==> a.sink + a.unread + p[..0] == a.sink + a.unread;
    assert p[..|p|] == p;
    Assoc(a.sink, a.unread, p);
    Splits(a.sink, a.unread, p, WriteLoop(|a.unread + p|, a.script).accepted);
  }

  /**
   Over every run and every script, whatever was written short or failed, the sink followed by the
   unread bytes has grown by exactly the bytes the operations took, in order, and the sink only grows.
   */
  lemma {:induction false} RunConserves(a: OutState, steps: seq<Output>)
    ensures var b := OutRun(a, steps);
            b.sink + b.unread == a.sink + a.unread + Taken(a, steps) && a.sink <= b.sink
    decreases |steps|
  {
    if steps == [] {
      assert a.sink + a.unread + [] == a.sink + a.unread;
    } else {
      var last := |steps| - 1;
      var mid := OutRun(a, steps[..last]);
      RunConserves(a, steps[..last]);
      PerformConserves(mid, steps[last]);
      Assoc(a.sink + a.unread, Taken(a, steps[..last]), Payload(steps[last])[..Perform(mid, steps[last]).taken]);
    }
  }

  /** A run that ends with a flush has everything it took in the sink if and only if the flush succeeds. */
  lemma {:induction false} FlushedRun(a: OutState, steps: seq<Output>)
    requires InDomain(OutRun(a, steps), Flush)
    ensures var b := Perform(OutRun(a, steps), Flush);
            b.code == 0 <==> b.after.sink == a.sink + a.unread + Taken(a, steps)
  {
    var mid := OutRun(a, steps);
    var b := Perform(mid, Flush);
    RunConserves(a, steps);
    PerformConserves(mid, Flush);
    assert b.after.sink + b.after.unread == mid.sink + mid.unread;
    if b.after.unread == [] {
      assert b.after.sink + b.after.unread == b.after.sink;
    } else {
      assert |b.after.sink + b.after.unread| > |b.after.sink|;
    }
  }

  /** A flush succeeds if and only if what is unread fits the calls before writev first refuses. */
  lemma {:induction false} FlushExactly(a: OutState, f: nat)
    requires InDomain(a, Flush) && RefusesFirst(a.script, f)
    ensures var d, sum := Perform(a, Flush), Capacity(a.script[..f]);
            && (d.code == 0 <==> |a.unread| <= sum)
            && d.after.sink == a.sink + a.unread[..Min(|a.unread|, sum)]
            && d.after.unread == a.unread[Min(|a.unread|, sum)..]
  {
    assert a.unread + [] == a.unread;
    LoopExactly(|a.unread|, a.script, f);
    assert a.sink + a.unread[..0] == a.sink;
  }

  /** One operation on the stream, unless it is outside its domain. */
  method PerformOn(stm: BufferedStream, step: Output) returns (code: int)
    requires stm.Valid()
    modifies stm, stm.buf, stm.buf.mem
    ensures stm.Valid() && stm.buf.mem == old(stm.buf.mem)
    ensures var d := Perform(old(Snapshot(stm)), step); Snapshot(stm) == d.after && code == d.code
  {
    code := 0;
    match step {
      case Print(text) =>
        if |text| < stm.buf.Space() {
          VprintfAppendsExactly(text, stm.buf.wpos - stm.buf.rpos, stm.buf.rpos, stm.buf.size);
          code := stm.Printf(text, 0);
        }
      case Send(data) =>
        if (stm.buf.Avail() == 0 || |data| >= stm.buf.Space()) && stm.buf.Avail() + |data| < MAX_TRANSFER {
          code := SendOn(stm, data);
        }
      case Flush =>
        if stm.buf.Avail() < MAX_TRANSFER {
          assert stm.Unread() + [] == stm.Unread();
          code := stm.Flush();
        }
    }
  }

  method SendOn(stm: BufferedStream, data: seq<byte>) returns (code: int)
    requires stm.Valid() && InDomain(Snapshot(stm), Send(data))
    modifies stm, stm.buf, stm.buf.mem
    ensures stm.Valid() && stm.buf.mem == old(stm.buf.mem)
    ensures var d := Perform(old(Snapshot(stm)), Send(data)); Snapshot(stm) == d.after && code == d.code
  {
    ghost var tail;
    code, tail := stm.Write(data);
    if 0 < |data| < old(stm.buf.Space()) {
      assert Overwrite(old(stm.Unread()) + tail, data) == data;
    }
  }

  /**
   Any sequence of formatted appends, writes and flushes, over any script of short writes and
   failures, does what the value-level run does; what it has taken is conserved.
   */
  method RunOutput(stm: BufferedStream, steps: seq<Output>) returns (codes: seq<int>)
    requires stm.Valid()
    modifies stm, stm.buf, stm.buf.mem
    ensures stm.Valid()
    ensures Snapshot(stm) == OutRun(old(Snapshot(stm)), steps) && codes == Codes(old(Snapshot(stm)), steps)
    ensures stm.sink + stm.Unread() == old(stm.sink) + old(stm.Unread()) + Taken(old(Snapshot(stm)), steps)
  {
    codes := [];
    for i := 0 to |steps|
      invariant stm.Valid() && stm.buf.mem == old(stm.buf.mem)
      invariant Snapshot(stm) == OutRun(old(Snapshot(stm)), steps[..i])
      invariant codes == Codes(old(Snapshot(stm)), steps[..i])
    {
      var code := PerformOn(stm, steps[i]);
      assert steps[..i + 1][..i] == steps[..i] && steps[..i + 1][i] == steps[i];
      codes := codes + [code];
    }
    assert steps[..|steps|] == steps;
    RunConserves(old(Snapshot(stm)), steps);
  }

  // ---- Whole runs: input ----

  /** What has been yielded, what is unread, and where the buffer stands. */
  datatype InState = InState(records: seq<seq<byte>>, unread: seq<byte>, wpos: nat, size: nat)

  /** The part of a chunk that fits the free space. */
  function Fitting(st: InState, chunk: seq<byte>): seq<byte> {
    if st.wpos + |chunk| <= st.size then chunk
    else if st.wpos <= st.size && st.size - st.wpos <= |chunk| then chunk[..st.size - st.wpos]
    else []
  }

  /** A fill delivers a prefix of what has arrived: all of it, or as much as there is room for. */
  lemma {:induction false} FittingExactly(st: InState, chunk: seq<byte>)
    requires st.wpos <= st.size
    ensures Fitting(st, chunk) == chunk[..Min(|chunk|, st.size - st.wpos)]
  {
    assert chunk[..|chunk|] == chunk;
  }

  /** An extension that buffer_extend can be asked for: not by 0 in an empty buffer, nor past 2^32. */
  predicate Extendable(st: InState, len: nat) {
    0 < st.wpos + len < WORD
  }

  /** The size after buffer_extend. */
  function Extended(st: InState, len: nat, granted: bool): nat {
    if st.wpos > |st.unread| && |st.unread| + len <= st.size then st.size
    else if granted then |st.unread| + len
    else st.size
  }

  /** One fill of what fits, yield or extension. */
  function InStep(st: InState, delim: seq<byte>, e: Framing.Event): InState {
    match e
    case Arrive(chunk) =>
      var bytes := Fitting(st, chunk);
      st.(unread := st.unread + bytes, wpos := st.wpos + |bytes|)
    case Extend(len, granted) =>
      if Extendable(st, len) then st.(wpos := |st.unread|, size := Extended(st, len, granted)) else st
    case Yield =>
      match FirstIndex(st.unread, delim)
      case None => st
      case Some(i) =>
        var rest := st.unread[i + |delim|..];
        InState(st.records + [st.unread[..i + |delim|]], rest, if rest == [] then 0 else st.wpos, st.size)
  }

  function InRun(st: InState, delim: seq<byte>, steps: seq<Framing.Event>): InState
    decreases |steps|
  {
    if steps == [] then st
    else InStep(InRun(st, delim, steps[..|steps| - 1]), delim, steps[|steps| - 1])
  }

  /** The steps of a run with every chunk cut to what was delivered of it. */
  function Delivered(st: InState, delim: seq<byte>, steps: seq<Framing.Event>): seq<Framing.Event>
    decreases |steps|
  {
    if steps == [] then []
    else
      var prefix, last := steps[..|steps| - 1], steps[|steps| - 1];
      Delivered(st, delim, prefix)
      + [if last.Arrive? then Framing.Arrive(Fitting(InRun(st, delim, prefix), last.chunk)) else last]
  }

  function ConsumerOf(st: InState): Framing.Consumer {
    Framing.Consumer(st.records, st.unread)
  }

  /** A run of the stream is a run of the framing consumer over what was delivered. */
  lemma {:induction false} InRunFrames(st: InState, delim: seq<byte>, steps: seq<Framing.Event>)
    ensures ConsumerOf(InRun(st, delim, steps)) == Framing.Run(ConsumerOf(st), delim, Delivered(st, delim, steps))
    decreases |steps|
  {
    if steps != [] {
      var prefix := steps[..|steps| - 1];
      InRunFrames(st, delim, prefix);
      var events := Delivered(st, delim, steps);
      Framing.RunSnoc(ConsumerOf(st), delim, Delivered(st, delim, prefix), events[|events| - 1]);
      assert events == Delivered(st, delim, prefix) + [events[|events| - 1]];
    }
  }

  /** A buffer with room for the whole input, and not resized, is delivered all of it, however it is cut. */
  lemma {:induction false} RoomyRun(st: InState, delim: seq<byte>, steps: seq<Framing.Event>)
    requires st.wpos + |Framing.Input(steps)| <= st.size && forall i :: 0 <= i < |steps| ==> !steps[i].Extend?
    ensures Delivered(st, delim, steps) == steps
    ensures var r := InRun(st, delim, steps); r.size == st.size && r.wpos <= st.wpos + |Framing.Input(steps)|
    decreases |steps|
  {
    if steps != [] {
      var prefix, last := steps[..|steps| - 1], steps[|steps| - 1];
      assert prefix + [last] == steps;
      Framing.InputSnoc(prefix, last);
      RoomyRun(st, delim, prefix);
    }
  }

  /**
   Two streams, of whatever sizes, to which the same bytes were delivered and which have both
   yielded until nothing was found, have yielded the same records and hold the same unread bytes.
   */
  lemma {:induction false} StreamsAgree(st: InState, st': InState, delim: seq<byte>,
                                        steps: seq<Framing.Event>, steps': seq<Framing.Event>)
    requires delim != [] && ConsumerOf(st) == ConsumerOf(st') == Framing.Consumer([], [])
    requires Framing.Input(Delivered(st, delim, steps)) == Framing.Input(Delivered(st', delim, steps'))
    requires FirstIndex(InRun(st, delim, steps).unread, delim) == None
    requires FirstIndex(InRun(st', delim, steps').unread, delim) == None
    ensures ConsumerOf(InRun(st, delim, steps)) == ConsumerOf(InRun(st', delim, steps'))
  {
    InRunFrames(st, delim, steps);
    InRunFrames(st', delim, steps');
    Framing.ChunkingIrrelevant(delim, Delivered(st, delim, steps), Delivered(st', delim, steps'));
  }

  ghost function InputState(stm: BufferedStream, records: seq<seq<byte>>): InState
    requires stm.Valid()
    reads stm, stm.buf, stm.buf.mem
  {
    InState(records, stm.Unread(), stm.buf.wpos, stm.buf.size)
  }

  /**
   Any sequence of fills of what fits the free space, yields on a delimiter and extensions: the
   stream and the records end exactly as the value-level run does. From an empty stream that is the
   framing of the bytes delivered: no byte is lost, and once the unread bytes hold no delimiter the
   records are those of the whole input.
   */
  method RunInput(stm: BufferedStream, delim: seq<byte>, steps: seq<Framing.Event>) returns (records: seq<seq<byte>>)
    requires stm.Valid()
    modifies stm, stm.buf, stm.buf.mem
    ensures stm.Valid() && InputState(stm, records) == InRun(old(InputState(stm, [])), delim, steps)
    ensures old(stm.Unread()) == [] && delim != [] ==>
              var events := Delivered(old(InputState(stm, [])), delim, steps);
              var c := Framing.Consumer(records, stm.Unread());
              && c == Framing.Run(Framing.Consumer([], []), delim, events)
              && Framing.Follows(c, delim, Framing.Input(events))
              && (FirstIndex(c.unread, delim) == None ==>
                    c == Framing.Consumer(Framing.Frames(Framing.Input(events), delim),
                                          Framing.Rest(Framing.Input(events), delim)))
  {
    records := [];
    ghost var st := InputState(stm, []);
    for i := 0 to |steps|
      invariant stm.Valid() && (stm.buf.mem == old(stm.buf.mem) || fresh(stm.buf.mem))
      invariant InputState(stm, records) == InRun(st, delim, steps[..i])
    {
      assert steps[..i + 1][..i] == steps[..i];
      records := InputStep(stm, delim, steps[i], records);
    }
    assert steps[..|steps|] == steps;
    InRunFrames(st, delim, steps);
    if st.unread == [] && delim != [] { RunFromEmpty(st, delim, steps); }
  }

  lemma {:induction false} RunFromEmpty(st: InState, delim: seq<byte>, steps: seq<Framing.Event>)
    requires delim != [] && ConsumerOf(st) == Framing.Consumer([], [])
    ensures var events := Delivered(st, delim, steps);
            var c := ConsumerOf(InRun(st, delim, steps));
            && Framing.Follows(c, delim, Framing.Input(events))
            && (FirstIndex(c.unread, delim) == None ==>
                  c == Framing.Consumer(Framing.Frames(Framing.Input(events), delim),
                                        Framing.Rest(Framing.Input(events), delim)))
  {
    var events := Delivered(st, delim, steps);
    InRunFrames(st, delim, steps);
    assert Framing.Follows(Framing.Consumer([], []), delim, []);
    Framing.RunFollows(Framing.Consumer([], []), delim, [], events);
    assert [] + Framing.Input(events) == Framing.Input(events);
    if FirstIndex(ConsumerOf(InRun(st, delim, steps)).unread, delim) == None {
      Framing.DrainedConsumer(delim, events);
    }
  }

  method InputStep(stm: BufferedStream, delim: seq<byte>, step: Framing.Event, records: seq<seq<byte>>)
    returns (records': seq<seq<byte>>)
    requires stm.Valid()
    modifies stm, stm.buf, stm.buf.mem
    ensures stm.Valid() && (stm.buf.mem == old(stm.buf.mem) || fresh(stm.buf.mem))
    ensures InputState(stm, records') == InStep(old(InputState(stm, records)), delim, step)
  {
    records' := records;
    match step {
      case Arrive(chunk) =>
        ReadSome(stm, chunk);
      case Yield =>
        records' := YieldInto(stm, delim, records);
      case Extend(len, granted) =>
        MakeRoom(stm, len, granted);
    }
  }

  /** A yield whose record, if there is one, joins the others. */
  method YieldInto(stm: BufferedStream, delim: seq<byte>, records: seq<seq<byte>>)
    returns (records': seq<seq<byte>>)
    requires stm.Valid()
    modifies stm.buf`rpos, stm.buf`wpos
    ensures stm.Valid()
    ensures InputState(stm, records') == InStep(old(InputState(stm, records)), delim, Framing.Yield)
  {
    var record := stm.Yield(delim);
    records' := if record.Some? then records + [record.value] else records;
  }

  /** An extension, where one can be asked for. */
  method MakeRoom(stm: BufferedStream, len: nat, granted: bool)
    requires stm.Valid()
    modifies stm.buf, stm.buf.mem
    ensures stm.Valid() && (stm.buf.mem == old(stm.buf.mem) || fresh(stm.buf.mem))
    ensures stm.Unread() == old(stm.Unread())
    ensures var st := old(InputState(stm, []));
            if Extendable(st, len)
            then stm.buf.wpos == |st.unread| && stm.buf.size == Extended(st, len, granted)
            else stm.buf.wpos == st.wpos && stm.buf.size == st.size
  {
    if 0 < stm.buf.wpos + len < WORD {
      var _ := stm.buf.Extend(len, granted);
    }
  }

  /** A fill whose readv delivers as much of `chunk` as fits the free space, or would block. */
  method ReadSome(stm: BufferedStream, chunk: seq<byte>)
    requires stm.Valid()
    modifies stm, stm.buf, stm.buf.mem
    ensures stm.Valid() && stm.buf.mem == old(stm.buf.mem)
    ensures var bytes := Fitting(old(InputState(stm, [])), chunk);
            stm.Unread() == old(stm.Unread()) + bytes && stm.buf.wpos == old(stm.buf.wpos) + |bytes|
  {
    var n := if |chunk| <= stm.buf.Space() then |chunk| else stm.buf.Space();
    assert chunk[..n] == Fitting(InputState(stm, []), chunk);
    if n == 0 {
      var _, _, _ := stm.Fill(None, EAGAIN, (true, true));
    } else {
      var _, _, _ := stm.Fill(Some(chunk[..n]), 0, (true, true));
    }
  }
}

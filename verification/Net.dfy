/**
 The transfer loops of net.c over a descriptor whose reads and writes may be short, may fail, and
 may be interrupted. What each call is going to do is a script given with the descriptor.
 */
module Net {
  import opened Common

  /** What one read(2) or write(2) does: it moves at most `n` bytes, is interrupted, or fails. */
  datatype Outcome = Moves(n: nat) | Interrupted | Fails

  /** A script that has run out goes on failing. */
  function Head(script: seq<Outcome>): Outcome {
    if script == [] then Fails else script[0]
  }

  function Tail(script: seq<Outcome>): seq<Outcome> {
    if script == [] then [] else script[1..]
  }

  /** A transfer loop: how many bytes it moved, whether it ended without a failure, and the script left over. */
  datatype Transfer = Transfer(moved: nat, ok: bool, rest: seq<Outcome>)

  // ---- Writing ----

  /** The loop of writen with `left` bytes to go; a write that moves nothing is a failure. */
  function WriteAll(left: nat, script: seq<Outcome>): (r: Transfer)
    ensures r.moved <= left && (r.ok <==> r.moved == left)
    decreases |script|
  {
    if left == 0 then Transfer(0, true, script)
    else
      match Head(script)
      case Fails => Transfer(0, false, Tail(script))
      case Interrupted => WriteAll(left, Tail(script))
      case Moves(n) =>
        if n == 0 then Transfer(0, false, Tail(script))
        else
          var r := WriteAll(left - Min(n, left), Tail(script));
          r.(moved := Min(n, left) + r.moved)
  }

  predicate StopsWrite(o: Outcome) {
    o.Fails? || o == Moves(0)
  }

  /** What the calls of a script have room for together; `least` is counted for a call that moves less. */
  function Room(script: seq<Outcome>, least: nat): nat {
    if script == [] then 0
    else Room(script[1..], least) + if !script[0].Moves? then 0 else if script[0].n < least then least else script[0].n
  }

  /** `f` is the first call that stops writen, or the end of the script. */
  ghost predicate WriteStopsFirst(script: seq<Outcome>, f: nat) {
    f <= |script| && StopsWrite(Head(script[f..])) && forall i :: 0 <= i < f ==> !StopsWrite(script[i])
  }

  /**
   In closed form: interruptions do not matter, everything up to the room before the first failing
   call is delivered, and the loop fails exactly when that call is needed.
   */
  lemma {:induction false} WriteAllExactly(left: nat, script: seq<Outcome>, f: nat)
    requires WriteStopsFirst(script, f)
    ensures var r, room := WriteAll(left, script), Room(script[..f], 0);
            && r.moved == Min(left, room) && (r.ok <==> left <= room)
            && (!r.ok ==> r.rest == Tail(script[f..]))
    decreases |script|
  {
    if left > 0 && f > 0 {
      assert script[..f][1..] == script[1..][..f - 1];
      assert script[f..] == script[1..][f - 1..];
      WriteAllExactly(if script[0].Moves? then left - Min(script[0].n, left) else left, script[1..], f - 1);
    }
  }

  // ---- Reading ----

  /** What a read of up to `left` bytes moves when `avail` are to come: some, unless the input has ended. */
  function ReadSize(n: nat, left: nat, avail: nat): nat {
    Min(if n == 0 then 1 else n, Min(left, avail))
  }

  /** The loop of readn; a read that moves nothing is the end of the input. */
  function ReadAll(left: nat, avail: nat, script: seq<Outcome>): (r: Transfer)
    ensures r.moved <= left && r.moved <= avail
    ensures r.ok ==> r.moved == left || r.moved == avail
    ensures !r.ok ==> r.moved < left
    decreases |script|
  {
    if left == 0 then Transfer(0, true, script)
    else
      match Head(script)
      case Fails => Transfer(0, false, Tail(script))
      case Interrupted => ReadAll(left, avail, Tail(script))
      case Moves(n) =>
        if avail == 0 then Transfer(0, true, Tail(script))
        else
          var m := ReadSize(n, left, avail);
          var r := ReadAll(left - m, avail - m, Tail(script));
          r.(moved := m + r.moved)
  }

  ghost predicate FailsFirst(script: seq<Outcome>, f: nat) {
    f <= |script| && Head(script[f..]).Fails? && forall i :: 0 <= i < f ==> !script[i].Fails?
  }

  /** Call `c` is a read for which the calls before it have left nothing of `avail` bytes. */
  predicate SeesEnd(script: seq<Outcome>, avail: nat, c: nat) {
    c < |script| && script[c].Moves? && avail <= Room(script[..c], 1)
  }

  ghost predicate EndSeen(script: seq<Outcome>, avail: nat, f: nat) {
    exists c: nat :: c < f && SeesEnd(script, avail, c)
  }

  /** Everything asked for and available is stored, up to the room before the first failing call. */
  lemma {:induction false} ReadMovesExactly(left: nat, avail: nat, script: seq<Outcome>, f: nat)
    requires FailsFirst(script, f)
    ensures var r := ReadAll(left, avail, script);
            && r.moved == Min(Min(left, avail), Room(script[..f], 1))
            && (!r.ok ==> r.rest == Tail(script[f..]))
    decreases |script|
  {
    if left > 0 && f > 0 {
      FailsLater(script, f);
      if script[0].Interrupted? {
        ReadMovesExactly(left, avail, script[1..], f - 1);
      } else if avail > 0 {
        var m := ReadSize(script[0].n, left, avail);
        ReadMovesExactly(left - m, avail - m, script[1..], f - 1);
      }
    }
  }

  /**
   The loop ends without a failure exactly when all that was asked for was available and had room, or
   some read before the failing one came to see the end of the input.
   */
  lemma {:induction false} ReadEndsExactly(left: nat, avail: nat, script: seq<Outcome>, f: nat)
    requires FailsFirst(script, f)
    ensures ReadAll(left, avail, script).ok
            <==> if left <= avail then left <= Room(script[..f], 1) else EndSeen(script, avail, f)
    decreases |script|
  {
    if left > 0 && f > 0 {
      FailsLater(script, f);
      if script[0].Moves? && avail == 0 {
        assert SeesEnd(script, avail, 0);
      } else {
        var m := if script[0].Moves? then ReadSize(script[0].n, left, avail) else 0;
        ReadEndsExactly(left - m, avail - m, script[1..], f - 1);
        if avail < left { EndSeenLater(script, left, avail, f); }
      }
    }
  }

  lemma {:induction false} FailsLater(script: seq<Outcome>, f: nat)
    requires f > 0 && FailsFirst(script, f)
    ensures FailsFirst(script[1..], f - 1) && script[f..] == script[1..][f - 1..] && !script[0].Fails?
    ensures Room(script[..f], 1) == Room(script[1..][..f - 1], 1)
                                    + if !script[0].Moves? then 0 else if script[0].n == 0 then 1 else script[0].n
  {
    assert script[..f][1..] == script[1..][..f - 1];
  }

  lemma {:induction false} EndSeenLater(script: seq<Outcome>, left: nat, avail: nat, f: nat)
    requires 0 < f <= |script| && avail < left && !script[0].Fails? && (script[0].Moves? ==> avail > 0)
    ensures var m := if script[0].Moves? then ReadSize(script[0].n, left, avail) else 0;
            EndSeen(script, avail, f) <==> EndSeen(script[1..], avail - m, f - 1)
  {
    var m := if script[0].Moves? then ReadSize(script[0].n, left, avail) else 0;
    var rest, avail' := script[1..], avail - m;
    forall c: nat | 0 < c < f ensures SeesEnd(script, avail, c) <==> SeesEnd(rest, avail', c - 1) {
      assert script[..c][1..] == rest[..c - 1];
    }
    assert !SeesEnd(script, avail, 0);
    if c: nat :| c < f && SeesEnd(script, avail, c) { assert SeesEnd(rest, avail', c - 1); }
    if c: nat :| c < f - 1 && SeesEnd(rest, avail', c) { assert SeesEnd(script, avail, c + 1); }
  }

  // ---- The descriptor ----

  class Descriptor {
    var source: seq<byte>      // bytes still to be read
    var sink: seq<byte>        // bytes written so far
    var script: seq<Outcome>   // what the calls are going to do

    /** write(2): -1 with or without EINTR, or the length of the prefix it takes. */
    method SysWrite(block: seq<byte>) returns (n: int, eintr: bool)
      modifies this
      ensures source == old(source) && script == Tail(old(script))
      ensures match Head(old(script))
              case Fails => n == -1 && !eintr && sink == old(sink)
              case Interrupted => n == -1 && eintr && sink == old(sink)
              case Moves(k) => n == Min(k, |block|) && !eintr && sink == old(sink) + block[..n]
    {
      var outcome := Head(script);
      script := Tail(script);
      match outcome {
        case Fails => n, eintr := -1, false;
        case Interrupted => n, eintr := -1, true;
        case Moves(k) =>
          n, eintr := Min(k, |block|), false;
          sink := sink + block[..n];
      }
    }

    /** read(2) of up to `len` bytes: -1 with or without EINTR, or the bytes it takes. */
    method SysRead(len: nat) returns (n: int, eintr: bool, block: seq<byte>)
      modifies this
      ensures sink == old(sink) && script == Tail(old(script))
      ensures match Head(old(script))
              case Fails => n == -1 && !eintr && source == old(source)
              case Interrupted => n == -1 && eintr && source == old(source)
              case Moves(k) =>
                && n == ReadSize(k, len, |old(source)|) && !eintr
                && block == old(source)[..n] && source == old(source)[n..]
    {
      var outcome := Head(script);
      script := Tail(script);
      block := [];
      match outcome {
        case Fails => n, eintr := -1, false;
        case Interrupted => n, eintr := -1, true;
        case Moves(k) =>
          n, eintr := ReadSize(k, len, |source|), false;
          block, source := source[..n], source[n..];
      }
    }

    /**
     writen: the sink grows by exactly what the calls move of the block, and the size is returned
     exactly when that is all of it.
     */
    method Writen(block: seq<byte>) returns (ret: int)
      modifies this
      ensures var r := WriteAll(|block|, old(script));
              && sink == old(sink) + block[..r.moved] && script == r.rest && source == old(source)
              && ret == if r.ok then |block| else -1
    {
      var nleft: nat, pos: nat := |block|, 0;
      ghost var r := WriteAll(|block|, script);
      assert old(sink) + block[..0] == old(sink);
      while nleft > 0
        invariant pos + nleft == |block| && source == old(source)
        invariant sink == old(sink) + block[..pos]
        invariant r == Onward(pos, WriteAll(nleft, script))
        decreases nleft, |script|
      {
        var n, eintr := SysWrite(block[pos..]);
        assert n >= 0 ==> block[..pos] + block[pos..][..n] == block[..pos + n];
        if n <= 0 {
          if n < 0 && eintr {
            n := 0;
          } else {
            assert block[pos..][..0] == [];
            return -1;
          }
        }
        nleft, pos := nleft - n, pos + n;
      }
      ret := |block|;
    }

    /**
     readn into the front of `buf`: what is stored is exactly what the calls move from the source, in
     order, and the rest of `buf` is untouched; the count is returned unless a call failed.
     */
    method Readn(buf: array<byte>, sz: nat) returns (ret: int)
      requires sz <= buf.Length
      modifies this, buf
      ensures var src, r := old(source), ReadAll(sz, |old(source)|, old(script));
              && buf[..r.moved] == src[..r.moved] && source == src[r.moved..]
              && buf[r.moved..] == old(buf[..])[r.moved..] && script == r.rest && sink == old(sink)
              && ret == if r.ok then r.moved else -1
    {
      ghost var src, before, r := source, buf[..], ReadAll(sz, |source|, script);
      ret := ReadLoop(buf, sz, src, before);
      Parts(buf, src, before, r.moved);
    }

    /** The bytes read so far are in front of what `buf` held. */
    ghost predicate Stored(buf: array<byte>, src: seq<byte>, before: seq<byte>, pos: nat)
      reads this, buf
    {
      pos <= |src| && pos <= |before| && source == src[pos..] && buf[..] == src[..pos] + before[pos..]
    }

    method ReadLoop(buf: array<byte>, sz: nat, ghost src: seq<byte>, ghost before: seq<byte>) returns (ret: int)
      requires sz <= buf.Length && source == src && buf[..] == before
      modifies this, buf
      ensures var r := ReadAll(sz, |src|, old(script));
              && Stored(buf, src, before, r.moved) && script == r.rest && sink == old(sink)
              && ret == if r.ok then r.moved else -1
    {
      var nleft: nat, pos: nat := sz, 0;
      ghost var r := ReadAll(sz, |src|, script);
      assert src[..0] + before == before;
      while nleft > 0
        invariant pos + nleft == sz && Stored(buf, src, before, pos) && sink == old(sink)
        invariant ReadsOn(r, pos, nleft, |src|, script)
        decreases nleft, |script|
      {
        var n, eintr := ReadAt(buf, pos, nleft, src, before, r);
        if n < 0 {
          if eintr {
            n := 0;
          } else {
            return -1;
          }
        } else if n == 0 {
          break;
        }
        nleft, pos := nleft - n, pos + n;
      }
      ret := sz - nleft;
    }

    /** One read(2) into `buf` behind the first `pos` bytes. */
    method ReadAt(buf: array<byte>, pos: nat, len: nat,
                  ghost src: seq<byte>, ghost before: seq<byte>, ghost r: Transfer)
      returns (n: int, eintr: bool)
      requires len > 0 && pos + len <= buf.Length == |before| && Stored(buf, src, before, pos)
      requires ReadsOn(r, pos, len, |src|, script)
      modifies this, buf
      ensures sink == old(sink) && n <= len && (n < 0 && eintr ==> |script| < |old(script)|)
      ensures Stored(buf, src, before, if n < 0 then pos else pos + n)
      ensures n < 0 && !eintr ==> r == Transfer(pos, false, script)
      ensures n == 0 ==> r == Transfer(pos, true, script)
      ensures n < 0 && eintr ==> ReadsOn(r, pos, len, |src|, script)
      ensures n > 0 ==> ReadsOn(r, pos + n, len - n, |src|, script)
    {
      var block;
      n, eintr, block := SysRead(len);
      if n >= 0 {
        StoredFurther(src, before, pos, n);
        StoreAt(buf, pos, block);
      }
    }
  }

  /** A transfer of `pos` bytes and then what `r` says. */
  function Onward(pos: nat, r: Transfer): Transfer {
    r.(moved := pos + r.moved)
  }

  /** `r` is `pos` bytes of `size` and then what readn does with `left` to go. */
  ghost predicate ReadsOn(r: Transfer, pos: nat, left: nat, size: nat, script: seq<Outcome>) {
    pos <= size && r == Onward(pos, ReadAll(left, size - pos, script))
  }

  lemma {:induction false} Parts(buf: array<byte>, src: seq<byte>, before: seq<byte>, pos: nat)
    requires pos <= |src| && pos <= |before| == buf.Length && buf[..] == src[..pos] + before[pos..]
    ensures buf[..pos] == src[..pos] && buf[pos..] == before[pos..]
  {
    assert buf[..pos] == buf[..][..pos] && buf[pos..] == buf[..][pos..];
  }

  /** Storing the next `n` source bytes behind the first `pos`. */
  lemma {:induction false} StoredFurther(src: seq<byte>, before: seq<byte>, pos: nat, n: nat)
    requires pos + n <= |src| && pos + n <= |before|
    ensures var s := src[..pos] + before[pos..];
            s[..pos] + src[pos..][..n] + s[pos + n..] == src[..pos + n] + before[pos + n..]
    ensures src[pos..][n..] == src[pos + n..]
  {
  }

  method StoreAt(buf: array<byte>, pos: nat, block: seq<byte>)
    requires pos + |block| <= buf.Length
    modifies buf
    ensures buf[..] == old(buf[..])[..pos] + block + old(buf[..])[pos + |block|..]
  {
    forall i | 0 <= i < |block| { buf[pos + i] := block[i]; }
  }
}

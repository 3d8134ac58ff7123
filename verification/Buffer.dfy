/**
 The byte buffer of buffer.c: one block of memory with a read and a write position.

 Whether an allocation succeeds is the environment's choice and comes in as the parameter `granted`;
 bytes of a fresh block that realloc does not copy are arbitrary. Positions are 32-bit in the source; every method
 asks its caller to keep position sums below 2^32, as the source does.
 */
module Buffer {
  import opened Common

  const DEFAULT_SIZE: nat := 0x2000   // 1 << BUF_SIZE_P

  // ---- What the operations do to the unread bytes ----

  /** memmove of `data` over the front of `s`. */
  function Overwrite(s: seq<byte>, data: seq<byte>): (r: seq<byte>)
    requires |data| <= |s|
    ensures |r| == |s|
  {
    data + s[|data|..]
  }

  lemma {:induction false} OverwriteAt(s: seq<byte>, data: seq<byte>, i: nat)
    requires |data| <= |s| && i < |s|
    ensures Overwrite(s, data)[i] == if i < |data| then data[i] else s[i]
    ensures Written(s, Some(data))[i] == (if i < |data| then data[i] else s[i]) && Written(s, None) == s
  {
  }

  /** What buffer_write makes of the unread bytes once it has counted in what lies behind them. */
  function Written(s: seq<byte>, data: Option<seq<byte>>): seq<byte>
    requires data.Some? ==> |data.value| <= |s|
  {
    if data.Some? then Overwrite(s, data.value) else s
  }

  /**
   buffer_write stores at the read position. With `unread` pending and `len` bytes to store it is
   an append, for whatever data of that length, if and only if nothing is pending or `len` is 0.
   */
  lemma {:induction false} WriteAppendsExactly(unread: seq<byte>, len: nat)
    ensures (forall data: seq<byte>, tail: seq<byte> | |data| == len && |tail| == len ::
               Overwrite(unread + tail, data) == unread + data)
            <==> unread == [] || len == 0
  {
    if unread == [] || len == 0 {
      forall data: seq<byte>, tail: seq<byte> | |data| == len && |tail| == len
        ensures Overwrite(unread + tail, data) == unread + data
      {
      }
    } else {
      var other: byte := if unread[0] == 0 then 1 else 0;
      var data := seq(len, _ => other);
      assert Overwrite(unread + data, data)[0] == other != (unread + data)[0];
      assert |data| == len;
    }
  }

  /** memmem: the first place at or after `i` where `needle` occurs. */
  function Search(hay: seq<byte>, needle: seq<byte>, i: nat): (r: Option<nat>)
    ensures r.Some? ==> i <= r.value && r.value + |needle| <= |hay|
    decreases |hay| - i
  {
    if i + |needle| > |hay| then None
    else if hay[i..i + |needle|] == needle then Some(i)
    else if i < |hay| then Search(hay, needle, i + 1)
    else None
  }

  function FirstIndex(hay: seq<byte>, needle: seq<byte>): (r: Option<nat>)
    ensures r.Some? ==> r.value + |needle| <= |hay|
  {
    Search(hay, needle, 0)
  }

  ghost predicate OccursAt(hay: seq<byte>, needle: seq<byte>, i: nat) {
    i + |needle| <= |hay| && hay[i..i + |needle|] == needle
  }

  lemma {:induction false} SearchFinds(hay: seq<byte>, needle: seq<byte>, i: nat)
    ensures match Search(hay, needle, i)
            case Some(k) => OccursAt(hay, needle, k) && forall j: nat :: i <= j < k ==> !OccursAt(hay, needle, j)
            case None => forall j: nat :: i <= j ==> !OccursAt(hay, needle, j)
    decreases |hay| - i
  {
    if i + |needle| <= |hay| && !OccursAt(hay, needle, i) && i < |hay| {
      SearchFinds(hay, needle, i + 1);
    }
  }

  /** The first occurrence is unique: it is found exactly where the needle occurs first. */
  lemma {:induction false} FirstIndexIs(hay: seq<byte>, needle: seq<byte>, k: nat)
    ensures FirstIndex(hay, needle) == Some(k)
            <==> OccursAt(hay, needle, k) && forall j: nat :: j < k ==> !OccursAt(hay, needle, j)
  {
    SearchFinds(hay, needle, 0);
  }

  /** What vsnprintf leaves in `room` bytes for the text `text`: cut short, and then the terminator. */
  function Printed(text: seq<byte>, room: nat): (r: seq<byte>)
    ensures |r| == if room == 0 then 0 else if |text| < room then |text| + 1 else room
  {
    if room == 0 then []
    else if |text| < room then text + [0]
    else text[..room - 1] + [0]
  }

  /** What buffer_vprintf appends once `|text| <= room`. */
  function Appended(text: seq<byte>, room: nat): (r: seq<byte>)
    requires |text| <= room
    ensures |r| == |text|
  {
    Printed(text, room)[..|text|]
  }

  /** The room buffer_vprintf finally formats into: the free space, or what buffer_extend leaves. */
  function FinalRoom(unread: nat, rpos: nat, size: nat, len: nat): (room: nat)
    requires rpos + unread <= size
    ensures len <= room
  {
    if len <= size - rpos - unread then size - rpos - unread
    else if rpos > 0 && unread + len <= size then size - unread
    else len
  }

  lemma {:induction false} FinalRoomAfterExtend(unread: nat, rpos: nat, size: nat, len: nat, granted: bool)
    requires rpos + unread <= size && size - rpos - unread < len
    ensures var fits := rpos > 0 && unread + len <= size;
            FinalRoom(unread, rpos, size, len)
            == FinalRoom(unread, 0, if !fits && granted then unread + len else size, len)
  {
  }

  /** Byte by byte: the text, but for a zero in its last place when it takes up all the room. */
  lemma {:induction false} AppendedAt(text: seq<byte>, room: nat, i: nat)
    requires i < |text| <= room
    ensures Appended(text, room)[i] == if i == room - 1 then 0 else text[i]
  {
  }

  /**
   The text is appended whole if and only if the room is larger than the text, or the byte lost to
   the terminator was itself a zero; in particular never after a growth that reallocates, except
   for such texts.
   */
  lemma {:induction false} PrintfAppendsExactly(text: seq<byte>, room: nat)
    requires |text| <= room
    ensures Appended(text, room) == text <==> |text| < room || text == [] || text[|text| - 1] == 0
  {
    if |text| < room {
      assert Printed(text, room)[..|text|] == text;
    } else if text != [] {
      assert Printed(text, room)[..|text|] == text[..|text| - 1] + [0];
      assert text == text[..|text| - 1] + [text[|text| - 1]];
    }
  }

  /**
   In terms of the buffer before the call: the text is appended whole exactly when it is shorter
   than the free space, or does not fit there but compaction alone leaves more room than it needs,
   or it is empty or ends in a zero byte.
   */
  lemma {:induction false} VprintfAppendsExactly(text: seq<byte>, unread: nat, rpos: nat, size: nat)
    requires rpos + unread <= size
    ensures Appended(text, FinalRoom(unread, rpos, size, |text|)) == text
            <==> || rpos + unread + |text| < size
                 || (rpos + unread + |text| > size && unread + |text| < size)
                 || text == [] || text[|text| - 1] == 0
  {
    PrintfAppendsExactly(text, FinalRoom(unread, rpos, size, |text|));
  }

  /** memmove into a block. */
  method CopyIn(block: array<byte>, at: nat, data: seq<byte>)
    requires at + |data| <= block.Length
    modifies block
    ensures block[at..at + |data|] == data
    ensures block[..at] == old(block[..at]) && block[at + |data|..] == old(block[at + |data|..])
    ensures forall i :: 0 <= i < at || at + |data| <= i < block.Length ==> block[i] == old(block[i])
  {
    forall i | 0 <= i < |data| { block[at + i] := data[i]; }
  }

  // ---- The buffer object ----

  class ByteBuffer {
    var mem: array<byte>
    var size: nat
    var rpos: nat
    var wpos: nat
    var live: bool   // the block has not been freed

    /** `rpos <= wpos <= size`, and the positions meet only at the start of the block. */
    ghost predicate Valid()
      reads this
    {
      live && rpos <= wpos <= size == mem.Length < WORD && (rpos == wpos ==> rpos == 0)
    }

    ghost function Unread(): seq<byte>
      requires Valid()
      reads this, mem
    {
      mem[rpos..wpos]
    }

    /** buffer_new, once both allocations succeeded: the request is ignored unless it is 0. */
    constructor (request: nat)
      ensures Valid() && fresh(mem) && Unread() == []
      ensures size == if request == 0 then 0x2000 else 0
    {
      var n := if request == 0 then DEFAULT_SIZE else 0;
      mem := new byte[n](_ => 0);
      size := n;
      rpos := 0;
      wpos := 0;
      live := true;
    }

    function Avail(): nat
      requires Valid()
      reads this
    {
      wpos - rpos
    }

    function Space(): nat
      requires Valid()
      reads this
    {
      size - wpos
    }

    /** Moves the unread bytes to the front of the block. */
    method Compact()
      requires Valid()
      modifies this`rpos, this`wpos, mem
      ensures Valid() && rpos == 0 && Unread() == old(Unread())
    {
      var r, n, block := rpos, wpos - rpos, mem;
      forall i | 0 <= i < n { block[i] := block[r + i]; }
      wpos := n;
      rpos := 0;
    }

    /** realloc to `newlen` bytes: keeps the common prefix, or fails and keeps the block; 0 bytes free it. */
    method Realloc(newlen: nat, granted: bool) returns (ok: bool)
      requires Valid() && wpos <= newlen < WORD
      modifies this`mem, this`size, this`live
      ensures newlen == 0 ==> !ok && !live
      ensures newlen > 0 ==> ok == granted && Valid() && Unread() == old(Unread())
      ensures if newlen > 0 && granted then fresh(mem) && size == newlen else mem == old(mem) && size == old(size)
    {
      ok := granted && newlen > 0;
      if newlen == 0 {
        live := false;
      } else if granted {
        var block := new byte[newlen];
        forall i | 0 <= i < newlen && i < size { block[i] := mem[i]; }
        mem := block;
        size := newlen;
      }
    }

    /**
     buffer_extend. Unread bytes survive success and failure alike. Compaction alone does when it
     frees enough; otherwise it is up to the allocator, and success leaves exactly `len` free bytes.
     Extending an empty buffer by 0 fails and frees the block.
     */
    method Extend(len: nat, granted: bool) returns (ret: int)
      requires Valid() && wpos + len < WORD
      modifies this, mem
      ensures old(wpos) + len == 0 ==> ret == -1 && !live
      ensures old(wpos) + len > 0 ==>
                && Valid() && rpos == 0 && Unread() == old(Unread()) && (mem == old(mem) || fresh(mem))
                && if old(rpos) > 0 && |old(Unread())| + len <= old(size) then ret == 0 && size == old(size)
                   else if granted then ret == 0 && Space() == len
                   else ret == -1 && size == old(size)
    {
      if rpos > 0 {
        Compact();
        if wpos + len <= size {
          return 0;
        }
      }
      var ok := Realloc(wpos + len, granted);
      ret := if ok then 0 else -1;
    }

    /** buffer_read: hands out the oldest unread bytes, all of them or `len`. */
    method Read(len: nat) returns (n: nat, out: seq<byte>)
      requires Valid()
      modifies this`rpos, this`wpos
      ensures Valid() && n == (if len < |old(Unread())| then len else |old(Unread())|)
      ensures out == old(Unread())[..n] && Unread() == old(Unread())[n..]
      ensures Unread() != [] ==> rpos == old(rpos) + n && wpos == old(wpos)
    {
      n := if len < wpos - rpos then len else wpos - rpos;
      out := mem[rpos..rpos + n];
      ghost var unread := mem[rpos..wpos];
      assert unread[..n] == out && unread[n..] == mem[rpos + n..wpos];
      if n > 0 {
        rpos := rpos + n;
        if rpos >= wpos {
          rpos := 0;
          wpos := 0;
        }
      }
    }

    /**
     buffer_write; `data` is None for a null pointer. `tail` is what the memory behind the unread
     bytes held. The data goes to the read position, over the unread bytes.
     */
    method Write(data: Option<seq<byte>>, len: nat, granted: bool) returns (n: nat, ghost tail: seq<byte>)
      requires Valid() && wpos + len < WORD && (data.Some? ==> |data.value| == len)
      modifies this, mem
      ensures Valid() && (mem == old(mem) || fresh(mem))
      ensures wpos <= old(wpos) + len
      ensures n == len || (n == 0 && !granted && old(Space()) < len && Unread() == old(Unread()))
      ensures n == len ==> |tail| == len && Unread() == Written(old(Unread()) + tail, data)
      ensures len <= old(Space()) ==>
                n == len && tail == old(mem[wpos..wpos + len]) && mem == old(mem) && wpos == old(wpos) + len
      ensures n == len <==> len <= old(Space()) || granted || (old(rpos) > 0 && |old(Unread())| + len <= old(size))
      ensures len > old(Space()) ==>
                && rpos == 0 && wpos == |old(Unread())| + n
                && size == if n == 0 || (old(rpos) > 0 && |old(Unread())| + len <= old(size)) then old(size) else wpos
    {
      if wpos + len > size {
        var ret := Extend(len, granted);
        if ret == -1 {
          return 0, [];
        }
      }
      tail := mem[wpos..wpos + len];
      Commit(len);
      if data.Some? {
        Store(data.value);
      }
      n := len;
    }

    /** Counts `len` bytes behind the unread ones as unread. */
    method Commit(len: nat)
      requires Valid() && len <= Space()
      modifies this`wpos
      ensures Valid() && Unread() == old(Unread()) + old(mem[wpos..wpos + len])
    {
      wpos := wpos + len;
    }

    /** memmove to the read position. */
    method Store(data: seq<byte>)
      requires Valid() && |data| <= wpos - rpos
      modifies mem
      ensures Unread() == Overwrite(old(Unread()), data)
    {
      ghost var unread := mem[rpos..wpos];
      CopyIn(mem, rpos, data);
      assert mem[rpos + |data|..wpos] == unread[|data|..];
      assert mem[rpos..wpos] == mem[rpos..rpos + |data|] + mem[rpos + |data|..wpos];
    }

    /**
     buffer_yield: the shortest prefix of the unread bytes that ends with the delimiter, still in
     place in the block from `start` on; nothing when the delimiter does not occur.
     */
    method Yield(delim: seq<byte>) returns (start: nat, record: Option<seq<byte>>)
      requires Valid()
      modifies this`rpos, this`wpos
      ensures Valid() && (Unread() != [] ==> wpos == old(wpos))
      ensures match FirstIndex(old(Unread()), delim)
              case None => record == None && Unread() == old(Unread())
              case Some(i) =>
                && record == Some(old(Unread())[..i + |delim|])
                && Unread() == old(Unread())[i + |delim|..]
                && start + i + |delim| <= mem.Length
                && mem[start..start + i + |delim|] == record.value
    {
      start := rpos;
      var found := FirstIndex(mem[rpos..wpos], delim);
      match found {
        case None =>
          record := None;
        case Some(i) =>
          var off := i + |delim|;
          record := Some(mem[rpos..rpos + off]);
          assert mem[rpos..wpos] == mem[rpos..rpos + off] + mem[rpos + off..wpos];
          rpos := rpos + off;
          if rpos >= wpos {
            rpos := 0;
            wpos := 0;
          }
      }
    }

    /** vsnprintf at the write position, limited to the free space. */
    method Print(text: seq<byte>)
      requires Valid()
      modifies mem
      ensures Unread() == old(Unread())
      ensures |text| <= Space() ==> mem[wpos..wpos + |text|] == Appended(text, Space())
    {
      var p := Printed(text, size - wpos);
      CopyIn(mem, wpos, p);
      assert |text| <= Space() ==> mem[wpos..wpos + |text|] == p[..|text|];
    }

    /**
     buffer_vprintf for a call that formats to `text`. The source retries for ever while the
     allocator refuses; here it refuses `refusals` times, whatever that number is.
     */
    method Vprintf(text: seq<byte>, refusals: nat) returns (ret: nat)
      requires Valid() && wpos + |text| < WORD
      modifies this, mem
      ensures Valid() && (mem == old(mem) || fresh(mem))
      ensures ret == |text|
      ensures |text| <= old(Space()) ==> mem == old(mem) && wpos == old(wpos) + |text|
      ensures Unread() == old(Unread())
                          + Appended(text, FinalRoom(|old(Unread())|, old(rpos), old(size), |text|))
    {
      FitAndPrint(text, refusals);
      ret := |text|;
      if ret <= 0 {
        assert Appended(text, Space()) == [];
        return;
      }
      Commit(ret);
    }

    /** buffer_extend as the formatting loop calls it: the room it is heading for stays the same. */
    method ExtendFor(len: nat, granted: bool)
      requires Valid() && Space() < len && wpos + len < WORD
      modifies this, mem
      ensures Valid() && (mem == old(mem) || fresh(mem)) && Unread() == old(Unread())
      ensures FinalRoom(wpos - rpos, rpos, size, len) == FinalRoom(old(wpos - rpos), old(rpos), old(size), len)
      ensures wpos <= old(wpos) && (granted ==> len <= Space())
    {
      FinalRoomAfterExtend(wpos - rpos, rpos, size, len, granted);
      var _ := Extend(len, granted);
    }

    /** The formatting loop: prints, and while the text did not fit extends the buffer and prints again. */
    method FitAndPrint(text: seq<byte>, refusals: nat)
      requires Valid() && wpos + |text| < WORD
      modifies this, mem
      ensures Valid() && (mem == old(mem) || fresh(mem)) && Unread() == old(Unread())
      ensures Space() == FinalRoom(|old(Unread())|, old(rpos), old(size), |text|)
      ensures mem[wpos..wpos + |text|] == Appended(text, Space())
      ensures |text| <= old(Space()) ==> mem == old(mem) && wpos == old(wpos)
    {
      var left := refusals;
      while true
        invariant Valid() && (mem == old(mem) || fresh(mem)) && Unread() == old(Unread())
        invariant wpos + |text| < WORD
        invariant |text| <= old(Space()) ==> mem == old(mem) && wpos == old(wpos) && size == old(size)
        invariant FinalRoom(wpos - rpos, rpos, size, |text|)
                  == FinalRoom(old(wpos - rpos), old(rpos), old(size), |text|)
        decreases if |text| <= size - wpos then 0 else 1 + left
      {
        var avail := size - wpos;
        Print(text);
        if |text| <= avail {
          break;
        }
        ExtendFor(|text|, left == 0);
        left := if left == 0 then 0 else left - 1;
      }
    }
  }

  function Sum(cuts: seq<nat>): nat {
    if cuts == [] then 0 else Sum(cuts[..|cuts| - 1]) + cuts[|cuts| - 1]
  }

  lemma {:induction false} SumFurther(cuts: seq<nat>, i: nat)
    requires i < |cuts|
    ensures Sum(cuts[..i + 1]) == Sum(cuts[..i]) + cuts[i]
  {
    assert cuts[..i + 1][..i] == cuts[..i];
  }

  /** One more read moves the cut between what was read and what is unread. */
  lemma {:induction false} CutFurther(data: seq<byte>, asked: nat, c: nat)
    ensures var i := Min(asked, |data|);
            var k := Min(c, |data| - i);
            && data[..i] + data[i..][..k] == data[..Min(asked + c, |data|)]
            && data[i..][k..] == data[Min(asked + c, |data|)..]
  {
  }

  /** Any sequence of reads takes as much of the unread bytes as it asks for in all. */
  method ReadAll(b: ByteBuffer, cuts: seq<nat>) returns (out: seq<byte>)
    requires b.Valid()
    modifies b`rpos, b`wpos
    ensures b.Valid()
    ensures var taken := Min(Sum(cuts), |old(b.Unread())|);
            out == old(b.Unread())[..taken] && b.Unread() == old(b.Unread())[taken..]
  {
    out := [];
    ghost var data, asked := b.Unread(), 0;
    for i := 0 to |cuts|
      invariant b.Valid() && asked == Sum(cuts[..i])
      invariant out == data[..Min(asked, |data|)] && b.Unread() == data[Min(asked, |data|)..]
    {
      CutFurther(data, asked, cuts[i]);
      var k, part := b.Read(cuts[i]);
      SumFurther(cuts, i);
      out, asked := out + part, asked + cuts[i];
    }
    assert cuts[..|cuts|] == cuts;
  }

  /**
   Bytes written into an empty buffer come back in order, however the reads are cut: together they
   return as much of the data as they ask for, and what they did not ask for is still unread.
   */
  method WriteThenRead(b: ByteBuffer, data: seq<byte>, cuts: seq<nat>, granted: bool)
    returns (written: bool, out: seq<byte>)
    requires b.Valid() && b.Unread() == [] && b.wpos + |data| < WORD
    modifies b, b.mem
    ensures b.Valid()
    ensures written <==> granted || |data| <= old(b.Space())
    ensures written ==> out == data[..Min(Sum(cuts), |data|)] && b.Unread() == data[|out|..]
    ensures !written ==> out == [] && b.Unread() == []
  {
    var n, tail := b.Write(Some(data), |data|, granted);
    if n != |data| {
      return false, [];
    }
    assert [] + tail == tail && Overwrite(tail, data) == data;
    out := ReadAll(b, cuts);
    written := true;
  }
}

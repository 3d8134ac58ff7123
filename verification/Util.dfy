/** The loops of util.c: temporary names, temporary files, and the search for a descriptor limit. */
module Util {
  import opened Common

  // ---- Temporary names ----

  const LETTER_X: byte := 88

  /** The letter for the low five bits of `r`: A..P, or a..p when the fifth bit is set. */
  function Letter(r: nat): (c: byte)
    ensures 'A' as nat <= c <= 'P' as nat || 'a' as nat <= c <= 'p' as nat
  {
    65 + r % 16 + r / 16 % 2 * 32
  }

  function Name(r: nat, len: nat): (s: seq<byte>)
    ensures |s| == len
  {
    if len == 0 then [] else [Letter(r)] + Name(r / 32, len - 1)
  }

  lemma {:induction false} LetterInjective(r: nat, r': nat)
    ensures Letter(r) == Letter(r') <==> r % 32 == r' % 32
  {
    LowFiveBits(r);
    LowFiveBits(r');
    DigitsInjective(r % 16, r / 16 % 2, r' % 16, r' / 16 % 2);
  }

  lemma {:induction false} LowFiveBits(r: nat)
    ensures r % 32 == r % 16 + r / 16 % 2 * 16
  {
    ModUnique(r, 32, r / 16 / 2, r % 16 + r / 16 % 2 * 16);
  }

  lemma {:induction false} DigitsInjective(lo: nat, hi: nat, lo': nat, hi': nat)
    requires lo < 16 && lo' < 16 && hi < 2 && hi' < 2
    ensures 65 + lo + hi * 32 == 65 + lo' + hi' * 32 <==> lo + hi * 16 == lo' + hi' * 16
  {
  }

  lemma {:induction false} LetterOf(r: nat)
    ensures Letter(r) == if r % 32 < 16 then 65 + r % 32 else 97 + (r % 32 - 16)
  {
    LowFiveBits(r);
  }

  lemma {:induction false} DivTwice(r: nat, m: nat)
    requires m > 0
    ensures r / 32 / m == r / (32 * m)
  {
    var q, lo := r / 32, r % 32;
    var q', lo' := q / m, q % m;
    assert q == m * q' + lo';
    assert r == 32 * (m * q' + lo') + lo;
    assert 32 * (m * q') == 32 * m * q';
    DivUnique(r, 32 * m, q', lo + 32 * lo');
  }

  /** Letter `i` shows the five bits from bit 5 * i on, lowest first: A to P for 0 to 15, then a to p. */
  lemma {:induction false} NameAt(r: nat, len: nat, i: nat)
    requires i < len
    ensures var d := r / Pow2(5 * i) % 32;
            Name(r, len)[i] == if d < 16 then 65 + d else 97 + (d - 16)
    decreases len
  {
    if i == 0 {
      assert Pow2(5 * i) == 1;
      LetterOf(r);
    } else {
      NameAt(r / 32, len - 1, i - 1);
      Pow2Five(5 * (i - 1));
      DivTwice(r, Pow2(5 * (i - 1)));
      assert Name(r, len)[i] == Name(r / 32, len - 1)[i - 1];
    }
  }

  lemma {:induction false} ModSplit(r: nat, m: nat)
    requires m > 0
    ensures r % (32 * m) == r % 32 + 32 * (r / 32 % m)
  {
    var q, lo := r / 32, r % 32;
    var q', lo' := q / m, q % m;
    assert q == m * q' + lo';
    assert r == 32 * (m * q' + lo') + lo;
    assert 32 * (m * q') == 32 * m * q';
    ModUnique(r, 32 * m, q', lo + 32 * lo');
  }

  /** Names of one length agree exactly when the seeds agree on five bits per letter. */
  lemma {:induction false} NamesAgree(r: nat, r': nat, len: nat)
    ensures Name(r, len) == Name(r', len) <==> r % Pow2(5 * len) == r' % Pow2(5 * len)
    decreases len
  {
    if len > 0 {
      NamesAgree(r / 32, r' / 32, len - 1);
      LetterInjective(r, r');
      var m := Pow2(5 * len - 5);
      Pow2Five(5 * len - 5);
      ModSplit(r, m);
      ModSplit(r', m);
      assert Name(r, len)[0] == Letter(r) && Name(r', len)[0] == Letter(r');
      assert Name(r, len)[1..] == Name(r / 32, len - 1) && Name(r', len)[1..] == Name(r' / 32, len - 1);
    }
  }

  lemma {:induction false} Pow2Five(k: nat)
    ensures Pow2(k + 5) == 32 * Pow2(k)
  {
    assert Pow2(k + 2) == 4 * Pow2(k);
    assert Pow2(k + 4) == 4 * Pow2(k + 2);
  }

  lemma {:induction false} Pow2Monotone(j: nat, k: nat)
    requires j <= k
    ensures Pow2(j) <= Pow2(k)
    decreases k
  {
    if j < k { Pow2Monotone(j, k - 1); }
  }

  /** For 64-bit seeds: the names agree exactly when the low min(5 * len, 64) bits do. */
  lemma {:induction false} NamesAgree64(r: nat, r': nat, len: nat)
    requires r < Pow2(64) && r' < Pow2(64)
    ensures var bits := if 5 * len < 64 then 5 * len else 64;
            Name(r, len) == Name(r', len) <==> r % Pow2(bits) == r' % Pow2(bits)
  {
    NamesAgree(r, r', len);
    if 5 * len >= 64 {
      Pow2Monotone(64, 5 * len);
      SmallMod(r, Pow2(5 * len));
      SmallMod(r', Pow2(5 * len));
      SmallMod(r, Pow2(64));
      SmallMod(r', Pow2(64));
    }
  }

  /** `_make_temp_name` on the `len` letters from `base` on. */
  method MakeTempName(file: array<byte>, base: nat, len: nat, seed: nat)
    requires base + len <= file.Length
    modifies file
    ensures file[..] == Renamed(old(file[..]), base, len, seed)
  {
    var r := seed;
    ghost var before := file[..];
    for i := 0 to len
      invariant file[..base + i] + Name(r, len - i) == before[..base] + Name(seed, len)
      invariant file[base + i..] == before[base + i..]
    {
      ghost var prefix := file[..base + i];
      file[base + i] := Letter(r);
      assert file[..base + i + 1] == prefix + [Letter(r)];
      assert prefix + [Letter(r)] + Name(r / 32, len - i - 1) == prefix + Name(r, len - i);
      r := r / 32;
    }
    assert file[..] == file[..base + len] + file[base + len..];
    assert file[..base + len] + Name(r, 0) == file[..base + len];
  }

  // ---- Temporary files ----

  const RETRIES: nat := 100

  /** One open(2): the seed its name was made from, the descriptor, and whether errno was EEXIST. */
  datatype Attempt = Attempt(seed: nat, fd: int, taken: bool)

  /** `b` starts the longest run of X that ends before `e` and leaves out index 0. */
  ghost predicate IsRun(t: seq<byte>, e: nat, b: nat)
    requires 1 <= e <= |t|
  {
    && 1 <= b <= e
    && (forall i :: b <= i < e ==> t[i] == LETTER_X)
    && (b == 1 || t[b - 1] != LETTER_X)
  }

  lemma {:induction false} RunUnique(t: seq<byte>, e: nat, b: nat, b': nat)
    requires 1 <= e <= |t| && IsRun(t, e, b) && IsRun(t, e, b')
    ensures b == b'
  {
  }

  /** The index of the attempt that ends the retry loop, or RETRIES. */
  function LastTry(attempts: seq<Attempt>, k: nat): (r: nat)
    requires k <= RETRIES == |attempts|
    ensures k <= r <= RETRIES
    decreases RETRIES - k
  {
    if k == RETRIES then RETRIES
    else if attempts[k].fd > 0 || !attempts[k].taken then k
    else LastTry(attempts, k + 1)
  }

  /** How many attempts the retry loop makes. */
  function Tries(attempts: seq<Attempt>): (n: nat)
    requires |attempts| == RETRIES
    ensures 1 <= n <= RETRIES
  {
    var k := LastTry(attempts, 0);
    if k == RETRIES then RETRIES else k + 1
  }

  /**
   At most 100 names are tried: another after each that is taken, and after no other. The result is
   the descriptor of the last try, if it got one, and -1 otherwise.
   */
  lemma {:induction false} RetriesExactly(attempts: seq<Attempt>)
    requires |attempts| == 100
    ensures var n := Tries(attempts);
            && (forall i :: 0 <= i < n - 1 ==> attempts[i].fd <= 0 && attempts[i].taken)
            && (n == 100 || attempts[n - 1].fd > 0 || !attempts[n - 1].taken)
            && Opened(attempts) == if attempts[n - 1].fd > 0 then attempts[n - 1].fd else -1
  {
    LastTryIs(attempts, 0);
  }

  lemma {:induction false} LastTryIs(attempts: seq<Attempt>, k: nat)
    requires k <= RETRIES == |attempts|
    ensures var r := LastTry(attempts, k);
            && (forall i :: k <= i < r ==> attempts[i].fd <= 0 && attempts[i].taken)
            && (r < RETRIES ==> attempts[r].fd > 0 || !attempts[r].taken)
    decreases RETRIES - k
  {
    if k < RETRIES && attempts[k].fd <= 0 && attempts[k].taken { LastTryIs(attempts, k + 1); }
  }

  /** The names opened one after the other, each the template with the run renamed by its own seed. */
  ghost predicate AreNames(tried: seq<seq<byte>>, t: seq<byte>, base: nat, len: nat, attempts: seq<Attempt>)
    requires base + len <= |t|
  {
    |tried| <= |attempts| && forall i :: 0 <= i < |tried| ==> tried[i] == Renamed(t, base, len, attempts[i].seed)
  }

  /**
   tempfd. Every attempt opens the template with exactly the run of X before the suffix rewritten by
   the name of its own seed, and the last such name stays; a template without such a run is left
   alone and refused.
   */
  method Tempfd(tpl: array<byte>, sufflen: nat, attempts: seq<Attempt>)
    returns (ret: int, ghost b: nat, ghost tried: seq<seq<byte>>)
    requires sufflen < tpl.Length && |attempts| == RETRIES
    modifies tpl
    ensures IsRun(old(tpl[..]), tpl.Length - sufflen, b)
    ensures b == tpl.Length - sufflen ==> ret == -1 && tpl[..] == old(tpl[..]) && tried == []
    ensures b < tpl.Length - sufflen ==>
              && |tried| == Tries(attempts) && tpl[..] == tried[|tried| - 1]
              && AreNames(tried, old(tpl[..]), b, tpl.Length - sufflen - b, attempts)
              && ret == Opened(attempts)
  {
    var base, tlen := FindRun(tpl, tpl.Length - sufflen);
    b := base;
    if tlen == 0 {
      return -1, b, [];
    }
    ret, tried := Retry(tpl, base, tlen, attempts);
  }

  /** The scan back over the run of X. */
  method FindRun(tpl: array<byte>, e: nat) returns (base: nat, tlen: nat)
    requires 1 <= e <= tpl.Length
    ensures IsRun(tpl[..], e, base) && base + tlen == e
  {
    base, tlen := e - 1, 0;
    while tpl[base] == LETTER_X && base > 0
      invariant base + tlen == e - 1
      invariant forall i :: base < i < e ==> tpl[i] == LETTER_X
    {
      tlen, base := tlen + 1, base - 1;
    }
    base := base + 1;
  }

  /** The descriptor of the attempt that ended the retries, if it opened one. */
  function Opened(attempts: seq<Attempt>): int
    requires |attempts| == RETRIES
  {
    var k := LastTry(attempts, 0);
    if k < RETRIES && attempts[k].fd > 0 then attempts[k].fd else -1
  }

  /** The retry loop. */
  method Retry(tpl: array<byte>, base: nat, tlen: nat, attempts: seq<Attempt>)
    returns (ret: int, ghost tried: seq<seq<byte>>)
    requires base + tlen <= tpl.Length && |attempts| == RETRIES
    modifies tpl
    ensures |tried| == Tries(attempts) && tpl[..] == tried[|tried| - 1]
    ensures AreNames(tried, old(tpl[..]), base, tlen, attempts)
    ensures ret == Opened(attempts)
  {
    var i := 0;
    tried := [];
    while i < RETRIES
      invariant i == |tried| <= RETRIES && LastTry(attempts, 0) == LastTry(attempts, i)
      invariant tpl[..] == if i == 0 then old(tpl[..]) else tried[i - 1]
      invariant AreNames(tried, old(tpl[..]), base, tlen, attempts)
    {
      NextName(old(tpl[..]), tpl[..], base, tlen, attempts, tried);
      MakeTempName(tpl, base, tlen, attempts[i].seed);
      tried := tried + [tpl[..]];
      AttemptEnds(attempts, i);
      if attempts[i].fd > 0 {
        return attempts[i].fd, tried;
      }
      if !attempts[i].taken {
        return -1, tried;
      }
      i := i + 1;
    }
    return -1, tried;
  }

  /** What the outcome of attempt `i` decides, once all earlier ones asked for another. */
  lemma {:induction false} AttemptEnds(attempts: seq<Attempt>, i: nat)
    requires |attempts| == RETRIES && i < RETRIES && LastTry(attempts, 0) == LastTry(attempts, i)
    ensures attempts[i].fd > 0 ==> Tries(attempts) == i + 1 && Opened(attempts) == attempts[i].fd
    ensures attempts[i].fd <= 0 && !attempts[i].taken ==> Tries(attempts) == i + 1 && Opened(attempts) == -1
    ensures attempts[i].fd <= 0 && attempts[i].taken ==> LastTry(attempts, 0) == LastTry(attempts, i + 1)
  {
  }

  lemma {:induction false} NextName(t: seq<byte>, cur: seq<byte>, base: nat, len: nat, attempts: seq<Attempt>,
                                    tried: seq<seq<byte>>)
    requires base + len <= |t| == |cur| && |tried| < |attempts| && AreNames(tried, t, base, len, attempts)
    requires cur == if tried == [] then t else tried[|tried| - 1]
    ensures AreNames(tried + [Renamed(cur, base, len, attempts[|tried|].seed)], t, base, len, attempts)
  {
    if tried != [] { RenamedTwice(t, base, len, attempts[|tried| - 1].seed, attempts[|tried|].seed); }
  }

  function Renamed(t: seq<byte>, base: nat, len: nat, seed: nat): (r: seq<byte>)
    requires base + len <= |t|
    ensures |r| == |t|
  {
    t[..base] + Name(seed, len) + t[base + len..]
  }

  /** Exactly the run is rewritten: its `i`-th byte by letter `i` of the seed's name. */
  lemma {:induction false} RenamedAt(t: seq<byte>, base: nat, len: nat, seed: nat, i: nat)
    requires base + len <= |t| && i < |t|
    ensures base <= i < base + len ==>
              var d := seed / Pow2(5 * (i - base)) % 32;
              Renamed(t, base, len, seed)[i] == if d < 16 then 65 + d else 97 + (d - 16)
    ensures !(base <= i < base + len) ==> Renamed(t, base, len, seed)[i] == t[i]
  {
    if base <= i < base + len {
      NameAt(seed, len, i - base);
      assert Renamed(t, base, len, seed)[i] == Name(seed, len)[i - base];
    }
  }

  lemma {:induction false} RenamedTwice(t: seq<byte>, base: nat, len: nat, seed: nat, seed': nat)
    requires base + len <= |t|
    ensures Renamed(Renamed(t, base, len, seed), base, len, seed') == Renamed(t, base, len, seed')
  {
    var r := Renamed(t, base, len, seed);
    assert r[..base] == t[..base];
    assert r[base + len..] == t[base + len..];
  }

  // ---- The descriptor limit ----

  const RLIM: nat := 0x1_0000_0000_0000_0000

  /** The `k`-th limit tried: 128 less each time, in 64-bit unsigned arithmetic. */
  function Tried(max: nat, k: nat): nat {
    if k == 0 then max
    else
      var f := Tried(max, k - 1);
      if f >= 128 then f - 128 else f + RLIM - 128
  }

  predicate Stops(max: nat, cur: nat, accept: nat -> bool, k: nat) {
    Tried(max, k) <= cur || accept(Tried(max, k))
  }

  ghost predicate Ends(max: nat, cur: nat, accept: nat -> bool) {
    exists k: nat :: Stops(max, cur, accept, k)
  }

  lemma {:induction false} TriedResidue(max: nat, k: nat)
    ensures Tried(max, k) % 128 == max % 128
    decreases k
  {
    if k > 0 { TriedResidue(max, k - 1); }
  }

  lemma {:induction false} TriedDown(max: nat, k: nat)
    requires 128 * k <= max
    ensures Tried(max, k) == max - 128 * k
    decreases k
  {
    if k > 0 { TriedDown(max, k - 1); }
  }

  /**
   The search ends for every kernel if and only if `max % 128` does not exceed the old limit; an
   old limit of 127 or more is always enough.
   */
  lemma {:induction false} SearchEndsExactly(max: nat, cur: nat)
    ensures (forall accept: nat -> bool :: Ends(max, cur, accept)) <==> max % 128 <= cur
  {
    if max % 128 <= cur {
      forall accept: nat -> bool ensures Ends(max, cur, accept) {
        TriedDown(max, max / 128);
        assert Stops(max, cur, accept, max / 128);
      }
    } else {
      var never: nat -> bool := _ => false;
      forall k: nat ensures !Stops(max, cur, never, k) { TriedResidue(max, k); }
      assert !Ends(max, cur, never);
    }
  }

  /** The kernel accepts one of the limits tried before the subtraction would wrap. */
  ghost predicate AcceptsSome(max: nat, accept: nat -> bool) {
    exists k: nat :: 128 * k <= max && AcceptsAt(max, accept, k)
  }

  predicate AcceptsAt(max: nat, accept: nat -> bool, k: nat) {
    max - 128 * k >= 0 && accept(max - 128 * k)
  }

  /** Outside that case every limit down to `max % 128` is refused, and the next subtraction wraps. */
  lemma {:induction false} WrapsOtherwise(max: nat, cur: nat, accept: nat -> bool)
    requires max % 128 > cur && !AcceptsSome(max, accept)
    ensures forall j: nat :: j <= max / 128 ==> !Stops(max, cur, accept, j)
    ensures Tried(max, max / 128) == max % 128
    ensures Tried(max, max / 128 + 1) == max % 128 + 0x1_0000_0000_0000_0000 - 128
  {
    TriedDown(max, max / 128);
    forall j: nat | j <= max / 128 ensures !Stops(max, cur, accept, j) {
      TriedDown(max, j);
      TriedResidue(max, j);
      assert !AcceptsAt(max, accept, j);
    }
  }

  /** If the search still ends there, it has set a limit above the one that was asked for. */
  lemma {:induction false} WrappedLimitExceedsMax(max: nat, cur: nat, accept: nat -> bool, k: nat)
    requires max % 128 > cur && !AcceptsSome(max, accept) && Stops(max, cur, accept, k)
    ensures Tried(max, k) > max && accept(Tried(max, k))
  {
    TriedResidue(max, k);
    var f := Tried(max, k);
    if f <= max {
      var j := (max - f) / 128;
      assert max - 128 * j == f;
      assert AcceptsAt(max, accept, j);
    }
  }

  /** The search ends at its `k`-th limit. */
  ghost predicate FirstStop(max: nat, cur: nat, accept: nat -> bool, k: nat) {
    Stops(max, cur, accept, k) && forall j: nat :: j < k ==> !Stops(max, cur, accept, j)
  }

  /** The limit the search settles on when it ends at its `k`-th limit. */
  function Settled(max: nat, cur: nat, k: nat): nat {
    if Tried(max, k) < cur then cur else Tried(max, k)
  }

  /** `limit` is the largest `max - 128 * k` above the old limit that the kernel accepts, or the old limit. */
  ghost predicate IsLargest(max: nat, cur: nat, accept: nat -> bool, limit: nat) {
    || (limit == cur && forall j: nat :: max - 128 * j > cur ==> !AcceptsAt(max, accept, j))
    || (exists k: nat :: limit == max - 128 * k > cur && AcceptsAt(max, accept, k)
                         && forall j: nat :: j < k ==> !AcceptsAt(max, accept, j))
  }

  /** Unless it wraps, the search finds the largest acceptable limit. */
  lemma {:induction false} SettlesOnLargest(max: nat, cur: nat, accept: nat -> bool, k: nat)
    requires cur < max && FirstStop(max, cur, accept, k)
    requires max % 128 <= cur || AcceptsSome(max, accept)
    ensures IsLargest(max, cur, accept, Settled(max, cur, k))
  {
    StopsBeforeWrap(max, cur, accept, k);
    TriedDown(max, k);
    forall j: nat | j < k ensures max - 128 * j > cur && !AcceptsAt(max, accept, j) {
      TriedDown(max, j);
      assert !Stops(max, cur, accept, j);
    }
    if Tried(max, k) > cur {
      assert AcceptsAt(max, accept, k);
    }
  }

  lemma {:induction false} StopsBeforeWrap(max: nat, cur: nat, accept: nat -> bool, k: nat)
    requires FirstStop(max, cur, accept, k) && (max % 128 <= cur || AcceptsSome(max, accept))
    ensures 128 * k <= max
  {
    var j: nat := max / 128;
    if max % 128 > cur {
      j :| 128 * j <= max && AcceptsAt(max, accept, j);
    }
    TriedDown(max, j);
    assert Stops(max, cur, accept, j);
  }

  /** What a 64-bit limit becomes when it is returned as an int. */
  function AsInt(f: nat): int {
    if f % WORD < 0x8000_0000 then f % WORD else f % WORD - WORD
  }

  /** The int that is congruent to it modulo 2^32. */
  lemma {:induction false} AsIntExactly(f: nat)
    ensures -0x8000_0000 <= AsInt(f) < 0x8000_0000 && (f - AsInt(f)) % 0x1_0000_0000 == 0
  {
    DivMod(f, WORD);
  }

  /**
   fd_limit; `limit` is what getrlimit reported, None when it failed. The loop is followed exactly,
   wrap-around included; it is entered only where it ends (SearchEndsExactly says when it always
   does). A nonnegative request that does not make it wrap gets the largest acceptable limit.
   */
  method FdLimit(max: int, limit: Option<nat>, accept: nat -> bool) returns (ret: int)
    requires -0x8000_0000 <= max < 0x8000_0000
    requires var maxfile := if max < 0 then max + RLIM else max;
             limit.Some? && limit.value < maxfile ==> Ends(maxfile, limit.value, accept)
    ensures limit.None? ==> ret == 1024
    ensures var maxfile := if max < 0 then max + RLIM else max;
            && (limit.Some? && limit.value >= maxfile ==> ret == max)
            && (limit.Some? && limit.value < maxfile ==>
                  exists k: nat :: FirstStop(maxfile, limit.value, accept, k)
                                   && ret == AsInt(Settled(maxfile, limit.value, k)))
    ensures limit.Some? && limit.value < max && (max % 128 <= limit.value || AcceptsSome(max, accept)) ==>
              ret >= 0 && IsLargest(max, limit.value, accept, ret)
  {
    if limit.None? {
      return 1024;
    }
    var cur: nat := limit.value;
    var maxfile: nat := if max < 0 then max + RLIM else max;
    if cur >= maxfile {
      return max;
    }
    var f := maxfile;
    ghost var k: nat, stop: nat := 0, 0;
    stop :| Stops(maxfile, cur, accept, stop);
    while f > cur
      invariant f == Tried(maxfile, k) && k <= stop
      invariant forall j: nat :: j < k ==> !Stops(maxfile, cur, accept, j)
      decreases stop - k
    {
      if accept(f) {
        break;
      }
      assert !Stops(maxfile, cur, accept, k);
      f := if f >= 128 then f - 128 else f + RLIM - 128;
      k := k + 1;
    }
    assert FirstStop(maxfile, cur, accept, k);
    if f < cur {
      f := cur;
    }
    ret := AsInt(f);
    if cur < max && (max % 128 <= cur || AcceptsSome(max, accept)) {
      SettlesOnLargest(max, cur, accept, k);
      AsIntSmall(f, max);
    }
  }

  lemma {:induction false} AsIntSmall(f: nat, max: int)
    requires f <= max < 0x8000_0000
    ensures AsInt(f) == f
  {
    SmallMod(f, WORD);
  }
}

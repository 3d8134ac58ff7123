/**
 The string hash of hmap.c: a table of 0x500 words filled by a linear congruential generator, and
 a case-folding hash that mixes one table word per character.
 */
module CryptHash {
  import opened Common

  const TABLE_SIZE: nat := 0x500
  const MODULUS: nat := 0x2AAAAB
  const FIRST_SEED: nat := 0x0010_0001

  // ---- 32-bit words ----

  /** Bitwise exclusive or of the low `w` bits. */
  function XorBits(w: nat, a: nat, b: nat): (r: nat)
    ensures r < Pow2(w)
  {
    if w == 0 then 0 else (a % 2 + b % 2) % 2 + 2 * XorBits(w - 1, a / 2, b / 2)
  }

  /** Bit `i` of a number. */
  function Bit(n: nat, i: nat): (b: nat)
    ensures b < 2
  {
    if i == 0 then n % 2 else Bit(n / 2, i - 1)
  }

  lemma {:induction false} NoBits(i: nat)
    ensures Bit(0, i) == 0
    decreases i
  {
    if i > 0 { NoBits(i - 1); }
  }

  /** Each of the low `w` bits is set when exactly one of the two is, and no other bit is. */
  lemma {:induction false} XorBit(w: nat, a: nat, b: nat, i: nat)
    ensures Bit(XorBits(w, a, b), i) == if i < w && Bit(a, i) != Bit(b, i) then 1 else 0
    decreases w
  {
    if w == 0 {
      NoBits(i);
    } else {
      XorSplit(w, a, b);
      if i > 0 { XorBit(w - 1, a / 2, b / 2, i - 1); }
    }
  }

  lemma {:induction false} XorSplit(w: nat, a: nat, b: nat)
    requires w > 0
    ensures XorBits(w, a, b) % 2 == (if a % 2 != b % 2 then 1 else 0)
    ensures XorBits(w, a, b) / 2 == XorBits(w - 1, a / 2, b / 2)
  {
    assert XorBits(w, a, b) == (a % 2 + b % 2) % 2 + 2 * XorBits(w - 1, a / 2, b / 2);
  }

  /** Mixing the same word in twice takes it out again. */
  lemma {:induction false} XorInverts(w: nat, a: nat, b: nat)
    requires a < Pow2(w)
    ensures XorBits(w, XorBits(w, a, b), b) == a
    decreases w
  {
    if w > 0 {
      XorSplit(w, a, b);
      XorInverts(w - 1, a / 2, b / 2);
    }
  }

  lemma {:induction false} XorZero(w: nat, a: nat)
    requires a < Pow2(w)
    ensures XorBits(w, a, 0) == a
    decreases w
  {
    if w > 0 { XorZero(w - 1, a / 2); }
  }

  lemma {:induction false} Pow2Word()
    ensures Pow2(32) == WORD
  {
    assert Pow2(8) == 256;
    assert Pow2(16) == 256 * Pow2(8);
    assert Pow2(24) == 256 * Pow2(16);
    assert Pow2(32) == 256 * Pow2(24);
  }

  // ---- The table ----

  /** The generator's state after `k` steps. */
  function Seed(k: nat): (s: nat)
    ensures s < MODULUS
  {
    if k == 0 then FIRST_SEED else (Seed(k - 1) * 125 + 3) % MODULUS
  }

  /** Low halves of two successive states, the earlier one on top. */
  function Entry(hi: nat, lo: nat): (w: nat)
    ensures w < WORD
  {
    hi % 0x10000 * 0x10000 + lo % 0x10000
  }

  lemma {:induction false} EntryHalves(hi: nat, lo: nat)
    ensures Entry(hi, lo) / 0x10000 == hi % 0x10000 && Entry(hi, lo) % 0x10000 == lo % 0x10000
  {
  }

  /** Entry `j` of the finished table: rows of 0x100, filled column by column. */
  function TableEntry(j: nat): nat {
    var k := 10 * (j % 0x100) + 2 * (j / 0x100);
    Entry(Seed(k + 1), Seed(k + 2))
  }

  function CryptTable(): (t: seq<nat>)
    ensures |t| == TABLE_SIZE
  {
    seq(TABLE_SIZE, j requires 0 <= j => TableEntry(j))
  }

  /** No state overflows 32 bits on the way to the next. */
  lemma {:induction false} SeedFits(k: nat)
    ensures Seed(k) * 125 + 3 < 0x1_0000_0000
  {
  }

  /** The entry written by the `k`-th assignment of the nested loop. */
  function Place(k: nat): nat {
    k / 5 + 0x100 * (k % 5)
  }

  /** The 0x500 assignments go to 0x500 different entries, all of them in the table. */
  lemma {:induction false} PlacesDiffer(k: nat, k': nat)
    requires k < k' < TABLE_SIZE
    ensures Place(k) != Place(k') && Place(k) < TABLE_SIZE && Place(k') < TABLE_SIZE
  {
    assert Place(k) % 0x100 == k / 5 && Place(k) / 0x100 == k % 5;
    assert Place(k') % 0x100 == k' / 5 && Place(k') / 0x100 == k' % 5;
  }

  /** Entry `j` is written by assignment number 5 * column + row. */
  lemma {:induction false} PlaceOf(j: nat)
    requires j < TABLE_SIZE
    ensures var k := 5 * (j % 0x100) + j / 0x100;
            k < TABLE_SIZE && Place(k) == j && TableEntry(j) == Entry(Seed(2 * k + 1), Seed(2 * k + 2))
  {
    PlaceAt(j % 0x100, j / 0x100);
  }

  ghost predicate Written(table: seq<nat>, k: nat)
    requires |table| == TABLE_SIZE && k < TABLE_SIZE
  {
    Place(k) < TABLE_SIZE && table[Place(k)] == Entry(Seed(2 * k + 1), Seed(2 * k + 2))
  }

  ghost predicate Filled(table: seq<nat>, n: nat)
    requires |table| == TABLE_SIZE && n <= TABLE_SIZE
  {
    forall k: nat :: k < n ==> Written(table, k)
  }

  lemma {:induction false} FilledFurther(table: seq<nat>, n: nat)
    requires |table| == TABLE_SIZE && n < TABLE_SIZE && Filled(table, n) && Place(n) < TABLE_SIZE
    ensures Filled(table[Place(n) := Entry(Seed(2 * n + 1), Seed(2 * n + 2))], n + 1)
  {
    var table' := table[Place(n) := Entry(Seed(2 * n + 1), Seed(2 * n + 2))];
    forall k: nat | k < n + 1 ensures Written(table', k) {
      if k < n {
        PlacesDiffer(k, n);
        assert Written(table, k);
      }
    }
  }

  lemma {:induction false} FilledIsCryptTable(table: seq<nat>)
    requires |table| == TABLE_SIZE && Filled(table, TABLE_SIZE)
    ensures table == CryptTable()
  {
    forall j | 0 <= j < TABLE_SIZE ensures table[j] == CryptTable()[j] { FilledAt(table, j); }
  }

  lemma {:induction false} FilledAt(table: seq<nat>, j: nat)
    requires |table| == TABLE_SIZE && Filled(table, TABLE_SIZE) && j < TABLE_SIZE
    ensures table[j] == TableEntry(j)
  {
    PlaceOf(j);
    assert Written(table, 5 * (j % 0x100) + j / 0x100);
  }

  lemma {:induction false} NextSeed(k: nat, s: nat, q: nat, s': nat)
    requires Seed(k) == s && s * 125 + 3 == 0x2AAAAB * q + s' && s' < 0x2AAAAB
    ensures Seed(k + 1) == s'
  {
    ModUnique(s * 125 + 3, 0x2AAAAB, q, s');
  }

  lemma {:induction false} FirstSeeds(k: nat)
    requires k == 0
    ensures Seed(k + 1) == 2446790 && Seed(k + 2) == 1062626 && Seed(k + 3) == 1406712 && Seed(k + 4) == 2474417
    ensures Seed(k + 5) == 1719798 && Seed(k + 6) == 2463325
  {
    NextSeed(k, 0x100001, 46, 2446790);
    NextSeed(k + 1, 2446790, 109, 1062626);
    NextSeed(k + 2, 1062626, 47, 1406712);
    NextSeed(k + 3, 1406712, 62, 2474417);
    NextSeed(k + 4, 2474417, 110, 1719798);
    NextSeed(k + 5, 1719798, 76, 2463325);
  }

  lemma {:induction false} EntryFrom(row: nat, j: nat, hi: nat, lo: nat, e: nat)
    requires j == 0x100 * row && Seed(2 * row + 1) == hi && Seed(2 * row + 2) == lo
    requires e == Entry(hi, lo)
    ensures TableEntry(j) == e
  {
    assert j / 0x100 == row && j % 0x100 == 0;
  }

  /** The first entries of the three rows the hash uses. */
  lemma {:induction false} KnownEntries(row: nat)
    requires row < 3
    ensures TableEntry(0x100 * row) == [0x55C6_36E2, 0x76F8_C1B1, 0x3DF6_965D][row]
  {
    FirstSeeds(0);
    var hi, lo := [2446790, 1406712, 1719798][row], [1062626, 2474417, 2463325][row];
    EntryFrom(row, 0x100 * row, hi, lo, [0x55C6_36E2, 0x76F8_C1B1, 0x3DF6_965D][row]);
  }

  /** The table after one more assignment of the nested loop. */
  function Assigned(table: seq<nat>, k: nat): (r: seq<nat>)
    requires |table| == TABLE_SIZE
    ensures |r| == TABLE_SIZE
  {
    if Place(k) < TABLE_SIZE then table[Place(k) := Entry(Seed(2 * k + 1), Seed(2 * k + 2))] else table
  }

  /** The tables between the assignments: each differs from the one before by one assignment. */
  ghost predicate IsTrace(trace: seq<seq<nat>>) {
    && (forall k :: 0 <= k < |trace| ==> |trace[k]| == TABLE_SIZE)
    && (forall k :: 0 < k < |trace| ==> trace[k] == Assigned(trace[k - 1], k - 1))
  }

  /**
   `_init_crypt_table`. The table goes through 0x500 assignments, one entry each; by PlacesDiffer no
   entry is assigned twice.
   */
  method InitCryptTable(table: array<nat>) returns (ghost trace: seq<seq<nat>>)
    requires table.Length == TABLE_SIZE
    modifies table
    ensures table[..] == CryptTable()
    ensures IsTrace(trace) && |trace| == TABLE_SIZE + 1
    ensures trace[0] == old(table[..]) && trace[TABLE_SIZE] == table[..]
  {
    var seed, idx1 := FIRST_SEED, 0;
    trace := [table[..]];
    while idx1 < 0x100
      invariant idx1 <= 0x100 && |trace| == 5 * idx1 + 1 && seed == Seed(2 * (|trace| - 1))
      invariant IsTrace(trace) && trace[0] == old(table[..]) && trace[|trace| - 1] == table[..]
      invariant Filled(table[..], |trace| - 1)
    {
      var idx2, i := idx1, 0;
      while i < 5
        invariant i <= 5 && idx2 == idx1 + 0x100 * i && |trace| == 5 * idx1 + i + 1
        invariant seed == Seed(2 * (|trace| - 1))
        invariant IsTrace(trace) && trace[0] == old(table[..]) && trace[|trace| - 1] == table[..]
        invariant Filled(table[..], |trace| - 1)
      {
        PlaceAt(idx1, i);
        seed := AssignEntry(table, idx2, seed, |trace| - 1);
        trace := trace + [table[..]];
        i, idx2 := i + 1, idx2 + 0x100;
      }
      idx1 := idx1 + 1;
    }
    FilledIsCryptTable(table[..]);
  }

  lemma {:induction false} PlaceAt(idx1: nat, i: nat)
    requires i < 5
    ensures Place(5 * idx1 + i) == idx1 + 0x100 * i
  {
  }

  /** The body of the inner loop: two generator steps and the `n`-th assignment. */
  method AssignEntry(table: array<nat>, idx2: nat, seed: nat, ghost n: nat) returns (seed': nat)
    requires table.Length == TABLE_SIZE && n < TABLE_SIZE && idx2 == Place(n) < TABLE_SIZE
    requires seed == Seed(2 * n) && Filled(table[..], n)
    modifies table
    ensures seed' == Seed(2 * n + 2) && table[..] == Assigned(old(table[..]), n) && Filled(table[..], n + 1)
  {
    FilledFurther(table[..], n);
    seed' := (seed * 125 + 3) % MODULUS;
    var tmp1 := seed' % 0x10000 * 0x10000;
    assert seed' == Seed(2 * n + 1);
    seed' := (seed' * 125 + 3) % MODULUS;
    var tmp2 := seed' % 0x10000;
    table[idx2] := tmp1 + tmp2;
    assert table[..] == Assigned(old(table[..]), n);
  }

  // ---- The hash ----

  /** toupper in the C locale. */
  function Upper(c: byte): byte {
    if 'a' as nat <= c <= 'z' as nat then c - 32 else c
  }

  /** The 26 letters; every other byte is left alone. */
  lemma {:induction false} UpperLetters(i: nat, c: byte)
    requires i < 26 && !(97 <= c < 123)
    ensures Upper(97 + i) == Upper(65 + i) == 65 + i && Upper(c) == c
  {
  }

  /** The same byte, or the two cases of one letter. */
  predicate SameLetter(a: byte, b: byte) {
    a == b || (a == b + 32 && 65 <= b <= 90) || (b == a + 32 && 65 <= a <= 90)
  }

  lemma {:induction false} SameLetterExactly(a: byte, b: byte)
    ensures SameLetter(a, b) <==> Upper(a) == Upper(b)
  {
  }

  /** Strings that differ in letter case only. */
  ghost predicate CaseTwins(s: seq<byte>, s': seq<byte>) {
    |s| == |s'| && forall i :: 0 <= i < |s| ==> SameLetter(s[i], s'[i])
  }

  datatype HashState = HashState(seed1: nat, seed2: nat)

  const FIRST_STATE := HashState(0x7FED_7FED, 0xEEEE_EEEE)

  /** HASH_OFFSET, HASH_A and HASH_B select one row of 0x100 entries each. */
  type HashKind = k: nat | k <= 2

  function TableIndex(kind: HashKind, ch: byte): (i: nat)
    ensures i < 0x300 < TABLE_SIZE
  {
    kind * 0x100 + ch
  }

  function Mix(table: seq<nat>, kind: HashKind, st: HashState, c: byte): HashState
    requires |table| == TABLE_SIZE
  {
    var ch := Upper(c);
    var seed1 := XorBits(32, table[TableIndex(kind, ch)], (st.seed1 + st.seed2) % WORD);
    HashState(seed1, (ch + seed1 + st.seed2 + st.seed2 * 32 + 3) % WORD)
  }

  function HashFrom(table: seq<nat>, kind: HashKind, st: HashState, s: seq<byte>): HashState
    requires |table| == TABLE_SIZE
    decreases |s|
  {
    if s == [] then st else HashFrom(table, kind, Mix(table, kind, st, s[0]), s[1..])
  }

  function HashOf(table: seq<nat>, kind: HashKind, s: seq<byte>): nat
    requires |table| == TABLE_SIZE
  {
    HashFrom(table, kind, FIRST_STATE, s).seed1
  }

  /** Hashing a concatenation continues from the first part's state. */
  lemma {:induction false} HashConcat(table: seq<nat>, kind: HashKind, st: HashState, s: seq<byte>, s': seq<byte>)
    requires |table| == TABLE_SIZE
    ensures HashFrom(table, kind, st, s + s') == HashFrom(table, kind, HashFrom(table, kind, st, s), s')
    decreases |s|
  {
    if s == [] {
      assert s + s' == s';
    } else {
      assert (s + s')[1..] == s[1..] + s';
      HashConcat(table, kind, Mix(table, kind, st, s[0]), s[1..], s');
    }
  }

  /** Strings that differ in letter case only cannot be told apart. */
  lemma {:induction false} HashFoldsCase(table: seq<nat>, kind: HashKind, st: HashState, s: seq<byte>, s': seq<byte>)
    requires |table| == TABLE_SIZE && CaseTwins(s, s')
    ensures HashFrom(table, kind, st, s) == HashFrom(table, kind, st, s')
    decreases |s|
  {
    if s != [] {
      SameLetterExactly(s[0], s'[0]);
      HashFoldsCase(table, kind, Mix(table, kind, st, s[0]), s[1..], s'[1..]);
    }
  }

  /** Both seeds stay 32-bit words. */
  lemma {:induction false} HashFits(table: seq<nat>, kind: HashKind, st: HashState, s: seq<byte>)
    requires |table| == TABLE_SIZE && st.seed1 < WORD && st.seed2 < WORD
    ensures HashFrom(table, kind, st, s).seed1 < WORD && HashFrom(table, kind, st, s).seed2 < WORD
    decreases |s|
  {
    if s != [] {
      Pow2Word();
      HashFits(table, kind, Mix(table, kind, st, s[0]), s[1..]);
    }
  }

  // ---- What the hash depends on ----

  /** The 0x100 entries of one row. */
  function Row(table: seq<nat>, kind: HashKind): (row: seq<nat>)
    requires |table| == TABLE_SIZE
    ensures |row| == 0x100
  {
    table[0x100 * kind..0x100 * kind + 0x100]
  }

  /** The hash of one kind reads one row of the table. */
  lemma {:induction false} ReadsOneRow(table: seq<nat>, table': seq<nat>, kind: HashKind, st: HashState, s: seq<byte>)
    requires |table| == |table'| == TABLE_SIZE && Row(table, kind) == Row(table', kind)
    ensures HashFrom(table, kind, st, s) == HashFrom(table', kind, st, s)
    decreases |s|
  {
    if s != [] {
      assert Row(table, kind)[Upper(s[0])] == Row(table', kind)[Upper(s[0])];
      ReadsOneRow(table, table', kind, Mix(table, kind, st, s[0]), s[1..]);
    }
  }

  lemma {:induction false} WordInverts(e: nat, x: nat)
    requires e < WORD
    ensures XorBits(32, XorBits(32, e, x), x) == e
  {
    Pow2Word();
    XorInverts(32, e, x);
  }

  /** From the same state, two table words give the same seed only if they are the same word. */
  lemma {:induction false} EntryDecides(e: nat, e': nat, x: nat)
    requires e < WORD && e' < WORD
    ensures XorBits(32, e, x) == XorBits(32, e', x) <==> e == e'
  {
    WordInverts(e, x);
    WordInverts(e', x);
  }

  /**
   After the same characters, two last characters, under two tables that the characters before cannot
   tell apart, give the same hash if and only if their two table words are the same.
   */
  lemma {:induction false} LastEntryDecides(table: seq<nat>, table': seq<nat>, kind: HashKind, st: HashState,
                                            s: seq<byte>, c: byte, c': byte)
    requires |table| == |table'| == TABLE_SIZE
    requires HashFrom(table, kind, st, s) == HashFrom(table', kind, st, s)
    requires Row(table, kind)[Upper(c)] < WORD && Row(table', kind)[Upper(c')] < WORD
    ensures HashFrom(table, kind, st, s + [c]).seed1 == HashFrom(table', kind, st, s + [c']).seed1
            <==> Row(table, kind)[Upper(c)] == Row(table', kind)[Upper(c')]
  {
    HashSnoc(table, kind, st, s, c);
    HashSnoc(table', kind, st, s, c');
    var before := HashFrom(table, kind, st, s);
    EntryDecides(Row(table, kind)[Upper(c)], Row(table', kind)[Upper(c')], (before.seed1 + before.seed2) % WORD);
  }

  /** What Mix adds up for the second seed is what that seed is congruent to. */
  lemma {:induction false} SecondSeed(table: seq<nat>, kind: HashKind, st: HashState, c: byte, y: nat)
    requires |table| == TABLE_SIZE
    ensures var r := Mix(table, kind, st, c);
            (r.seed2 + y) % WORD == (Upper(c) + r.seed1 + 33 * st.seed2 + 3 + y) % WORD
  {
    var r := Mix(table, kind, st, c);
    AddMod(Upper(c) + r.seed1 + st.seed2 + st.seed2 * 32 + 3, y, WORD);
  }

  /**
   Two characters mixed into the same state: the second seeds differ by the difference of the
   upper-cased characters plus that of the first seeds, modulo 2^32.
   */
  lemma {:induction false} SeedsDifferByCharacter(table: seq<nat>, kind: HashKind, st: HashState, c: byte, c': byte)
    requires |table| == TABLE_SIZE
    ensures var r, r' := Mix(table, kind, st, c), Mix(table, kind, st, c');
            (r.seed2 + Upper(c') + r'.seed1) % WORD == (r'.seed2 + Upper(c) + r.seed1) % WORD
  {
    var r, r' := Mix(table, kind, st, c), Mix(table, kind, st, c');
    SecondSeed(table, kind, st, c, Upper(c') + r'.seed1);
    SecondSeed(table, kind, st, c', Upper(c) + r.seed1);
  }

  /**
   One character mixed into two states whose seeds have the same sum: the first seeds agree, and the
   second ones differ by 33 times the difference of the second seeds before, modulo 2^32.
   */
  lemma {:induction false} SeedsDifferByState(table: seq<nat>, kind: HashKind, st: HashState, st': HashState, c: byte)
    requires |table| == TABLE_SIZE && (st.seed1 + st.seed2) % WORD == (st'.seed1 + st'.seed2) % WORD
    ensures var r, r' := Mix(table, kind, st, c), Mix(table, kind, st', c);
            r.seed1 == r'.seed1 && (r.seed2 + 33 * st'.seed2) % WORD == (r'.seed2 + 33 * st.seed2) % WORD
  {
    SecondSeed(table, kind, st, c, 33 * st'.seed2);
    SecondSeed(table, kind, st', c, 33 * st.seed2);
  }

  lemma {:induction false} MixedWord(e: nat)
    requires e < WORD
    ensures XorBits(32, e, 0) == e
  {
    Pow2Word();
    XorZero(32, e);
  }

  /** From seeds 0 the first seed is the table word itself; the second adds the character and 3. */
  lemma {:induction false} MixFromZero(table: seq<nat>, kind: HashKind, c: byte)
    requires |table| == TABLE_SIZE && Row(table, kind)[Upper(c)] < WORD
    ensures var e := Row(table, kind)[Upper(c)];
            Mix(table, kind, HashState(0, 0), c) == HashState(e, (e + Upper(c) + 3) % WORD)
  {
    MixedWord(Row(table, kind)[Upper(c)]);
  }

  lemma {:induction false} HashOfOne(table: seq<nat>, kind: HashKind, st: HashState, c: byte)
    requires |table| == TABLE_SIZE
    ensures HashFrom(table, kind, st, [c]) == Mix(table, kind, st, c)
  {
    HashSnoc(table, kind, st, [], c);
    assert [] + [c] == [c];
  }

  /** The hash of nothing, and of one character: what the two initial seeds are. */
  lemma {:induction false} ShortHashes(table: seq<nat>, kind: HashKind, c: byte)
    requires |table| == TABLE_SIZE && Row(table, kind)[Upper(c)] < WORD
    ensures HashFrom(table, kind, FIRST_STATE, []).seed1 == 0x7FED_7FED
    ensures XorBits(32, HashFrom(table, kind, FIRST_STATE, [c]).seed1, 0x6EDC_6EDB) == Row(table, kind)[Upper(c)]
  {
    HashOfOne(table, kind, FIRST_STATE, c);
    assert (FIRST_STATE.seed1 + FIRST_STATE.seed2) % WORD == 0x6EDC_6EDB;
    WordInverts(Row(table, kind)[Upper(c)], 0x6EDC_6EDB);
  }

  /** `_hash_string` on the bytes before the terminator. */
  method HashString(table: array<nat>, str: seq<byte>, kind: HashKind) returns (hash: nat)
    requires table.Length == TABLE_SIZE
    ensures hash == HashOf(table[..], kind, str)
  {
    var seed1: nat, seed2: nat := FIRST_STATE.seed1, FIRST_STATE.seed2;
    var i := 0;
    while i < |str|
      invariant i <= |str|
      invariant HashState(seed1, seed2) == HashFrom(table[..], kind, FIRST_STATE, str[..i])
    {
      var ch := Upper(str[i]);
      ghost var before := HashState(seed1, seed2);
      seed1 := XorBits(32, table[TableIndex(kind, ch)], (seed1 + seed2) % WORD);
      seed2 := (ch + seed1 + seed2 + seed2 * 32 + 3) % WORD;
      assert HashState(seed1, seed2) == Mix(table[..], kind, before, str[i]);
      HashSnoc(table[..], kind, FIRST_STATE, str[..i], str[i]);
      assert str[..i] + [str[i]] == str[..i + 1];
      i := i + 1;
    }
    assert str[..i] == str;
    hash := seed1;
  }

  lemma {:induction false} HashSnoc(table: seq<nat>, kind: HashKind, st: HashState, s: seq<byte>, c: byte)
    requires |table| == TABLE_SIZE
    ensures HashFrom(table, kind, st, s + [c]) == Mix(table, kind, HashFrom(table, kind, st, s), c)
  {
    HashConcat(table, kind, st, s, [c]);
    assert [c][1..] == [];
  }
}

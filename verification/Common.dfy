/** Vocabulary shared by the models: bytes, 32-bit words, optional values, and a few arithmetic facts. */
module Common {

  type byte = x: nat | x < 256

  const WORD: nat := 0x1_0000_0000

  datatype Option<T> = None | Some(value: T)

  function Min(a: nat, b: nat): nat {
    if a < b then a else b
  }

  function Pow2(k: nat): (p: nat)
    ensures p > 0
  {
    if k == 0 then 1 else 2 * Pow2(k - 1)
  }

  lemma {:induction false} ModUnique(h: nat, n: nat, q: nat, r: nat)
    requires n > 0 && r < n && h == n * q + r
    ensures h % n == r
  {
    var q', r' := h / n, h % n;
    assert n * (q' - q) == r - r';
    if q' > q { AtLeast(n, q' - q); }
    if q > q' { AtLeast(n, q - q'); }
  }

  lemma {:induction false} DivUnique(h: nat, n: nat, q: nat, r: nat)
    requires n > 0 && r < n && h == n * q + r
    ensures h / n == q
  {
    ModUnique(h, n, q, r);
    var q' := h / n;
    assert n * (q' - q) == 0;
    if q' > q { AtLeast(n, q' - q); }
    if q > q' { AtLeast(n, q - q'); }
  }

  lemma {:induction false} DivMod(h: nat, n: nat)
    requires n > 0
    ensures h == n * (h / n) + h % n && h % n < n
  {
  }

  lemma {:induction false} AtLeast(n: nat, k: nat)
    requires k >= 1
    ensures n * k >= n
  {
  }

  lemma {:induction false} AddMod(x: nat, y: nat, m: nat)
    requires m > 0
    ensures (x % m + y) % m == (x + y) % m
  {
    DivMod(x, m);
    DivMod(x % m + y, m);
    var q, q' := x / m, (x % m + y) / m;
    assert m * (q + q') == m * q + m * q';
    ModUnique(x + y, m, q + q', (x % m + y) % m);
  }

  lemma {:induction false} SmallMod(r: nat, m: nat)
    requires r < m
    ensures r % m == r
  {
  }

  lemma {:induction false} SubsetSize<T>(a: set<T>, b: set<T>)
    requires a <= b
    ensures |a| <= |b|
  {
    assert b == a + (b - a);
  }

  lemma {:induction false} Assoc<T>(a: seq<T>, b: seq<T>, c: seq<T>)
    ensures a + b + c == a + (b + c)
  {
  }

  /** The numbers below `n`. */
  ghost function Range(n: nat): (r: set<nat>)
    ensures |r| == n && forall p: nat :: p in r <==> p < n
  {
    if n == 0 then {} else Range(n - 1) + {n - 1}
  }
}

/** The 32-bit arithmetic of the processor, where the model needs it. */
module Words {

  const TWO32: nat := 0x1_0000_0000

  function Min(a: nat, b: nat): nat { if a < b then a else b }

  /** What is left of a number in 32 bits. */
  function Wrap(n: nat): nat { n % TWO32 }

  lemma WrapSmall(n: nat)
    ensures n < TWO32 ==> Wrap(n) == n
    ensures Wrap(n) < TWO32
  {
  }

  lemma WrapAdd(a: nat, b: nat)
    ensures Wrap(Wrap(a) + b) == Wrap(a + b)
  {
  }

  /** Unsigned 32-bit subtraction. */
  function Sub32(a: nat, b: nat): (d: nat)
    requires a < TWO32 && b < TWO32
    ensures d < TWO32 && Wrap(b + d) == a
  {
    if a >= b then a - b else a + TWO32 - b
  }

  function AlignDown(v: nat, n: nat): nat
    requires n > 0
  {
    v - v % n
  }

  function AlignUp(v: nat, n: nat): nat
    requires n > 0
  {
    AlignDown(v + n - 1, n)
  }

  /** Dividing q * m + r by m. */
  lemma Quotient(q: nat, m: nat, r: nat)
    requires r < m
    ensures (q * m + r) / m == q && (q * m + r) % m == r
  {
    var a := q * m + r;
    QuotientUnique(m, q, r, a / m, a % m);
  }

  lemma QuotientUnique(m: nat, q: nat, r: nat, q': nat, r': nat)
    requires r < m && r' < m && q * m + r == q' * m + r'
    ensures q == q' && r == r'
  {
    if q < q' {
      assert (q' - q) * m == q' * m - q * m;
      MultipleAtLeast(q' - q, m);
    } else if q' < q {
      assert (q - q') * m == q * m - q' * m;
      MultipleAtLeast(q - q', m);
    }
  }

  /** Adding a multiple of m changes no remainder. */
  lemma AddMultiple(q: nat, m: nat, n: nat)
    requires m > 0
    ensures (q * m + n) % m == n % m
  {
    var p := n / m;
    assert q * m + n == (q + p) * m + n % m;
    Quotient(q + p, m, n % m);
  }

  /** Wrapping around changes no remainder modulo a divisor of 2^32. */
  lemma WrapMod(n: nat, m: nat, d: nat)
    requires m > 0 && d * m == TWO32
    ensures Wrap(n) % m == n % m
  {
    var q := n / TWO32;
    assert n == q * TWO32 + Wrap(n);
    assert q * TWO32 == (q * d) * m;
    AddMultiple(q * d, m, Wrap(n));
  }

  lemma {:induction false} MultipleAtLeast(d: nat, m: nat)
    requires d > 0
    ensures d * m >= m
  {
    if d > 1 {
      MultipleAtLeast(d - 1, m);
      assert d * m == (d - 1) * m + m;
    }
  }
}

/** Machine words, status codes and the arithmetic shared by every component. */
module Words {

  type byte = b: int | 0 <= b < 256
  type u32 = x: int | 0 <= x < 0x1_0000_0000
  type bit = b: int | 0 <= b < 2

  const U32_MODULUS: nat := 0x1_0000_0000

  /** The esp_err_t values the modelled functions return. */
  datatype Status = Ok | Fail | NoMem | InvalidArg | InvalidSize | InvalidState | NotFound | Timeout

  datatype Option<+T> = None | Some(value: T)

  function Min(a: int, b: int): int {
    if a <= b then a else b
  }

  function Max(a: int, b: int): int {
    if a >= b then a else b
  }

  function Pow2(n: nat): (p: nat)
    ensures p >= 1
  {
    if n == 0 then 1 else 2 * Pow2(n - 1)
  }

  lemma {:induction false} Pow2Add(m: nat, n: nat)
    ensures Pow2(m + n) == Pow2(m) * Pow2(n)
  {
    if m > 0 {
      Pow2Add(m - 1, n);
      assert 2 * (Pow2(m - 1) * Pow2(n)) == 2 * Pow2(m - 1) * Pow2(n);
    }
  }

  lemma {:induction false} Pow2Monotone(m: nat, n: nat)
    requires m <= n
    ensures Pow2(m) <= Pow2(n)
    decreases n - m
  {
    if m < n {
      Pow2Monotone(m + 1, n);
    }
  }

  lemma Pow2Values()
    ensures Pow2(8) == 256
    ensures Pow2(32) == U32_MODULUS
    ensures Pow2(64) == 0x1_0000_0000_0000_0000
  {
    Pow2Add(16, 16);
    assert Pow2(16) == 65536 by {
      assert Pow2(8) == 256;
      Pow2Add(8, 8);
    }
    Pow2Add(32, 32);
  }

  lemma MulMonotone(a: nat, b: nat, c: nat)
    requires a <= b
    ensures a * c <= b * c
  {
    assert (b - a) * c >= 0;
  }

  lemma DivUnique(x: nat, p: nat, q: nat, r: nat)
    requires p > 0 && x == p * q + r && r < p
    ensures x / p == q && x % p == r
  {
    var d := x / p - q;
    assert x == p * (x / p) + x % p;
    assert p * d == r - x % p;
    if d > 0 {
      MulMonotone(1, d, p);
    }
  }

  lemma ModAddMultiple(x: nat, y: nat, m: nat)
    requires m > 0
    ensures (m * x + y) % m == y % m
  {
    var q, r := y / m, y % m;
    assert m * x + y == m * (x + q) + r;
    DivUnique(m * x + y, m, x + q, r);
  }

  lemma ModMul(a: nat, p: nat, m: nat)
    requires m > 0
    ensures a % m * p % m == a * p % m
  {
    var q, r := a / m, a % m;
    assert a == m * q + r;
    assert a * p == m * (q * p) + r * p;
    ModAddMultiple(q * p, r * p, m);
  }

  lemma ModSucc(a: nat, m: nat)
    requires m > 0
    ensures (a % m + 1) % m == (a + 1) % m
  {
    assert a + 1 == m * (a / m) + (a % m + 1);
    ModAddMultiple(a / m, a % m + 1, m);
  }

  /** The sequence without its element at position i. */
  function Without<T>(s: seq<T>, i: nat): (r: seq<T>)
    requires i < |s|
    ensures |r| == |s| - 1
  {
    s[..i] + s[i + 1..]
  }
}

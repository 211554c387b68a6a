/** The parts of C#'s 32-bit integer arithmetic that the shift ciphers rely on. */
module CSharpInt {

  const MinInt32: int := -0x8000_0000
  const MaxInt32: int := 0x7FFF_FFFF
  const Modulus32: int := 0x1_0000_0000

  /** C#'s `int`. */
  type int32 = x: int | MinInt32 <= x <= MaxInt32

  /** C#'s `byte`. */
  type byte = x: int | 0 <= x < 256

  /** Two to the power `k`: `1 << k`. */
  function Pow2(k: nat): (p: nat)
    ensures p >= 1
  {
    if k == 0 then 1 else 2 * Pow2(k - 1)
  }

  /** The value an unchecked 32-bit operation stores when the exact result is `x`. */
  function Wrap(x: int): (r: int32)
    ensures (r - x) % Modulus32 == 0
    ensures MinInt32 <= x <= MaxInt32 ==> r == x
  {
    (x - MinInt32) % Modulus32 + MinInt32
  }

  /** C#'s `%` on `int`: the quotient is truncated toward zero, so the
      remainder takes the sign of the dividend. */
  function Rem(a: int, m: int): (r: int)
    requires m > 0
    ensures -m < r < m
    ensures a >= 0 ==> r >= 0
    ensures a <= 0 ==> r <= 0
    ensures (a - r) % m == 0
  {
    if a >= 0 then
      assert a - a % m == m * (a / m);
      ModUnique(a - a % m, m, a / m, 0);
      a % m
    else
      var q, t := (-a) / m, (-a) % m;
      assert -a == m * q + t;
      assert a + t == m * -q;
      ModUnique(a + t, m, -q, 0);
      -t
  }

  /** Euclidean division is unique: a representation `a == m * q + r` with
      `0 <= r < m` determines the quotient and the remainder. */
  lemma ModUnique(a: int, m: int, q: int, r: int)
    requires m > 0 && 0 <= r < m && a == m * q + r
    ensures a % m == r && a / m == q
  {
    var q', r' := a / m, a % m;
    assert a == m * q' + r';
    assert m * (q - q') == r' - r;
    if q > q' {
      MulAtLeast(m, q - q');
    } else if q < q' {
      MulAtLeast(m, q' - q);
    }
  }

  /** The quotient of a value that is not negative is not negative. */
  lemma DivNonNeg(x: int, p: int)
    requires x >= 0 && p >= 1
    ensures x / p >= 0
  {
  }

  lemma {:induction false} MulAtLeast(m: int, d: int)
    requires m > 0 && d >= 1
    ensures m * d >= m
  {
    if d > 1 {
      MulAtLeast(m, d - 1);
      assert m * d == m * (d - 1) + m;
    }
  }

  /** The idiom `r = a % m; if (r < 0) r += m;` of Ciphers.cs: it yields the
      mathematical (Euclidean) residue of `a`. */
  function Normalize(a: int, m: int): (r: int)
    requires m > 0
    ensures 0 <= r < m
    ensures r == a % m
  {
    var r := Rem(a, m);
    if r < 0 then
      var q := (a - r) / m;
      ModUnique(a, m, q - 1, r + m);
      r + m
    else
      var q := (a - r) / m;
      ModUnique(a, m, q, r);
      r
  }

  /** `shift * direction` with `direction = encrypt ? 1 : -1`, evaluated in
      unchecked 32-bit arithmetic: negating `int.MinValue` gives `int.MinValue`. */
  function Directed(shift: int32, encrypt: bool): (r: int32)
    ensures encrypt ==> r == shift
    ensures !encrypt && shift != MinInt32 ==> r == -shift
    ensures !encrypt && shift == MinInt32 ==> r == MinInt32
  {
    Wrap(shift * (if encrypt then 1 else -1))
  }

  /** Residues of a number and of its negation cancel. */
  lemma NegatedResidues(a: int, m: int)
    requires m > 0
    ensures (a % m + (-a) % m) % m == 0
  {
    var q, q' := a / m, (-a) / m;
    assert a == m * q + a % m;
    assert -a == m * q' + (-a) % m;
    ModUnique(a % m + (-a) % m, m, -q - q', 0);
  }

  /** Rotating a position by `e` and then by `f` modulo `m` is rotating by `e + f`. */
  lemma RotateTwice(x: int, e: int, f: int, m: int)
    requires m > 0 && 0 <= x < m && e >= 0 && f >= 0
    ensures ((x + e) % m + f) % m == (x + e + f) % m
  {
    var q := (x + e) / m;
    var y := (x + e) % m;
    assert x + e + f == m * q + (y + f);
    var q2, r2 := (y + f) / m, (y + f) % m;
    assert x + e + f == m * (q + q2) + r2;
    ModUnique(x + e + f, m, q + q2, r2);
  }

  /** ... so two rotations whose amounts add up to a multiple of `m` cancel. */
  lemma RotateBack(x: int, e: int, f: int, m: int)
    requires m > 0 && 0 <= x < m && e >= 0 && f >= 0 && (e + f) % m == 0
    ensures ((x + e) % m + f) % m == x
  {
    RotateTwice(x, e, f, m);
    var k := (e + f) / m;
    assert e + f == m * k;
    ModUnique(x + e + f, m, k, x);
  }
}

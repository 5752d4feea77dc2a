/** The unsigned machine integers of the original program, their saturating operations, units of size, and
    the uniqueness of quotient and remainder. */
module MachineIntegers {
  const U32_MAX: int := 0xFFFF_FFFF
  const U64_MAX: int := 0xFFFF_FFFF_FFFF_FFFF

  type byte = x: int | 0 <= x < 256
  type u32 = x: int | 0 <= x <= U32_MAX
  type u64 = x: int | 0 <= x <= U64_MAX

  function Min(a: int, b: int): int {
    if a <= b then a else b
  }

  function Max(a: int, b: int): int {
    if a >= b then a else b
  }

  function SaturatingAdd(a: u64, b: u64): u64 {
    if a + b > U64_MAX then U64_MAX else a + b
  }

  function SaturatingSub(a: u64, b: u64): u64 {
    if a < b then 0 else a - b
  }

  /** Absolute difference of two unsigned values. */
  function AbsDiff(a: u64, b: u64): u64 {
    if a < b then b - a else a - b
  }

  const MIB: u64 := 1024 * 1024
  const GIB: u64 := 1024 * 1024 * 1024

  lemma MultipleIsFar(m: int, d: int)
    requires 0 < m
    ensures d >= 1 ==> m * d >= m
    ensures d <= -1 ==> m * d <= -m
  {
    if d >= 1 { assert m * d == m * (d - 1) + m; }
    if d <= -1 { assert m * -d == m * (-d - 1) + m; }
  }

  /** Quotient and remainder are unique. */
  lemma DivisionIs(a: int, m: int, q: int, r: int)
    requires 0 <= r < m && a == m * q + r
    ensures a / m == q && a % m == r
  {
    var d := a / m - q;
    assert m * (a / m) == m * q + m * d;
    assert m * d == r - a % m;
    MultipleIsFar(m, d);
  }

  /** A quotient of a quotient is the quotient by the product. */
  lemma DivideTwice(n: nat, a: nat, b: nat)
    requires a > 0 && b > 0 && a * b > 0
    ensures n / a / b == n / (a * b)
  {
    var q := n / a;
    DivideOnce(n, a);
    DivideOnce(q, b);
    SplitTwice(a, b, q / b, q % b, n % a);
    QuotientIs(n, a * b, q / b, a * (q % b) + n % a);
  }

  lemma DivideOnce(n: nat, a: nat)
    requires a > 0
    ensures n == a * (n / a) + n % a && 0 <= n % a < a
  {
  }

  lemma QuotientIs(n: int, m: int, q: int, r: int)
    requires 0 <= r < m && n == m * q + r
    ensures m != 0 && n / m == q
  {
    DivisionIs(n, m, q, r);
  }

  lemma SplitTwice(a: nat, b: nat, high: nat, low: nat, r: nat)
    requires low < b && r < a
    ensures a * (b * high + low) + r == (a * b) * high + (a * low + r)
    ensures 0 <= a * low + r < a * b
  {
    assert a * (b * high + low) == a * (b * high) + a * low;
    assert a * (b * high) == (a * b) * high;
    MultipleIsFar(a, b - low);
    assert a * (b - low) == a * b - a * low;
  }
}

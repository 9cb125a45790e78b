/** The machine integers and small datatypes that every component shares. */
module MachineWords {

  const U64_MAX: nat := 0xFFFF_FFFF_FFFF_FFFF
  const TWO_TO_THE_32: nat := 0x1_0000_0000
  /** The master clock every component is derived from, in hertz. */
  const MASTER_HZ: nat := 187_500_000

  type byte = x: int | 0 <= x < 0x100
  type u32 = x: int | 0 <= x < 0x1_0000_0000
  type u64 = x: int | 0 <= x <= 0xFFFF_FFFF_FFFF_FFFF

  datatype Option<+T> = None | Some(value: T)

  function Min(a: int, b: int): int {
    if a <= b then a else b
  }

  function Max(a: int, b: int): int {
    if a >= b then a else b
  }

  /** Unsigned subtraction that stops at zero. */
  function SaturatingSub(a: nat, b: nat): nat {
    if a >= b then a - b else 0
  }

  /** 64-bit addition that stops at the largest value. */
  function SaturatingAdd(a: u64, b: u64): u64 {
    if a + b <= U64_MAX then a + b else U64_MAX
  }

  /** Division that truncates toward zero, as Rust's signed `/` does. */
  function TruncatingDiv(a: int, b: int): int
    requires b > 0
  {
    if a >= 0 then a / b else -((-a) / b)
  }

  /** Multiplication of naturals, named so that the proofs reason about it only where they say so. */
  function Times(a: nat, b: nat): nat {
    a * b
  }

  lemma TimesAdd(a: nat, b: nat, k: nat)
    ensures Times(a + b, k) == Times(a, k) + Times(b, k)
  {
  }

  /** Quotient and remainder are determined by the equation they satisfy. */
  lemma QuotientUnique(n: int, m: nat, q: int, r: nat)
    requires r < m && n == r + q * m
    ensures n / m == q && n % m == r
  {
    var k := n / m - q;
    assert n == (n / m) * m + n % m;
    assert k * m == (n / m) * m - q * m;
    SmallMultipleIsZero(k, m);
  }

  lemma SmallMultipleIsZero(k: int, m: int)
    requires -m < k * m < m
    ensures k == 0
  {
  }
}

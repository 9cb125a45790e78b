/** Big-endian words over byte sequences: how the caches and the bus see memory. */
module BigEndian {
  import opened MachineWords

  function Pow256(n: nat): (p: nat)
    ensures p > 0
  {
    if n == 0 then 1 else 256 * Pow256(n - 1)
  }

  /** The word held by the first n bytes. */
  function Prefix(s: seq<byte>, n: nat): nat
    requires n <= |s|
  {
    if n == 0 then 0 else Prefix(s, n - 1) * 256 + s[n - 1]
  }

  function Word(s: seq<byte>): nat {
    Prefix(s, |s|)
  }

  /** Byte k, from the most significant, of the low n bytes of a value. */
  function ByteOf(value: nat, n: nat, k: nat): byte
    requires k < n
  {
    value / Pow256(n - 1 - k) % 256
  }

  /** The low n bytes of a value, most significant first. */
  function Bytes(value: nat, n: nat): (s: seq<byte>)
    ensures |s| == n && forall k :: 0 <= k < n ==> s[k] == ByteOf(value, n, k)
  {
    seq(n, k requires 0 <= k < n => ByteOf(value, n, k))
  }

  lemma {:induction false} PrefixBound(s: seq<byte>, n: nat)
    requires n <= |s|
    ensures Prefix(s, n) < Pow256(n)
  {
    if n > 0 {
      PrefixBound(s, n - 1);
    }
  }

  lemma EightBytesFit()
    ensures Pow256(8) == U64_MAX + 1 && Pow256(4) == TWO_TO_THE_32
  {
    assert Pow256(2) == 0x1_0000;
    assert Pow256(4) == 0x1_0000_0000;
    assert Pow256(6) == 0x1_0000_0000_0000;
  }

  lemma {:induction false} Pow256Monotone(m: nat, n: nat)
    requires m <= n
    ensures Pow256(m) <= Pow256(n)
  {
    if m < n {
      Pow256Monotone(m, n - 1);
    }
  }

  /** Dividing by 256 p is dividing by 256 and then by p. */
  lemma DivideTwice(v: nat, p: nat)
    requires p > 0
    ensures v / (256 * p) == v / 256 / p
    ensures v % (256 * p) == v / 256 % p * 256 + v % 256
  {
    var q, r := v / 256, v % 256;
    var s, t := q / p, q % p;
    assert q == s * p + t;
    assert v == (256 * t + r) + s * (256 * p);
    QuotientUnique(v, 256 * p, s, 256 * t + r);
  }

  /** Reading back the n bytes a value was written as gives its low n bytes. */
  lemma WrittenWordReadsBack(value: nat, n: nat)
    ensures Word(Bytes(value, n)) == value % Pow256(n)
  {
    WrittenPrefix(value, n, n);
    OneDividesAll(value);
  }

  lemma {:induction false} WrittenPrefix(value: nat, n: nat, k: nat)
    requires k <= n
    ensures Prefix(Bytes(value, n), k) == value / Pow256(n - k) % Pow256(k)
  {
    if k > 0 {
      WrittenPrefix(value, n, k - 1);
      assert Pow256(n - k + 1) == 256 * Pow256(n - k) && Pow256(k) == 256 * Pow256(k - 1);
      NextDigit(value, Pow256(n - k), Pow256(k - 1));
    } else {
      OneDividesAll(value / Pow256(n));
    }
  }

  lemma NextDigit(value: nat, p: nat, q: nat)
    requires p > 0 && q > 0
    ensures value / (256 * p) % q * 256 + value / p % 256 == value / p % (256 * q)
  {
    DivideTwice(value, p);
    DivideSwap(value, p);
    DivideTwice(value / p, q);
  }

  lemma DivideSwap(v: nat, p: nat)
    requires p > 0
    ensures v / 256 / p == v / p / 256
  {
    var q, r := v / p, v % p;
    var s, t := q / 256, q % 256;
    assert v == (p * t + r) + s * (256 * p);
    assert p * t + r < 256 * p by { BelowProduct(p, t, r); }
    QuotientUnique(v, 256 * p, s, p * t + r);
    DivideTwice(v, p);
  }

  lemma BelowProduct(p: nat, t: nat, r: nat)
    requires t < 256 && r < p
    ensures p * t + r < 256 * p
  {
    assert p * t <= p * 255;
  }

  lemma OneDividesAll(value: int)
    ensures value % Pow256(0) == 0 && value / Pow256(0) == value
  {
  }

  /** A word taken apart gives the bytes it was put together from. */
  lemma ReadWordSplitsBack(s: seq<byte>)
    ensures Bytes(Word(s), |s|) == s
  {
    forall k | 0 <= k < |s| ensures ByteOf(Word(s), |s|, k) == s[k] {
      PrefixSplitsBack(s, |s|, k);
    }
  }

  lemma {:induction false} PrefixSplitsBack(s: seq<byte>, n: nat, k: nat)
    requires n <= |s| && k < n
    ensures ByteOf(Prefix(s, n), n, k) == s[k]
  {
    var w := Prefix(s, n);
    assert w / 256 == Prefix(s, n - 1) && w % 256 == s[n - 1];
    if k < n - 1 {
      DivideTwice(w, Pow256(n - 2 - k));
      PrefixSplitsBack(s, n - 1, k);
    }
  }
}

/** The joybus accessory CRC: 8 bits, seed 0, polynomial 0x85. */
module JoybusCrc {

  function BitStep(crc: bv8): bv8 {
    if crc & 0x80 != 0 then (crc << 1) ^ 0x85 else crc << 1
  }

  function BitSteps(crc: bv8, n: nat): bv8 {
    if n == 0 then crc else BitStep(BitSteps(crc, n - 1))
  }

  function ByteStep(crc: bv8, byte: bv8): bv8 {
    BitSteps(crc ^ byte, 8)
  }

  /** The checksum of the first n bytes. */
  function Crc(data: seq<bv8>, n: nat): bv8
    requires n <= |data|
  {
    if n == 0 then 0 else ByteStep(Crc(data, n - 1), data[n - 1])
  }

  /** The polynomial's constant term is 1, so no step loses anything. */
  lemma BitStepInjective(a: bv8, b: bv8)
    requires BitStep(a) == BitStep(b)
    ensures a == b
  {
  }

  lemma {:induction false} BitStepsInjective(a: bv8, b: bv8, n: nat)
    requires BitSteps(a, n) == BitSteps(b, n)
    ensures a == b
  {
    if n > 0 {
      BitStepInjective(BitSteps(a, n - 1), BitSteps(b, n - 1));
      BitStepsInjective(a, b, n - 1);
    }
  }

  /** A byte step keeps different remainders different ... */
  lemma ByteStepKeeps(a: bv8, b: bv8, x: bv8)
    requires ByteStep(a, x) == ByteStep(b, x)
    ensures a == b
  {
    BitStepsInjective(a ^ x, b ^ x, 8);
    XorUndone(a, x);
    XorUndone(b, x);
    hide *;
  }

  /** ... and tells different bytes apart. */
  lemma ByteStepSeparates(a: bv8, x: bv8, y: bv8)
    requires ByteStep(a, x) == ByteStep(a, y)
    ensures x == y
  {
    BitStepsInjective(a ^ x, a ^ y, 8);
    XorUndone(a, x);
    XorUndone(a, y);
    hide *;
  }

  lemma XorUndone(a: bv8, x: bv8)
    ensures (a ^ x) ^ x == a && a ^ (a ^ x) == x
  {
  }

  /** The checksum is never the same for two blocks that differ in exactly one byte. */
  lemma {:induction false} DetectsOneByte(a: seq<bv8>, b: seq<bv8>, at: nat, n: nat)
    requires at < n <= |a| == |b| && a[at] != b[at]
    requires forall k :: 0 <= k < n && k != at ==> a[k] == b[k]
    ensures Crc(a, n) != Crc(b, n)
    decreases n
  {
    hide ByteStep;
    if Crc(a, n) == Crc(b, n) {
      if at == n - 1 {
        SamePrefix(a, b, n - 1);
        ByteStepSeparates(Crc(a, n - 1), a[at], b[at]);
      } else {
        ByteStepKeeps(Crc(a, n - 1), Crc(b, n - 1), a[n - 1]);
        DetectsOneByte(a, b, at, n - 1);
      }
    }
  }

  lemma {:induction false} SamePrefix(a: seq<bv8>, b: seq<bv8>, n: nat)
    requires n <= |a| && n <= |b| && forall k :: 0 <= k < n ==> a[k] == b[k]
    ensures Crc(a, n) == Crc(b, n)
  {
    if n > 0 {
      SamePrefix(a, b, n - 1);
    }
  }

  // ----- the checksum as a remainder

  /** Long division by x^8 + x^7 + x^2 + 1: the next bit of the dividend is brought down, and the
      divisor's nine bits are taken away where they go. */
  function BroughtDown(rem: bv16, bit: bool): bv16 {
    var next := (rem << 1) | if bit then 1 else 0;
    if next & 0x100 != 0 then next ^ 0x185 else next
  }

  /** What division leaves of a dividend, its bits most significant first. */
  function Remainder(bits: seq<bool>): bv16 {
    if bits == [] then 0 else BroughtDown(Remainder(bits[..|bits| - 1]), bits[|bits| - 1])
  }

  /** Bit k, from the most significant, of a byte. */
  predicate BitOf(byte: bv8, k: nat)
    requires k < 8
  {
    (byte >> (7 - k)) & 1 == 1
  }

  /** The bits of the first n bytes. */
  function BitsOf(data: seq<bv8>, n: nat): (bits: seq<bool>)
    requires n <= |data|
    ensures |bits| == 8 * n
  {
    seq(8 * n, k requires 0 <= k < 8 * n => BitOf(data[k / 8], k % 8))
  }

  /** The remainder after the first n bytes: the code's step, with each byte added after it. */
  function Divided(data: seq<bv8>, n: nat): bv8
    requires n <= |data|
  {
    if n == 0 then 0 else BitSteps(Divided(data, n - 1), 8) ^ data[n - 1]
  }

  lemma {:induction false} DividedIsCrc(data: seq<bv8>, n: nat)
    requires n <= |data|
    ensures BitSteps(Divided(data, n), 8) == Crc(data, n)
  {
    if n > 0 {
      DividedIsCrc(data, n - 1);
      hide BitSteps;
    } else {
      assert BitSteps(0, 4) == 0;
    }
  }

  /** A remainder beside the bits brought down since. */
  function Beside(rem: bv8, low: bv8): bv16 {
    (rem ^ low) as bv16
  }

  function Appended(low: bv8, bit: bool): bv8 {
    if bit then (low << 1) | 1 else low << 1
  }

  lemma BitBroughtDown(rem: bv8, low: bv8, bit: bool)
    requires low & 0x80 == 0
    ensures BroughtDown(Beside(rem, low), bit) == Beside(BitStep(rem), Appended(low, bit))
  {
    hide BroughtDown, Beside, Appended;
    if rem & 0x80 != 0 {
      TakesAway(rem, low, bit);
    } else {
      MovesUp(rem, low, bit);
    }
  }

  lemma TakesAway(rem: bv8, low: bv8, bit: bool)
    requires low & 0x80 == 0 && rem & 0x80 != 0
    ensures BroughtDown(Beside(rem, low), bit) == Beside((rem << 1) ^ 0x85, Appended(low, bit))
  {
    if bit {} else {}
  }

  lemma MovesUp(rem: bv8, low: bv8, bit: bool)
    requires low & 0x80 == 0 && rem & 0x80 == 0
    ensures BroughtDown(Beside(rem, low), bit) == Beside(rem << 1, Appended(low, bit))
  {
    if bit {} else {}
  }

  /** The leading k bits of a byte. */
  function Leading(byte: bv8, k: nat): bv8
    requires k <= 8
  {
    byte >> (8 - k)
  }

  lemma LeadingOneMore(byte: bv8, k: nat)
    requires k < 8
    ensures Leading(byte, k) & 0x80 == 0
    ensures Leading(byte, k + 1) == Appended(Leading(byte, k), BitOf(byte, k))
  {
    if k == 0 {} else if k == 1 {} else if k == 2 {} else if k == 3 {}
    else if k == 4 {} else if k == 5 {} else if k == 6 {} else { assert k == 7; }
  }

  /** After k bits of the next byte the remainder has taken k steps. */
  lemma {:induction false} PartByte(data: seq<bv8>, n: nat, k: nat)
    requires n < |data| && k <= 8
    requires Remainder(BitsOf(data, n)) == Beside(Divided(data, n), 0)
    ensures Remainder(BitsOf(data, n + 1)[..8 * n + k]) == Beside(BitSteps(Divided(data, n), k), Leading(data[n], k))
    decreases k
  {
    hide BroughtDown, Beside, Leading, BitOf, BitStep, Divided, Appended;
    var bits := BitsOf(data, n + 1);
    hide Remainder;
    if k == 0 {
      BitsBefore(data, n);
      hide BitsOf;
      NothingBrought(Divided(data, n), data[n]);
    } else {
      var part := bits[..8 * n + k];
      assert part[..8 * n + k - 1] == bits[..8 * n + k - 1];
      BitAt(data, n, k - 1);
      hide BitsOf;
      PartByte(data, n, k - 1);
      LeadingOneMore(data[n], k - 1);
      NextBit(part, BitSteps(Divided(data, n), k - 1), Leading(data[n], k - 1));
    }
  }

  lemma BitsBefore(data: seq<bv8>, n: nat)
    requires n < |data|
    ensures BitsOf(data, n + 1)[..8 * n] == BitsOf(data, n)
  {
    hide BitOf;
  }

  lemma NextBit(part: seq<bool>, rem: bv8, low: bv8)
    requires part != [] && low & 0x80 == 0 && Remainder(part[..|part| - 1]) == Beside(rem, low)
    ensures Remainder(part) == Beside(BitStep(rem), Appended(low, part[|part| - 1]))
  {
    BitBroughtDown(rem, low, part[|part| - 1]);
    hide BroughtDown, Beside, BitStep, Appended;
  }

  lemma NothingBrought(rem: bv8, byte: bv8)
    ensures Beside(rem, Leading(byte, 0)) == Beside(rem, 0)
  {
  }

  lemma BitAt(data: seq<bv8>, n: nat, k: nat)
    requires n < |data| && k < 8
    ensures BitsOf(data, n + 1)[8 * n + k] == BitOf(data[n], k)
  {
    assert (8 * n + k) / 8 == n && (8 * n + k) % 8 == k;
  }

  lemma {:induction false} DividesTo(data: seq<bv8>, n: nat)
    requires n <= |data|
    ensures Remainder(BitsOf(data, n)) == Beside(Divided(data, n), 0)
  {
    if n > 0 {
      assert BitsOf(data, n)[..8 * n] == BitsOf(data, n);
      hide Remainder, BitsOf, BitSteps, Beside, Leading, BitStep;
      DividesTo(data, n - 1);
      PartByte(data, n - 1, 8);
      WholeByte(BitSteps(Divided(data, n - 1), 8), data[n - 1]);
    }
  }

  lemma WholeByte(rem: bv8, byte: bv8)
    ensures Beside(rem, Leading(byte, 8)) == Beside(rem ^ byte, 0)
  {
  }

  /** The checksum is the remainder of the data, followed by eight zero bits, on division by
      x^8 + x^7 + x^2 + 1; so data followed by its checksum divides exactly. */
  lemma CrcIsRemainder(data: seq<bv8>, last: bv8)
    ensures
      var rem := Remainder(BitsOf(data + [last], |data| + 1));
      (last == 0 ==> rem == Crc(data, |data|) as bv16) && (last == Crc(data, |data|) <==> rem == 0)
  {
    RemainderIs(data, last);
    LastByte(Crc(data, |data|), last);
    hide *;
  }

  lemma RemainderIs(data: seq<bv8>, last: bv8)
    ensures Remainder(BitsOf(data + [last], |data| + 1)) == (Crc(data, |data|) ^ last) as bv16
  {
    var n, more := |data|, data + [last];
    DivisorLast(more, n);
    hide Remainder, BitsOf, BitSteps, Crc, Divided;
    DividesTo(more, n + 1);
    DividedIsCrc(more, n);
    SamePrefix(more, data, n);
  }

  lemma DivisorLast(data: seq<bv8>, n: nat)
    requires n < |data|
    ensures Divided(data, n + 1) == BitSteps(Divided(data, n), 8) ^ data[n]
  {
  }

  lemma LastByte(crc: bv8, last: bv8)
    ensures crc ^ 0 == crc
    ensures (crc ^ last) as bv16 == 0 <==> last == crc
  {
  }

  method DataCrc(data: seq<bv8>) returns (crc: bv8)
    ensures crc == Crc(data, |data|)
  {
    crc := 0;
    for i := 0 to |data|
      invariant crc == Crc(data, i)
    {
      crc := crc ^ data[i];
      ghost var start := crc;
      for bit := 0 to 8
        invariant crc == BitSteps(start, bit)
      {
        var carry := crc & 0x80 != 0;
        crc := crc << 1;
        if carry {
          crc := crc ^ 0x85;
        }
      }
    }
  }
}

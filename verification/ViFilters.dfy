/** The arithmetic of the VI's pixel filters: the bilinear lerp, the de-dither nudges, the
    AA-edge filter with its runner-up extremes, the divot median and the gamma curve.

    The functions say what each filter means over the integers. The methods compute it with the
    wrapping and truncating operations of the emulator, and are proved to agree. */
module ViFilters {
  import opened MachineWords

  datatype Rgb = Rgb(r: byte, g: byte, b: byte)

  function Channel(p: Rgb, c: nat): byte
    requires c < 3
  {
    if c == 0 then p.r else if c == 1 then p.g else p.b
  }

  /** One channel of a list of pixels. */
  function Channels(ps: seq<Rgb>, c: nat): (s: seq<byte>)
    requires c < 3
    ensures |s| == |ps| && forall i :: 0 <= i < |s| ==> s[i] == Channel(ps[i], c)
  {
    seq(|ps|, i requires 0 <= i < |ps| => Channel(ps[i], c))
  }

  // ----- bilinear interpolation

  /** The mean of two channel values weighted by a five-bit fraction, rounded to nearest. */
  function RoundedMean(a: byte, b: byte, frac: nat): (m: byte)
    requires frac < 32
    ensures Min(a, b) <= m <= Max(a, b)
  {
    MeanBounds(a, b, frac);
    ((32 - frac) * a + frac * b + 16) / 32
  }

  lemma MeanBounds(a: byte, b: byte, frac: nat)
    requires frac < 32
    ensures 32 * Min(a, b) <= (32 - frac) * a + frac * b <= 32 * Max(a, b)
  {
    var lo, hi := Min(a, b), Max(a, b);
    MultiplyMonotone(lo, a, 32 - frac);
    MultiplyMonotone(lo, b, frac);
    MultiplyMonotone(a, hi, 32 - frac);
    MultiplyMonotone(b, hi, frac);
    ComplementaryWeights(lo, frac);
    ComplementaryWeights(hi, frac);
  }

  lemma ComplementaryWeights(v: int, frac: nat)
    ensures v * (32 - frac) + v * frac == 32 * v
  {
  }

  function MeanRgb(a: Rgb, b: Rgb, frac: nat): Rgb
    requires frac < 32
  {
    Rgb(RoundedMean(a.r, b.r, frac), RoundedMean(a.g, b.g, frac), RoundedMean(a.b, b.b, frac))
  }

  lemma MeanZeroWeight(a: Rgb, b: Rgb)
    ensures MeanRgb(a, b, 0) == a
  {
  }

  /** `vi_lerp3`: a signed difference, an arithmetic shift, and a cast that drops high bits. */
  method Lerp3(a: Rgb, b: Rgb, frac: nat) returns (o: Rgb)
    requires frac < 32
    ensures o == MeanRgb(a, b, frac)
  {
    var red := LerpChannel(a.r, b.r, frac);
    var green := LerpChannel(a.g, b.g, frac);
    var blue := LerpChannel(a.b, b.b, frac);
    o := Rgb(red, green, blue);
  }

  method LerpChannel(a: byte, b: byte, frac: nat) returns (o: byte)
    requires frac < 32
    ensures o == RoundedMean(a, b, frac)
  {
    LerpIsMean(a, b, frac);
    o := (a + ((b - a) * frac + 16) / 32) % 256;
  }

  lemma LerpIsMean(a: int, b: int, frac: nat)
    ensures a + ((b - a) * frac + 16) / 32 == ((32 - frac) * a + frac * b + 16) / 32
  {
    assert (32 - frac) * a + frac * b + 16 == 32 * a + ((b - a) * frac + 16);
  }

  /** Channel c of the pixel interpolated from four taps lies within those four taps. */
  lemma BilinearWithinTaps(p00: Rgb, p01: Rgb, p10: Rgb, p11: Rgb, xfrac: nat, yfrac: nat, c: nat)
    requires xfrac < 32 && yfrac < 32 && c < 3
    ensures
      var o := Channel(MeanRgb(MeanRgb(p00, p01, yfrac), MeanRgb(p10, p11, yfrac), xfrac), c);
      Min(Min(Channel(p00, c), Channel(p01, c)), Min(Channel(p10, c), Channel(p11, c))) <= o
      <= Max(Max(Channel(p00, c), Channel(p01, c)), Max(Channel(p10, c), Channel(p11, c)))
  {
    var left := RoundedMean(Channel(p00, c), Channel(p01, c), yfrac);
    var right := RoundedMean(Channel(p10, c), Channel(p11, c), yfrac);
    assert Channel(MeanRgb(MeanRgb(p00, p01, yfrac), MeanRgb(p10, p11, yfrac), xfrac), c)
        == RoundedMean(left, right, xfrac);
  }

  // ----- de-dither

  /** One neighbour's vote, comparing the top five bits of the channel. */
  function Nudge(center: byte, neighbour: byte): int {
    if center / 8 < neighbour / 8 then 1
    else if center / 8 > neighbour / 8 then -1
    else 0
  }

  /** The votes of a list of neighbours on channel c. */
  function Nudges(center: Rgb, neighbours: seq<Rgb>, c: nat): int
    requires c < 3
  {
    if neighbours == [] then 0
    else
      var n := |neighbours| - 1;
      Nudges(center, neighbours[..n], c) + Nudge(Channel(center, c), Channel(neighbours[n], c))
  }

  /** The neighbours brighter, or darker, than the centre in the top five bits of channel c. */
  ghost function Brighter(center: Rgb, neighbours: seq<Rgb>, c: nat): set<nat>
    requires c < 3
  {
    set i | 0 <= i < |neighbours| && Channel(neighbours[i], c) >= Channel(center, c) / 8 * 8 + 8
  }

  ghost function Darker(center: Rgb, neighbours: seq<Rgb>, c: nat): set<nat>
    requires c < 3
  {
    set i | 0 <= i < |neighbours| && Channel(neighbours[i], c) < Channel(center, c) / 8 * 8
  }

  /** The votes are the brighter neighbours less the darker ones. */
  lemma {:induction false} NudgesCount(center: Rgb, neighbours: seq<Rgb>, c: nat)
    requires c < 3
    ensures Nudges(center, neighbours, c) == |Brighter(center, neighbours, c)| - |Darker(center, neighbours, c)|
  {
    if neighbours != [] {
      var n := |neighbours| - 1;
      NudgesCount(center, neighbours[..n], c);
      OneVote(Channel(center, c), Channel(neighbours[n], c));
      BrighterOneMore(center, neighbours, c);
      DarkerOneMore(center, neighbours, c);
      hide Nudge, Brighter, Darker;
    }
  }

  lemma BrighterOneMore(center: Rgb, neighbours: seq<Rgb>, c: nat)
    requires c < 3 && neighbours != []
    ensures
      var n := |neighbours| - 1;
      |Brighter(center, neighbours, c)| == |Brighter(center, neighbours[..n], c)| +
        if Channel(neighbours[n], c) >= Channel(center, c) / 8 * 8 + 8 then 1 else 0
  {
    var n := |neighbours| - 1;
    var before := Brighter(center, neighbours[..n], c);
    hide Channel;
    if Channel(neighbours[n], c) >= Channel(center, c) / 8 * 8 + 8 {
      assert Brighter(center, neighbours, c) == before + {n};
    } else {
      assert Brighter(center, neighbours, c) == before;
    }
  }

  lemma DarkerOneMore(center: Rgb, neighbours: seq<Rgb>, c: nat)
    requires c < 3 && neighbours != []
    ensures
      var n := |neighbours| - 1;
      |Darker(center, neighbours, c)| == |Darker(center, neighbours[..n], c)| +
        if Channel(neighbours[n], c) < Channel(center, c) / 8 * 8 then 1 else 0
  {
    var n := |neighbours| - 1;
    var before := Darker(center, neighbours[..n], c);
    hide Channel;
    if Channel(neighbours[n], c) < Channel(center, c) / 8 * 8 {
      assert Darker(center, neighbours, c) == before + {n};
    } else {
      assert Darker(center, neighbours, c) == before;
    }
  }

  lemma OneVote(center: byte, neighbour: byte)
    ensures Nudge(center, neighbour) ==
      if neighbour >= center / 8 * 8 + 8 then 1 else if neighbour < center / 8 * 8 then -1 else 0
  {
  }

  /** Eight votes can never carry a channel out of 0..255, whichever format it came from:
      a channel nudged up has a top field below 31, and one nudged down has a field above 0. */
  lemma {:induction false} DeditherNeverTruncates(center: Rgb, neighbours: seq<Rgb>, c: nat)
    requires |neighbours| <= 8 && c < 3
    ensures -|neighbours| <= Nudges(center, neighbours, c) <= |neighbours|
    ensures 0 <= Channel(center, c) + Nudges(center, neighbours, c) <= 255
    ensures Channel(center, c) >= 248 ==> Nudges(center, neighbours, c) <= 0
    ensures Channel(center, c) < 8 ==> Nudges(center, neighbours, c) >= 0
  {
    if neighbours != [] {
      DeditherNeverTruncates(center, neighbours[..|neighbours| - 1], c);
    }
  }

  /** One channel after the votes. */
  function DeditheredChannel(center: Rgb, neighbours: seq<Rgb>, c: nat): byte
    requires |neighbours| <= 8 && c < 3
  {
    DeditherNeverTruncates(center, neighbours, c);
    Channel(center, c) + Nudges(center, neighbours, c)
  }

  /** A fully covered pixel nudged once by each neighbour, per channel. */
  function DeditheredRgb(center: Rgb, neighbours: seq<Rgb>): Rgb
    requires |neighbours| <= 8
  {
    Rgb(DeditheredChannel(center, neighbours, 0),
        DeditheredChannel(center, neighbours, 1),
        DeditheredChannel(center, neighbours, 2))
  }

  // ----- AA-edge filter

  /** Is `a` strictly further towards the chosen extreme than `b`? */
  predicate Beats(a: byte, b: byte, up: bool) {
    if up then a > b else a < b
  }

  /** Position of the first occurrence of the extreme among the first i elements. */
  function FirstBest(s: seq<byte>, i: nat, up: bool): (p: nat)
    requires 1 <= i <= |s|
    ensures p < i
  {
    if i == 1 then 0
    else
      var p := FirstBest(s, i - 1, up);
      if Beats(s[i - 1], s[p], up) then i - 1 else p
  }

  /** The extreme of the first i elements once the one at `skip` is taken out. */
  function BestWithout(s: seq<byte>, i: nat, skip: nat, up: bool): byte
    requires 1 <= i <= |s| && 0 < skip
  {
    if i == 1 then s[0]
    else
      var best := BestWithout(s, i - 1, skip, up);
      if i - 1 != skip && Beats(s[i - 1], best, up) then s[i - 1] else best
  }

  /** The runner-up extreme: element 0 when that is the extreme already, and otherwise the
      extreme of what is left once the first occurrence of the extreme is taken out. */
  function RunnerUp(s: seq<byte>, up: bool): byte
    requires s != []
  {
    var p := FirstBest(s, |s|, up);
    if p == 0 then s[0] else BestWithout(s, |s|, p, up)
  }

  /** No element beats the first best, and it beats every element before it. */
  lemma {:induction false} FirstBestIsExtreme(s: seq<byte>, i: nat, up: bool)
    requires 1 <= i <= |s|
    ensures forall j :: 0 <= j < i ==> !Beats(s[j], s[FirstBest(s, i, up)], up)
    ensures forall j :: 0 <= j < FirstBest(s, i, up) ==> Beats(s[FirstBest(s, i, up)], s[j], up)
  {
    if i > 1 {
      FirstBestIsExtreme(s, i - 1, up);
    }
  }

  /** What BestWithout returns stands somewhere other than `skip`, and nothing else beats it. */
  lemma {:induction false} BestWithoutIsExtreme(s: seq<byte>, i: nat, skip: nat, up: bool)
    requires 1 <= i <= |s| && 0 < skip
    ensures exists k :: 0 <= k < i && k != skip && s[k] == BestWithout(s, i, skip, up)
    ensures forall j :: 0 <= j < i && j != skip ==> !Beats(s[j], BestWithout(s, i, skip, up), up)
  {
    if i == 1 {
      assert s[0] == BestWithout(s, i, skip, up);
    } else {
      BestWithoutIsExtreme(s, i - 1, skip, up);
      var k :| 0 <= k < i - 1 && k != skip && s[k] == BestWithout(s, i - 1, skip, up);
      assert BestWithout(s, i, skip, up) == s[k] || (i - 1 != skip && BestWithout(s, i, skip, up) == s[i - 1]);
    }
  }

  lemma RunnerUpBracketsHead(s: seq<byte>)
    requires s != []
    ensures RunnerUp(s, false) <= s[0] <= RunnerUp(s, true)
  {
    BestWithoutIsExtreme(s, |s|, Max(1, FirstBest(s, |s|, true)), true);
    BestWithoutIsExtreme(s, |s|, Max(1, FirstBest(s, |s|, false)), false);
  }

  /** Up to and including the extreme, leaving it out leaves the extreme of what came before. */
  lemma {:induction false} BestBeforeSkip(s: seq<byte>, i: nat, skip: nat, up: bool)
    requires 1 <= i <= skip <= |s|
    ensures BestWithout(s, i, skip, up) == s[FirstBest(s, i, up)]
  {
    if i > 1 {
      BestBeforeSkip(s, i - 1, skip, up);
    }
  }

  /** After i elements: where the extreme first stands, and the best of what stood before it. */
  ghost predicate Running(s: seq<byte>, i: nat, pos: nat, cur: byte, up: bool)
  {
    1 <= i <= |s| && pos == FirstBest(s, i, up) &&
    cur == if pos == 0 then s[0] else s[FirstBest(s, pos, up)]
  }

  /** `vi_video_max`: both runner-up extremes in one pass and two partial rescans. */
  method VideoMax(pixels: seq<byte>) returns (penMin: byte, penMax: byte)
    requires pixels != []
    ensures penMin == RunnerUp(pixels, false)
    ensures penMax == RunnerUp(pixels, true)
  {
    var n := |pixels|;
    var posMax, posMin := 0, 0;
    penMax, penMin := pixels[0], pixels[0];
    for i := 1 to n
      invariant posMax < n && posMin < n && pixels[posMin] <= pixels[posMax]
      invariant Running(pixels, i, posMax, penMax, true)
      invariant Running(pixels, i, posMin, penMin, false)
    {
      if pixels[i] > pixels[posMax] {
        penMax := pixels[posMax];
        posMax := i;
      } else if pixels[i] < pixels[posMin] {
        penMin := pixels[posMin];
        posMin := i;
      }
    }
    penMax := Rescan(pixels, posMax, penMax, true);
    penMin := Rescan(pixels, posMin, penMin, false);
  }

  /** The second partial scan: past the extreme, for a better runner-up. */
  method Rescan(pixels: seq<byte>, pos: nat, cur: byte, up: bool) returns (best: byte)
    requires pixels != [] && Running(pixels, |pixels|, pos, cur, up)
    ensures best == RunnerUp(pixels, up)
  {
    best := cur;
    FirstBestIsExtreme(pixels, |pixels|, up);
    if cur != pixels[pos] {
      BestBeforeSkip(pixels, pos, pos, up);
      for j := pos + 1 to |pixels|
        invariant best == BestWithout(pixels, j, pos, up)
      {
        if Beats(pixels[j], best, up) {
          best := pixels[j];
        }
      }
    }
  }

  /** The pull towards the midpoint, on 32-bit unsigned words that wrap. */
  function Pull(center: byte, penMin: byte, penMax: byte, cvg: nat): byte
    requires cvg < 7
  {
    var distance := (penMin + penMax - 2 * center) % TWO_TO_THE_32;
    var column := (distance * (7 - cvg) + 4) % TWO_TO_THE_32 / 8;
    (column + center) % TWO_TO_THE_32 % 256
  }

  /** The same pull over the integers. */
  function SignedPull(center: int, penMin: int, penMax: int, cvg: nat): int
    requires cvg < 7
  {
    center + ((penMin + penMax - 2 * center) * (7 - cvg) + 4) / 8
  }

  /** The centre is pulled toward the midpoint by an eighth of twice the distance for every step of
      coverage it lacks, to the nearest level. */
  lemma PullIsNearest(center: int, penMin: int, penMax: int, cvg: nat)
    requires cvg < 7
    ensures
      var exact := 8 * center + (7 - cvg) * (penMin - center + penMax - center);
      -4 <= 8 * SignedPull(center, penMin, penMax, cvg) - exact <= 4
  {
    assert (7 - cvg) * (penMin - center + penMax - center) == (penMin + penMax - 2 * center) * (7 - cvg);
  }

  /** The unsigned formula is the signed one, and the byte mask removes nothing. */
  lemma PullNeverWraps(center: byte, penMin: byte, penMax: byte, cvg: nat)
    requires cvg < 7 && penMin <= center <= penMax
    ensures Pull(center, penMin, penMax, cvg) == SignedPull(center, penMin, penMax, cvg)
    ensures penMin <= Pull(center, penMin, penMax, cvg) <= penMax
  {
    var d: int := penMin + penMax - 2 * center;
    var k := 7 - cvg;
    ScaledBounds(d, k);
    WrappedProduct(d, k);
    WrappedEighth(d * k + 4, center);
  }

  lemma ScaledBounds(d: int, k: nat)
    requires 1 <= k <= 7
    ensures d >= 0 ==> d <= d * k <= d * 7
    ensures d < 0 ==> d * 7 <= d * k <= d
  {
  }

  /** Multiplying the wrapped difference is multiplying the difference, modulo 2^32. */
  lemma WrappedProduct(d: int, k: nat)
    requires -510 <= d <= 510 && k <= 7
    ensures (d % TWO_TO_THE_32 * k + 4) % TWO_TO_THE_32 == (d * k + 4) % TWO_TO_THE_32
  {
    if d < 0 {
      var wrapped := d + TWO_TO_THE_32;
      assert d % TWO_TO_THE_32 == wrapped;
      assert wrapped * k == d * k + TWO_TO_THE_32 * k;
      ModAddMultiple(d * k + 4, k);
    }
  }

  lemma ModAddMultiple(a: int, k: nat)
    requires k <= 7
    ensures (a + TWO_TO_THE_32 * k) % TWO_TO_THE_32 == a % TWO_TO_THE_32
  {
  }

  /** A wrapped negative word shifted right by three is 2^29 too large, which 256 divides. */
  lemma WrappedEighth(signed: int, center: byte)
    requires -4000 <= signed <= 4000 && 0 <= signed / 8 + center <= 255
    ensures (signed % TWO_TO_THE_32 / 8 + center) % TWO_TO_THE_32 % 256 == signed / 8 + center
  {
    var eighth := signed / 8;
    assert signed == eighth * 8 + signed % 8;
    if signed < 0 {
      QuotientUnique(signed, TWO_TO_THE_32, -1, signed + TWO_TO_THE_32);
      QuotientUnique(signed + TWO_TO_THE_32, 8, eighth + 0x2000_0000, signed % 8);
      QuotientUnique(eighth + 0x2000_0000 + center, TWO_TO_THE_32, 0, eighth + 0x2000_0000 + center);
      QuotientUnique(eighth + 0x2000_0000 + center, 256, 0x20_0000, eighth + center);
    } else {
      QuotientUnique(signed, TWO_TO_THE_32, 0, signed);
      QuotientUnique(eighth + center, TWO_TO_THE_32, 0, eighth + center);
    }
  }

  /** One channel of the AA-edge filter over the gathered list, centre first: the centre pulled
      towards the midpoint of the runner-up extremes, which bracket the result. */
  function EdgeChannel(gathered: seq<byte>, cvg: nat): (o: byte)
    requires gathered != [] && cvg < 7
    ensures RunnerUp(gathered, false) <= o <= RunnerUp(gathered, true)
  {
    RunnerUpBracketsHead(gathered);
    PullNeverWraps(gathered[0], RunnerUp(gathered, false), RunnerUp(gathered, true), cvg);
    SignedPull(gathered[0], RunnerUp(gathered, false), RunnerUp(gathered, true), cvg)
  }

  function EdgeRgb(gathered: seq<Rgb>, cvg: nat): Rgb
    requires gathered != [] && cvg < 7
  {
    Rgb(EdgeChannel(Channels(gathered, 0), cvg),
        EdgeChannel(Channels(gathered, 1), cvg),
        EdgeChannel(Channels(gathered, 2), cvg))
  }

  /** One channel as `vi_video_filter` computes it, on wrapping words and a byte mask. */
  method FilterChannel(gathered: seq<byte>, cvg: nat) returns (o: byte)
    requires gathered != [] && cvg < 7
    ensures o == EdgeChannel(gathered, cvg)
  {
    var penMin, penMax := VideoMax(gathered);
    RunnerUpBracketsHead(gathered);
    PullNeverWraps(gathered[0], penMin, penMax, cvg);
    o := Pull(gathered[0], penMin, penMax, cvg);
  }

  // ----- divot median

  /** The branch-expanded median of three. */
  function MedianBranches(left: byte, center: byte, right: byte): byte {
    if (left >= center && right >= left) || (left >= right && center >= left) then left
    else if (right >= center && left >= right) || (right >= left && center >= right) then right
    else center
  }

  /** The median of three. */
  function Median(left: byte, center: byte, right: byte): byte {
    Max(Min(left, center), Min(Max(left, center), right))
  }

  lemma MedianBranchesIsMedian(left: byte, center: byte, right: byte)
    ensures MedianBranches(left, center, right) == Median(left, center, right)
  {
  }

  // ----- gamma

  /** The floor of the square root; FloorSqrtSquares says so. */
  ghost function FloorSqrt(a: nat): nat {
    if a == 0 then 0
    else
      var r := FloorSqrt(a - 1);
      if (r + 1) * (r + 1) <= a then r + 1 else r
  }

  lemma {:induction false} FloorSqrtSquares(a: nat)
    ensures FloorSqrt(a) * FloorSqrt(a) <= a < (FloorSqrt(a) + 1) * (FloorSqrt(a) + 1)
  {
    if a > 0 {
      FloorSqrtSquares(a - 1);
      var r := FloorSqrt(a - 1);
      assert (r + 2) * (r + 2) == (r + 1) * (r + 1) + 2 * r + 3;
    }
  }

  lemma FloorSqrtUnique(a: nat, r: nat)
    requires r * r <= a < (r + 1) * (r + 1)
    ensures FloorSqrt(a) == r
  {
    var q := FloorSqrt(a);
    FloorSqrtSquares(a);
    if q < r {
      SquareMonotone(q + 1, r);
    } else if r < q {
      SquareMonotone(r + 1, q);
    }
  }

  lemma SquareMonotone(a: nat, b: nat)
    requires a <= b
    ensures a * a <= b * b
  {
    assert a * a <= a * b <= b * b;
  }

  /** The weights the root's bits are tried at, and the zero the loop ends on. */
  ghost predicate RootBit(p: nat) {
    p in {0, 1, 2, 4, 8, 0x10, 0x20, 0x40, 0x80, 0x100, 0x200, 0x400, 0x800,
          0x1000, 0x2000, 0x4000, 0x8000}
  }

  /** `root` is the square root of `a` as far as the bits above weight `p` decide it. */
  ghost predicate PartialRoot(a: u32, root: nat, p: nat) {
    RootBit(p) && root + 2 * p <= 0x1_0000 &&
    root * root <= a && a < (root + Max(2 * p, 1)) * (root + Max(2 * p, 1))
  }

  /** The words the restoring loop holds: what is left of `a`, the scaled root, and p squared. */
  ghost predicate Restoring(a: u32, root: nat, p: nat, op: int, res: int, one: int) {
    PartialRoot(a, root, p) && one == p * p && op == a - root * root &&
    res == if p > 0 then 2 * (root * p) else root
  }

  lemma TryRootBit(a: u32, root: nat, p: nat, op: int, res: int, one: int)
    requires p > 0 && Restoring(a, root, p, op, res, one)
    ensures res + one < TWO_TO_THE_32 && res + 2 * one < TWO_TO_THE_32
    ensures one / 4 < one
    ensures op >= res + one ==>
      Restoring(a, root + p, p / 2, op - (res + one), (res + 2 * one) / 2, one / 4)
    ensures op < res + one ==> Restoring(a, root, p / 2, op, res / 2, one / 4)
  {
    var half := p / 2;
    assert RootBit(half) && (p > 1 ==> p == 2 * half);
    assert Max(2 * half, 1) == p;
    assert (root + p) * (root + p) == root * root + 2 * (root * p) + p * p;
    assert one / 4 == half * half by {
      if p > 1 { assert p * p == 4 * (half * half); }
    }
    assert (root + p) * p == root * p + p * p;
    if p > 1 {
      assert root * p == 2 * (root * half);
      assert (root + p) * p == 2 * ((root + p) * half);
    }
    assert root * p <= (0x1_0000 - 2 * p) * p by {
      MultiplyMonotone(root, 0x1_0000 - 2 * p, p);
    }
  }

  lemma MultiplyMonotone(a: nat, b: int, k: nat)
    requires a <= b
    ensures a * k <= b * k
  {
  }

  /** `vi_integer_sqrt`: for every 32-bit input the floor square root, with no word overflowing. */
  method IntegerSqrt(a: u32) returns (res: u32)
    ensures res == FloorSqrt(a)
  {
    var op: u32 := a;
    res := 0;
    var one: u32 := 0x4000_0000;
    ghost var root: nat, p: nat := 0, 0x8000;
    while one > op
      invariant Restoring(a, 0, p, op, res, one)
      decreases one
    {
      TryRootBit(a, 0, p, op, res, one);
      one := one / 4;
      p := p / 2;
    }
    while one != 0
      invariant Restoring(a, root, p, op, res, one)
      decreases one
    {
      TryRootBit(a, root, p, op, res, one);
      if op >= res + one {
        op := op - (res + one);
        res := res + 2 * one;
        root := root + p;
      }
      res := res / 2;
      one := one / 4;
      p := p / 2;
    }
    FloorSqrtUnique(a, res);
  }

  /** The gamma curve, `sqrt(v << 6) << 1`. */
  ghost function GammaCurve(v: byte): nat {
    2 * FloorSqrt(64 * v)
  }

  ghost function GammaRgb(p: Rgb): Rgb {
    GammaCurveIsByte(p.r);
    GammaCurveIsByte(p.g);
    GammaCurveIsByte(p.b);
    Rgb(GammaCurve(p.r), GammaCurve(p.g), GammaCurve(p.b))
  }

  lemma GammaCurveIsByte(v: byte)
    ensures GammaCurve(v) <= 254
  {
    var r := FloorSqrt(64 * v);
    FloorSqrtSquares(64 * v);
    if r >= 128 { SquareMonotone(128, r); }
  }

  /** The curve is sixteen times the square root, cut to an even number. */
  lemma GammaIsScaledRoot(v: byte)
    ensures
      var g := GammaCurve(v);
      g % 2 == 0 && g * g <= 256 * v < (g + 2) * (g + 2)
  {
    var r := FloorSqrt(64 * v);
    FloorSqrtSquares(64 * v);
    DoubleSquare(r);
    DoubleSquare(r + 1);
    hide FloorSqrt;
  }

  lemma DoubleSquare(r: nat)
    ensures (2 * r) * (2 * r) == 4 * (r * r)
  {
  }

  /** Gamma keeps the order of channel values, and its table fits a byte. */
  lemma GammaCurveMonotone(v: byte, w: byte)
    requires v <= w
    ensures GammaCurve(v) <= GammaCurve(w) <= 254
  {
    GammaCurveIsByte(w);
    var a, b := FloorSqrt(64 * v), FloorSqrt(64 * w);
    FloorSqrtSquares(64 * v);
    FloorSqrtSquares(64 * w);
    if b < a { SquareMonotone(b + 1, a); }
  }

  /** `vi_gamma`: one channel through the curve. */
  method Gamma(v: byte) returns (g: byte)
    ensures g == GammaCurve(v)
  {
    var root := IntegerSqrt(64 * v);
    GammaCurveIsByte(v);
    g := root * 2 % 256;
  }

  /** The lookup table built at compile time from the integer square root. */
  method GammaTable() returns (table: array<byte>)
    ensures fresh(table) && table.Length == 256
    ensures forall v :: 0 <= v < 256 ==> table[v] == GammaCurve(v)
  {
    table := new byte[256];
    for i := 0 to 256
      invariant forall v :: 0 <= v < i ==> table[v] == GammaCurve(v)
    {
      var g := Gamma(i);
      table[i] := g;
    }
  }
}

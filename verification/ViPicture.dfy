/** What the scan-out shows, from the registers alone: which columns and rows, where in the source
    each of them looks, and that a picture shown as it is comes out as it was drawn. */
module ViPicture {
  import opened MachineWords
  import opened ViFilters
  import opened ViSource
  import opened ViScanout
  import opened PixelStore

  // ----- the window

  /** The programmed total is PAL's. */
  predicate IsPal(regs: Registers) {
    regs.vTotal % 0x400 > 550
  }

  /** The active span on the prescale line, overscan taken off both its ends alike. */
  function Left(regs: Registers): int {
    regs.hVideo / 0x1_0000 % 0x400 - if IsPal(regs) then 128 else 108
  }

  function Right(regs: Registers): int {
    regs.hVideo % 0x400 - if IsPal(regs) then 128 else 108
  }

  /** The first active row: half-lines after the blanking, by twos, rounded toward zero. */
  function Top(regs: Registers): int {
    var after := regs.vVideo / 0x1_0000 % 0x400 - if IsPal(regs) then 44 else 34;
    if after >= 0 then after / 2 else -(-after / 2)
  }

  /** Rows in the span, which a top above the buffer does not shorten. */
  function Rows(regs: Registers): int {
    (regs.vVideo % 0x400 - regs.vVideo / 0x1_0000 % 0x400) / 2
  }

  /** A prescale column that is drawn: in the span and in the buffer, and not among the first eight or
      the last seven of the span, except at an end that the buffer already cut. */
  predicate ColumnShown(regs: Registers, p: int) {
    Left(regs) <= p < Right(regs) && 0 <= p < 640 &&
    (Left(regs) < 0 || Left(regs) + 8 <= p) &&
    (640 < Right(regs) || p < Right(regs) - 7)
  }

  predicate RowShown(regs: Registers, q: int) {
    var top := Max(Top(regs), 0);
    top <= q < top + Rows(regs) && q < 625
  }

  /** The prescale position of a pixel of the frame. */
  function ColumnOf(regs: Registers, ox: int): int {
    Max(Left(regs), 0) + Decode(regs).minHPass + ox
  }

  function RowOf(regs: Registers, oy: int): int {
    Max(Top(regs), 0) + oy
  }

  /** The frame is exactly the columns and rows that are drawn, one pixel for each. */
  lemma FrameIsWhatIsShown(regs: Registers, p: int, q: int)
    ensures ColumnShown(regs, p) <==> 0 <= p - ColumnOf(regs, 0) < Decode(regs).width
    ensures RowShown(regs, q) <==> 0 <= q - RowOf(regs, 0) < Decode(regs).height
  {
    hide Times;
  }

  /** Every column looks at the source as far from the span's start as it stands from it, in steps of
      the scale, whether or not the start was cut off; every row likewise. */
  lemma ShownLooksAt(regs: Registers, ox: nat, oy: nat)
    ensures
      0 <= ColumnOf(regs, ox) - Left(regs) &&
      XOffset(Decode(regs), ox) ==
        regs.xScale / 0x1_0000 % 0x1000 + Times(ColumnOf(regs, ox) - Left(regs), regs.xScale % 0x1000)
    ensures
      0 <= RowOf(regs, oy) - Top(regs) &&
      YOffset(Decode(regs), oy) ==
        regs.yScale / 0x1_0000 % 0x1000 + Times(RowOf(regs, oy) - Top(regs), regs.yScale % 0x1000)
  {
    var g := Decode(regs);
    StepsAdd(Max(-Left(regs), 0), g.minHPass + ox, g.xAdd);
    StepsAdd(Max(-Top(regs), 0), oy, g.yAdd);
    hide Times;
  }

  lemma StepsAdd(a: nat, b: nat, k: nat)
    ensures Times(k, a) + Times(b, k) == Times(a + b, k)
  {
  }

  /** The scan-out refuses exactly when the VI is blanked, nothing is drawn, or the frame, four bytes
      to each drawn column of each drawn row, does not fit. */
  lemma RefusedIff(regs: Registers, capacity: nat)
    ensures Refused(regs, capacity) <==>
      regs.ctrl % 4 < 2 || (forall p :: !ColumnShown(regs, p)) || (forall q :: !RowShown(regs, q)) ||
      capacity < 4 * (Decode(regs).width * Decode(regs).height)
  {
    FrameIsWhatIsShown(regs, ColumnOf(regs, 0), RowOf(regs, 0));
    forall p ensures ColumnShown(regs, p) ==> 0 < Decode(regs).width {
      FrameIsWhatIsShown(regs, p, 0);
    }
    forall q ensures RowShown(regs, q) ==> 0 < Decode(regs).height {
      FrameIsWhatIsShown(regs, 0, q);
    }
    DecodeBounds(regs);
    hide Decode, ColumnShown, RowShown;
  }

  // ----- a picture shown as it is

  /** The image the registers point at. */
  function Pointed(regs: Registers): Image {
    Image(regs.origin % 0x100_0000, regs.width % 0x1000, if regs.ctrl % 4 == 2 then 2 else 4)
  }

  /** One source pixel to every column and row. */
  predicate Unscaled(regs: Registers) {
    regs.xScale % 0x1000 == 0x400 && regs.xScale / 0x1_0000 % 0x1000 == 0 &&
    regs.yScale % 0x1000 == 0x400 && regs.yScale / 0x1_0000 % 0x1000 == 0
  }

  /** Neither filter nor gamma touches a pixel of this coverage: an anti-aliasing mode that ignores
      coverage, or a covered pixel with divot and de-dither switched off; and the gamma bit clear or
      the gamma-dither bit set. */
  predicate Unfiltered(regs: Registers, cvg: nat) {
    (regs.ctrl / 0x100 % 4 >= 2 || (cvg == 7 && regs.ctrl / 0x10 % 2 == 0 && regs.ctrl / 0x1_0000 % 2 == 0)) &&
    (regs.ctrl / 8 % 2 == 0 || regs.ctrl / 4 % 2 == 1)
  }

  /** The four bytes of frame pixel (ox, oy). */
  predicate PixelIs(out: seq<byte>, width: int, ox: int, oy: int, rgb: Rgb) {
    var at := 4 * (oy * width + ox);
    0 <= at && at + 4 <= |out| &&
    out[at] == rgb.r && out[at + 1] == rgb.g && out[at + 2] == rgb.b && out[at + 3] == 255
  }

  /** What a scan-out that draws leaves in its buffer. */
  ghost predicate IsFrame(m: Memory, regs: Registers, before: seq<byte>, out: seq<byte>) {
    0 < Decode(regs).width && Drawn(m, regs, before, out, Times(Decode(regs).width, Decode(regs).height))
  }

  lemma DrawnPixelIs(m: Memory, regs: Registers, before: seq<byte>, out: seq<byte>, ox: nat, oy: nat)
    requires ox < Decode(regs).width && oy < Decode(regs).height && IsFrame(m, regs, before, out)
    ensures PixelIs(out, Decode(regs).width, ox, oy, ReferencePixel(m, regs, ox, oy))
  {
    hide Decode, ReferencePixel, ReferenceByte;
    var w, h := Decode(regs).width, Decode(regs).height;
    PixelFits(ox, oy, w, h);
    ReferenceBytes(m, regs, ox, oy);
    var at := 4 * PixelIndex(ox, oy, w);
    hide PixelIndex;
    assert out[at] == ReferenceByte(m, regs, at) && out[at + 1] == ReferenceByte(m, regs, at + 1);
    assert out[at + 2] == ReferenceByte(m, regs, at + 2) && out[at + 3] == ReferenceByte(m, regs, at + 3);
  }

  lemma PixelFits(ox: nat, oy: nat, w: nat, h: nat)
    requires ox < w && oy < h
    ensures PixelIndex(ox, oy, w) == oy * w + ox && 4 * PixelIndex(ox, oy, w) + 4 <= 4 * Times(w, h)
  {
    ScaleMonotone(oy + 1, h, w);
    TimesAdd(oy, 1, w);
    StepsAdd(h, 0, w);
  }

  /** Column p and row q of an unscaled picture are source pixel (p - left, q - top). */
  lemma UnscaledLooksAt(regs: Registers, ox: nat, oy: nat)
    requires Unscaled(regs)
    ensures
      var g := Decode(regs);
      Whole(XOffset(g, ox)) == ColumnOf(regs, 0) + ox - Left(regs) && Fraction(XOffset(g, ox)) == 0 &&
      Whole(YOffset(g, oy)) == RowOf(regs, 0) + oy - Top(regs) && Fraction(YOffset(g, oy)) == 0
  {
    ShownLooksAt(regs, ox, oy);
    WholeSteps(ColumnOf(regs, ox) - Left(regs));
    WholeSteps(RowOf(regs, oy) - Top(regs));
    hide Decode, XOffset, YOffset, Times, Whole, Fraction, Left, Top;
  }

  lemma WholeSteps(n: nat)
    ensures Whole(Times(n, 0x400)) == n && Fraction(Times(n, 0x400)) == 0
  {
    QuotientUnique(n * 0x400, 0x400, n, 0);
    QuotientUnique(n * 0x400, 32, n * 32, 0);
  }

  /** A picture comes out as it was drawn: over any drawing on the image the registers point at, every
      column p and row q that is shown is source pixel (p - left, q - top) in its last colour, as far
      as the format keeps it, and opaque. */
  lemma PictureComesOut(start: Memory, regs: Registers, strokes: seq<Stroke>, i: nat, p: int, q: int,
                        before: seq<byte>, out: seq<byte>)
    requires i < |strokes| && LastOn(Pointed(regs), strokes, i) && AllOn(Pointed(regs), strokes)
    requires strokes[i].x == p - Left(regs) && strokes[i].y == q - Top(regs)
    requires regs.ctrl % 4 >= 2 && Unscaled(regs) && Unfiltered(regs, strokes[i].cvg)
    requires ColumnShown(regs, p) && RowShown(regs, q)
    requires IsFrame(Painted(start, Pointed(regs), strokes), regs, before, out)
    ensures
      var ox, oy := p - ColumnOf(regs, 0), q - RowOf(regs, 0);
      0 <= ox < Decode(regs).width && 0 <= oy < Decode(regs).height &&
      PixelIs(out, Decode(regs).width, ox, oy, Stored(strokes[i].rgb, Pointed(regs).bpp))
  {
    PointedIsScanned(regs);
    hide *;
    LastStrokeStays(start, Pointed(regs), Config(regs), strokes, i);
    PixelComesOut(Painted(start, Pointed(regs), strokes), regs, p, q, before, out);
  }

  /** A drawn pixel that nothing filters is the source pixel it stands for. */
  lemma PixelComesOut(m: Memory, regs: Registers, p: int, q: int, before: seq<byte>, out: seq<byte>)
    requires Unscaled(regs) && Unfiltered(regs, ReadCov(m, Config(regs), p - Left(regs), q - Top(regs)).cvg)
    requires ColumnShown(regs, p) && RowShown(regs, q) && IsFrame(m, regs, before, out)
    ensures
      var ox, oy := p - ColumnOf(regs, 0), q - RowOf(regs, 0);
      0 <= ox < Decode(regs).width && 0 <= oy < Decode(regs).height &&
      PixelIs(out, Decode(regs).width, ox, oy, ReadCov(m, Config(regs), p - Left(regs), q - Top(regs)).rgb)
  {
    FrameIsWhatIsShown(regs, p, q);
    hide *;
    var ox, oy := p - ColumnOf(regs, 0), q - RowOf(regs, 0);
    UnscaledLooksAt(regs, ox, oy);
    UnfilteredPixel(m, regs, ox, oy);
    DrawnPixelIs(m, regs, before, out, ox, oy);
  }

  lemma PointedIsScanned(regs: Registers)
    ensures Scans(Config(regs), Pointed(regs))
  {
  }

  lemma UnfilteredPixel(m: Memory, regs: Registers, ox: nat, oy: nat)
    requires Fraction(XOffset(Decode(regs), ox)) == 0 && Fraction(YOffset(Decode(regs), oy)) == 0
    requires
      var s := ReadCov(m, Config(regs), Whole(XOffset(Decode(regs), ox)), Whole(YOffset(Decode(regs), oy)));
      Unfiltered(regs, s.cvg)
    ensures ReferencePixel(m, regs, ox, oy) ==
      ReadCov(m, Config(regs), Whole(XOffset(Decode(regs), ox)), Whole(YOffset(Decode(regs), oy))).rgb
  {
    GammaBits(regs);
    hide GammaEnabled, Decode, XOffset, YOffset, Fraction, Whole, ReadCov, RawRgb;
    var sx, sy := Whole(XOffset(Decode(regs), ox)), Whole(YOffset(Decode(regs), oy));
    NearestTap(m, Config(regs), sx, sy);
    FiltersFollowControl(m, regs, sx, sy);
    hide FourTaps, SourcePixel, FilteredSource;
  }

  /** Gamma is bit 3, unless bit 2 asks for its dithered form. */
  lemma GammaBits(regs: Registers)
    ensures GammaEnabled(regs) <==> regs.ctrl / 8 % 2 == 1 && regs.ctrl / 4 % 2 == 0
  {
    var d := regs.ctrl / 4;
    QuotientUnique(regs.ctrl, 8, d / 2, regs.ctrl - d / 2 * 8);
    QuotientUnique(d, 4, d / 4, d % 4);
  }

  /** With no fraction the first of the four taps is the pixel. */
  lemma NearestTap(m: Memory, cfg: ViCfg, sx: int, sy: int)
    ensures FourTaps(m, cfg, sx, sy, 0, 0) == SourcePixel(m, cfg, sx, sy)
  {
    hide SourcePixel;
    MeanZeroWeight(SourcePixel(m, cfg, sx, sy), SourcePixel(m, cfg, sx, sy + 1));
    MeanZeroWeight(SourcePixel(m, cfg, sx, sy),
                   MeanRgb(SourcePixel(m, cfg, sx + 1, sy), SourcePixel(m, cfg, sx + 1, sy + 1), 0));
    hide MeanRgb;
  }

  // ----- what the control register switches

  /** Bits 9:8 at two or more leave every pixel raw. Below that bit 4 switches the divot on, a pixel
      short of full coverage is pulled to its edge, and bit 16 switches the de-dither of a covered one
      on. */
  lemma FiltersFollowControl(m: Memory, regs: Registers, x: int, y: int)
    ensures
      var cfg, raw := Config(regs), ReadCov(m, Config(regs), x, y);
      var filtered := FilteredSource(m, cfg, x, y);
      SourcePixel(m, cfg, x, y) ==
        (if regs.ctrl / 0x100 % 4 >= 2 then raw.rgb
         else if regs.ctrl / 0x10 % 2 == 1 then
           DivotRgb(FilteredSource(m, cfg, x - 1, y), filtered, FilteredSource(m, cfg, x + 1, y))
         else filtered.rgb) &&
      filtered.cvg == raw.cvg &&
      filtered.rgb ==
        if raw.cvg != 7 then EdgeRgb([raw.rgb] + Covered(m, cfg, x, y, EDGE_TAPS), raw.cvg)
        else if regs.ctrl / 0x1_0000 % 2 == 1 then DeditheredRgb(raw.rgb, Neighbours(m, cfg, x, y, RESTORE_TAPS))
        else raw.rgb
  {
    hide DivotRgb, EdgeRgb, DeditheredRgb, Covered, Neighbours, RawRgb;
  }

  /** A covered area of one colour. */
  predicate Flat(m: Memory, cfg: ViCfg, x: int, y: int, reach: int, rgb: Rgb) {
    forall u, v :: x - reach <= u <= x + reach && y - 1 <= v <= y + 1 ==> ReadCov(m, cfg, u, v) == Sample(rgb, 7)
  }

  /** Inside a covered area of one colour every filter leaves a pixel alone. */
  lemma FlatAreaUnchanged(m: Memory, cfg: ViCfg, x: int, y: int, rgb: Rgb)
    requires Flat(m, cfg, x, y, 2, rgb)
    ensures SourcePixel(m, cfg, x, y) == rgb
  {
    hide ReadCov, RawRgb, FilteredSource;
    FlatPixelUnchanged(m, cfg, x - 1, y, rgb);
    FlatPixelUnchanged(m, cfg, x, y, rgb);
    FlatPixelUnchanged(m, cfg, x + 1, y, rgb);
    assert ReadCov(m, cfg, x, y).rgb == RawRgb(m, cfg, x, y);
  }

  lemma FlatPixelUnchanged(m: Memory, cfg: ViCfg, x: int, y: int, rgb: Rgb)
    requires Flat(m, cfg, x, y, 1, rgb)
    ensures FilteredSource(m, cfg, x, y) == Sample(rgb, 7)
  {
    hide ReadCov, RawRgb;
    var around := Neighbours(m, cfg, x, y, RESTORE_TAPS);
    forall i | 0 <= i < |RESTORE_TAPS|
      ensures around[i] == rgb
    {
      TapsAreNeighbours(RESTORE_TAPS[i].0, RESTORE_TAPS[i].1);
    }
    NoVotes(rgb, around, 0);
    NoVotes(rgb, around, 1);
    NoVotes(rgb, around, 2);
  }

  lemma {:induction false} NoVotes(center: Rgb, neighbours: seq<Rgb>, c: nat)
    requires c < 3 && forall i :: 0 <= i < |neighbours| ==> neighbours[i] == center
    ensures Nudges(center, neighbours, c) == 0
  {
    if neighbours != [] {
      NoVotes(center, neighbours[..|neighbours| - 1], c);
    }
  }

  // ----- a scaled picture

  /** Where a drawn column or row looks, in 1024ths of a source pixel. */
  function SourceX(regs: Registers, p: int): int {
    regs.xScale / 0x1_0000 % 0x1000 + (p - Left(regs)) * (regs.xScale % 0x1000)
  }

  function SourceY(regs: Registers, q: int): int {
    regs.yScale / 0x1_0000 % 0x1000 + (q - Top(regs)) * (regs.yScale % 0x1000)
  }

  /** Channel c of the four source pixels around (x, y) lies on a plane. */
  predicate OnPlane(m: Memory, cfg: ViCfg, x: int, y: int, c: nat, base: int, across: int, down: int)
    requires c < 3
  {
    forall u, v :: x <= u <= x + 1 && y <= v <= y + 1 ==>
      Channel(SourcePixel(m, cfg, u, v), c) == base + across * u + down * v
  }

  /** Scaling follows the picture: where a channel is a ramp across and down the source, a drawn pixel
      has the ramp's value at the place it looks at, to the 32nd of a source pixel that the weights
      resolve and half a level for each of the two means. */
  lemma RampIsFollowed(m: Memory, regs: Registers, ox: nat, oy: nat, c: nat, base: int, across: int, down: int)
    requires c < 3 && regs.ctrl / 0x100 % 4 != 3 && (regs.ctrl / 8 % 2 == 0 || regs.ctrl / 4 % 2 == 1)
    requires
      var X, Y := SourceX(regs, ColumnOf(regs, ox)), SourceY(regs, RowOf(regs, oy));
      OnPlane(m, Config(regs), X / 1024, Y / 1024, c, base, across, down)
    ensures
      var X, Y := SourceX(regs, ColumnOf(regs, ox)), SourceY(regs, RowOf(regs, oy));
      var off := 1024 * Channel(ReferencePixel(m, regs, ox, oy), c) - (1024 * base + across * X + down * Y);
      -Slack(across, down) <= off <= Slack(across, down)
  {
    SourceIsOffset(regs, ox, oy);
    GammaBits(regs);
    hide GammaEnabled, Decode, XOffset, YOffset, SourcePixel, Left, Top, Slack, ColumnOf, RowOf, SourceX, SourceY;
    var X, Y := XOffset(Decode(regs), ox), YOffset(Decode(regs), oy);
    PlaneTaps(m, Config(regs), X / 1024, Y / 1024, Fraction(X), Fraction(Y), c, base, across, down);
    PlaneError(X, Y, base, across, down);
    hide OnPlane, FourTaps;
  }

  lemma SourceIsOffset(regs: Registers, ox: nat, oy: nat)
    ensures XOffset(Decode(regs), ox) == SourceX(regs, ColumnOf(regs, ox))
    ensures YOffset(Decode(regs), oy) == SourceY(regs, RowOf(regs, oy))
  {
    ShownLooksAt(regs, ox, oy);
    hide Decode, XOffset, YOffset, Left, Top;
  }

  /** The four taps of a plane: its value at the first, and each weight's share of each step, rounded. */
  lemma PlaneTaps(m: Memory, cfg: ViCfg, x: int, y: int, xf: nat, yf: nat, c: nat, base: int, across: int, down: int)
    requires c < 3 && xf < 32 && yf < 32 && OnPlane(m, cfg, x, y, c, base, across, down)
    ensures Channel(FourTaps(m, cfg, x, y, xf, yf), c) ==
      base + across * x + down * y + (across * xf + 16) / 32 + (down * yf + 16) / 32
  {
    hide SourcePixel;
    var v := base + across * x + down * y;
    assert across * (x + 1) == across * x + across && down * (y + 1) == down * y + down;
    var here, below := Channel(SourcePixel(m, cfg, x, y), c), Channel(SourcePixel(m, cfg, x, y + 1), c);
    var right, both := Channel(SourcePixel(m, cfg, x + 1, y), c), Channel(SourcePixel(m, cfg, x + 1, y + 1), c);
    assert here == v && below == v + down && right == v + across && both == v + across + down;
    PlaneMean(here, right, below, both, across, down, xf, yf);
    TapsByChannel(m, cfg, x, y, xf, yf, c);
    hide OnPlane, FourTaps, RoundedMean;
  }

  lemma TapsByChannel(m: Memory, cfg: ViCfg, x: int, y: int, xf: nat, yf: nat, c: nat)
    requires c < 3 && xf < 32 && yf < 32
    ensures Channel(FourTaps(m, cfg, x, y, xf, yf), c) ==
      RoundedMean(RoundedMean(Channel(SourcePixel(m, cfg, x, y), c), Channel(SourcePixel(m, cfg, x, y + 1), c), yf),
                  RoundedMean(Channel(SourcePixel(m, cfg, x + 1, y), c),
                              Channel(SourcePixel(m, cfg, x + 1, y + 1), c), yf), xf)
  {
    hide SourcePixel, RoundedMean;
  }

  lemma PlaneMean(here: byte, right: byte, below: byte, both: byte, across: int, down: int, xf: nat, yf: nat)
    requires xf < 32 && yf < 32
    requires right == here + across && below == here + down && both == here + across + down
    ensures RoundedMean(RoundedMean(here, below, yf), RoundedMean(right, both, yf), xf) ==
      here + (across * xf + 16) / 32 + (down * yf + 16) / 32
  {
    MeanStep(here, below, down, yf);
    MeanStep(right, both, down, yf);
    MeanStep(RoundedMean(here, below, yf), RoundedMean(right, both, yf), across, xf);
    hide RoundedMean;
  }

  lemma MeanStep(a: byte, b: byte, step: int, frac: nat)
    requires frac < 32 && b == a + step
    ensures RoundedMean(a, b, frac) == a + (step * frac + 16) / 32
  {
    LerpIsMean(a, b, frac);
  }

  lemma PlaneError(X: nat, Y: nat, base: int, across: int, down: int)
    ensures
      var seen := base + across * (X / 1024) + down * (Y / 1024) + (across * (X / 32 % 32) + 16) / 32 +
                  (down * (Y / 32 % 32) + 16) / 32;
      -Slack(across, down) <= 1024 * seen - (1024 * base + across * X + down * Y) <= Slack(across, down)
  {
    AxisError(X, across);
    AxisError(Y, down);
  }

  lemma AxisError(X: nat, k: int)
    ensures
      var size := if k < 0 then -k else k;
      -31 * size - 512 <= 1024 * (k * (X / 1024)) + 1024 * ((k * (X / 32 % 32) + 16) / 32) - k * X
        <= 31 * size + 512
  {
    var s, f, r := X / 1024, X / 32 % 32, X % 32;
    QuotientUnique(X / 32, 32, s, f);
    AxisProduct(k, s, f, r);
    SmallProduct(k, r);
  }

  lemma AxisProduct(k: int, s: nat, f: nat, r: nat)
    ensures k * (1024 * s + 32 * f + r) == 1024 * (k * s) + 32 * (k * f) + k * r
  {
  }

  lemma SmallProduct(k: int, r: nat)
    requires r < 32
    ensures
      var size := if k < 0 then -k else k;
      -31 * size <= k * r <= 31 * size
  {
  }

  function Slack(across: int, down: int): int {
    31 * (if across < 0 then -across else across) + 31 * (if down < 0 then -down else down) + 1024
  }
}

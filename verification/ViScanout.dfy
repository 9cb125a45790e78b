/** The presented scan-out: register decode, the walk over the output frame, and the proof that
    what the memoised walk writes is an uncached four-tap reference. */
module ViScanout {
  import opened MachineWords
  import opened ViFilters
  import opened ViSource
  import opened ViSampling
  import ViTiming

  const PRESCALE_W := 640
  const PRESCALE_H := 625

  /** The VI registers a scan-out reads. */
  datatype Registers = Registers(ctrl: u32, origin: u32, width: u32, vTotal: u32,
                                 hVideo: u32, vVideo: u32, xScale: u32, yScale: u32)

  /** The walk's frame size and its fixed-point accumulators, ten fraction bits each. */
  datatype Geometry = Geometry(width: nat, height: nat, minHPass: nat,
                               xStart: nat, xAdd: nat, yStart: nat, yAdd: nat)

  function High(reg: u32, size: nat): nat
    requires size > 0
  {
    reg / 0x1_0000 % size
  }

  function Low(reg: u32, size: nat): nat
    requires size > 0
  {
    reg % size
  }

  // ----- register decode

  predicate Blanked(regs: Registers) {
    regs.ctrl % 4 < 2
  }

  predicate GammaEnabled(regs: Registers) {
    regs.ctrl / 4 % 4 == 2
  }

  function Config(regs: Registers): ViCfg {
    ViCfg(regs.origin % 0x100_0000, Low(regs.width, 0x1000), if regs.ctrl % 4 == 2 then 2 else 4,
          regs.ctrl / 0x100 % 4, regs.ctrl / 0x10 % 2 == 1, regs.ctrl / 0x1_0000 % 2 == 1)
  }

  /** The active-span decode: overscan, the left and top clamps that fold the cropped offset into
      the accumulators, the prescale clamps, and the horizontal crop. */
  function Decode(regs: Registers): Geometry {
    var hStartRaw, hEnd := High(regs.hVideo, 0x400), Low(regs.hVideo, 0x400);
    var vStartRaw, vEnd := High(regs.vVideo, 0x400), Low(regs.vVideo, 0x400);
    var xAdd, yAdd := Low(regs.xScale, 0x1000), Low(regs.yScale, 0x1000);
    var isPal := Low(regs.vTotal, 0x400) > ViTiming.PAL_V_TOTAL_THRESHOLD;
    var hShifted := hStartRaw - if isPal then 128 else 108;
    var hClamped := hShifted < 0;
    var hStart := Max(hShifted, 0);
    var xStart := High(regs.xScale, 0x1000) + Times(xAdd, Max(-hShifted, 0));
    var hSpan := hEnd - hStartRaw + Min(hShifted, 0);
    var vShifted := TruncatingDiv(vStartRaw - (if isPal then 44 else 34), 2);
    var vStart := Max(vShifted, 0);
    var yStart := High(regs.yScale, 0x1000) + Times(yAdd, Max(-vShifted, 0));
    var hOver := hSpan + hStart > PRESCALE_W;
    var hRes := if hOver then PRESCALE_W - hStart else hSpan;
    var vSpan := (vEnd - vStartRaw) / 2;
    var vRes := if vSpan + vStart > PRESCALE_H then PRESCALE_H - vStart else vSpan;
    var minHPass := if hClamped then 0 else 8;
    var maxHPass := if hOver then hRes else hRes - 7;
    Geometry(Max(maxHPass - minHPass, 0), Max(vRes, 0), minHPass, xStart, xAdd, yStart, yAdd)
  }

  /** When nothing is drawn: a blanked VI, an empty frame, or a destination too small for it. */
  predicate Refused(regs: Registers, capacity: nat) {
    var g := Decode(regs);
    Blanked(regs) || g.width == 0 || g.height == 0 || capacity < Times(g.width, g.height) * 4
  }

  // ----- the walk's coordinates

  function XOffset(g: Geometry, ox: nat): nat {
    g.xStart + Times(g.minHPass + ox, g.xAdd)
  }

  function YOffset(g: Geometry, oy: nat): nat {
    g.yStart + Times(oy, g.yAdd)
  }

  function Whole(offset: nat): nat {
    offset / 1024
  }

  function Fraction(offset: nat): nat {
    offset / 32 % 32
  }

  /** The first source column the walk asks for, and the far bilinear column of the last. */
  function FirstColumn(g: Geometry): int {
    Whole(XOffset(g, 0))
  }

  function LastColumn(g: Geometry): int
    requires g.width > 0
  {
    Whole(XOffset(g, g.width - 1)) + 1
  }

  lemma ScaleMonotone(a: nat, b: nat, k: nat)
    requires a <= b
    ensures Times(a, k) <= Times(b, k)
  {
  }

  lemma XOffsetMonotone(g: Geometry, a: nat, b: nat)
    requires a <= b
    ensures XOffset(g, a) <= XOffset(g, b)
  {
    ScaleMonotone(g.minHPass + a, g.minHPass + b, g.xAdd);
  }

  lemma YOffsetMonotone(g: Geometry, a: nat, b: nat)
    requires a <= b
    ensures YOffset(g, a) <= YOffset(g, b)
  {
    ScaleMonotone(a, b, g.yAdd);
  }

  /** The frame never exceeds the prescale buffer, whatever the registers hold. */
  lemma DecodeBounds(regs: Registers)
    ensures
      var g := Decode(regs);
      0 <= g.width <= PRESCALE_W && 0 <= g.height <= PRESCALE_H && g.minHPass <= 8 &&
      g.xAdd < 0x1000 && g.yAdd < 0x1000 &&
      g.xStart <= 0xFFF * 129 && g.yStart <= 0xFFF * 23
  {
    var isPal := Low(regs.vTotal, 0x400) > ViTiming.PAL_V_TOTAL_THRESHOLD;
    var hShifted := High(regs.hVideo, 0x400) - if isPal then 128 else 108;
    var vShifted := TruncatingDiv(High(regs.vVideo, 0x400) - (if isPal then 44 else 34), 2);
    assert -128 <= hShifted && -22 <= vShifted;
    var xAdd, yAdd := Low(regs.xScale, 0x1000), Low(regs.yScale, 0x1000);
    ProductBound(xAdd, Max(-hShifted, 0), 0xFFF, 128);
    ProductBound(yAdd, Max(-vShifted, 0), 0xFFF, 22);
  }

  lemma ProductBound(a: nat, b: nat, aMax: nat, bMax: nat)
    requires a <= aMax && b <= bMax
    ensures Times(a, b) <= Times(aMax, bMax)
  {
    ScaleMonotone(a, aMax, b);
    ScaleMonotone(b, bMax, aMax);
  }

  /** For every programming that draws a frame, the memo is granted, it covers the columns the walk
      asks for, from its first to its last (the divot reaches one further on each side), and no
      coordinate or accumulator the walk forms leaves 32 signed bits. */
  lemma WalkStaysInWindow(regs: Registers, ox: nat, oy: nat)
    requires ox < Decode(regs).width && oy < Decode(regs).height
    ensures
      var g := Decode(regs);
      1 <= LastColumn(g) - FirstColumn(g) + 1 <= MAX_SPAN &&
      FirstColumn(g) <= Whole(XOffset(g, ox)) && Whole(XOffset(g, ox)) + 1 <= LastColumn(g) &&
      (ox == 0 ==> Whole(XOffset(g, ox)) == FirstColumn(g)) &&
      (ox == g.width - 1 ==> Whole(XOffset(g, ox)) + 1 == LastColumn(g)) &&
      XOffset(g, ox) < 0x8000_0000 && YOffset(g, oy) < 0x8000_0000 &&
      Whole(XOffset(g, ox)) + 3 < 0x8000_0000 && Whole(YOffset(g, oy)) + 2 < 0x8000_0000
  {
    var g := Decode(regs);
    DecodeBounds(regs);
    XOffsetMonotone(g, 0, ox);
    XOffsetMonotone(g, ox, g.width - 1);
    ProductBound(g.minHPass + g.width - 1, g.xAdd, 647, 0xFFF);
    ProductBound(g.width - 1, g.xAdd, 639, 0xFFF);
    ProductBound(oy, g.yAdd, 624, 0xFFF);
    TimesAdd(g.minHPass, g.width - 1, g.xAdd);
  }

  // ----- the reference

  /** One output pixel with no memo, no skipped tap and no shortcut: four source pixels, two
      vertical means, one horizontal mean, and gamma last. */
  ghost function ReferencePixel(m: Memory, regs: Registers, ox: nat, oy: nat): Rgb {
    var g, cfg := Decode(regs), Config(regs);
    var sx, sy := Whole(XOffset(g, ox)), Whole(YOffset(g, oy));
    var rgb :=
      if cfg.aaMode == 3 then SourcePixel(m, cfg, sx, sy)
      else FourTaps(m, cfg, sx, sy, Fraction(XOffset(g, ox)), Fraction(YOffset(g, oy)));
    if GammaEnabled(regs) then GammaRgb(rgb) else rgb
  }

  function FourTaps(m: Memory, cfg: ViCfg, sx: int, sy: int, xfrac: nat, yfrac: nat): Rgb
    requires xfrac < 32 && yfrac < 32
  {
    MeanRgb(MeanRgb(SourcePixel(m, cfg, sx, sy), SourcePixel(m, cfg, sx, sy + 1), yfrac),
            MeanRgb(SourcePixel(m, cfg, sx + 1, sy), SourcePixel(m, cfg, sx + 1, sy + 1), yfrac),
            xfrac)
  }

  /** Byte i of the reference frame: pixels row by row, four bytes each, opaque alpha. */
  ghost function ReferenceByte(m: Memory, regs: Registers, i: nat): byte
    requires Decode(regs).width > 0
  {
    if i % 4 == 3 then 255
    else Channel(ReferencePixel(m, regs, ColumnOfPixel(i / 4, Decode(regs).width),
                                RowOfPixel(i / 4, Decode(regs).width)), i % 4)
  }

  /** Pixels before column ox of row oy. */
  function PixelIndex(ox: nat, oy: nat, width: nat): nat {
    Times(oy, width) + ox
  }

  function ColumnOfPixel(pixel: nat, width: nat): nat
    requires width > 0
  {
    pixel % width
  }

  function RowOfPixel(pixel: nat, width: nat): nat
    requires width > 0
  {
    pixel / width
  }

  // ----- the walk

  /** One output pixel before gamma: the taps whose weight is zero are never asked for. */
  method ResamplePixel(m: Memory, sampler: ViSampler, sx: int, sy: int, xfrac: nat, yfrac: nat)
      returns (rgb: Rgb)
    requires sampler.Valid(m) && xfrac < 32 && yfrac < 32
    modifies sampler, sampler.rowY, sampler.cells, sampler.covCells
    ensures sampler.Valid(m) && sampler.front == old(sampler.front)
    ensures rgb == if sampler.cfg.aaMode == 3 then SourcePixel(m, sampler.cfg, sx, sy)
                   else FourTaps(m, sampler.cfg, sx, sy, xfrac, yfrac)
    ensures old(sampler.Once()) && sampler.front == sy && sampler.InWindow(sx) && sampler.InWindow(sx + 1)
      ==> sampler.Once()
  {
    hide SourcePixel, FilteredSource;
    if sampler.cfg.aaMode != 3 && (xfrac != 0 || yfrac != 0) {
      rgb := sampler.Column(m, sx, sy, yfrac);
      if xfrac == 0 {
        MeanZeroWeight(rgb, MeanRgb(SourcePixel(m, sampler.cfg, sx + 1, sy),
                                    SourcePixel(m, sampler.cfg, sx + 1, sy + 1), yfrac));
      } else {
        var next := sampler.Column(m, sx + 1, sy, yfrac);
        rgb := Lerp3(rgb, next, xfrac);
      }
    } else {
      rgb := sampler.Sample(m, sx, sy);
      if sampler.cfg.aaMode != 3 {
        MeanZeroWeight(rgb, SourcePixel(m, sampler.cfg, sx, sy + 1));
        MeanZeroWeight(rgb, MeanRgb(SourcePixel(m, sampler.cfg, sx + 1, sy),
                                    SourcePixel(m, sampler.cfg, sx + 1, sy + 1), yfrac));
      }
    }
  }

  /** The first `count` pixels of the frame are the reference, and nothing after them changed. */
  ghost predicate Drawn(m: Memory, regs: Registers, before: seq<byte>, after: seq<byte>, count: nat)
    requires Decode(regs).width > 0
  {
    |after| == |before| && 4 * count <= |after| &&
    (forall i :: 0 <= i < 4 * count ==> after[i] == ReferenceByte(m, regs, i)) &&
    (forall i :: 4 * count <= i < |after| ==> after[i] == before[i])
  }

  lemma DrawnOneMore(m: Memory, regs: Registers, before: seq<byte>, was: seq<byte>, now: seq<byte>,
                     ox: nat, oy: nat)
    requires ox < Decode(regs).width
    requires Drawn(m, regs, before, was, PixelIndex(ox, oy, Decode(regs).width))
    requires
      var dst, rgb := 4 * PixelIndex(ox, oy, Decode(regs).width), ReferencePixel(m, regs, ox, oy);
      dst + 4 <= |was| && now == was[..dst] + [rgb.r, rgb.g, rgb.b, 255] + was[dst + 4..]
    ensures Drawn(m, regs, before, now, PixelIndex(ox + 1, oy, Decode(regs).width))
  {
    hide ReferenceByte, ReferencePixel, Decode, Times;
    var pixel := PixelIndex(ox, oy, Decode(regs).width);
    ReferenceBytes(m, regs, ox, oy);
    forall i | 0 <= i < 4 * pixel ensures now[i] == ReferenceByte(m, regs, i) {
      assert now[i] == was[i];
    }
    forall i | 4 * (pixel + 1) <= i < |now| ensures now[i] == before[i] {
      assert now[i] == was[i];
    }
  }

  lemma ReferenceBytes(m: Memory, regs: Registers, ox: nat, oy: nat)
    requires ox < Decode(regs).width
    ensures
      var dst, rgb := 4 * PixelIndex(ox, oy, Decode(regs).width), ReferencePixel(m, regs, ox, oy);
      ReferenceByte(m, regs, dst) == rgb.r && ReferenceByte(m, regs, dst + 1) == rgb.g &&
      ReferenceByte(m, regs, dst + 2) == rgb.b && ReferenceByte(m, regs, dst + 3) == 255
  {
    hide ReferencePixel, Decode;
    PixelCoordinates(ox, oy, Decode(regs).width);
  }

  lemma PixelCoordinates(ox: nat, oy: nat, w: nat)
    requires ox < w
    ensures RowOfPixel(PixelIndex(ox, oy, w), w) == oy && ColumnOfPixel(PixelIndex(ox, oy, w), w) == ox
  {
    QuotientUnique(PixelIndex(ox, oy, w), w, oy, ox);
  }

  ghost predicate IsGammaTable(table: array<byte>)
    reads table
  {
    table.Length == 256 && forall v :: 0 <= v < 256 ==> table[v] == GammaCurve(v)
  }

  /** The sampler a walk over these registers runs on. */
  ghost predicate Walking(m: Memory, regs: Registers, sampler: ViSampler)
    requires Decode(regs).width > 0
    reads sampler, sampler.rowY, sampler.cells, sampler.covCells
  {
    sampler.Valid(m) && sampler.Once() && sampler.cfg == Config(regs) &&
    sampler.xLo == FirstColumn(Decode(regs)) &&
    sampler.span == LastColumn(Decode(regs)) - FirstColumn(Decode(regs)) + 1
  }

  /** The colour of one output pixel, gamma included. */
  method OutputPixel(m: Memory, regs: Registers, ox: nat, oy: nat, sampler: ViSampler, table: array<byte>)
      returns (rgb: Rgb)
    requires ox < Decode(regs).width && oy < Decode(regs).height
    requires Walking(m, regs, sampler) && sampler.front == Whole(YOffset(Decode(regs), oy))
    requires IsGammaTable(table)
    modifies sampler, sampler.rowY, sampler.cells, sampler.covCells
    ensures Walking(m, regs, sampler) && sampler.front == old(sampler.front)
    ensures rgb == ReferencePixel(m, regs, ox, oy)
  {
    hide SourcePixel, FilteredSource, Decode;
    var g := Decode(regs);
    WalkStaysInWindow(regs, ox, oy);
    rgb := ResamplePixel(m, sampler, Whole(XOffset(g, ox)), Whole(YOffset(g, oy)),
                         Fraction(XOffset(g, ox)), Fraction(YOffset(g, oy)));
    if GammaEnabled(regs) {
      rgb := Rgb(table[rgb.r], table[rgb.g], table[rgb.b]);
    }
  }

  method PutPixel(out: array<byte>, pixel: nat, rgb: Rgb)
    requires 4 * pixel + 4 <= out.Length
    modifies out
    ensures out[..] == old(out[..4 * pixel] + [rgb.r, rgb.g, rgb.b, 255] + out[4 * pixel + 4..])
  {
    var dst := pixel * 4;
    out[dst], out[dst + 1], out[dst + 2] := rgb.r, rgb.g, rgb.b;
    out[dst + 3] := 0xFF;
  }

  lemma PixelIndexSteps(regs: Registers, oy: nat)
    ensures
      var w := Decode(regs).width;
      PixelIndex(0, oy + 1, w) == PixelIndex(w, oy, w) &&
      forall ox :: 0 <= ox < w ==> PixelIndex(ox, oy, w) + 1 <= PixelIndex(w, oy, w)
  {
    hide Decode;
    TimesAdd(oy, 1, Decode(regs).width);
  }

  ghost method BeginRow(m: Memory, regs: Registers, oy: nat, sampler: ViSampler)
    requires 0 < Decode(regs).width && Walking(m, regs, sampler)
    requires sampler.walked == {} || sampler.front <= Whole(YOffset(Decode(regs), oy))
    modifies sampler`front
    ensures Walking(m, regs, sampler) && sampler.front == Whole(YOffset(Decode(regs), oy))
  {
    hide Decode;
    sampler.Advance(m, Whole(YOffset(Decode(regs), oy)));
  }

  /** One output row, left to right. */
  method DrawRow(m: Memory, regs: Registers, oy: nat, sampler: ViSampler, table: array<byte>,
                 out: array<byte>, ghost before: seq<byte>)
    requires 0 < Decode(regs).width && oy < Decode(regs).height
    requires Walking(m, regs, sampler)
    requires sampler.walked == {} || sampler.front <= Whole(YOffset(Decode(regs), oy))
    requires IsGammaTable(table) && out != table
    requires 4 * PixelIndex(Decode(regs).width, oy, Decode(regs).width) <= out.Length
    requires Drawn(m, regs, before, out[..], PixelIndex(0, oy, Decode(regs).width))
    modifies sampler, sampler.rowY, sampler.cells, sampler.covCells, out
    ensures Walking(m, regs, sampler)
    ensures sampler.front == Whole(YOffset(Decode(regs), oy))
    ensures Drawn(m, regs, before, out[..], PixelIndex(Decode(regs).width, oy, Decode(regs).width))
  {
    hide *;
    PixelIndexSteps(regs, oy);
    var g := Decode(regs);
    BeginRow(m, regs, oy, sampler);
    for ox := 0 to g.width
      invariant Walking(m, regs, sampler) && sampler.front == Whole(YOffset(g, oy))
      invariant IsGammaTable(table)
      invariant Drawn(m, regs, before, out[..], PixelIndex(ox, oy, g.width))
    {
      var rgb := OutputPixel(m, regs, ox, oy, sampler, table);
      ghost var was := out[..];
      PutPixel(out, PixelIndex(ox, oy, g.width), rgb);
      DrawnOneMore(m, regs, before, was, out[..], ox, oy);
    }
  }

  /** `scanout_scaled`: fills `out` and reports the frame's size, or refuses and writes nothing.
      `filtered` and `fetched` list every filter chain and coverage fetch the walk computed. */
  method ScanoutScaled(m: Memory, regs: Registers, out: array<byte>)
      returns (w: nat, h: nat, ghost filtered: multiset<Pixel>, ghost fetched: multiset<Pixel>)
    modifies out
    ensures Refused(regs, out.Length) ==> (w, h) == (0, 0) && out[..] == old(out[..])
    ensures !Refused(regs, out.Length) ==>
      (w, h) == (Decode(regs).width, Decode(regs).height) &&
      Drawn(m, regs, old(out[..]), out[..], Times(w, h))
    ensures forall p :: filtered[p] <= 1 && fetched[p] <= 1
  {
    hide SourcePixel, FilteredSource, Decode, ReferenceByte;
    filtered, fetched := multiset{}, multiset{};
    if Blanked(regs) {
      return 0, 0, filtered, fetched;
    }
    var g := Decode(regs);
    DecodeBounds(regs);
    if g.width == 0 || g.height == 0 {
      return 0, 0, filtered, fetched;
    }
    if out.Length < Times(g.width, g.height) * 4 {
      return 0, 0, filtered, fetched;
    }
    var table := GammaTable();
    WalkStaysInWindow(regs, 0, 0);
    var sampler := new ViSampler(Config(regs), FirstColumn(g), LastColumn(g), m);
    w, h := g.width, g.height;
    for oy := 0 to h
      invariant fresh(sampler) && fresh(sampler.rowY) && fresh(sampler.cells) && fresh(sampler.covCells)
      invariant Walking(m, regs, sampler) && IsGammaTable(table)
      invariant sampler.walked == {} || sampler.front <= Whole(YOffset(g, oy))
      invariant Drawn(m, regs, old(out[..]), out[..], PixelIndex(0, oy, w))
    {
      ScaleMonotone(oy + 1, h, w);
      PixelIndexSteps(regs, oy);
      DrawRow(m, regs, oy, sampler, table, out, old(out[..]));
      YOffsetMonotone(g, oy, oy + 1);
    }
    OnceMeansOnce(sampler);
    filtered, fetched := sampler.filtered, sampler.fetched;
  }

  lemma OnceMeansOnce(sampler: ViSampler)
    requires sampler.Shaped() && sampler.Once()
    ensures forall p :: sampler.filtered[p] <= 1 && sampler.fetched[p] <= 1
  {
    forall p ensures sampler.filtered[p] <= 1 && sampler.fetched[p] <= 1 {
      assert p in sampler.filtered ==> sampler.FilteredOnce(p);
      assert p in sampler.fetched ==> sampler.FetchedOnce(p);
    }
  }
}

/** Source pixels as the VI reads them: RDRAM and its hidden plane, the coverage bits, and the
    coverage-gated de-dither and AA-edge filters. One scan-out never changes RDRAM, so memory
    is a value here. */
module ViSource {
  import opened MachineWords
  import opened ViFilters

  const RDRAM_SIZE: nat := 0x80_0000

  datatype Rdram = Rdram(bytes: seq<byte>, hidden: Option<seq<byte>>)

  type Memory = m: Rdram |
      |m.bytes| == RDRAM_SIZE && (m.hidden.Some? ==> |m.hidden.value| == RDRAM_SIZE / 8)
    ghost witness Rdram(seq(RDRAM_SIZE, _ => 0), None)

  /** The register-derived rules a scan-out filters every source pixel under. */
  datatype ViCfg = ViCfg(origin: u32, stride: nat, bpp: nat, aaMode: nat, divot: bool, ditherFilter: bool)

  /** A filtered colour with the three-bit coverage it was filtered under. */
  datatype Sample = Sample(rgb: Rgb, cvg: nat)

  // ----- reads

  function Physical(addr: u32): nat {
    addr % 0x2000_0000
  }

  function Read(m: Memory, addr: u32): byte {
    if Physical(addr) < RDRAM_SIZE then m.bytes[Physical(addr)] else 0
  }

  /** Eight megabytes stand at address zero, nothing after them up to 512 megabytes, and the same again
      in every further segment. */
  lemma MemoryWindow(m: Memory, addr: u32, segment: nat)
    requires addr < 0x2000_0000 && addr + segment * 0x2000_0000 < TWO_TO_THE_32
    ensures Read(m, addr + segment * 0x2000_0000) == if addr < 0x80_0000 then m.bytes[addr] else 0
  {
    QuotientUnique(addr + segment * 0x2000_0000, 0x2000_0000, segment, addr);
  }

  function Next(addr: u32, k: nat): u32 {
    (addr + k) % TWO_TO_THE_32
  }

  /** The two hidden bits of a halfword, four halfwords to a byte; absent until first written. */
  function ReadHidden(m: Memory, addr: u32): nat
    ensures ReadHidden(m, addr) < 4
  {
    if m.hidden.Some? && Physical(addr) < RDRAM_SIZE then
      var halfword := Physical(addr) / 2;
      m.hidden.value[halfword / 4] / [1, 4, 16, 64][halfword % 4] % 4
    else 0
  }

  /** Address of source pixel (x, y). Every step of the original wraps at 32 bits. */
  function PixelAddress(cfg: ViCfg, x: int, y: int): u32 {
    (cfg.origin + cfg.bpp * (cfg.stride * y + x)) % TWO_TO_THE_32
  }

  function Read16(m: Memory, cfg: ViCfg, x: int, y: int): nat {
    var addr := PixelAddress(cfg, x, y);
    Read(m, addr) * 256 + Read(m, Next(addr, 1))
  }

  /** RGBA5551 to RGB8 with the low three bits of each channel left zero. */
  function Rgb5551(px: nat): Rgb
    requires px < 0x1_0000
  {
    Rgb(px / 0x800 * 8, px / 0x40 % 0x20 * 8, px / 2 % 0x20 * 8)
  }

  /** The big-endian R, G, B bytes of an RGBA8888 word. */
  function Rgb8888(m: Memory, cfg: ViCfg, x: int, y: int): Rgb {
    var addr := PixelAddress(cfg, x, y);
    Rgb(Read(m, addr), Read(m, Next(addr, 1)), Read(m, Next(addr, 2)))
  }

  /** The raw colour, as the modes that force full coverage fetch it. */
  function RawRgb(m: Memory, cfg: ViCfg, x: int, y: int): Rgb {
    if cfg.bpp == 2 then Rgb5551(Read16(m, cfg, x, y)) else Rgb8888(m, cfg, x, y)
  }

  /** The raw colour and its coverage: bit 0 and the hidden bits, or the top of the alpha byte. */
  function ReadCov(m: Memory, cfg: ViCfg, x: int, y: int): (s: Sample)
    ensures s.cvg <= 7
    ensures s.rgb == RawRgb(m, cfg, x, y)
  {
    if cfg.bpp == 2 then
      var px := Read16(m, cfg, x, y);
      Sample(Rgb5551(px), px % 2 * 4 + ReadHidden(m, PixelAddress(cfg, x, y)))
    else
      var alpha := Read(m, Next(PixelAddress(cfg, x, y), 3));
      Sample(Rgb8888(m, cfg, x, y), alpha / 32)
  }

  // ----- neighbourhoods

  /** The 3x3 neighbourhood without its centre. */
  const RESTORE_TAPS: seq<(int, int)> :=
    [(-1, -1), (0, -1), (1, -1), (-1, 1), (0, 1), (1, 1), (-1, 0), (1, 0)]

  /** The diagonals and the pixels two away on the same row. */
  const EDGE_TAPS: seq<(int, int)> :=
    [(-1, -1), (1, -1), (-2, 0), (2, 0), (-1, 1), (1, 1)]

  /** The taps are the eight pixels around the centre, and the six at two steps that are not straight
      up or down, each once. */
  lemma TapsAreNeighbours(dx: int, dy: int)
    ensures (dx, dy) in RESTORE_TAPS <==> -1 <= dx <= 1 && -1 <= dy <= 1 && (dx, dy) != (0, 0)
    ensures |RESTORE_TAPS| == 8
    ensures (dx, dy) in EDGE_TAPS <==> -1 <= dy <= 1 && (dx == 2 - dy * dy || dx == dy * dy - 2)
    ensures |EDGE_TAPS| == 6
  {
    if -1 <= dy <= 1 {
      assert dy == -1 || dy == 0 || dy == 1;
    }
  }

  function Neighbours(m: Memory, cfg: ViCfg, x: int, y: int, taps: seq<(int, int)>): (ps: seq<Rgb>)
    ensures |ps| == |taps|
  {
    seq(|taps|, i requires 0 <= i < |taps| => ReadCov(m, cfg, x + taps[i].0, y + taps[i].1).rgb)
  }

  /** The fully covered taps, in tap order. */
  function Covered(m: Memory, cfg: ViCfg, x: int, y: int, taps: seq<(int, int)>): seq<Rgb> {
    if taps == [] then []
    else
      var n := |taps| - 1;
      var s := ReadCov(m, cfg, x + taps[n].0, y + taps[n].1);
      Covered(m, cfg, x, y, taps[..n]) + if s.cvg == 7 then [s.rgb] else []
  }

  // ----- the coverage path, as a value

  /** A source pixel after the coverage-gated filters: partial coverage takes the AA-edge pull,
      full coverage the de-dither when it is enabled. */
  function FilteredSource(m: Memory, cfg: ViCfg, x: int, y: int): (s: Sample)
    ensures s.cvg <= 7
  {
    var c := ReadCov(m, cfg, x, y);
    if c.cvg < 7 then
      Sample(EdgeRgb([c.rgb] + Covered(m, cfg, x, y, EDGE_TAPS), c.cvg), c.cvg)
    else if cfg.ditherFilter then
      Sample(DeditheredRgb(c.rgb, Neighbours(m, cfg, x, y, RESTORE_TAPS)), c.cvg)
    else c
  }

  /** The per-channel median of a pixel and its row neighbours, unless all are fully covered. */
  function DivotRgb(left: Sample, center: Sample, right: Sample): Rgb {
    if left.cvg == 7 && center.cvg == 7 && right.cvg == 7 then center.rgb
    else
      Rgb(Median(left.rgb.r, center.rgb.r, right.rgb.r),
          Median(left.rgb.g, center.rgb.g, right.rgb.g),
          Median(left.rgb.b, center.rgb.b, right.rgb.b))
  }

  /** m is one of the three, no less than two of them and no more than two of them. */
  predicate IsMiddle(m: byte, a: byte, b: byte, c: byte) {
    (m == a || m == b || m == c) &&
    ((a <= m && b <= m) || (b <= m && c <= m) || (a <= m && c <= m)) &&
    ((m <= a && m <= b) || (m <= b && m <= c) || (m <= a && m <= c))
  }

  /** The divot passes a pixel between covered neighbours and otherwise takes each channel's middle. */
  lemma DivotTakesTheMiddle(left: Sample, center: Sample, right: Sample, c: nat)
    requires c < 3
    ensures
      var seen := Channel(DivotRgb(left, center, right), c);
      if left.cvg == center.cvg == right.cvg == 7 then seen == Channel(center.rgb, c)
      else IsMiddle(seen, Channel(left.rgb, c), Channel(center.rgb, c), Channel(right.rgb, c))
  {
    MiddleIsMedian(Channel(left.rgb, c), Channel(center.rgb, c), Channel(right.rgb, c));
    hide Median, IsMiddle;
  }

  lemma MiddleIsMedian(a: byte, b: byte, c: byte)
    ensures IsMiddle(Median(a, b, c), a, b, c)
  {
  }

  /** The edge pull, the de-dither and gamma work on each channel by itself. */
  lemma EachChannelByItself(gathered: seq<Rgb>, cvg: nat, center: Rgb, neighbours: seq<Rgb>, c: nat)
    requires gathered != [] && cvg < 7 && |neighbours| <= 8 && c < 3
    ensures Channel(EdgeRgb(gathered, cvg), c) == EdgeChannel(Channels(gathered, c), cvg)
    ensures Channel(DeditheredRgb(center, neighbours), c) == Channel(center, c) + Nudges(center, neighbours, c)
    ensures Channel(GammaRgb(center), c) == GammaCurve(Channel(center, c))
  {
    hide EdgeChannel, Nudges, GammaCurve;
  }

  /** One source pixel as the scan-out wants it. */
  function SourcePixel(m: Memory, cfg: ViCfg, x: int, y: int): Rgb {
    if cfg.aaMode > 1 then RawRgb(m, cfg, x, y)
    else if cfg.divot then
      DivotRgb(FilteredSource(m, cfg, x - 1, y), FilteredSource(m, cfg, x, y),
               FilteredSource(m, cfg, x + 1, y))
    else FilteredSource(m, cfg, x, y).rgb
  }

  // ----- the coverage path, as computed

  /** `vi_video_filter`: gathers the fully covered taps behind the centre, then each channel. */
  method VideoFilter(m: Memory, cfg: ViCfg, x: int, y: int, center: Rgb, cvg: nat) returns (o: Rgb)
    requires cvg < 7
    ensures o == EdgeRgb([center] + Covered(m, cfg, x, y, EDGE_TAPS), cvg)
  {
    var back := [center];
    for t := 0 to |EDGE_TAPS|
      invariant back == [center] + Covered(m, cfg, x, y, EDGE_TAPS[..t])
    {
      assert EDGE_TAPS[..t + 1][..t] == EDGE_TAPS[..t];
      var nb := ReadCov(m, cfg, x + EDGE_TAPS[t].0, y + EDGE_TAPS[t].1);
      if nb.cvg == 7 {
        back := back + [nb.rgb];
      }
    }
    assert EDGE_TAPS[..|EDGE_TAPS|] == EDGE_TAPS;
    o := FilterPixel(back, cvg);
  }

  /** The three channels of a gathered neighbourhood. */
  method FilterPixel(back: seq<Rgb>, cvg: nat) returns (o: Rgb)
    requires back != [] && cvg < 7
    ensures o == EdgeRgb(back, cvg)
  {
    var r := FilterChannel(Channels(back, 0), cvg);
    var g := FilterChannel(Channels(back, 1), cvg);
    var b := FilterChannel(Channels(back, 2), cvg);
    o := Rgb(r, g, b);
    hide EdgeChannel;
  }

  /** The de-dither loop: three running sums, nudged by each tap, then cut to bytes. */
  method Restore(m: Memory, cfg: ViCfg, x: int, y: int, center: Rgb, taps: seq<(int, int)>)
      returns (o: Rgb)
    requires |taps| <= 8
    ensures o == DeditheredRgb(center, Neighbours(m, cfg, x, y, taps))
  {
    ghost var all := Neighbours(m, cfg, x, y, taps);
    var r: int, g: int, b: int := center.r, center.g, center.b;
    for t := 0 to |taps|
      invariant (r, g, b) == NudgedSums(center, all[..t])
    {
      var nb := ReadCov(m, cfg, x + taps[t].0, y + taps[t].1).rgb;
      NudgeOnce(center, all, t);
      assert nb == all[t];
      r := r + Nudge(center.r, nb.r);
      g := g + Nudge(center.g, nb.g);
      b := b + Nudge(center.b, nb.b);
    }
    assert all[..|taps|] == all;
    CutToBytes(center, all);
    o := Rgb(r % 256, g % 256, b % 256);
  }

  ghost function NudgedSums(center: Rgb, neighbours: seq<Rgb>): (int, int, int) {
    (center.r + Nudges(center, neighbours, 0),
     center.g + Nudges(center, neighbours, 1),
     center.b + Nudges(center, neighbours, 2))
  }

  lemma NudgeOnce(center: Rgb, all: seq<Rgb>, t: nat)
    requires t < |all|
    ensures
      var (r, g, b) := NudgedSums(center, all[..t]);
      NudgedSums(center, all[..t + 1])
      == (r + Nudge(center.r, all[t].r), g + Nudge(center.g, all[t].g), b + Nudge(center.b, all[t].b))
  {
    assert all[..t + 1][..t] == all[..t];
  }

  lemma CutToBytes(center: Rgb, neighbours: seq<Rgb>)
    requires |neighbours| <= 8
    ensures
      var (r, g, b) := NudgedSums(center, neighbours);
      Rgb(r % 256, g % 256, b % 256) == DeditheredRgb(center, neighbours)
  {
    DeditherNeverTruncates(center, neighbours, 0);
    DeditherNeverTruncates(center, neighbours, 1);
    DeditherNeverTruncates(center, neighbours, 2);
  }

  /** `vi_fetch_cov`: the coverage-path fetch, computed without any memo. */
  method FetchCov(m: Memory, cfg: ViCfg, x: int, y: int) returns (s: Sample)
    ensures s == FilteredSource(m, cfg, x, y)
  {
    var c := ReadCov(m, cfg, x, y);
    if c.cvg < 7 {
      var rgb := VideoFilter(m, cfg, x, y, c.rgb, c.cvg);
      return Sample(rgb, c.cvg);
    }
    if !cfg.ditherFilter {
      return c;
    }
    var rgb := Restore(m, cfg, x, y, c.rgb, RESTORE_TAPS);
    return Sample(rgb, c.cvg);
  }
}

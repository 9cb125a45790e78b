/** The other end of the frame buffer: the RDP's pixel and coverage writes, which the VI reads back. */
module PixelStore {
  import opened MachineWords
  import opened ViFilters
  import opened ViSource

  /** A colour image: where it starts, its pixels a row and bytes a pixel. */
  datatype Image = Image(base: u32, width: nat, bpp: nat)

  function RowAddress(image: Image, y: nat): u32 {
    (image.base + y * (image.width * image.bpp)) % TWO_TO_THE_32
  }

  function PixelAt(image: Image, x: nat, y: nat): u32 {
    (RowAddress(image, y) + x * image.bpp) % TWO_TO_THE_32
  }

  function WriteByte(m: Memory, addr: u32, val: byte): Memory {
    if Physical(addr) < RDRAM_SIZE then m.(bytes := m.bytes[Physical(addr) := val]) else m
  }

  /** One of a byte's four two-bit fields replaced. */
  function FieldSet(b: byte, k: nat, val: nat): byte
    requires k < 4 && val < 4
  {
    if k == 0 then b / 4 * 4 + val
    else if k == 1 then b / 16 * 16 + val * 4 + b % 4
    else if k == 2 then b / 64 * 64 + val * 16 + b % 16
    else val * 64 + b % 64
  }

  function WriteHidden(m: Memory, addr: u32, val: nat): Memory
    requires val < 4
  {
    if Physical(addr) < RDRAM_SIZE then
      var plane := if m.hidden.Some? then m.hidden.value else seq(RDRAM_SIZE / 8, _ => 0);
      var halfword := Physical(addr) / 2;
      m.(hidden := Some(plane[halfword / 4 := FieldSet(plane[halfword / 4], halfword % 4, val)]))
    else m
  }

  /** RGBA5551, the top bit of the coverage for alpha. */
  function Packed(rgb: Rgb, cvg: nat): (px: nat)
    requires cvg < 8
    ensures px < 0x1_0000
  {
    rgb.r / 8 * 0x800 + rgb.g / 8 * 0x40 + rgb.b / 8 * 2 + cvg / 4
  }

  /** A pixel with its coverage: in the alpha byte of a 32-bit image; the top bit in the alpha bit of
      a 16-bit one and the rest in the hidden plane. */
  function WritePixel(m: Memory, addr: u32, bpp: nat, rgb: Rgb, cvg: nat): Memory
    requires cvg < 8
  {
    if bpp == 4 then
      WriteByte(WriteByte(WriteByte(WriteByte(m, addr, rgb.r), Next(addr, 1), rgb.g), Next(addr, 2), rgb.b),
                Next(addr, 3), cvg * 32)
    else if bpp == 2 then
      var packed := Packed(rgb, cvg);
      WriteHidden(WriteByte(WriteByte(m, addr, packed / 0x100), Next(addr, 1), packed % 0x100), addr, cvg % 4)
    else m
  }

  /** What a 16-bit image keeps of a channel. */
  function Stored(rgb: Rgb, bpp: nat): Rgb {
    if bpp == 2 then Rgb(rgb.r / 8 * 8, rgb.g / 8 * 8, rgb.b / 8 * 8) else rgb
  }

  /** The pixel lies inside memory. */
  predicate Inside(image: Image, x: nat, y: nat) {
    image.bpp in {2, 4} && image.base + image.bpp * (image.width * y + x) + image.bpp <= RDRAM_SIZE
  }

  /** The VI scans this image. */
  predicate Scans(cfg: ViCfg, image: Image) {
    cfg.origin == image.base && cfg.stride == image.width && cfg.bpp == image.bpp
  }

  lemma AddressesAgree(image: Image, cfg: ViCfg, x: nat, y: nat)
    requires Inside(image, x, y) && Scans(cfg, image)
    ensures PixelAddress(cfg, x, y) == image.base + image.bpp * (image.width * y + x) == PixelAt(image, x, y)
  {
    ByteOffset(image.width, image.bpp, x, y);
    var at := image.base + image.bpp * (image.width * y + x);
    var row := image.base + y * (image.width * image.bpp);
    assert 0 <= row <= at && at == row + x * image.bpp;
  }

  lemma ByteOffset(stride: nat, bpp: nat, x: nat, y: nat)
    ensures bpp * (stride * y + x) == y * (stride * bpp) + x * bpp
    ensures 0 <= y * (stride * bpp) && 0 <= x * bpp
  {
    assert bpp * (stride * y) == y * (stride * bpp);
  }

  /** Inside memory an address is its own physical address. */
  lemma InRange(addr: u32, k: nat)
    requires addr + k < RDRAM_SIZE
    ensures Physical(addr) == addr && Next(addr, k) == addr + k && Physical(Next(addr, k)) == addr + k
  {
  }

  // ----- the hidden plane

  lemma FieldReads(b: byte, k: nat, val: nat, j: nat)
    requires k < 4 && val < 4 && j < 4
    ensures FieldSet(b, k, val) / [1, 4, 16, 64][j] % 4 == if j == k then val else b / [1, 4, 16, 64][j] % 4
  {
    var d0, d1, d2, d3 := b % 4, b / 4 % 4, b / 16 % 4, b / 64;
    Digits(b);
    Fields(d0, d1, d2, d3);
    Fields(if k == 0 then val else d0, if k == 1 then val else d1, if k == 2 then val else d2,
           if k == 3 then val else d3);
  }

  lemma Digits(b: byte)
    ensures b == 64 * (b / 64) + 16 * (b / 16 % 4) + 4 * (b / 4 % 4) + b % 4
    ensures b / 64 < 4
    ensures b / 4 * 4 == b - b % 4
    ensures b / 16 * 16 == 64 * (b / 64) + 16 * (b / 16 % 4)
    ensures b % 16 == 4 * (b / 4 % 4) + b % 4
    ensures b % 64 == 16 * (b / 16 % 4) + 4 * (b / 4 % 4) + b % 4
  {
  }

  /** Each field is read by its own divisor. */
  lemma Fields(d0: nat, d1: nat, d2: nat, d3: nat)
    requires d0 < 4 && d1 < 4 && d2 < 4 && d3 < 4
    ensures
      var b := 64 * d3 + 16 * d2 + 4 * d1 + d0;
      b < 0x100 && b / 1 % 4 == d0 && b / 4 % 4 == d1 && b / 16 % 4 == d2 && b / 64 % 4 == d3
  {
    var b := 64 * d3 + 16 * d2 + 4 * d1 + d0;
    QuotientUnique(b, 4, 16 * d3 + 4 * d2 + d1, d0);
    QuotientUnique(b, 16, 4 * d3 + d2, 4 * d1 + d0);
    QuotientUnique(b, 64, d3, 16 * d2 + 4 * d1 + d0);
  }

  /** The two bits of a halfword are its own: a write is read back there and changes no other. */
  lemma HiddenReadsBack(m: Memory, addr: u32, val: nat, other: u32)
    requires addr < RDRAM_SIZE && other < RDRAM_SIZE && val < 4
    ensures ReadHidden(WriteHidden(m, addr, val), other) == if other / 2 == addr / 2 then val else ReadHidden(m, other)
  {
    InRange(addr, 0);
    InRange(other, 0);
    var plane := if m.hidden.Some? then m.hidden.value else seq(RDRAM_SIZE / 8, _ => 0);
    var a, o := addr / 2, other / 2;
    hide Physical, FieldSet;
    FieldReads(plane[a / 4], a % 4, val, o % 4);
    if o != a && o / 4 == a / 4 {
      assert o % 4 != a % 4;
    }
    assert !m.hidden.Some? ==> plane[o / 4] / [1, 4, 16, 64][o % 4] % 4 == 0;
  }

  // ----- a pixel

  /** What was drawn is what is read back: colour, as far as the format keeps it, and coverage. */
  lemma PixelReadsBack(m: Memory, image: Image, cfg: ViCfg, x: nat, y: nat, rgb: Rgb, cvg: nat)
    requires Inside(image, x, y) && Scans(cfg, image) && cvg < 8
    ensures ReadCov(WritePixel(m, PixelAt(image, x, y), image.bpp, rgb, cvg), cfg, x, y) ==
      Sample(Stored(rgb, image.bpp), cvg)
  {
    AddressesAgree(image, cfg, x, y);
    var at := PixelAt(image, x, y);
    hide PixelAt, PixelAddress;
    if image.bpp == 2 {
      HalfwordReads(m, at, rgb, cvg);
    } else {
      WordReads(m, at, rgb, cvg);
    }
    hide WritePixel;
  }

  /** No other pixel of the image notices. */
  lemma OtherPixelsKeep(m: Memory, image: Image, cfg: ViCfg, x: nat, y: nat, rgb: Rgb, cvg: nat, u: nat, v: nat)
    requires Inside(image, x, y) && Inside(image, u, v) && Scans(cfg, image) && cvg < 8
    requires image.width * y + x != image.width * v + u
    ensures ReadCov(WritePixel(m, PixelAt(image, x, y), image.bpp, rgb, cvg), cfg, u, v) == ReadCov(m, cfg, u, v)
  {
    AddressesAgree(image, cfg, x, y);
    AddressesAgree(image, cfg, u, v);
    var at, other := PixelAt(image, x, y), PixelAt(image, u, v);
    Apart(image.base, image.bpp, image.width * y + x, image.width * v + u);
    hide PixelAt, PixelAddress, Read, Next, Physical, ReadHidden, Rgb5551, WritePixel, ReadCov;
    var after := WritePixel(m, at, image.bpp, rgb, cvg);
    if image.bpp == 2 {
      HalfwordKeeps(m, at, rgb, cvg, other);
    } else {
      WordKeeps(m, at, rgb, cvg, other);
    }
    SameReads(m, after, cfg, u, v);
  }

  /** A pixel is what its own bytes and hidden bits say. */
  lemma SameReads(m: Memory, after: Memory, cfg: ViCfg, x: int, y: int)
    requires cfg.bpp in {2, 4}
    requires
      var at := PixelAddress(cfg, x, y);
      Read(after, at) == Read(m, at) && Read(after, Next(at, 1)) == Read(m, Next(at, 1)) &&
      (cfg.bpp == 2 ==> ReadHidden(after, at) == ReadHidden(m, at)) &&
      (cfg.bpp == 4 ==>
        Read(after, Next(at, 2)) == Read(m, Next(at, 2)) && Read(after, Next(at, 3)) == Read(m, Next(at, 3)))
    ensures ReadCov(after, cfg, x, y) == ReadCov(m, cfg, x, y)
  {
    hide PixelAddress, Read, Next, ReadHidden, Rgb5551;
  }

  lemma Apart(base: nat, bpp: nat, i: nat, j: nat)
    requires i != j && bpp in {2, 4}
    ensures base + bpp * i + bpp <= base + bpp * j || base + bpp * j + bpp <= base + bpp * i
  {
  }

  lemma WordKeeps(m: Memory, at: u32, rgb: Rgb, cvg: nat, other: u32)
    requires at + 4 <= RDRAM_SIZE && other + 4 <= RDRAM_SIZE && cvg < 8
    requires at + 4 <= other || other + 4 <= at
    ensures
      var after := WritePixel(m, at, 4, rgb, cvg);
      Read(after, other) == Read(m, other) && Read(after, Next(other, 1)) == Read(m, Next(other, 1)) &&
      Read(after, Next(other, 2)) == Read(m, Next(other, 2)) && Read(after, Next(other, 3)) == Read(m, Next(other, 3))
  {
    InRange(other, 1);
    InRange(other, 2);
    InRange(other, 3);
    hide Physical, Next, WritePixel, Read;
    ByteKeeps(m, at, rgb, cvg, other);
    ByteKeeps(m, at, rgb, cvg, other + 1);
    ByteKeeps(m, at, rgb, cvg, other + 2);
    ByteKeeps(m, at, rgb, cvg, other + 3);
  }

  lemma ByteKeeps(m: Memory, at: u32, rgb: Rgb, cvg: nat, other: u32)
    requires at + 4 <= RDRAM_SIZE && other < RDRAM_SIZE && cvg < 8
    requires at + 4 <= other || other < at
    ensures Read(WritePixel(m, at, 4, rgb, cvg), other) == Read(m, other)
  {
    WordReads(m, at, rgb, cvg);
    InRange(other, 0);
    hide Physical, Next, WritePixel;
  }

  lemma HalfwordKeeps(m: Memory, at: u32, rgb: Rgb, cvg: nat, other: u32)
    requires at + 2 <= RDRAM_SIZE && other + 2 <= RDRAM_SIZE && cvg < 8
    requires at + 2 <= other || other + 2 <= at
    ensures
      var after := WritePixel(m, at, 2, rgb, cvg);
      Read(after, other) == Read(m, other) && Read(after, Next(other, 1)) == Read(m, Next(other, 1)) &&
      ReadHidden(after, other) == ReadHidden(m, other)
  {
    var packed := Packed(rgb, cvg);
    var coloured := Halved(m, at, packed);
    HalfwordWritten(m, at, rgb, cvg, packed);
    HiddenReadsBack(coloured, at, cvg % 4, other);
    InRange(other, 1);
    hide Physical, Next, WritePixel;
  }

  /** The two bytes of a halfword in place. */
  function Halved(m: Memory, at: u32, packed: nat): Memory
    requires at + 2 <= RDRAM_SIZE && packed < 0x1_0000
  {
    m.(bytes := m.bytes[at := packed / 0x100][at + 1 := packed % 0x100])
  }

  lemma HalfwordWritten(m: Memory, at: u32, rgb: Rgb, cvg: nat, packed: nat)
    requires at + 2 <= RDRAM_SIZE && cvg < 8 && packed == Packed(rgb, cvg)
    ensures WritePixel(m, at, 2, rgb, cvg) == WriteHidden(Halved(m, at, packed), at, cvg % 4)
  {
    InRange(at, 1);
    hide Physical, Next, WriteHidden, Packed;
  }

  lemma WordReads(m: Memory, at: u32, rgb: Rgb, cvg: nat)
    requires at + 4 <= RDRAM_SIZE && cvg < 8
    ensures
      var after := WritePixel(m, at, 4, rgb, cvg);
      after == m.(bytes := m.bytes[at := rgb.r][at + 1 := rgb.g][at + 2 := rgb.b][at + 3 := cvg * 32]) &&
      Read(after, at) == rgb.r && Read(after, Next(at, 1)) == rgb.g && Read(after, Next(at, 2)) == rgb.b &&
      Read(after, Next(at, 3)) == cvg * 32
  {
    InRange(at, 1);
    InRange(at, 2);
    InRange(at, 3);
    hide Physical, Next;
  }

  lemma HalfwordReads(m: Memory, at: u32, rgb: Rgb, cvg: nat)
    requires at + 2 <= RDRAM_SIZE && cvg < 8
    ensures
      var after := WritePixel(m, at, 2, rgb, cvg);
      var px := Read(after, at) * 256 + Read(after, Next(at, 1));
      Rgb5551(px) == Stored(rgb, 2) && px % 2 * 4 + ReadHidden(after, at) == cvg
  {
    var packed := Packed(rgb, cvg);
    HalfwordWritten(m, at, rgb, cvg, packed);
    HiddenReadsBack(Halved(m, at, packed), at, cvg % 4, at);
    Unpacked(rgb.r / 8, rgb.g / 8, rgb.b / 8, cvg / 4);
    assert packed == rgb.r / 8 * 0x800 + rgb.g / 8 * 0x40 + rgb.b / 8 * 2 + cvg / 4;
    InRange(at, 1);
    HalfwordJoins(packed);
    hide Physical, Next, WritePixel, ReadHidden, WriteHidden, Rgb5551, Packed;
  }

  lemma HalfwordJoins(packed: nat)
    ensures packed / 0x100 * 256 + packed % 0x100 == packed
  {
  }

  lemma Unpacked(r: nat, g: nat, b: nat, a: nat)
    requires r < 32 && g < 32 && b < 32 && a < 2
    ensures
      var px := r * 0x800 + g * 0x40 + b * 2 + a;
      px < 0x1_0000 && Rgb5551(px) == Rgb(r * 8, g * 8, b * 8) && px % 2 == a
  {
    var px := r * 0x800 + g * 0x40 + b * 2 + a;
    QuotientUnique(px, 0x800, r, g * 0x40 + b * 2 + a);
    QuotientUnique(px, 0x40, r * 0x20 + g, b * 2 + a);
    QuotientUnique(px, 2, (r * 0x20 + g) * 0x20 + b, a);
    QuotientUnique(r * 0x20 + g, 0x20, r, g);
    QuotientUnique((r * 0x20 + g) * 0x20 + b, 0x20, r * 0x20 + g, b);
  }

  // ----- an image

  /** One pixel as the RDP draws it. */
  datatype Stroke = Stroke(x: nat, y: nat, rgb: Rgb, cvg: nat)

  predicate OnImage(image: Image, s: Stroke) {
    Inside(image, s.x, s.y) && s.cvg < 8 && s.x < image.width
  }

  predicate AllOn(image: Image, strokes: seq<Stroke>) {
    forall i :: 0 <= i < |strokes| ==> OnImage(image, strokes[i])
  }

  /** No later stroke is on the pixel of the i-th. */
  predicate LastOn(image: Image, strokes: seq<Stroke>, i: nat) {
    AllOn(image, strokes) && i < |strokes| &&
    forall k :: i < k < |strokes| ==> (strokes[k].x, strokes[k].y) != (strokes[i].x, strokes[i].y)
  }

  function Painted(m: Memory, image: Image, strokes: seq<Stroke>): Memory
    requires AllOn(image, strokes)
  {
    if strokes == [] then m
    else
      var n := |strokes| - 1;
      var s := strokes[n];
      assert OnImage(image, s);
      WritePixel(Painted(m, image, strokes[..n]), PixelAt(image, s.x, s.y), image.bpp, s.rgb, s.cvg)
  }

  lemma SamePixel(width: nat, x: nat, y: nat, u: nat, v: nat)
    requires x < width && u < width
    ensures width * y + x == width * v + u <==> (x, y) == (u, v)
  {
    if width * y + x == width * v + u {
      QuotientUnique(width * y + x, width, y, x);
      QuotientUnique(width * v + u, width, v, u);
    }
  }

  /** Whatever was drawn, every pixel of the image reads back as the last stroke on it. */
  lemma {:induction false} LastStrokeStays(m: Memory, image: Image, cfg: ViCfg, strokes: seq<Stroke>, i: nat)
    requires Scans(cfg, image) && LastOn(image, strokes, i)
    ensures ReadCov(Painted(m, image, strokes), cfg, strokes[i].x, strokes[i].y) ==
      Sample(Stored(strokes[i].rgb, image.bpp), strokes[i].cvg)
  {
    var n := |strokes| - 1;
    var last, s := strokes[n], strokes[i];
    assert OnImage(image, last) && OnImage(image, s);
    var before := Painted(m, image, strokes[..n]);
    hide WritePixel, PixelAt, ReadCov, Stored;
    if i == n {
      PixelReadsBack(before, image, cfg, s.x, s.y, s.rgb, s.cvg);
    } else {
      LastStrokeStays(m, image, cfg, strokes[..n], i);
      SamePixel(image.width, last.x, last.y, s.x, s.y);
      OtherPixelsKeep(before, image, cfg, last.x, last.y, last.rgb, last.cvg, s.x, s.y);
    }
  }
}

/** `flushScratch` and `setAddrWindow` of the ILI9488 driver
    (src/platform/pico/Ili9488Display.cpp): the dirty rectangle's pixels are
    sent row-major, each RGB565 word byte-swapped so that its bytes leave
    memory high byte first, in slabs of at most 16 rows. The SPI bus, the DMA
    channel and the ping-pong buffers are replaced by the sequence of words
    the slabs hold and the number of rows in each slab. */
module SpiFlush {
  import opened Ints
  import opened Wrappers
  import opened DirtyRect
  import opened Raster

  const SLAB_ROWS: int := 16

  // ---------------------------------------------------------------------------
  // Byte order

  /** `(uint16_t)((c << 8) | (c >> 8))`: after the promotion to `int`, the
      shifted halves share no bit, so the `|` is a sum, and the cast keeps
      the low 16 bits. */
  function Swap16(c: u16): (r: u16)
    ensures r / 0x100 == c % 0x100 && r % 0x100 == c / 0x100
  {
    var v := (c * 0x100 + c / 0x100) % 0x10000;
    SwapHalves(c);
    v
  }

  lemma SwapHalves(c: u16)
    ensures var v := (c * 0x100 + c / 0x100) % 0x10000;
      v == (c % 0x100) * 0x100 + c / 0x100 && v / 0x100 == c % 0x100 && v % 0x100 == c / 0x100
  {
    var lo, hi := c % 0x100, c / 0x100;
    assert c * 0x100 + hi == 0x10000 * hi + (lo * 0x100 + hi);
    DivUnique(c * 0x100 + hi, 0x10000, hi, lo * 0x100 + hi);
    DivUnique(lo * 0x100 + hi, 0x100, lo, hi);
  }

  /** Swapping twice gives the colour back. */
  lemma Swap16Involution(c: u16)
    ensures Swap16(Swap16(c)) == c
  {
    var r := Swap16(c);
    var rr := Swap16(r);
    assert rr == (rr / 0x100) * 0x100 + rr % 0x100;
    assert c == (c / 0x100) * 0x100 + c % 0x100;
  }

  /** The bytes a word sequence occupies in little-endian memory, which is
      the order the DMA channel feeds them to the SPI data register. */
  function WireBytes(ws: seq<u16>): (b: seq<byte>)
    ensures |b| == 2 * |ws|
  {
    if |ws| == 0 then [] else [ws[0] % 0x100, ws[0] / 0x100] + WireBytes(ws[1..])
  }

  /** Word k of a sequence becomes bytes 2k and 2k+1 on the wire, low byte first. */
  lemma {:induction false} WireBytesAt(ws: seq<u16>, k: int)
    requires 0 <= k < |ws|
    ensures WireBytes(ws)[2 * k] == ws[k] % 0x100 && WireBytes(ws)[2 * k + 1] == ws[k] / 0x100
    decreases k
  {
    if k > 0 {
      WireBytesAt(ws[1..], k - 1);
    }
  }

  /** Sending the swapped words puts each colour on the wire high byte
      first, the byte order of the panel's 16-bit pixel format. */
  lemma SwappedWordsAreBigEndian(cs: seq<u16>, k: int)
    requires 0 <= k < |cs|
    ensures var ws := seq(|cs|, i requires 0 <= i < |cs| => Swap16(cs[i]));
      WireBytes(ws)[2 * k] == cs[k] / 0x100 && WireBytes(ws)[2 * k + 1] == cs[k] % 0x100
  {
    var ws := seq(|cs|, i requires 0 <= i < |cs| => Swap16(cs[i]));
    WireBytesAt(ws, k);
  }

  // ---------------------------------------------------------------------------
  // Packing rows

  /** Two adjacent pixels read as one little-endian 32-bit word
      `*(const uint32_t*)(src + i)` and split back with `& 0xFFFF` and `>> 16`. */
  lemma PairRead(a: u16, b: u16)
    ensures (a + 0x10000 * b) % 0x10000 == a && (a + 0x10000 * b) / 0x10000 == b
  {
    DivUnique(a + 0x10000 * b, 0x10000, b, a);
  }

  /** The inner loop of `pack_rows` for one row: pixels two at a time through a
      32-bit read, then the odd pixel left over. Every pixel is byte-swapped
      into the same position. */
  method PackRow(src: seq<u16>, w: int) returns (dst: seq<u16>)
    requires 0 <= w <= |src|
    ensures |dst| == w
    ensures forall k :: 0 <= k < w ==> dst[k] == Swap16(src[k])
  {
    dst := [];
    var i := 0;
    while i + 1 < w
      invariant 0 <= i <= w && |dst| == i
      invariant forall k :: 0 <= k < i ==> dst[k] == Swap16(src[k])
    {
      var p: int := src[i] as int + 0x10000 * (src[i + 1] as int);
      PairRead(src[i], src[i + 1]);
      var c0: u16 := p % 0x10000;
      var c1: u16 := p / 0x10000;
      dst := dst + [Swap16(c0), Swap16(c1)];
      i := i + 2;
    }
    if i < w {
      dst := dst + [Swap16(src[i])];
    }
  }

  lemma MulMono(a: int, b: int, w: int)
    requires a <= b && 0 <= w
    ensures a * w <= b * w
  {
    assert b * w - a * w == (b - a) * w;
  }

  /** `pack_rows`: `rows` rows of width `w` starting at row `yStart` of a
      block whose rows are `w` pixels apart, swapped and laid out row after
      row. The result is the swapped pixels `yStart * w` onwards. */
  method PackRows(pixels: seq<u16>, w: int, yStart: int, rows: int) returns (dst: seq<u16>)
    requires 0 <= w && 0 <= yStart && 0 <= rows
    requires (yStart + rows) * w <= |pixels|
    ensures |dst| == rows * w
    ensures forall k :: 0 <= k < rows * w ==> dst[k] == Swap16(pixels[yStart * w + k])
  {
    dst := [];
    var ry := 0;
    while ry < rows
      invariant 0 <= ry <= rows && |dst| == ry * w
      invariant forall k :: 0 <= k < ry * w ==> dst[k] == Swap16(pixels[yStart * w + k])
    {
      var base := (yStart + ry) * w;
      assert base == yStart * w + ry * w;
      MulMono(yStart + ry + 1, yStart + rows, w);
      assert base + w == (yStart + ry + 1) * w;
      var row := PackRow(pixels[base..base + w], w);
      assert (ry + 1) * w == ry * w + w;
      dst := dst + row;
      ry := ry + 1;
    }
  }

  // ---------------------------------------------------------------------------
  // The address window

  /** A byte sent with D/C low (a command) or a run of bytes sent with D/C
      high (data). */
  datatype Packet = Command(cmd: byte) | Data(bytes: seq<byte>)

  /** `(uint8_t)(v >> 8), (uint8_t)(v & 0xFF)`: the arithmetic shift floors,
      and the casts keep the low byte. */
  function CoordBytes(v: int): (b: seq<byte>)
    ensures |b| == 2
    ensures 0 <= v < 0x10000 ==> Be16(b[0], b[1]) == v
  {
    [(v / 0x100) % 0x100, v % 0x100]
  }

  /** A high byte and a low byte read together. */
  function Be16(hi: byte, lo: byte): int { hi as int * 0x100 + lo as int }

  /** Whatever the coordinate, the two bytes are its value modulo 2^16, high
      byte first. */
  lemma CoordBytesWrap(v: int)
    ensures Be16(CoordBytes(v)[0], CoordBytes(v)[1]) == v % 0x10000
  {
    var q := v / 0x100;
    assert v == 0x100 * q + v % 0x100;
    assert q == 0x100 * (q / 0x100) + q % 0x100;
    assert v == 0x10000 * (q / 0x100) + (q % 0x100 * 0x100 + v % 0x100);
    DivUnique(v, 0x10000, q / 0x100, q % 0x100 * 0x100 + v % 0x100);
  }

  /** `setAddrWindow`: column address set (0x2A) with x0 and x1, page address
      set (0x2B) with y0 and y1, then memory write (0x2C). */
  function AddrWindow(x0: int, y0: int, x1: int, y1: int): (ps: seq<Packet>)
    ensures |ps| == 5
    ensures ps[0] == Command(0x2A) && ps[2] == Command(0x2B) && ps[4] == Command(0x2C)
    ensures ps[1].Data? && |ps[1].bytes| == 4 && ps[3].Data? && |ps[3].bytes| == 4
  {
    [Command(0x2A), Data(CoordBytes(x0) + CoordBytes(x1)),
     Command(0x2B), Data(CoordBytes(y0) + CoordBytes(y1)),
     Command(0x2C)]
  }

  /** On screen coordinates the window's data bytes decode back to the corners. */
  lemma AddrWindowDecodes(x0: int, y0: int, x1: int, y1: int)
    requires OnScreen(x0, y0) && OnScreen(x1, y1)
    ensures var ps := AddrWindow(x0, y0, x1, y1);
      && Be16(ps[1].bytes[0], ps[1].bytes[1]) == x0 && Be16(ps[1].bytes[2], ps[1].bytes[3]) == x1
      && Be16(ps[3].bytes[0], ps[3].bytes[1]) == y0 && Be16(ps[3].bytes[2], ps[3].bytes[3]) == y1
  {
  }

  // ---------------------------------------------------------------------------
  // Slabs

  function Sum(xs: seq<int>): int {
    if |xs| == 0 then 0 else Sum(xs[..|xs| - 1]) + xs[|xs| - 1]
  }

  /** What the flush hands to the panel: the command packets of the address
      window, then the pixel words in transfer order, split into slabs of
      the given row counts. */
  datatype Transfer = Transfer(commands: seq<Packet>, words: seq<u16>, slabRows: seq<int>)

  /** The slab loop of `flushScratch`: the first slab takes `min(16, h)` rows
      and each later one 16 rows or what is left. Every slab is full except
      possibly the last, and the slabs add up to the h rows. */
  method Slabs(h: int) returns (rows: seq<int>)
    requires h >= 1
    ensures |rows| >= 1 && Sum(rows) == h
    ensures forall k :: 0 <= k < |rows| ==> 1 <= rows[k] <= SLAB_ROWS
    ensures forall k :: 0 <= k < |rows| - 1 ==> rows[k] == SLAB_ROWS
    ensures |rows| == (h + SLAB_ROWS - 1) / SLAB_ROWS
  {
    var rows0 := if h >= SLAB_ROWS then SLAB_ROWS else h;
    rows := [rows0];
    assert Sum(rows) == rows0 by { assert rows[..0] == []; }
    var y := rows0;
    if y == h {
      DivUnique(h + SLAB_ROWS - 1, SLAB_ROWS, 1, h - 1);
    }
    while y < h
      invariant 1 <= |rows| && Sum(rows) == y <= h
      invariant forall k :: 0 <= k < |rows| ==> 1 <= rows[k] <= SLAB_ROWS
      invariant forall k :: 0 <= k < |rows| - 1 ==> rows[k] == SLAB_ROWS
      invariant y < h ==> y == SLAB_ROWS * |rows| && rows[|rows| - 1] == SLAB_ROWS
      invariant y == h ==> |rows| == (h + SLAB_ROWS - 1) / SLAB_ROWS
      decreases h - y
    {
      var r := if y + SLAB_ROWS <= h then SLAB_ROWS else h - y;
      var before := rows;
      rows := rows + [r];
      assert rows[..|rows| - 1] == before;
      y := y + r;
      if y == h {
        DivUnique(h + SLAB_ROWS - 1, SLAB_ROWS, |rows|, r - 1);
      }
    }
  }

  /** The width and height of a rectangle. */
  function RectW(r: Rect): int { r.x1 - r.x0 + 1 }
  function RectH(r: Rect): int { r.y1 - r.y0 + 1 }

  /** `flushScratch`: nothing without a block; otherwise the address window
      of `r`, then the first `w * h` pixels of the block, read as rows of the
      rectangle's width, each word byte-swapped, in slabs of at most 16 rows.
      The caller must pass a non-empty rectangle no wider than the screen and
      a block holding at least `w * h` pixels: the source reads that many
      without checking. */
  method FlushScratch(s: Option<Scratch>, r: Rect) returns (t: Option<Transfer>)
    requires s.Some? ==> s.value.Valid()
    requires !Empty(r) && RectW(r) <= W
    requires s.Some? ==> RectW(r) * RectH(r) <= |s.value.pixels|
    ensures t.Some? <==> s.Some?
    ensures t.Some? ==> t.value.commands == AddrWindow(r.x0, r.y0, r.x1, r.y1)
    ensures t.Some? ==> |t.value.words| == RectW(r) * RectH(r)
    ensures t.Some? ==> forall k :: 0 <= k < |t.value.words| ==> t.value.words[k] == Swap16(s.value.pixels[k])
    ensures t.Some? ==> Sum(t.value.slabRows) == RectH(r)
    ensures t.Some? ==> forall k :: 0 <= k < |t.value.slabRows| ==> 1 <= t.value.slabRows[k] <= SLAB_ROWS
  {
    if s.None? {
      return None;
    }
    var w, h := RectW(r), RectH(r);
    var rows := Slabs(h);
    var words := PackSlabs(s.value.pixels, w, rows);
    t := Some(Transfer(AddrWindow(r.x0, r.y0, r.x1, r.y1), words, rows));
  }

  /** The slabs packed one after another: their words are the swapped
      pixels of the first `Sum(rows)` rows, in order. */
  method PackSlabs(pixels: seq<u16>, w: int, rows: seq<int>) returns (words: seq<u16>)
    requires 0 <= w && Sum(rows) * w <= |pixels|
    requires forall k :: 0 <= k < |rows| ==> rows[k] >= 1
    ensures |words| == Sum(rows) * w
    ensures forall k :: 0 <= k < |words| ==> words[k] == Swap16(pixels[k])
  {
    words := [];
    var y := 0;
    var n := 0;
    while n < |rows|
      invariant 0 <= n <= |rows| && y == Sum(rows[..n]) && 0 <= y
      invariant |words| == y * w && y * w <= |pixels|
      invariant forall k :: 0 <= k < y * w ==> words[k] == Swap16(pixels[k])
    {
      SumPrefixBound(rows, n);
      MulMono(y + rows[n], Sum(rows), w);
      var slab := PackRows(pixels, w, y, rows[n]);
      AppendSlab(words, slab, pixels, w, y, rows[n]);
      words := words + slab;
      y := y + rows[n];
      n := n + 1;
    }
    assert rows[..n] == rows;
  }

  /** A slab packed from row y onwards continues the words already sent. */
  lemma AppendSlab(words: seq<u16>, slab: seq<u16>, pixels: seq<u16>, w: int, y: int, m: int)
    requires 0 <= w && 0 <= y && 0 <= m && (y + m) * w <= |pixels|
    requires |words| == y * w && forall k :: 0 <= k < y * w ==> words[k] == Swap16(pixels[k])
    requires |slab| == m * w && forall k :: 0 <= k < m * w ==> slab[k] == Swap16(pixels[y * w + k])
    ensures |words + slab| == (y + m) * w
    ensures forall k :: 0 <= k < (y + m) * w ==> (words + slab)[k] == Swap16(pixels[k])
  {
    assert (y + m) * w == y * w + m * w;
    forall k | y * w <= k < (y + m) * w
      ensures (words + slab)[k] == Swap16(pixels[k])
    {
      assert (words + slab)[k] == slab[k - y * w];
    }
  }

  /** The prefix sums of positive row counts stay within the total. */
  lemma {:induction false} SumPrefixBound(rows: seq<int>, n: int)
    requires 0 <= n < |rows|
    requires forall k :: 0 <= k < |rows| ==> rows[k] >= 1
    ensures Sum(rows[..n]) + rows[n] <= Sum(rows)
    ensures Sum(rows[..n + 1]) == Sum(rows[..n]) + rows[n]
    decreases |rows| - n
  {
    assert rows[..n + 1][..n] == rows[..n];
    if n + 1 < |rows| {
      SumPrefixBound(rows, n + 1);
    } else {
      assert rows[..n + 1] == rows;
    }
  }
}

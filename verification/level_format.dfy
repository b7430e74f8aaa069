/** The level binary format as read by the game (src/game/Level.hpp): a 16-byte
    `LevelHeaderV1`, then one 7-byte little-endian column per x, each column
    holding nine 6-bit cells (row y at bits 6y..6y+5) made of a 4-bit shape id
    and a 2-bit modifier id. A `FILE*` is modelled as the byte sequence that
    reading from it would deliver, `None` standing for a null handle. */
module LevelFormat {
  import opened Ints
  import opened Wrappers

  const LEVEL_HEIGHT: nat := 9
  const COLUMN_BYTES: nat := 7
  const HEADER_BYTES: nat := 16
  /** "GVL1" in ASCII. */
  const MAGIC: seq<byte> := [0x47, 0x56, 0x4C, 0x31]

  type Column56 = s: seq<byte> | |s| == 7 witness [0, 0, 0, 0, 0, 0, 0]

  datatype Header = Header(
    magic: seq<byte>,
    version: byte,
    width: u16,
    height: byte,
    startX: byte,
    startY: byte,
    portalDx: int,   // int8, relative to the last column
    portalY: byte,
    endcapW: byte,
    reserved: seq<byte>)

  /** `Column56::to_u64`: the seven bytes OR-ed together at shifts 0, 8, ..., 48.
      The shifted bytes occupy disjoint bit ranges, so the OR is a sum. */
  function ToU64(c: Column56): (r: nat)
    ensures r == LeValue(c)
    ensures r < Pow256(7)
  {
    LeValueOfSeven(c);
    (c[0] as int) + (c[1] as int) * 0x100 + (c[2] as int) * 0x1_0000 + (c[3] as int) * 0x100_0000
      + (c[4] as int) * 0x1_0000_0000 + (c[5] as int) * 0x100_0000_0000 + (c[6] as int) * 0x1_0000_0000_0000
  }

  lemma LeValueOfSeven(c: Column56)
    ensures LeValue(c) == (c[0] as int) + (c[1] as int) * 0x100 + (c[2] as int) * 0x1_0000 + (c[3] as int) * 0x100_0000
      + (c[4] as int) * 0x1_0000_0000 + (c[5] as int) * 0x100_0000_0000 + (c[6] as int) * 0x1_0000_0000_0000
  {
    var s1, s2, s3, s4, s5, s6 := c[1..], c[2..], c[3..], c[4..], c[5..], c[6..];
    assert s1[1..] == s2 && s2[1..] == s3 && s3[1..] == s4 && s4[1..] == s5 && s5[1..] == s6;
    assert s6[1..] == [];
    var v6 := LeValue(s6);
    assert v6 == c[6] as int;
    var v5 := LeValue(s5);
    assert v5 == (c[5] as int) + 0x100 * v6;
    var v4 := LeValue(s4);
    assert v4 == (c[4] as int) + 0x100 * v5;
    var v3 := LeValue(s3);
    assert v3 == (c[3] as int) + 0x100 * v4;
    var v2 := LeValue(s2);
    assert v2 == (c[2] as int) + 0x100 * v3;
    var v1 := LeValue(s1);
    assert v1 == (c[1] as int) + 0x100 * v2;
    assert LeValue(c) == (c[0] as int) + 0x100 * v1;
  }

  /** `Column56::cell6`: bits 6y..6y+5 of the column value, for the nine rows. */
  function Cell6(c: Column56, y: int): (r: nat)
    requires 0 <= y < LEVEL_HEIGHT
    ensures r < 64
  {
    (ToU64(c) / Pow64(y)) % 64
  }

  /** `Column56::shape`: the low four bits of the cell. */
  function Shape(c: Column56, y: int): (r: nat)
    requires 0 <= y < LEVEL_HEIGHT
    ensures r < 16
    ensures Cell6(c, y) == r + 16 * Mod(c, y)
  {
    Cell6(c, y) % 16
  }

  /** `Column56::mod`: bits 4..5 of the cell. */
  function Mod(c: Column56, y: int): (r: nat)
    requires 0 <= y < LEVEL_HEIGHT
    ensures r < 4
  {
    (Cell6(c, y) / 16) % 4
  }

  // ---------------------------------------------------------------------------
  // Header and column reads

  /** The header fields as laid out by the packed struct. */
  function ParseHeader(b: seq<byte>): (h: Header)
    requires |b| >= HEADER_BYTES
    ensures h.width == LeValue(b[5..7])
    ensures -128 <= h.portalDx < 128
  {
    Header(b[0..4], b[4], (b[5] as int) + 0x100 * (b[6] as int), b[7], b[8], b[9], AsInt8(b[10]), b[11], b[12], b[13..16])
  }

  predicate HeaderAccepted(h: Header) {
    h.magic == MAGIC && h.version == 1 && h.height == LEVEL_HEIGHT
  }

  /** `read_header`: fails on a null handle, a short read, a wrong magic, a
      version other than 1 or a height other than 9. */
  function ReadHeader(f: Option<seq<byte>>): (r: Option<Header>)
    ensures r.Some? <==>
      f.Some? && |f.value| >= HEADER_BYTES && f.value[0..4] == MAGIC && f.value[4] == 1 && f.value[7] == LEVEL_HEIGHT
    ensures r.Some? ==> r.value.width == LeValue(f.value[5..7]) && HeaderAccepted(r.value)
  {
    if f.None? || |f.value| < HEADER_BYTES then None
    else
      var h := ParseHeader(f.value);
      if h.magic != MAGIC then None
      else if h.version != 1 then None
      else if h.height != LEVEL_HEIGHT then None
      else Some(h)
  }

  /** Byte offset of column `i`: just after the header, seven bytes per column. */
  function ColumnOffset(i: int): (off: int)
    ensures off >= HEADER_BYTES <==> i >= 0
    ensures (off - HEADER_BYTES) % COLUMN_BYTES == 0 && (off - HEADER_BYTES) / COLUMN_BYTES == i
  {
    HEADER_BYTES + i * COLUMN_BYTES
  }

  /** `read_column`: seek to the column's offset and read exactly seven bytes. */
  function ReadColumn(f: Option<seq<byte>>, i: u16): (r: Option<Column56>)
    ensures r.Some? <==> f.Some? && HEADER_BYTES + COLUMN_BYTES * (i + 1) <= |f.value|
    ensures r.Some? ==> r.value == f.value[HEADER_BYTES + COLUMN_BYTES * i .. HEADER_BYTES + COLUMN_BYTES * (i + 1)]
  {
    if f.None? then None
    else
      var off := ColumnOffset(i);
      if off + COLUMN_BYTES <= |f.value| then Some(f.value[off .. off + COLUMN_BYTES]) else None
  }

  /** `portal_abs_x`: the portal column, given relative to the last column. */
  function PortalAbsX(h: Header): (r: int)
    ensures r - (h.width - 1) == h.portalDx
  {
    h.width - 1 + h.portalDx
  }

  // ---------------------------------------------------------------------------
  // Facts about the decoders

  /** Shape and modifier together recover the whole cell, and are bounded. */
  lemma CellSplits(c: Column56, y: int)
    requires 0 <= y < LEVEL_HEIGHT
    ensures Cell6(c, y) == Shape(c, y) + 16 * Mod(c, y)
    ensures Shape(c, y) <= 15 && Mod(c, y) <= 3
  {
  }

  /** The width field is the little-endian 16-bit value of bytes 5 and 6. */
  lemma HeaderWidthIsLittleEndian(b: seq<byte>)
    requires |b| >= HEADER_BYTES
    ensures ParseHeader(b).width == (b[5] as int) + 256 * (b[6] as int)
  {
    assert b[5..7][1..] == [b[6]];
  }
}

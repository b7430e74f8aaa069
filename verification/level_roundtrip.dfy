/** What the game reads back from a file the editor wrote: the header is
    accepted and carries the level's width, start and portal, and every column
    decodes, cell by cell, to the shape and modifier ids the editor packed. */
module LevelRoundTrip {
  import opened Ints
  import opened Wrappers
  import opened LevelEditor
  import opened LevelExport
  import LevelFormat

  /** ID_SHAPE: the editor's name for a shape id (0 reads as "empty"). */
  function ShapeName(id: nat): string {
    if id == 1 then SQUARE
    else if id == 2 then RIGHT_TRI
    else if id == 3 then HALF_SPIKE
    else if id == 4 then FULL_SPIKE
    else "empty"
  }

  /** The obstacle the game sees in a decoded cell, spelled with the editor's names. */
  function DecodedObstacle(c: LevelFormat.Column56, y: int): Option<Obstacle>
    requires 0 <= y < LevelFormat.LEVEL_HEIGHT
  {
    var s := LevelFormat.Shape(c, y);
    if s == 0 then None else Some(Obstacle(ShapeName(s), MODS[LevelFormat.Mod(c, y)]))
  }

  // ---------------------------------------------------------------------------
  // Arithmetic on the packed column

  lemma DivMulLow(a: nat, b: nat, m: nat)
    requires a < 64 && m > 0
    ensures (a + 64 * b) / (64 * m) == b / m
  {
    var q, r := b / m, b % m;
    assert b == m * q + r;
    assert a + 64 * b == (64 * m) * q + (64 * r + a);
    DivUnique(a + 64 * b, 64 * m, q, 64 * r + a);
  }

  /** Row y of a packed column is its y-th base-64 digit. */
  lemma {:induction false} PackedRowDigit(lv: Level, x: int, j: nat, y: nat)
    requires j <= y < GRID_H
    ensures (PackRows(lv, x, j) / Pow64(y - j)) % 64 == Cell6Of(EffectiveObstacleAt(lv, x, y))
    decreases y - j
  {
    var c := Cell6Of(EffectiveObstacleAt(lv, x, j));
    var rest := PackRows(lv, x, j + 1);
    assert PackRows(lv, x, j) == c + 64 * rest;
    if j == y {
      LowDigit(c, rest);
    } else {
      HigherDigit(c, rest, y - (j + 1));
      PackedRowDigit(lv, x, j + 1, y);
    }
  }

  /** The lowest base-64 digit of `c + 64 * rest` is `c`. */
  lemma LowDigit(c: nat, rest: nat)
    requires c < 64
    ensures ((c + 64 * rest) / Pow64(0)) % 64 == c
  {
    DivUnique(c + 64 * rest, 64, rest, c);
  }

  /** Digit k + 1 of `c + 64 * rest` is digit k of `rest`. */
  lemma HigherDigit(c: nat, rest: nat, k: nat)
    requires c < 64
    ensures ((c + 64 * rest) / Pow64(k + 1)) % 64 == (rest / Pow64(k)) % 64
  {
    assert Pow64(k + 1) == 64 * Pow64(k);
    DivMulLow(c, rest, Pow64(k));
  }

  /** The seven bytes written for a column read back, through `to_u64`, as the
      column value, and each of its cells as the ids packed for that row. */
  lemma ColumnCellDecodes(lv: Level, x: int, y: int)
    requires 0 <= y < GRID_H
    ensures
      var c: LevelFormat.Column56 := LeBytes(PackColumn(lv, x), 7);
      && LevelFormat.ToU64(c) == PackColumn(lv, x)
      && LevelFormat.Shape(c, y) == CellIds(EffectiveObstacleAt(lv, x, y)).0
      && LevelFormat.Mod(c, y) == CellIds(EffectiveObstacleAt(lv, x, y)).1
  {
    var col := PackColumn(lv, x);
    assert Pow64(GRID_H) < Pow256(7) by {
      assert Pow64(GRID_H) == 0x40_0000_0000_0000;
      assert Pow256(7) == 0x100_0000_0000_0000;
    }
    LeValueOfLeBytes(col, 7);
    PackedRowDigit(lv, x, 0, y);
  }

  /** Column x sits at bytes 7x..7x+6 of the column area. */
  lemma {:induction false} EncodeColumnsSlice(cols: seq<nat>, x: nat)
    requires x < |cols|
    ensures EncodeColumns(cols)[7 * x .. 7 * x + 7] == LeBytes(cols[x], 7)
  {
    var a := LeBytes(cols[0], 7);
    var b := EncodeColumns(cols[1..]);
    assert EncodeColumns(cols) == a + b;
    if x > 0 {
      EncodeColumnsSlice(cols[1..], x - 1);
      assert (a + b)[7 * x .. 7 * x + 7] == b[7 * (x - 1) .. 7 * (x - 1) + 7];
    }
  }

  // ---------------------------------------------------------------------------
  // The round trips

  /** A header built from a level whose width fits 16 bits is accepted, and
      its fields read back as the width, the start's low bytes and the portal. */
  lemma HeaderFieldsReadBack(s: Level, rest: seq<byte>)
    requires 0 <= s.width < 0x1_0000
    ensures
      var h := LevelFormat.ReadHeader(Some(HeaderBytes(s) + rest));
      && h.Some?
      && h.value.width == s.width
      && h.value.startX == LowByte(s.start.0) && h.value.startY == LowByte(s.start.1)
      && LevelFormat.PortalAbsX(h.value) == PortalAbs(s).0
      && h.value.portalY == PortalAbs(s).1
      && h.value.endcapW == ENDCAP_W
  {
    var b := HeaderBytes(s) + rest;
    var hb := HeaderBytes(s);
    assert b[..16] == hb;
    assert hb[0..4] == LevelExport.MAGIC_BYTES;
    LeValueOfLeBytes(s.width, 2);
    assert b[5..7] == hb[5..7] == LeBytes(s.width, 2);
    assert hb[10] == LowByte(PORTAL_DX) == 0xFD;
  }

  /** A start of a clamped level whose column is below 256 survives its low byte. */
  lemma ClampedStartFitsBytes(s: Level)
    requires StartClamped(s) && s.start.0 < 0x100
    ensures LowByte(s.start.0) == s.start.0 && LowByte(s.start.1) == s.start.1
  {
  }

  /** The header written by the editor is accepted by `read_header` and carries
      the width, the (clamped) start and the portal column; the start column
      comes back exactly because the corrected export refuses one above 255. */
  lemma HeaderRoundTrip(lv: Level)
    requires WriteBin(lv).out.Success?
    ensures
      var w := WriteBin(lv);
      var h := LevelFormat.ReadHeader(Some(w.out.value));
      && h.Some?
      && h.value.width == lv.width
      && h.value.startX == w.level.start.0 && h.value.startY == w.level.start.1
      && LevelFormat.PortalAbsX(h.value) == PortalAbs(w.level).0
      && h.value.portalY == PortalAbs(w.level).1
      && h.value.endcapW == ENDCAP_W
  {
    var w := WriteBin(lv);
    var s := w.level;
    var cols := EncodeColumns(ColumnValues(s, s.width));
    assert w.out.value == HeaderBytes(s) + cols;
    HeaderFieldsReadBack(s, cols);
    ClampedStartFitsBytes(s);
  }

  /** With a 16-byte header in front, column x occupies bytes 16 + 7x .. 16 + 7x + 6. */
  lemma EncodedColumnAt(hdr: seq<byte>, cols: seq<nat>, x: nat)
    requires |hdr| == 16 && x < |cols|
    ensures |hdr + EncodeColumns(cols)| == 16 + 7 * |cols|
    ensures (hdr + EncodeColumns(cols))[16 + 7 * x .. 16 + 7 * x + 7] == LeBytes(cols[x], 7)
  {
    EncodeColumnsSlice(cols, x);
    SliceAfterPrefix(hdr, EncodeColumns(cols), 7 * x, 7 * x + 7);
  }

  /** `read_column` finds column x of the column area behind a 16-byte header. */
  lemma ReadColumnOfEncoded(hdr: seq<byte>, cols: seq<nat>, x: int)
    requires |hdr| == LevelFormat.HEADER_BYTES && 0 <= x < |cols| && x < 0x1_0000
    ensures LevelFormat.ReadColumn(Some(hdr + EncodeColumns(cols)), x) == Some(LeBytes(cols[x], 7))
  {
    var f := hdr + EncodeColumns(cols);
    EncodedColumnAt(hdr, cols, x);
    ReadColumnAt(f, x, LeBytes(cols[x], 7));
  }

  lemma ReadColumnAt(f: seq<byte>, x: int, c: seq<byte>)
    requires 0 <= x < 0x1_0000 && 16 + 7 * x + 7 <= |f| && f[16 + 7 * x .. 16 + 7 * x + 7] == c
    ensures |c| == 7 && LevelFormat.ReadColumn(Some(f), x) == Some(c)
  {
    assert LevelFormat.HEADER_BYTES + LevelFormat.COLUMN_BYTES * (x + 1) == 16 + 7 * x + 7;
  }

  lemma SliceAfterPrefix<T>(a: seq<T>, b: seq<T>, i: nat, j: nat)
    requires i <= j <= |b|
    ensures (a + b)[|a| + i .. |a| + j] == b[i..j]
  {
  }

  /** Every column the editor wrote is found by `read_column` at offset 16 + 7x
      and decodes, cell by cell, to the ids packed for the effective obstacle. */
  lemma ColumnRoundTrip(lv: Level, x: int, y: int)
    requires WriteBinAsWritten(lv).out.Success?
    requires 0 <= x < lv.width && 0 <= y < GRID_H
    ensures
      var w := WriteBinAsWritten(lv);
      var col := LevelFormat.ReadColumn(Some(w.out.value), x);
      && col.Some?
      && LevelFormat.Shape(col.value, y) == CellIds(EffectiveObstacleAt(w.level, x, y)).0
      && LevelFormat.Mod(col.value, y) == CellIds(EffectiveObstacleAt(w.level, x, y)).1
  {
    var w := WriteBinAsWritten(lv);
    var s := w.level;
    var cols := ColumnValues(s, s.width);
    assert w.out.value == HeaderBytes(s) + EncodeColumns(cols);
    ReadColumnOfEncoded(HeaderBytes(s), cols, x);
    assert cols[x] == PackColumn(s, x);
    ColumnCellDecodes(s, x, y);
  }

  /** For obstacles in the editor's normal form (every obstacle loaded from JSON,
      and every endcap obstacle), the game decodes exactly the obstacle the
      editor shows; an empty cell decodes as empty. */
  lemma ObstacleRoundTrip(lv: Level, x: int, y: int)
    requires WriteBinAsWritten(lv).out.Success?
    requires 0 <= x < lv.width && 0 <= y < GRID_H
    requires var e := EffectiveObstacleAt(WriteBinAsWritten(lv).level, x, y); e.Some? ==> Normalised(e.value)
    ensures
      var w := WriteBinAsWritten(lv);
      var col := LevelFormat.ReadColumn(Some(w.out.value), x);
      && col.Some?
      && DecodedObstacle(col.value, y) == EffectiveObstacleAt(w.level, x, y)
  {
    ColumnRoundTrip(lv, x, y);
    var w := WriteBinAsWritten(lv);
    var col := LevelFormat.ReadColumn(Some(w.out.value), x).value;
    DecodesNormalised(EffectiveObstacleAt(w.level, x, y), LevelFormat.Shape(col, y), LevelFormat.Mod(col, y));
  }

  /** The ids written for a normalised obstacle name it again. */
  lemma DecodesNormalised(e: Option<Obstacle>, shape: nat, mod: nat)
    requires e.Some? ==> Normalised(e.value)
    requires shape == CellIds(e).0 && mod == CellIds(e).1
    ensures (if shape == 0 then None else Some(Obstacle(ShapeName(shape), MODS[mod]))) == e
  {
  }

  // ---------------------------------------------------------------------------
  // The start column as the editor writes it

  /** As written, `write_bin` keeps only the low byte of the start column: the
      game reads the start column back modulo 256, so any start column from
      256 on comes back wrong. */
  lemma StartColumnTruncatedAsWritten(lv: Level)
    requires 0 <= lv.width < 0x1_0000
    ensures WriteBinAsWritten(lv).out.Success?
    ensures
      var w := WriteBinAsWritten(lv);
      var h := LevelFormat.ReadHeader(Some(w.out.value));
      && h.Some?
      && h.value.startX == w.level.start.0 % 0x100
      && (w.level.start.0 >= 0x100 ==> h.value.startX != w.level.start.0)
  {
    var w := WriteBinAsWritten(lv);
    var s := w.level;
    var cols := EncodeColumns(ColumnValues(s, s.width));
    assert w.out.value == HeaderBytes(s) + cols;
    HeaderFieldsReadBack(s, cols);
  }

  /** Such a start exists at the default width: a new level's start moved to
      column 300 is kept by the clamping `write_bin` applies, and is then read
      back as column 44. */
  lemma DefaultWidthStartBeyondByte()
    ensures StripEndcapFromAuthored(Level(DEFAULT_W, (300, 4), map[])).start == (300, 4)
    ensures 300 % 0x100 == 44
  {
    assert StartSelectable(Level(DEFAULT_W, (300, 4), map[]), 300, 4);
  }
}

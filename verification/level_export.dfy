/** The editor's binary export, `Level.write_bin`
    (tools/level_editor/level_editor.py): the level is first cleaned with
    `strip_endcap_from_authored`, then a 16-byte header and one 7-byte
    little-endian column per x are produced, each column packing the nine
    effective cells as `shape_id | mod_id << 4` at bit 6y. Opening and writing
    the file is not modelled: the result is the byte string written. */
module LevelExport {
  import opened Ints
  import opened Wrappers
  import opened LevelEditor

  const MAGIC_BYTES: seq<byte> := [0x47, 0x56, 0x4C, 0x31]   // b"GVL1"
  const VERSION: byte := 1

  /** The outcome of `write_bin`: the level as the call leaves it (it strips the
      endcap from the authored cells even when it then fails) and either the
      bytes written or the exception raised. */
  datatype BinWrite = BinWrite(level: Level, out: Result<seq<byte>, string>)

  /** `SHAPE_ID.get(shape, 0)`. */
  function ShapeId(shape: string): (id: nat)
    ensures id <= 4
    ensures id == 0 <==> shape !in SHAPES
  {
    if shape == SQUARE then 1
    else if shape == RIGHT_TRI then 2
    else if shape == HALF_SPIKE then 3
    else if shape == FULL_SPIKE then 4
    else 0
  }

  /** `MOD_ID.get(mod, 0)`. */
  function ModId(mod: string): (id: nat)
    ensures id <= 3
    ensures mod in MODS ==> MODS[id] == mod
  {
    if mod == MOD_ROT_L then 1
    else if mod == MOD_ROT_R then 2
    else if mod == MOD_INVERT then 3
    else 0
  }

  /** The shape and modifier ids written for a cell: zeros for an empty cell,
      and a zero modifier for shapes that take none. */
  function CellIds(obs: Option<Obstacle>): (ids: (nat, nat))
    ensures ids.0 < 16 && ids.1 < 4
    ensures obs.None? ==> ids == (0, 0)
    ensures obs.Some? ==> ids.0 == ShapeId(obs.value.shape)
    ensures obs.Some? && !IsModShape(obs.value.shape) ==> ids.1 == 0
    ensures obs.Some? && IsModShape(obs.value.shape) ==> ids.1 == ModId(obs.value.mod)
  {
    match obs
    case None => (0, 0)
    case Some(o) => (ShapeId(o.shape), if IsModShape(o.shape) then ModId(o.mod) else 0)
  }

  /** `cell6 = (shape_id & 0xF) | ((mod_id & 0x3) << 4)`: the two fields sit in
      disjoint bits, so the OR is a sum. */
  function Cell6Of(obs: Option<Obstacle>): (c: nat)
    ensures c < 64
    ensures c % 16 == CellIds(obs).0 && (c / 16) % 4 == CellIds(obs).1
  {
    var ids := CellIds(obs);
    ids.0 + 16 * ids.1
  }

  /** Rows y..8 of column x, row y in the lowest six bits (the `col |= ...`
      loop read from the top row down). */
  function PackRows(lv: Level, x: int, y: nat): (col: nat)
    requires y <= GRID_H
    ensures col < Pow64(GRID_H - y)
    decreases GRID_H - y
  {
    if y == GRID_H then 0
    else
      var rest := PackRows(lv, x, y + 1);
      Cell6Of(EffectiveObstacleAt(lv, x, y)) + 64 * rest
  }

  /** The 54-bit column value of column x (the top two of the 56 bits stay 0). */
  function PackColumn(lv: Level, x: int): (col: nat)
    ensures col < Pow64(GRID_H)
  {
    PackRows(lv, x, 0)
  }

  /** The sixteen header bytes; `width` must fit two unsigned bytes. The
      layout: magic at 0..3, version at 4, the width little-endian at 5..6,
      the height at 7, the start's low bytes at 8..9, the portal offset,
      portal row and endcap width at 10..12, and three zero bytes. */
  function HeaderBytes(lv: Level): (h: seq<byte>)
    requires 0 <= lv.width < 0x1_0000
    ensures |h| == 16
    ensures h[0..4] == MAGIC_BYTES && h[4] == VERSION && h[7] == GRID_H
    ensures h[5] as int + 0x100 * h[6] as int == lv.width
    ensures h[8] == LowByte(lv.start.0) && h[9] == LowByte(lv.start.1)
    ensures AsInt8(h[10]) == PORTAL_DX && h[11] == PORTAL_Y && h[12] == ENDCAP_W
    ensures h[13..] == [0, 0, 0]
  {
    TwoLeBytes(lv.width);
    MAGIC_BYTES + [VERSION] + LeBytes(lv.width, 2) + [GRID_H as byte]
      + [LowByte(lv.start.0), LowByte(lv.start.1)]
      + [LowByte(PORTAL_DX), LowByte(PORTAL_Y), LowByte(ENDCAP_W)]
      + [0, 0, 0]
  }

  /** The two little-endian bytes of a 16-bit value recombine to it. */
  lemma TwoLeBytes(v: nat)
    requires v < 0x1_0000
    ensures LeBytes(v, 2)[0] as int + 0x100 * LeBytes(v, 2)[1] as int == v
  {
    assert LeBytes(v, 2) == [v % 0x100, (v / 0x100) % 0x100];
  }

  /** The packed values of columns 0..n-1. */
  function ColumnValues(lv: Level, n: nat): (cols: seq<nat>)
    ensures |cols| == n
  {
    seq(n, x => PackColumn(lv, x))
  }

  /** The column area: seven little-endian bytes per column value, in order. */
  function EncodeColumns(cols: seq<nat>): (s: seq<byte>)
    ensures |s| == 7 * |cols|
  {
    if |cols| == 0 then [] else LeBytes(cols[0], 7) + EncodeColumns(cols[1..])
  }

  /** `write_bin` as written: the width must fit an unsigned 16-bit field (else
      `int.to_bytes` raises), and the start column is stored as `sx & 0xFF`. */
  function WriteBinAsWritten(lv: Level): (r: BinWrite)
    ensures r.level == StripEndcapFromAuthored(lv)
    ensures r.out.Success? <==> 0 <= lv.width < 0x1_0000
    ensures r.out.Success? ==> |r.out.value| == 16 + 7 * lv.width
  {
    var s := StripEndcapFromAuthored(lv);
    if s.width < 0 || s.width >= 0x1_0000 then BinWrite(s, Failure("OverflowError"))
    else BinWrite(s, Success(HeaderBytes(s) + EncodeColumns(ColumnValues(s, s.width))))
  }

  /** `write_bin` with the start column checked: a start column the one-byte
      header field cannot hold is refused instead of being stored modulo 256. */
  function WriteBin(lv: Level): (r: BinWrite)
    ensures r.level == StripEndcapFromAuthored(lv)
    ensures r.out.Success? <==> 0 <= lv.width < 0x1_0000 && r.level.start.0 < 0x100
    ensures r.out.Success? ==> r.out == WriteBinAsWritten(lv).out
  {
    var s := StripEndcapFromAuthored(lv);
    if s.width < 0 || s.width >= 0x1_0000 then BinWrite(s, Failure("OverflowError"))
    else if s.start.0 >= 0x100 then BinWrite(s, Failure("ValueError"))
    else BinWrite(s, Success(HeaderBytes(s) + EncodeColumns(ColumnValues(s, s.width))))
  }
}

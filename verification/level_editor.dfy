/** The level editor's data model (tools/level_editor/level_editor.py, class
    `Level` and its helpers): a grid nine cells high and `width` columns wide,
    authored obstacles keyed by cell, a start cell, and a fixed six-column
    "endcap" at the right edge that the editor locks and overlays from a
    constant table. Obstacle keys, which the editor spells as "x,y" strings,
    are pairs here; the height is the constant 9 because the editor refuses to
    build a level of any other height. */
module LevelEditor {
  import opened Ints
  import opened Wrappers

  const GRID_H: int := 9
  const DEFAULT_W: int := 332
  const ENDCAP_W: int := 6

  const SQUARE: string := "square"
  const RIGHT_TRI: string := "right_tri"
  const HALF_SPIKE: string := "half_spike"
  const FULL_SPIKE: string := "full_spike"
  const SHAPES: seq<string> := [SQUARE, RIGHT_TRI, HALF_SPIKE, FULL_SPIKE]

  const MOD_NONE: string := "none"
  const MOD_ROT_L: string := "rot_left"
  const MOD_ROT_R: string := "rot_right"
  const MOD_INVERT: string := "invert"
  const MODS: seq<string> := [MOD_NONE, MOD_ROT_L, MOD_ROT_R, MOD_INVERT]

  /** Shapes for which a modifier is meaningful. */
  predicate IsModShape(shape: string) {
    shape == RIGHT_TRI || shape == HALF_SPIKE || shape == FULL_SPIKE
  }

  datatype Obstacle = Obstacle(shape: string, mod: string)

  /** An obstacle as a JSON object: its optional "shape" and "mod" members. */
  datatype ObstacleObj = ObstacleObj(shape: Option<string>, mod: Option<string>)

  /** The normal form every obstacle loaded from JSON is in. */
  predicate Normalised(o: Obstacle) {
    o.shape in SHAPES && o.mod in MODS && (!IsModShape(o.shape) ==> o.mod == MOD_NONE)
  }

  /** `Obstacle.to_obj`: the "mod" member is written only when it is not "none". */
  function ToObj(o: Obstacle): (r: ObstacleObj)
    ensures r.shape == Some(o.shape)
    ensures r.mod.Some? <==> o.mod != MOD_NONE
  {
    ObstacleObj(Some(o.shape), if o.mod != MOD_NONE then Some(o.mod) else None)
  }

  /** `Obstacle.from_obj`: a missing or unknown shape becomes "square", a
      missing or unknown modifier becomes "none", and a shape that takes no
      modifier always gets "none". */
  function FromObj(obj: ObstacleObj): (r: Obstacle)
    ensures Normalised(r)
    ensures obj.shape.Some? && obj.shape.value in SHAPES ==> r.shape == obj.shape.value
    ensures obj.shape.None? || obj.shape.value !in SHAPES ==> r.shape == SQUARE
    ensures IsModShape(r.shape) && obj.mod.Some? && obj.mod.value in MODS ==> r.mod == obj.mod.value
    ensures obj.mod.None? || obj.mod.value !in MODS ==> r.mod == MOD_NONE
  {
    var shape := obj.shape.GetOr(SQUARE);
    var mod := obj.mod.GetOr(MOD_NONE);
    var shape := if shape !in SHAPES then SQUARE else shape;
    var mod := if mod !in MODS then MOD_NONE else mod;
    var mod := if !IsModShape(shape) then MOD_NONE else mod;
    Obstacle(shape, mod)
  }

  // ---------------------------------------------------------------------------
  // The level

  datatype Level = Level(width: int, start: (int, int), obstacles: map<(int, int), Obstacle>)

  /** `Level(width)`: start at (0, 4), no obstacles. */
  function NewLevel(width: int): (lv: Level)
    ensures lv.width == width && lv.start == (0, 4) && lv.obstacles == map[]
  {
    Level(width, (0, 4), map[])
  }

  predicate InBounds(lv: Level, x: int, y: int) {
    0 <= x < lv.width && 0 <= y < GRID_H
  }

  /** First column of the locked endcap: the last six columns, or all of a
      level narrower than that. */
  function EndcapX0(lv: Level): (r: int)
    ensures r >= 0
    ensures lv.width >= ENDCAP_W ==> lv.width - r == ENDCAP_W
    ensures lv.width < ENDCAP_W ==> r == 0
  {
    if lv.width - ENDCAP_W > 0 then lv.width - ENDCAP_W else 0
  }

  predicate InEndcap(lv: Level, x: int) {
    x >= EndcapX0(lv)
  }

  function Max(a: int, b: int): int { if a < b then b else a }
  function Min(a: int, b: int): int { if a < b then a else b }

  /** Where `clamp_start` leaves the start cell: a column of the level (column
      0 even when the level has no columns), a row of the grid, and left of the
      endcap whenever the level is wider than the endcap. */
  predicate StartClamped(lv: Level) {
    && 0 <= lv.start.0 < Max(1, lv.width)
    && 0 <= lv.start.1 < GRID_H
    && (lv.width > ENDCAP_W ==> lv.start.0 < EndcapX0(lv))
  }

  /** A start the editor lets the user pick with `set_start`. */
  predicate StartSelectable(lv: Level, x: int, y: int) {
    InBounds(lv, x, y) && !InEndcap(lv, x)
  }

  /** `clamp_start`. */
  function ClampStart(lv: Level): (r: Level)
    ensures r.width == lv.width && r.obstacles == lv.obstacles
    ensures StartClamped(r)
    ensures StartSelectable(lv, lv.start.0, lv.start.1) ==> r.start == lv.start
    // The row: kept inside the grid, otherwise moved to the nearer edge row.
    ensures 0 <= lv.start.1 < GRID_H ==> r.start.1 == lv.start.1
    ensures lv.start.1 < 0 ==> r.start.1 == 0
    ensures lv.start.1 >= GRID_H ==> r.start.1 == GRID_H - 1
    // The column: a level no wider than the endcap starts in column 0; in a
    // wider one a column left of the level goes to 0, a column left of the
    // endcap is kept, and one in or past the endcap goes just left of it.
    ensures lv.width <= ENDCAP_W ==> r.start.0 == 0
    ensures lv.width > ENDCAP_W && lv.start.0 < 0 ==> r.start.0 == 0
    ensures lv.width > ENDCAP_W && 0 <= lv.start.0 < EndcapX0(lv) ==> r.start.0 == lv.start.0
    ensures lv.width > ENDCAP_W && lv.start.0 >= EndcapX0(lv) ==> r.start.0 == EndcapX0(lv) - 1
  {
    var sx := Min(Max(0, lv.start.0), Max(0, lv.width - 1));
    var sy := Min(Max(0, lv.start.1), GRID_H - 1);
    var sx := if InEndcap(lv, sx) then Max(0, EndcapX0(lv) - 1) else sx;
    lv.(start := (sx, sy))
  }

  lemma {:induction false} ClampStartIdempotent(lv: Level)
    ensures ClampStart(ClampStart(lv)) == ClampStart(lv)
  {
    var c := ClampStart(lv);
    if lv.width > ENDCAP_W {
      assert StartSelectable(c, c.start.0, c.start.1);
    } else {
      assert c.start.0 == 0;
    }
  }

  /** A start past the endcap of a 332-column level moves to column 325. */
  lemma ClampStartPastEndcap()
    ensures ClampStart(Level(332, (400, 2), map[])).start == (325, 2)
  {
  }

  /** `resize_width`: the width becomes at least 1, obstacles right of the new
      width are dropped, the others are kept, and the start is clamped. */
  function ResizeWidth(lv: Level, n: int): (r: Level)
    ensures r.width == Max(1, n)
    ensures forall k :: k in r.obstacles <==> k in lv.obstacles && k.0 < r.width
    ensures forall k :: k in r.obstacles ==> r.obstacles[k] == lv.obstacles[k]
    ensures StartClamped(r)
    ensures StartSelectable(r, lv.start.0, lv.start.1) ==> r.start == lv.start
    ensures r.start == ClampStart(lv.(width := r.width)).start
  {
    var w := if n < 1 then 1 else n;
    var kept := map k | k in lv.obstacles && k.0 < w :: lv.obstacles[k];
    ClampStart(Level(w, lv.start, kept))
  }

  /** `set_start`: only a cell inside the level and left of the endcap is accepted. */
  function SetStart(lv: Level, x: int, y: int): (r: Level)
    ensures r.width == lv.width && r.obstacles == lv.obstacles
    ensures r.start == (if StartSelectable(lv, x, y) then (x, y) else lv.start)
  {
    if InBounds(lv, x, y) && !InEndcap(lv, x) then lv.(start := (x, y)) else lv
  }

  /** `get_obstacle`. */
  function GetObstacle(lv: Level, x: int, y: int): Option<Obstacle> {
    if (x, y) in lv.obstacles then Some(lv.obstacles[(x, y)]) else None
  }

  /** The cell may be edited: inside the level and outside the locked endcap. */
  predicate Editable(lv: Level, x: int, y: int) {
    InBounds(lv, x, y) && !InEndcap(lv, x)
  }

  /** Every cell other than (x, y) holds what it held before. */
  ghost predicate OthersUnchanged(a: Level, b: Level, x: int, y: int) {
    forall k :: k != (x, y) ==>
      (k in a.obstacles <==> k in b.obstacles) && (k in a.obstacles ==> a.obstacles[k] == b.obstacles[k])
  }

  /** `set_obstacle`: a no-op outside the level or inside the endcap; otherwise
      the cell gets `obs` (`None` removes it) and nothing else changes. */
  function SetObstacle(lv: Level, x: int, y: int, obs: Option<Obstacle>): (r: Level)
    ensures !Editable(lv, x, y) ==> r == lv
    ensures Editable(lv, x, y) ==> GetObstacle(r, x, y) == obs
    ensures r.width == lv.width && r.start == lv.start
    ensures OthersUnchanged(lv, r, x, y)
  {
    if !InBounds(lv, x, y) then lv
    else if InEndcap(lv, x) then lv
    else if obs.None? then lv.(obstacles := lv.obstacles - {(x, y)})
    else lv.(obstacles := lv.obstacles[(x, y) := obs.value])
  }

  /** `clear_cell`: the same guards as `set_obstacle`, then the cell is emptied. */
  function ClearCell(lv: Level, x: int, y: int): (r: Level)
    ensures !Editable(lv, x, y) ==> r == lv
    ensures Editable(lv, x, y) ==> GetObstacle(r, x, y) == None
    ensures r.width == lv.width && r.start == lv.start
    ensures OthersUnchanged(lv, r, x, y)
  {
    if !InBounds(lv, x, y) then lv
    else if InEndcap(lv, x) then lv
    else lv.(obstacles := lv.obstacles - {(x, y)})
  }

  lemma ClearCellIsSetNone(lv: Level, x: int, y: int)
    ensures ClearCell(lv, x, y) == SetObstacle(lv, x, y, None)
  {
  }

  /** `strip_endcap_from_authored`: authored obstacles inside the endcap are
      dropped, the others kept, and the start is clamped. */
  function StripEndcapFromAuthored(lv: Level): (r: Level)
    ensures r.width == lv.width
    ensures forall k :: k in r.obstacles <==> k in lv.obstacles && k.0 < EndcapX0(lv)
    ensures forall k :: k in r.obstacles ==> r.obstacles[k] == lv.obstacles[k]
    ensures StartClamped(r)
    ensures StartSelectable(lv, lv.start.0, lv.start.1) ==> r.start == lv.start
    ensures r.start == ClampStart(lv).start
  {
    var x0 := EndcapX0(lv);
    var kept := map k | k in lv.obstacles && k.0 < x0 :: lv.obstacles[k];
    ClampStart(lv.(obstacles := kept))
  }

  lemma StripEndcapIdempotent(lv: Level)
    ensures StripEndcapFromAuthored(StripEndcapFromAuthored(lv)) == StripEndcapFromAuthored(lv)
  {
    var s := StripEndcapFromAuthored(lv);
    var s2 := StripEndcapFromAuthored(s);
    assert s2.obstacles == s.obstacles;
    var kept := map k | k in lv.obstacles && k.0 < EndcapX0(lv) :: lv.obstacles[k];
    ClampStartIdempotent(lv.(obstacles := kept));
  }

  // ---------------------------------------------------------------------------
  // The endcap overlay

  /** One `ENDCAP_OBS` entry: a cell given relative to the last column. */
  datatype EndcapEntry = EndcapEntry(dx: int, y: int, shape: string, mod: Option<string>)

  function E(dx: int, y: int, shape: string): EndcapEntry { EndcapEntry(dx, y, shape, None) }
  function ERotL(dx: int, y: int): EndcapEntry { EndcapEntry(dx, y, RIGHT_TRI, Some(MOD_ROT_L)) }

  const ENDCAP_OBS: seq<EndcapEntry> := [
    ERotL(-5, 0), E(-4, 0, SQUARE), E(-3, 0, SQUARE), E(-2, 0, SQUARE), E(-1, 0, SQUARE), E(0, 0, SQUARE),
    ERotL(-4, 1), E(-3, 1, SQUARE), E(-2, 1, SQUARE), E(-1, 1, SQUARE), E(0, 1, SQUARE),
    ERotL(-3, 2), E(-2, 2, SQUARE), E(-1, 2, SQUARE), E(0, 2, SQUARE),
    E(-2, 3, SQUARE), E(-1, 3, SQUARE), E(0, 3, SQUARE),
    E(-2, 4, SQUARE), E(-1, 4, SQUARE), E(0, 4, SQUARE),
    E(-2, 5, SQUARE), E(-1, 5, SQUARE), E(0, 5, SQUARE),
    E(-3, 6, RIGHT_TRI), E(-2, 6, SQUARE), E(-1, 6, SQUARE), E(0, 6, SQUARE),
    E(-4, 7, RIGHT_TRI), E(-3, 7, SQUARE), E(-2, 7, SQUARE), E(-1, 7, SQUARE), E(0, 7, SQUARE),
    E(-5, 8, RIGHT_TRI), E(-4, 8, SQUARE), E(-3, 8, SQUARE), E(-2, 8, SQUARE), E(-1, 8, SQUARE), E(0, 8, SQUARE)
  ]

  /** The portal, relative to the last column. */
  const PORTAL_DX: int := -3
  const PORTAL_Y: int := 4

  function EntryObstacle(e: EndcapEntry): Obstacle {
    FromObj(ObstacleObj(Some(e.shape), e.mod))
  }

  predicate EntryAt(e: EndcapEntry, dx: int, y: int) {
    e.dx == dx && e.y == y
  }

  /** The loop over `ENDCAP_OBS` in `effective_obstacle_at`: the first entry at
      (dx, y), normalised by `from_obj`. */
  function FindEndcap(entries: seq<EndcapEntry>, dx: int, y: int): (r: Option<Obstacle>)
    ensures r.None? <==> forall k :: 0 <= k < |entries| ==> !EntryAt(entries[k], dx, y)
    ensures r.Some? ==> exists k :: 0 <= k < |entries| && EntryAt(entries[k], dx, y) && r.value == EntryObstacle(entries[k])
    ensures r.Some? ==> Normalised(r.value)
  {
    if |entries| == 0 then None
    else if EntryAt(entries[0], dx, y) then Some(EntryObstacle(entries[0]))
    else
      var r := FindEndcap(entries[1..], dx, y);
      assert forall k :: 1 <= k < |entries| ==> entries[k] == entries[1..][k - 1];
      r
  }

  /** `effective_obstacle_at`: the authored obstacle if there is one; else, in
      the endcap, the table entry at dx = x - (width - 1); else nothing. */
  function EffectiveObstacleAt(lv: Level, x: int, y: int): (r: Option<Obstacle>)
    ensures (x, y) in lv.obstacles ==> r == Some(lv.obstacles[(x, y)])
    ensures (x, y) !in lv.obstacles && !InEndcap(lv, x) ==> r.None?
    ensures (x, y) !in lv.obstacles && InEndcap(lv, x) ==>
      (r.None? <==> forall k :: 0 <= k < |ENDCAP_OBS| ==> !EntryAt(ENDCAP_OBS[k], x - (lv.width - 1), y))
    ensures (x, y) !in lv.obstacles && r.Some? ==>
      exists k :: 0 <= k < |ENDCAP_OBS| && EntryAt(ENDCAP_OBS[k], x - (lv.width - 1), y) && r.value == EntryObstacle(ENDCAP_OBS[k])
  {
    var obs := GetObstacle(lv, x, y);
    if obs.Some? then obs
    else
      var last := lv.width - 1;
      if x >= EndcapX0(lv) then FindEndcap(ENDCAP_OBS, x - last, y)
      else None
  }

  /** Every cell of the last column belongs to the endcap wall: a plain square. */
  lemma EndcapLastColumnIsSquare(lv: Level, y: int)
    requires lv.width >= 1 && 0 <= y < GRID_H
    requires (lv.width - 1, y) !in lv.obstacles
    ensures EffectiveObstacleAt(lv, lv.width - 1, y) == Some(Obstacle(SQUARE, MOD_NONE))
  {
    var r := EffectiveObstacleAt(lv, lv.width - 1, y);
    LastColumnEntryExists(y);
    assert r.Some?;
    var k :| 0 <= k < |ENDCAP_OBS| && EntryAt(ENDCAP_OBS[k], 0, y) && r.value == EntryObstacle(ENDCAP_OBS[k]);
    LastColumnEntriesAreSquares();
  }

  /** The endcap table has an entry in the last column on every row. */
  lemma LastColumnEntryExists(y: int)
    requires 0 <= y < GRID_H
    ensures exists k :: 0 <= k < |ENDCAP_OBS| && EntryAt(ENDCAP_OBS[k], 0, y)
  {
    if y == 0 { assert EntryAt(ENDCAP_OBS[5], 0, y); }
    else if y == 1 { assert EntryAt(ENDCAP_OBS[10], 0, y); }
    else if y == 2 { assert EntryAt(ENDCAP_OBS[14], 0, y); }
    else if y == 3 { assert EntryAt(ENDCAP_OBS[17], 0, y); }
    else if y == 4 { assert EntryAt(ENDCAP_OBS[20], 0, y); }
    else if y == 5 { assert EntryAt(ENDCAP_OBS[23], 0, y); }
    else if y == 6 { assert EntryAt(ENDCAP_OBS[27], 0, y); }
    else if y == 7 { assert EntryAt(ENDCAP_OBS[32], 0, y); }
    else { assert EntryAt(ENDCAP_OBS[38], 0, y); }
  }

  lemma LastColumnEntriesAreSquares()
    ensures forall j :: 0 <= j < |ENDCAP_OBS| && ENDCAP_OBS[j].dx == 0 ==> EntryObstacle(ENDCAP_OBS[j]) == Obstacle(SQUARE, MOD_NONE)
  {
    forall j | 0 <= j < |ENDCAP_OBS| && ENDCAP_OBS[j].dx == 0
      ensures EntryObstacle(ENDCAP_OBS[j]) == Obstacle(SQUARE, MOD_NONE)
    {
      assert j in {5, 10, 14, 17, 20, 23, 27, 32, 38};
    }
  }

  /** Columns beyond the table's reach (dx > 0) get no endcap obstacle. */
  lemma NoEndcapRightOfLevel(lv: Level, x: int, y: int)
    requires x >= lv.width && (x, y) !in lv.obstacles
    ensures EffectiveObstacleAt(lv, x, y).None?
  {
    assert forall k :: 0 <= k < |ENDCAP_OBS| ==> ENDCAP_OBS[k].dx <= 0;
  }

  /** `portal_abs`. */
  function PortalAbs(lv: Level): (r: (int, int))
    ensures r.0 - (lv.width - 1) == PORTAL_DX && r.1 == PORTAL_Y
  {
    (lv.width - 1 + PORTAL_DX, PORTAL_Y)
  }

  // ---------------------------------------------------------------------------
  // Undo transactions (`begin_txn`, `touch_cell_before/after`, `commit_txn`)

  datatype UndoAction = UndoAction(
    beforeCells: map<(int, int), Option<Obstacle>>,
    afterCells: map<(int, int), Option<Obstacle>>,
    beforeStart: (int, int),
    afterStart: (int, int),
    beforeWidth: int,
    afterWidth: int)

  datatype Txn = Txn(
    active: bool,
    beforeCells: map<(int, int), Option<Obstacle>>,
    afterCells: map<(int, int), Option<Obstacle>>,
    beforeStart: (int, int),
    beforeWidth: int)

  const IDLE_TXN: Txn := Txn(false, map[], map[], (0, 4), DEFAULT_W)

  /** An action that would restore exactly what is already there. */
  predicate IsNoOp(a: UndoAction) {
    a.beforeCells == a.afterCells && a.beforeStart == a.afterStart && a.beforeWidth == a.afterWidth
  }

  /** `begin_txn`: a second begin while a transaction is open changes nothing. */
  function BeginTxn(t: Txn, lv: Level): (r: Txn)
    ensures t.active ==> r == t
    ensures !t.active ==> r.active && r.beforeCells == map[] && r.afterCells == map[]
    ensures !t.active ==> r.beforeStart == lv.start && r.beforeWidth == lv.width
  {
    if t.active then t else Txn(true, map[], map[], lv.start, lv.width)
  }

  /** `touch_cell_before`: the first recorded state of a cell wins. */
  function TouchCellBefore(t: Txn, lv: Level, x: int, y: int): (r: Txn)
    ensures (x, y) in r.beforeCells
    ensures (x, y) in t.beforeCells ==> r == t
    ensures (x, y) !in t.beforeCells ==> r.beforeCells[(x, y)] == GetObstacle(lv, x, y)
    ensures forall k :: k in t.beforeCells ==> k in r.beforeCells && r.beforeCells[k] == t.beforeCells[k]
    ensures r.beforeCells.Keys == t.beforeCells.Keys + {(x, y)}
    ensures r.active == t.active && r.afterCells == t.afterCells
    ensures r.beforeStart == t.beforeStart && r.beforeWidth == t.beforeWidth
  {
    if (x, y) in t.beforeCells then t
    else t.(beforeCells := t.beforeCells[(x, y) := GetObstacle(lv, x, y)])
  }

  /** `touch_cell_after`: the latest state of a cell wins. */
  function TouchCellAfter(t: Txn, lv: Level, x: int, y: int): (r: Txn)
    ensures (x, y) in r.afterCells && r.afterCells[(x, y)] == GetObstacle(lv, x, y)
    ensures r.afterCells.Keys == t.afterCells.Keys + {(x, y)}
    ensures forall k :: k in t.afterCells && k != (x, y) ==> r.afterCells[k] == t.afterCells[k]
    ensures r.beforeCells == t.beforeCells && r.active == t.active
    ensures r.beforeStart == t.beforeStart && r.beforeWidth == t.beforeWidth
  {
    t.(afterCells := t.afterCells[(x, y) := GetObstacle(lv, x, y)])
  }

  /** The after-state `commit_txn` records: every touched cell, with cells touched
      only before read from the level as it is now. */
  function CompletedAfter(t: Txn, lv: Level): (m: map<(int, int), Option<Obstacle>>)
    ensures m.Keys == t.beforeCells.Keys + t.afterCells.Keys
    ensures forall k :: k in t.afterCells ==> m[k] == t.afterCells[k]
    ensures forall k :: k in m && k !in t.afterCells ==> m[k] == GetObstacle(lv, k.0, k.1)
  {
    map k | k in t.beforeCells.Keys + t.afterCells.Keys ::
      if k in t.afterCells then t.afterCells[k] else GetObstacle(lv, k.0, k.1)
  }

  /** `commit_txn`: closes an open transaction and pushes its undo action, unless
      the action would change nothing. Without an open transaction nothing happens. */
  function CommitTxn(t: Txn, lv: Level, undo: seq<UndoAction>): (r: (Txn, seq<UndoAction>))
    ensures !t.active ==> r == (t, undo)
    ensures t.active ==> !r.0.active
    ensures t.active ==> r.1 == undo || (|r.1| == |undo| + 1 && r.1[..|undo|] == undo)
    ensures t.active ==>
      (|r.1| == |undo| + 1 <==>
        t.beforeCells != CompletedAfter(t, lv) || t.beforeStart != lv.start || t.beforeWidth != lv.width)
    ensures t.active && |r.1| > |undo| ==>
      var a := r.1[|undo|];
      && !IsNoOp(a)
      && a.beforeCells == t.beforeCells && a.afterCells == CompletedAfter(t, lv)
      && a.beforeStart == t.beforeStart && a.afterStart == lv.start
      && a.beforeWidth == t.beforeWidth && a.afterWidth == lv.width
  {
    if !t.active then (t, undo)
    else
      var after := CompletedAfter(t, lv);
      var act := UndoAction(t.beforeCells, after, t.beforeStart, lv.start, t.beforeWidth, lv.width);
      var t' := t.(active := false, afterCells := after);
      if IsNoOp(act) then (t', undo) else (t', undo + [act])
  }

  /** A transaction that touches a cell and changes nothing leaves the undo
      stack as it was. */
  lemma UnchangedStrokeIsSkipped(t: Txn, lv: Level, x: int, y: int, undo: seq<UndoAction>)
    requires !t.active
    ensures
      var t1 := TouchCellBefore(BeginTxn(t, lv), lv, x, y);
      CommitTxn(TouchCellAfter(t1, lv, x, y), lv, undo).1 == undo
  {
    var t1 := TouchCellBefore(BeginTxn(t, lv), lv, x, y);
    var t2 := TouchCellAfter(t1, lv, x, y);
    assert CompletedAfter(t2, lv) == t1.beforeCells;
  }

  /** A transaction over which the width changed is always recorded. */
  lemma WidthChangeIsRecorded(t: Txn, lv: Level, lv': Level, undo: seq<UndoAction>)
    requires !t.active && lv'.width != lv.width
    ensures CommitTxn(BeginTxn(t, lv), lv', undo).1 == undo + [UndoAction(map[], map[], lv.start, lv'.start, lv.width, lv'.width)]
  {
    assert CompletedAfter(BeginTxn(t, lv), lv') == map[];
  }
}

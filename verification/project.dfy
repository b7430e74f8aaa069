/** `projectPoint` (src/render/Project.cpp): the perspective projection of a
    view-space point onto the screen, in Q16.16. Only the projection fields of
    `Camera` take part; the vertical offset `yOffset` the function adds is
    carried as a camera field here. */
module Project {
  import opened Ints
  import opened Fixed

  datatype Vec3 = Vec3(x: Fx, y: Fx, z: Fx)
  {
    predicate Valid() { x.Valid() && y.Valid() && z.Valid() }
  }

  /** `Vec2i`: screen coordinates as `int16_t`. */
  datatype Vec2i = Vec2i(x: i16, y: i16)

  datatype Camera = Camera(focal: Fx, cx: Fx, cy: Fx, yOffset: Fx)
  {
    predicate Valid() { focal.Valid() && cx.Valid() && cy.Valid() && yOffset.Valid() }
  }

  /** The near limit: `(1 << SHIFT) / 8`, one eighth of a unit. */
  const NEAR_RAW: int := ONE_RAW / 8

  /** `(int16_t)sx.toInt()`. */
  function ScreenCoord(v: Fx): (r: i16)
    requires v.Valid()
    ensures r == ToInt(v)
  {
    Wrap16(ToInt(v))
  }

  /** `projectPoint`: `false`, with `out` left as it was, for a point at or
      before the near limit; otherwise `true` and `out` set to
      `cx + x * (focal / z)` and `cy + (y + yOffset) * (focal / z)`. */
  function ProjectPoint(cam: Camera, p: Vec3, out: Vec2i): (r: (bool, Vec2i))
    requires cam.Valid() && p.Valid()
    ensures r.0 <==> p.z.raw > NEAR_RAW
    ensures !r.0 ==> r.1 == out
  {
    if p.z.raw <= NEAR_RAW then (false, out)
    else
      var invz := Div(cam.focal, p.z);
      var sx := Add(cam.cx, Mul(p.x, invz));
      var sy := Add(cam.cy, Mul(Add(p.y, cam.yOffset), invz));
      (true, Vec2i(ScreenCoord(sx), ScreenCoord(sy)))
  }

  // ---------------------------------------------------------------------------
  // What the projection computes

  /** A point on the camera's vertical axis lands in the screen centre column;
      one at `y == -yOffset` lands in the centre row. */
  lemma ProjectCentre(cam: Camera, p: Vec3, out: Vec2i)
    requires cam.Valid() && p.Valid() && p.z.raw > NEAR_RAW
    ensures p.x == FromInt(0) ==> ProjectPoint(cam, p, out).1.x == ToInt(cam.cx)
    ensures Add(p.y, cam.yOffset) == FromInt(0) ==> ProjectPoint(cam, p, out).1.y == ToInt(cam.cy)
  {
    var invz := Div(cam.focal, p.z);
    MulZero(invz);
  }

  /** On whole-number inputs where `focal / z` is a whole number `k` and
      nothing overflows, the projection is the textbook one:
      `cx + x * k` and `cy + (y + yOffset) * k`. */
  lemma ProjectWholeNumbers(f: int, c: int, cy: int, yo: int, px: int, py: int, pz: int, out: Vec2i)
    requires IsInt16(f) && IsInt16(c) && IsInt16(cy) && IsInt16(yo)
    requires IsInt16(px) && IsInt16(py) && IsInt16(pz) && IsInt16(py + yo)
    requires pz >= 1 && f % pz == 0
    requires IsInt16(px * (f / pz)) && IsInt16(c + px * (f / pz))
    requires IsInt16((py + yo) * (f / pz)) && IsInt16(cy + (py + yo) * (f / pz))
    ensures
      var cam := Camera(FromInt(f), FromInt(c), FromInt(cy), FromInt(yo));
      var r := ProjectPoint(cam, Vec3(FromInt(px), FromInt(py), FromInt(pz)), out);
      && r.0
      && r.1 == Vec2i(c + px * (f / pz), cy + (py + yo) * (f / pz))
  {
    var k := f / pz;
    DivFromIntExact(f, pz);
    MulFromInt(px, k);
    FromIntAdd(c, px * k);
    FromIntAdd(py, yo);
    MulFromInt(py + yo, k);
    FromIntAdd(cy, (py + yo) * k);
    ToIntFromInt(c + px * k);
    ToIntFromInt(cy + (py + yo) * k);
  }

  /** In the model, the projected coordinate wraps around instead of
      saturating: the sum `cx + x * (focal / z)` is a 32-bit `fx` addition,
      whose overflow C++ leaves undefined and the model wraps, so a point far
      to the right comes out on the left. */
  lemma ProjectWrapsAround(out: Vec2i)
    ensures
      var cam := Camera(FromInt(1), FromInt(1), FromInt(0), FromInt(0));
      var r := ProjectPoint(cam, Vec3(FromInt(0x7FFF), FromInt(0), FromInt(1)), out);
      r.0 && r.1.x == -0x8000
  {
    MulFromInt(0x7FFF, 1);
    DivFromIntExact(1, 1);
  }
}

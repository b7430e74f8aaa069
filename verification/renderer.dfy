/** `Renderer::buildTunnel` (src/render/Renderer.cpp): a square tunnel of
    half-size 30 drawn as one ring of four edges every 10 units of depth. */
module Renderer {
  import opened Ints
  import opened Fixed
  import opened Project
  import opened DrawList

  const HALF_SIZE: int := 30
  const RING_SPACING: int := 10
  const WHITE: u16 := 0xFFFF
  /** The deepest ring whose depth `fx::fromInt(i * 10)` still fits. */
  const MAX_RINGS: int := 3276

  /** Corner k of the ring at depth z, counter-clockwise from the bottom left:
      (-30,-30), (30,-30), (30,30), (-30,30). Unary minus on `fx` is the
      negation of the raw value and unary plus the value itself. */
  function Corner(z: Fx, k: int): (p: Vec3)
    requires z.Valid() && 0 <= k < 4
    ensures p.Valid() && p.z == z
  {
    var h := FromInt(HALF_SIZE);
    var x := if k == 0 || k == 3 then Neg(h) else h;
    var y := if k == 0 || k == 1 then Neg(h) else h;
    Vec3(x, y, z)
  }

  /** The depth of ring i. */
  function RingDepth(i: int): (z: Fx)
    requires 1 <= i <= MAX_RINGS
    ensures z.Valid() && z.raw > NEAR_RAW
  {
    FromInt(i * RING_SPACING)
  }

  /** Where corner k of ring i lands on screen. */
  function CornerOnScreen(cam: Camera, i: int, k: int): Vec2i
    requires cam.Valid() && 1 <= i <= MAX_RINGS && 0 <= k < 4
  {
    ProjectPoint(cam, Corner(RingDepth(i), k), Vec2i(0, 0)).1
  }

  /** The four projected corners of one ring. */
  datatype Ring = Ring(p0: Vec2i, p1: Vec2i, p2: Vec2i, p3: Vec2i)

  /** Ring i on screen. */
  function ProjectRing(cam: Camera, i: int): Ring
    requires cam.Valid() && 1 <= i <= MAX_RINGS
  {
    Ring(CornerOnScreen(cam, i, 0), CornerOnScreen(cam, i, 1), CornerOnScreen(cam, i, 2), CornerOnScreen(cam, i, 3))
  }

  function Edge(a: Vec2i, b: Vec2i): Line2D {
    Line2D(a.x, a.y, b.x, b.y, WHITE)
  }

  /** The ring's four edges, corner k to corner k+1 (mod 4), in white. */
  function RingLines(q: Ring): (ls: seq<Line2D>)
    ensures |ls| == 4
    ensures forall e :: 0 <= e < 4 ==> ls[e].color565 == WHITE
  {
    [Edge(q.p0, q.p1), Edge(q.p1, q.p2), Edge(q.p2, q.p3), Edge(q.p3, q.p0)]
  }

  /** `dl.addLine(a, b, 0xFFFF)` guarded by `ok[a] && ok[b]`: an edge is
      appended only when both of its corners projected. */
  function AppendEdge(d: DrawList, a: (bool, Vec2i), b: (bool, Vec2i)): (r: DrawList)
    ensures a.0 && b.0 ==> Get(r) == Get(d) + [Edge(a.1, b.1)]
    ensures !(a.0 && b.0) ==> r == d
  {
    if a.0 && b.0 then AddLine(d, a.1.x, a.1.y, b.1.x, b.1.y, WHITE) else d
  }

  /** One iteration of the ring loop: the four corners at depth `10 * i` are
      projected and the four guarded edges appended. As every corner lies
      beyond the near limit, all four edges are appended. */
  method AddRing(cam: Camera, d: DrawList, i: int) returns (r: DrawList)
    requires cam.Valid() && 1 <= i <= MAX_RINGS
    ensures Get(r) == Get(d) + RingLines(ProjectRing(cam, i))
  {
    var z := FromInt(i * RING_SPACING);
    var p0 := ProjectPoint(cam, Corner(z, 0), Vec2i(0, 0));
    var p1 := ProjectPoint(cam, Corner(z, 1), Vec2i(0, 0));
    var p2 := ProjectPoint(cam, Corner(z, 2), Vec2i(0, 0));
    var p3 := ProjectPoint(cam, Corner(z, 3), Vec2i(0, 0));
    r := AppendEdge(AppendEdge(AppendEdge(AppendEdge(d, p0, p1), p1, p2), p2, p3), p3, p0);
  }

  /** Rings 1..m on screen, nearest first. */
  function Rings(cam: Camera, m: int): (rs: seq<Ring>)
    requires cam.Valid() && 0 <= m <= MAX_RINGS
    ensures |rs| == m
  {
    if m == 0 then [] else Rings(cam, m - 1) + [ProjectRing(cam, m)]
  }

  /** The edges of a series of rings, ring after ring. */
  function Tunnel(rs: seq<Ring>): seq<Line2D> {
    if |rs| == 0 then [] else Tunnel(rs[..|rs| - 1]) + RingLines(rs[|rs| - 1])
  }

  /** Edge e of ring k sits at position `4 * k + e`, and every edge is white. */
  lemma {:induction false} TunnelLayout(rs: seq<Ring>)
    ensures |Tunnel(rs)| == 4 * |rs|
    ensures forall k, e :: 0 <= k < |rs| && 0 <= e < 4 ==> Tunnel(rs)[4 * k + e] == RingLines(rs[k])[e]
    ensures forall j :: 0 <= j < |Tunnel(rs)| ==> Tunnel(rs)[j].color565 == WHITE
  {
    if |rs| > 0 {
      var front := rs[..|rs| - 1];
      TunnelLayout(front);
      var a, b := Tunnel(front), RingLines(rs[|rs| - 1]);
      assert Tunnel(rs) == a + b;
      forall k, e | 0 <= k < |rs| && 0 <= e < 4
        ensures Tunnel(rs)[4 * k + e] == RingLines(rs[k])[e]
      {
        if k < |front| {
          assert rs[k] == front[k];
          assert (a + b)[4 * k + e] == a[4 * k + e];
        } else {
          assert (a + b)[4 * k + e] == b[e];
        }
      }
      forall j | 0 <= j < |Tunnel(rs)|
        ensures Tunnel(rs)[j].color565 == WHITE
      {
        if j < |a| {
          assert (a + b)[j] == a[j];
        } else {
          assert (a + b)[j] == b[j - |a|];
        }
      }
    }
  }

  /** Ring k of `Rings(cam, m)` is the ring at depth `10 * (k + 1)`. */
  lemma {:induction false} RingsAt(cam: Camera, m: int, k: int)
    requires cam.Valid() && 0 <= k < m <= MAX_RINGS
    ensures Rings(cam, m)[k] == ProjectRing(cam, k + 1)
    decreases m
  {
    var front, q := Rings(cam, m - 1), ProjectRing(cam, m);
    assert Rings(cam, m) == front + [q];
    if k < m - 1 {
      RingsAt(cam, m - 1, k);
      assert (front + [q])[k] == front[k];
    } else {
      assert (front + [q])[k] == q;
    }
  }

  /** `buildTunnel`: rings 1..depthLines at depth `10 * i`, four white edges
      each, appended after whatever the list already held. The screen size
      parameters are unused by the source and are not modelled. */
  method BuildTunnel(cam: Camera, dl: DrawList, depthLines: int) returns (r: DrawList)
    requires cam.Valid()
    requires depthLines <= MAX_RINGS
    ensures depthLines <= 0 ==> r == dl
    ensures Get(r) == Get(dl) + Tunnel(Rings(cam, Max0(depthLines)))
  {
    r := dl;
    var i := 1;
    while i <= depthLines
      invariant 1 <= i <= (if depthLines >= 1 then depthLines + 1 else 1)
      invariant depthLines <= 0 ==> r == dl
      invariant Get(r) == Get(dl) + Tunnel(Rings(cam, i - 1))
      invariant i - 1 <= Max0(depthLines)
    {
      r := ExtendTunnel(cam, dl, r, i);
      i := i + 1;
    }
    assert i - 1 == Max0(depthLines);
  }

  /** One pass of the ring loop seen against the whole tunnel: after rings
      1..i-1, adding ring i gives rings 1..i. */
  method ExtendTunnel(cam: Camera, dl: DrawList, d: DrawList, i: int) returns (r: DrawList)
    requires cam.Valid() && 1 <= i <= MAX_RINGS
    ensures Get(d) == Get(dl) + Tunnel(Rings(cam, i - 1)) ==> Get(r) == Get(dl) + Tunnel(Rings(cam, i))
  {
    r := AddRing(cam, d, i);
    TunnelStep(Get(dl), Rings(cam, i - 1), ProjectRing(cam, i));
    assert Rings(cam, i) == Rings(cam, i - 1) + [ProjectRing(cam, i)];
  }

  function Max0(n: int): nat { if n > 0 then n else 0 }

  lemma TunnelStep(prefix: seq<Line2D>, rs: seq<Ring>, q: Ring)
    ensures prefix + Tunnel(rs) + RingLines(q) == prefix + Tunnel(rs + [q])
  {
    assert (rs + [q])[..|rs|] == rs;
  }

  /** After `buildTunnel` the old lines come first, then edge e of ring i at
      position `4 * (i - 1) + e` after them, all new lines white. */
  lemma BuildTunnelLayout(cam: Camera, dl: seq<Line2D>, m: int, i: int, e: int)
    requires cam.Valid() && 1 <= i <= m <= MAX_RINGS && 0 <= e < 4
    ensures var t := dl + Tunnel(Rings(cam, m));
      && |t| == |dl| + 4 * m
      && t[..|dl|] == dl
      && t[|dl| + 4 * (i - 1) + e] == RingLines(ProjectRing(cam, i))[e]
      && forall j :: |dl| <= j < |t| ==> t[j].color565 == WHITE
  {
    var rs := Rings(cam, m);
    TunnelLayout(rs);
    RingsAt(cam, m, i - 1);
    var t := dl + Tunnel(rs);
    assert t[..|dl|] == dl;
    assert t[|dl| + 4 * (i - 1) + e] == Tunnel(rs)[4 * (i - 1) + e];
    forall j | |dl| <= j < |t|
      ensures t[j].color565 == WHITE
    {
      assert t[j] == Tunnel(rs)[j - |dl|];
    }
  }
}

/** The frame cycle of `Ili9488Display` (src/platform/pico/Ili9488Display.cpp
    and Ili9488Display.hpp): `beginFrame` starts a new dirty rectangle,
    `drawLines` grows it by the frame's lines, unites it with the previous
    frame's (so that what was drawn last frame is erased) and redraws that
    union into a black scratch block, and `endFrame` sends the block. The
    hardware set-up of `initIfNeeded` is left out; its allocation, clearing
    and full-screen flush are modelled. Whether `realloc` succeeds is a
    parameter. */
module Ili9488 {
  import opened Ints
  import opened Wrappers
  import opened DirtyRect
  import opened DrawList
  import opened Raster
  import opened SpiFlush

  datatype Display = Display(prev: Rect, now: Rect, union: Rect, inited: bool, scratch: Option<Scratch>)
  {
    /** The block is well formed, nothing is allocated before the first
        initialisation, and the union has been clamped to the screen. */
    predicate Valid() {
      && (scratch.Some? ==> scratch.value.Valid())
      && (!inited ==> scratch.None?)
      && OnScreenRect(union)
    }
  }

  predicate OnScreenRect(r: Rect) {
    Empty(r) || (0 <= r.x0 && 0 <= r.y0 && r.x1 < W && r.y1 < H)
  }

  const FULL: Rect := Rect(0, 0, W - 1, H - 1)

  /** The constructor: all three rectangles cleared, nothing allocated. */
  function NewDisplay(): (d: Display)
    ensures d.Valid() && !d.inited && d.scratch.None?
    ensures Empty(d.prev) && Empty(d.now) && Empty(d.union)
  {
    Display(DirtyRect.Clear(), DirtyRect.Clear(), DirtyRect.Clear(), false, None)
  }

  /** The block `initIfNeeded` leaves: a full-screen block cleared to black,
      when it could be allocated. */
  function InitScratch(d: Display, allocOk: bool): (s: Option<Scratch>)
    requires d.Valid()
    ensures s.Some? ==> s.value.Valid()
    ensures d.inited ==> s == d.scratch
    ensures !d.inited ==> (s.Some? <==> allocOk)
    ensures !d.inited && s.Some? ==> s.value.w == W && s.value.h == H
    ensures !d.inited && s.Some? ==> forall k :: 0 <= k < |s.value.pixels| ==> s.value.pixels[k] == 0
  {
    if d.inited then d.scratch else ClearScratchToBlack(EnsureScratch(d.scratch, W, H, allocOk))
  }

  /** `initIfNeeded`: the first call allocates a full-screen block, clears
      it, sends it (a black screen) and marks the display initialised; later
      calls do nothing. */
  method InitIfNeeded(d: Display, allocOk: bool) returns (r: Display, t: Option<Transfer>)
    requires d.Valid()
    ensures r.Valid() && r.inited
    ensures r == d.(inited := true, scratch := InitScratch(d, allocOk))
    ensures d.inited ==> r == d && t.None?
    ensures !d.inited ==> (t.Some? <==> allocOk)
    ensures t.Some? ==> t.value.commands == AddrWindow(0, 0, W - 1, H - 1)
    ensures t.Some? ==> |t.value.words| == W * H
    ensures t.Some? ==> forall k :: 0 <= k < |t.value.words| ==> t.value.words[k] == 0
  {
    if d.inited {
      return d, None;
    }
    var s := InitScratch(d, allocOk);
    t := FlushScratch(s, FULL);
    if t.Some? {
      BlackBlockSendsZeros(s.value.pixels, t.value.words);
    }
    r := d.(inited := true, scratch := s);
  }

  /** Sending a black block puts only zero words on the wire. */
  lemma BlackBlockSendsZeros(pixels: seq<u16>, words: seq<u16>)
    requires |words| <= |pixels|
    requires forall k :: 0 <= k < |pixels| ==> pixels[k] == 0
    requires forall k :: 0 <= k < |words| ==> words[k] == Swap16(pixels[k])
    ensures forall k :: 0 <= k < |words| ==> words[k] == 0
  {
    assert Swap16(0) == 0;
  }

  /** `beginFrame`: initialise if needed, then start an empty rectangle for
      this frame. */
  method BeginFrame(d: Display, allocOk: bool) returns (r: Display, t: Option<Transfer>)
    requires d.Valid()
    ensures r.Valid() && r.inited
    ensures r == d.(inited := true, scratch := InitScratch(d, allocOk), now := DirtyRect.Clear())
    ensures d.inited ==> t.None?
  {
    var d1;
    d1, t := InitIfNeeded(d, allocOk);
    r := d1.(now := DirtyRect.Clear());
  }

  /** The frame's rectangle after `addLine` for each line, in order. */
  function NowAfter(now: Rect, lines: seq<Line2D>): (r: Rect)
    ensures Within(now, r)
    ensures |lines| > 0 ==> !Empty(r)
    decreases |lines|
  {
    if |lines| == 0 then now
    else
      var last := lines[|lines| - 1];
      DirtyRect.AddLine(NowAfter(now, lines[..|lines| - 1]), last.x0, last.y0, last.x1, last.y1)
  }

  /** Both endpoints of every line lie inside the frame's rectangle. */
  lemma {:induction false} NowAfterContainsEndpoints(now: Rect, lines: seq<Line2D>)
    ensures forall k :: 0 <= k < |lines| ==>
      Contains(NowAfter(now, lines), lines[k].x0, lines[k].y0) && Contains(NowAfter(now, lines), lines[k].x1, lines[k].y1)
    decreases |lines|
  {
    if |lines| > 0 {
      var front := lines[..|lines| - 1];
      NowAfterContainsEndpoints(now, front);
      var mid, r := NowAfter(now, front), NowAfter(now, lines);
      forall k | 0 <= k < |front|
        ensures Contains(r, lines[k].x0, lines[k].y0) && Contains(r, lines[k].x1, lines[k].y1)
      {
        assert lines[k] == front[k];
        WithinContains(mid, r, lines[k].x0, lines[k].y0);
        WithinContains(mid, r, lines[k].x1, lines[k].y1);
      }
    }
  }

  /** Starting from a cleared rectangle or a non-empty one, the frame's
      rectangle lies inside any rectangle that holds the starting one and
      both endpoints of every line: it is their bounding box. */
  lemma {:induction false} NowAfterSmallest(now: Rect, lines: seq<Line2D>, s: Rect)
    requires now == CLEARED || !Empty(now)
    requires Within(now, s)
    requires forall k :: 0 <= k < |lines| ==> Contains(s, lines[k].x0, lines[k].y0) && Contains(s, lines[k].x1, lines[k].y1)
    ensures Within(NowAfter(now, lines), s)
    decreases |lines|
  {
    if |lines| > 0 {
      var front := lines[..|lines| - 1];
      var last := lines[|lines| - 1];
      forall k | 0 <= k < |front|
        ensures Contains(s, front[k].x0, front[k].y0) && Contains(s, front[k].x1, front[k].y1)
      {
        assert front[k] == lines[k];
      }
      NowAfterSmallest(now, front, s);
      var mid := NowAfter(now, front);
      var m1 := AddPoint(mid, last.x0, last.y0);
      if Empty(mid) {
        assert mid == CLEARED by { assert front == []; }
        assert m1 == Rect(last.x0, last.y0, last.x0, last.y0);
      } else {
        AddPointSmallest(mid, last.x0, last.y0, s);
      }
      AddPointSmallest(m1, last.x1, last.y1, s);
    }
  }

  /** `pts` are the points `drawLine565` plots for `ln`: one per unit of the
      longer extent plus one, from the first endpoint to the second, each an
      8-neighbour of the one before, all inside the endpoints' box. */
  predicate Traces(pts: seq<(int, int)>, ln: Line2D) {
    && |pts| == Raster.Max(Abs(ln.x1 - ln.x0), Abs(ln.y1 - ln.y0)) + 1
    && pts[0] == (ln.x0, ln.y0) && pts[|pts| - 1] == (ln.x1, ln.y1)
    && (forall k :: 0 <= k < |pts| - 1 ==> Neighbours(pts[k], pts[k + 1]))
    && (forall k :: 0 <= k < |pts| ==> InBox(pts[k], ln.x0, ln.y0, ln.x1, ln.y1))
  }

  /** What pixel (px, py) of a black block shows once the first |paths|
      lines are drawn along their paths: the colour of the last of them
      passing through it, or black when none does. */
  function LastColour(lines: seq<Line2D>, paths: seq<seq<(int, int)>>, clip: Rect, px: int, py: int): u16
    requires |paths| <= |lines|
  {
    if |paths| == 0 then 0
    else if Hits(paths[|paths| - 1], clip, px, py) then lines[|paths| - 1].color565
    else LastColour(lines, paths[..|paths| - 1], clip, px, py)
  }

  /** A pixel shows line k when line k passes through it and no later line
      does, and stays black when no line passes through it. */
  lemma {:induction false} LastColourIsLastHit(lines: seq<Line2D>, paths: seq<seq<(int, int)>>, clip: Rect, px: int, py: int, k: int)
    requires |paths| <= |lines|
    ensures (0 <= k < |paths| && Hits(paths[k], clip, px, py)
             && forall j :: k < j < |paths| ==> !Hits(paths[j], clip, px, py)) ==>
      LastColour(lines, paths, clip, px, py) == lines[k].color565
    ensures (forall j :: 0 <= j < |paths| ==> !Hits(paths[j], clip, px, py)) ==>
      LastColour(lines, paths, clip, px, py) == 0
    decreases |paths|
  {
    if |paths| > 0 {
      var front := paths[..|paths| - 1];
      LastColourIsLastHit(lines, front, clip, px, py, k);
      forall j | 0 <= j < |front|
        ensures front[j] == paths[j]
      {
      }
    }
  }

  /** `drawLines`: initialise if needed; grow this frame's rectangle by every
      line's endpoints; the union with last frame's rectangle, clamped to the
      screen, is what gets redrawn. When it is not empty the block is sized to
      it (or kept as it was if that allocation fails), cleared to black, and
      every line is drawn into it clipped to the union, so that each pixel
      shows the last line through it. `paths` are the points plotted for
      each line. */
  method DrawLines(d: Display, dl: DrawList, initAlloc: bool, allocOk: bool)
    returns (r: Display, t: Option<Transfer>, paths: seq<seq<(int, int)>>)
    requires d.Valid()
    ensures r.Valid() && r.inited
    ensures r.prev == d.prev
    ensures r.now == NowAfter(d.now, Get(dl))
    ensures r.union == ClampToScreen(Unite(d.prev, r.now))
    ensures d.inited ==> t.None?
    ensures Empty(r.union) ==> r.scratch == InitScratch(d, initAlloc)
    ensures !Empty(r.union) ==>
      var e := EnsureScratch(InitScratch(d, initAlloc), RectW(r.union), RectH(r.union), allocOk);
      && (r.scratch.Some? <==> e.Some?)
      && (r.scratch.Some? ==> r.scratch.value.w == e.value.w && r.scratch.value.h == e.value.h)
    ensures !Empty(r.union) ==>
      |paths| == |Get(dl)| && forall k :: 0 <= k < |paths| ==> Traces(paths[k], Get(dl)[k])
    ensures !Empty(r.union) && r.scratch.Some? ==>
      forall px, py :: 0 <= px < r.scratch.value.w && 0 <= py < r.scratch.value.h ==>
        Pixel(r.scratch.value, px, py) == LastColour(Get(dl), paths, r.union, px, py)
  {
    var d1;
    d1, t := InitIfNeeded(d, initAlloc);
    var lines := Get(dl);
    var now := NowAfter(d1.now, lines);
    var union := ClampToScreen(Unite(d1.prev, now));
    if Empty(union) {
      return d1.(now := now, union := union), t, [];
    }
    var sc;
    sc, paths := Redraw(d1.scratch, lines, union, allocOk);
    r := d1.(now := now, union := union, scratch := sc);
  }

  /** The non-empty branch of `drawLines`: size the block to the union,
      clear it and draw every line into it. */
  method Redraw(s: Option<Scratch>, lines: seq<Line2D>, union: Rect, allocOk: bool)
    returns (sc: Option<Scratch>, paths: seq<seq<(int, int)>>)
    requires s.Some? ==> s.value.Valid()
    requires !Empty(union)
    ensures var e := EnsureScratch(s, RectW(union), RectH(union), allocOk);
      && (sc.Some? <==> e.Some?)
      && (sc.Some? ==> sc.value.Valid() && sc.value.w == e.value.w && sc.value.h == e.value.h)
    ensures |paths| == |lines| && forall k :: 0 <= k < |lines| ==> Traces(paths[k], lines[k])
    ensures sc.Some? ==> forall px, py :: 0 <= px < sc.value.w && 0 <= py < sc.value.h ==>
      Pixel(sc.value, px, py) == LastColour(lines, paths, union, px, py)
  {
    var e := EnsureScratch(s, RectW(union), RectH(union), allocOk);
    var cleared := ClearScratchToBlack(e);
    if cleared.Some? {
      forall px, py | 0 <= px < cleared.value.w && 0 <= py < cleared.value.h
        ensures Pixel(cleared.value, px, py) == 0
      {
        IndexInBounds(cleared.value.w, cleared.value.h, px, py);
      }
    }
    sc, paths := DrawAll(cleared, lines, union);
  }

  /** The drawing loop of `drawLines`: every line in order, clipped to the
      union, into a block that starts out black. Afterwards each pixel holds
      the colour of the last line whose path passes through it inside the
      clip, and is still black where no line passes. */
  method DrawAll(s: Option<Scratch>, lines: seq<Line2D>, clip: Rect)
    returns (sc: Option<Scratch>, paths: seq<seq<(int, int)>>)
    requires s.Some? ==> s.value.Valid()
    requires s.Some? ==> forall px, py :: 0 <= px < s.value.w && 0 <= py < s.value.h ==> Pixel(s.value, px, py) == 0
    ensures sc.Some? <==> s.Some?
    ensures sc.Some? ==> sc.value.Valid() && sc.value.w == s.value.w && sc.value.h == s.value.h
    ensures |paths| == |lines| && forall k :: 0 <= k < |lines| ==> Traces(paths[k], lines[k])
    ensures sc.Some? ==> forall px, py :: 0 <= px < sc.value.w && 0 <= py < sc.value.h ==>
      Pixel(sc.value, px, py) == LastColour(lines, paths, clip, px, py)
  {
    sc, paths := s, [];
    for i := 0 to |lines|
      invariant sc.Some? <==> s.Some?
      invariant sc.Some? ==> sc.value.Valid() && sc.value.w == s.value.w && sc.value.h == s.value.h
      invariant |paths| == i && forall k :: 0 <= k < i ==> Traces(paths[k], lines[k])
      invariant sc.Some? ==> forall px, py :: 0 <= px < sc.value.w && 0 <= py < sc.value.h ==>
        Pixel(sc.value, px, py) == LastColour(lines, paths, clip, px, py)
    {
      var ln := lines[i];
      var before := sc;
      var pts;
      sc, pts := DrawLine565(sc, ln.x0, ln.y0, ln.x1, ln.y1, ln.color565, clip);
      var paths' := paths + [pts];
      assert paths'[..i] == paths;
      if sc.Some? {
        forall px, py | 0 <= px < sc.value.w && 0 <= py < sc.value.h
          ensures Pixel(sc.value, px, py) == LastColour(lines, paths', clip, px, py)
        {
          PlotAllPixel(before, pts, ln.color565, clip, px, py);
        }
      }
      paths := paths';
    }
  }

  // ---------------------------------------------------------------------------
  // endFrame

  /** What `endFrame` did with the block: nothing (not initialised, nothing
      dirty, or no block), a transfer, or a read of `needed` pixels from a
      block holding only `held`. */
  datatype FlushOutcome = Skipped | Sent(t: Transfer) | Overread(needed: int, held: int)

  /** `endFrame` as written: when initialised and the union is not empty,
      `flushScratch(dirtyUnion)` reads `w * h` pixels of the union's size
      from whatever block is allocated. After a failed `realloc` in
      `drawLines` the block is still the previous, smaller one, and the read
      runs past its end. */
  method EndFrameAsWritten(d: Display) returns (r: Display, o: FlushOutcome)
    requires d.Valid()
    ensures !d.inited ==> r == d && o == Skipped
    ensures d.inited ==> r == d.(prev := d.now)
    ensures o.Overread? <==>
      d.inited && !Empty(d.union) && d.scratch.Some? && RectW(d.union) * RectH(d.union) > |d.scratch.value.pixels|
    ensures o.Overread? ==> o == Overread(RectW(d.union) * RectH(d.union), |d.scratch.value.pixels|)
    ensures o.Sent? ==> d.scratch.Some?
    ensures o.Sent? ==> o.t.commands == AddrWindow(d.union.x0, d.union.y0, d.union.x1, d.union.y1)
    ensures o.Sent? ==> |o.t.words| == RectW(d.union) * RectH(d.union) <= |d.scratch.value.pixels|
    ensures o.Sent? ==> forall k :: 0 <= k < |o.t.words| ==> o.t.words[k] == Swap16(d.scratch.value.pixels[k])
  {
    if !d.inited {
      return d, Skipped;
    }
    o := Skipped;
    if !Empty(d.union) && d.scratch.Some? {
      var need := RectW(d.union) * RectH(d.union);
      if need > |d.scratch.value.pixels| {
        o := Overread(need, |d.scratch.value.pixels|);
      } else {
        var t := FlushScratch(d.scratch, d.union);
        o := Sent(t.value);
      }
    }
    r := d.(prev := d.now);
  }

  /** `endFrame` with the evidently intended guard: the block is sent only
      when it has the union's size, that is, when `drawLines` managed to
      size it; otherwise the frame is not sent. Every transfer then covers
      the whole block and nothing beyond it. */
  method EndFrame(d: Display) returns (r: Display, o: FlushOutcome)
    requires d.Valid()
    ensures !d.inited ==> r == d && o == Skipped
    ensures d.inited ==> r == d.(prev := d.now)
    ensures !o.Overread?
    ensures o.Sent? <==> (d.inited && !Empty(d.union) && d.scratch.Some?
      && d.scratch.value.w == RectW(d.union) && d.scratch.value.h == RectH(d.union))
    ensures o.Sent? ==> o.t.commands == AddrWindow(d.union.x0, d.union.y0, d.union.x1, d.union.y1)
    ensures o.Sent? ==> |o.t.words| == |d.scratch.value.pixels|
    ensures o.Sent? ==> forall k :: 0 <= k < |o.t.words| ==> o.t.words[k] == Swap16(d.scratch.value.pixels[k])
  {
    if !d.inited {
      return d, Skipped;
    }
    o := Skipped;
    if !Empty(d.union) && d.scratch.Some?
      && d.scratch.value.w == RectW(d.union) && d.scratch.value.h == RectH(d.union)
    {
      var t := FlushScratch(d.scratch, d.union);
      o := Sent(t.value);
    }
    r := d.(prev := d.now);
  }

  // ---------------------------------------------------------------------------
  // Two frames with a failed allocation

  const WHITE: u16 := 0xFFFF

  /** Frame 1 draws a single pixel at (5,5), so the block shrinks to 1x1.
      Frame 2 draws a line from (0,0) to (9,9), the union grows to 10x10, and
      the `realloc` for it fails. Returns the display ready for `endFrame`. */
  method TwoFramesWithFailedRealloc() returns (d: Display)
    ensures d.Valid() && d.inited
    ensures d.union == Rect(0, 0, 9, 9)
    ensures d.scratch.Some? && d.scratch.value.w == 1 && d.scratch.value.h == 1
  {
    var t;
    d := NewDisplay();
    d, t := BeginFrame(d, true);
    var paths;
    d, t, paths := DrawLines(d, DrawList([Line2D(5, 5, 5, 5, WHITE)]), true, true);
    assert NowAfter(DirtyRect.Clear(), [Line2D(5, 5, 5, 5, WHITE)]) == Rect(5, 5, 5, 5) by {
      assert [Line2D(5, 5, 5, 5, WHITE)][..0] == [];
    }
    var o;
    d, o := EndFrame(d);
    d, t := BeginFrame(d, true);
    d, t, paths := DrawLines(d, DrawList([Line2D(0, 0, 9, 9, WHITE)]), true, false);
    assert NowAfter(DirtyRect.Clear(), [Line2D(0, 0, 9, 9, WHITE)]) == Rect(0, 0, 9, 9) by {
      assert [Line2D(0, 0, 9, 9, WHITE)][..0] == [];
    }
  }

  /** As written, the second frame's `endFrame` reads 100 pixels from a
      block of one. */
  method FailedReallocOverreadsAsWritten() returns (o: FlushOutcome)
    ensures o == Overread(100, 1)
  {
    var d := TwoFramesWithFailedRealloc();
    var r;
    r, o := EndFrameAsWritten(d);
  }

  /** With the guard, the same frame is not sent. */
  method FailedReallocSkipsFrame() returns (o: FlushOutcome)
    ensures o == Skipped
  {
    var d := TwoFramesWithFailedRealloc();
    var r;
    r, o := EndFrame(d);
  }
}

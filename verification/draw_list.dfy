/** `DrawList` (src/render/DrawList.hpp): an append-only list of screen-space
    line segments with a 16-bit colour each. */
module DrawList {
  import opened Ints

  /** `Line2D`: endpoints as `int16_t`, colour as RGB565 `uint16_t`. */
  datatype Line2D = Line2D(x0: i16, y0: i16, x1: i16, y1: i16, color565: u16)

  datatype DrawList = DrawList(lines: seq<Line2D>)

  /** `clear()`. */
  function Clear(d: DrawList): (r: DrawList)
    ensures |Get(r)| == 0
  {
    DrawList([])
  }

  /** `addLine`: one segment appended at the end, the earlier ones kept in order. */
  function AddLine(d: DrawList, x0: i16, y0: i16, x1: i16, y1: i16, c: u16): (r: DrawList)
    ensures |Get(r)| == |Get(d)| + 1
    ensures Get(r)[..|Get(d)|] == Get(d)
    ensures Get(r)[|Get(d)|] == Line2D(x0, y0, x1, y1, c)
  {
    DrawList(d.lines + [Line2D(x0, y0, x1, y1, c)])
  }

  /** `get()`: the segments in the order they were added. */
  function Get(d: DrawList): seq<Line2D> {
    d.lines
  }

  /** Appending segments one by one with `addLine`. */
  function AddAll(d: DrawList, ls: seq<Line2D>): (r: DrawList)
    decreases |ls|
  {
    if |ls| == 0 then d
    else AddAll(AddLine(d, ls[0].x0, ls[0].y0, ls[0].x1, ls[0].y1, ls[0].color565), ls[1..])
  }

  /** Whatever was already in the list stays in front, and the added segments
      follow in the order they were added. */
  lemma {:induction false} AddAllAppends(d: DrawList, ls: seq<Line2D>)
    ensures Get(AddAll(d, ls)) == Get(d) + ls
    decreases |ls|
  {
    if |ls| > 0 {
      var d1 := AddLine(d, ls[0].x0, ls[0].y0, ls[0].x1, ls[0].y1, ls[0].color565);
      assert Get(d1) == Get(d) + [ls[0]];
      AddAllAppends(d1, ls[1..]);
      assert Get(d) + [ls[0]] + ls[1..] == Get(d) + ls;
    }
  }

  /** `get()` after `clear()` and a series of `addLine` calls returns exactly
      the segments added, in insertion order. */
  lemma GetAfterClear(d: DrawList, ls: seq<Line2D>)
    ensures Get(AddAll(Clear(d), ls)) == ls
  {
    AddAllAppends(Clear(d), ls);
  }
}

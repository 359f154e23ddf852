/**
  Frames and the grid renderer: the cell filter and the key set that
  `renderFrameForJukebox` builds for one frame. A frame is a grid of RGBA
  cells, `frame[y][x]`; sampling the image at `(x / width, y / height)` is
  abstracted as reading cell `(x, y)`. The transforms, the text-display
  settings and the anchor position are not part of the model: a display entry
  is recorded by its key and its background colour.
*/
module Frames {

  type Channel = c: int | 0 <= c < 256

  datatype Color = Color(red: Channel, green: Channel, blue: Channel, alpha: Channel)

  /** Rows of cells, `frame[y][x]`. */
  type Frame = seq<seq<Color>>

  predicate WellShaped(frame: Frame, width: nat, height: nat) {
    |frame| == height && forall y :: 0 <= y < height ==> |frame[y]| == width
  }

  /** The renderer skips a cell that is fully transparent or pure black. */
  predicate Hidden(c: Color) {
    c.alpha == 0 || (c.red == 0 && c.green == 0 && c.blue == 0)
  }

  datatype Side = Forward | Backward

  /** The key of a display entry; the source keys by the pair
      `("forward_" + x, y)` or `("backward_" + x, y)`, which determines the side
      and both coordinates. */
  datatype CellKey = CellKey(side: Side, x: int, y: int)

  /** A display group: each entry's key and background colour. */
  type DisplayGroup = map<CellKey, Color>

  /** `g` is exactly the group rendered for `frame`: one forward entry per
      visible cell, a backward twin exactly when `doubleSided`, each with its
      cell's colour, and nothing else. */
  ghost predicate RendersFrame(g: DisplayGroup, frame: Frame, width: nat, height: nat, doubleSided: bool)
    requires WellShaped(frame, width, height)
  {
    && (forall k :: k in g <==>
          0 <= k.y < height && 0 <= k.x < width && !Hidden(frame[k.y][k.x])
          && (k.side == Backward ==> doubleSided))
    && (forall k :: k in g ==> g[k] == frame[k.y][k.x])
  }

  /** The number of visible cells among the first `n` of `row`. */
  function VisibleInRow(row: seq<Color>, n: nat): nat
    requires n <= |row|
  {
    if n == 0 then 0 else VisibleInRow(row, n - 1) + (if Hidden(row[n - 1]) then 0 else 1)
  }

  /** The number of visible cells in the first `rows` rows. */
  function VisibleCells(frame: Frame, width: nat, height: nat, rows: nat): nat
    requires WellShaped(frame, width, height) && rows <= height
  {
    if rows == 0 then 0 else VisibleCells(frame, width, height, rows - 1) + VisibleInRow(frame[rows - 1], width)
  }

  /** Entries per visible cell. */
  function Sides(doubleSided: bool): nat {
    if doubleSided then 2 else 1
  }

  /** The number of entries the first `n` cells of `row` contribute. */
  function EntriesInRow(row: seq<Color>, n: nat, doubleSided: bool): nat
    requires n <= |row|
  {
    if n == 0 then 0 else EntriesInRow(row, n - 1, doubleSided) + (if Hidden(row[n - 1]) then 0 else Sides(doubleSided))
  }

  /** The number of entries the first `rows` rows contribute. */
  function Entries(frame: Frame, width: nat, height: nat, doubleSided: bool, rows: nat): nat
    requires WellShaped(frame, width, height) && rows <= height
  {
    if rows == 0 then 0 else Entries(frame, width, height, doubleSided, rows - 1) + EntriesInRow(frame[rows - 1], width, doubleSided)
  }

  lemma {:induction false} EntriesInRowCount(row: seq<Color>, n: nat, doubleSided: bool)
    requires n <= |row|
    ensures EntriesInRow(row, n, doubleSided) == Sides(doubleSided) * VisibleInRow(row, n)
  {
    if n > 0 {
      EntriesInRowCount(row, n - 1, doubleSided);
    }
  }

  /** Each visible cell contributes one entry, or two when double-sided. */
  lemma {:induction false} EntriesCount(frame: Frame, width: nat, height: nat, doubleSided: bool, rows: nat)
    requires WellShaped(frame, width, height) && rows <= height
    ensures Entries(frame, width, height, doubleSided, rows) == Sides(doubleSided) * VisibleCells(frame, width, height, rows)
  {
    if rows > 0 {
      EntriesCount(frame, width, height, doubleSided, rows - 1);
      EntriesInRowCount(frame[rows - 1], width, doubleSided);
    }
  }

  /** Cell `(x, y)` comes, in row-major order, before position `(col, row)`. */
  predicate Before(x: int, y: int, col: int, row: int) {
    y < row || (y == row && x < col)
  }

  /** The loop invariant of `RenderFrame`: the group holds exactly the entries
      of the cells visited so far. */
  ghost predicate RendersPrefix(g: DisplayGroup, frame: Frame, width: nat, height: nat, doubleSided: bool, col: int, row: int)
    requires WellShaped(frame, width, height)
  {
    && (forall k :: k in g <==>
          0 <= k.y < height && 0 <= k.x < width && Before(k.x, k.y, col, row)
          && !Hidden(frame[k.y][k.x]) && (k.side == Backward ==> doubleSided))
    && (forall k :: k in g ==> g[k] == frame[k.y][k.x])
  }

  /** Skipping a hidden cell moves the visited prefix on by one cell. */
  lemma SkipCell(g: DisplayGroup, frame: Frame, width: nat, height: nat, doubleSided: bool, x: nat, y: nat)
    requires WellShaped(frame, width, height) && x < width && y < height && Hidden(frame[y][x])
    requires RendersPrefix(g, frame, width, height, doubleSided, x, y)
    ensures RendersPrefix(g, frame, width, height, doubleSided, x + 1, y)
  {
  }

  /** Adding a visible cell's forward entry, single-sided, moves the
      visited prefix on by one cell and adds one entry. */
  lemma ShowForward(g: DisplayGroup, frame: Frame, width: nat, height: nat, x: nat, y: nat)
    requires WellShaped(frame, width, height) && x < width && y < height && !Hidden(frame[y][x])
    requires RendersPrefix(g, frame, width, height, false, x, y)
    ensures RendersPrefix(g[CellKey(Forward, x, y) := frame[y][x]], frame, width, height, false, x + 1, y)
    ensures |g[CellKey(Forward, x, y) := frame[y][x]]| == |g| + 1
  {
    assert CellKey(Forward, x, y) !in g;
  }

  /** Adding a visible cell's forward and backward entries, double-sided,
      moves the visited prefix on by one cell and adds two entries. */
  lemma ShowBothSides(g: DisplayGroup, frame: Frame, width: nat, height: nat, x: nat, y: nat)
    requires WellShaped(frame, width, height) && x < width && y < height && !Hidden(frame[y][x])
    requires RendersPrefix(g, frame, width, height, true, x, y)
    ensures var c := frame[y][x];
            var g' := g[CellKey(Forward, x, y) := c][CellKey(Backward, x, y) := c];
            RendersPrefix(g', frame, width, height, true, x + 1, y) && |g'| == |g| + 2
  {
    assert CellKey(Forward, x, y) !in g && CellKey(Backward, x, y) !in g;
  }

  /** The end of a row is the start of the next one. */
  lemma NextRow(g: DisplayGroup, frame: Frame, width: nat, height: nat, doubleSided: bool, y: nat)
    requires WellShaped(frame, width, height) && y < height
    requires RendersPrefix(g, frame, width, height, doubleSided, width, y)
    ensures RendersPrefix(g, frame, width, height, doubleSided, 0, y + 1)
  {
  }

  /** Nothing is visited before the first cell. */
  lemma EmptyPrefix(frame: Frame, width: nat, height: nat, doubleSided: bool)
    requires WellShaped(frame, width, height)
    ensures RendersPrefix(map[], frame, width, height, doubleSided, 0, 0)
  {
  }

  /** Once every row is visited, the prefix is the whole frame. */
  lemma CompletePrefix(g: DisplayGroup, frame: Frame, width: nat, height: nat, doubleSided: bool)
    requires WellShaped(frame, width, height)
    requires RendersPrefix(g, frame, width, height, doubleSided, 0, height)
    ensures RendersFrame(g, frame, width, height, doubleSided)
  {
  }

  /** The body of the inner loop of `renderFrameForJukebox` for cell
      `(x, y)`: a visible cell gets a forward entry, and a backward twin when
      double-sided; a hidden cell is skipped. */
  method RenderCell(g0: DisplayGroup, frame: Frame, width: nat, height: nat, doubleSided: bool, x: nat, y: nat,
                    ghost done: nat) returns (g: DisplayGroup)
    requires WellShaped(frame, width, height) && x < width && y < height
    requires RendersPrefix(g0, frame, width, height, doubleSided, x, y)
    requires |g0| == done + EntriesInRow(frame[y], x, doubleSided)
    ensures RendersPrefix(g, frame, width, height, doubleSided, x + 1, y)
    ensures |g| == done + EntriesInRow(frame[y], x + 1, doubleSided)
  {
    var color := frame[y][x];
    g := g0;
    if Hidden(color) {
      SkipCell(g0, frame, width, height, doubleSided, x, y);
    } else {
      g := g[CellKey(Forward, x, y) := color];
      if doubleSided {
        g := g[CellKey(Backward, x, y) := color];
        ShowBothSides(g0, frame, width, height, x, y);
      } else {
        ShowForward(g0, frame, width, height, x, y);
      }
    }
  }

  /** The inner loop of `renderFrameForJukebox`: visits row `y` from left to
      right, adding the entries of its visible cells. */
  method RenderRow(g0: DisplayGroup, frame: Frame, width: nat, height: nat, doubleSided: bool, y: nat) returns (g: DisplayGroup)
    requires WellShaped(frame, width, height) && y < height
    requires RendersPrefix(g0, frame, width, height, doubleSided, 0, y)
    ensures RendersPrefix(g, frame, width, height, doubleSided, 0, y + 1)
    ensures |g| == |g0| + EntriesInRow(frame[y], width, doubleSided)
  {
    g := g0;
    var x := 0;
    while x < width
      invariant 0 <= x <= width
      invariant RendersPrefix(g, frame, width, height, doubleSided, x, y)
      invariant |g| == |g0| + EntriesInRow(frame[y], x, doubleSided)
    {
      g := RenderCell(g, frame, width, height, doubleSided, x, y, |g0|);
      x := x + 1;
    }
    NextRow(g, frame, width, height, doubleSided, y);
  }

  /** The cell loops of `renderFrameForJukebox`: the group is rebuilt from
      empty, so keys of earlier frames never survive. */
  method RenderFrame(frame: Frame, width: nat, height: nat, doubleSided: bool) returns (g: DisplayGroup)
    requires WellShaped(frame, width, height)
    ensures RendersFrame(g, frame, width, height, doubleSided)
    ensures |g| == Sides(doubleSided) * VisibleCells(frame, width, height, height)
  {
    g := map[];
    EmptyPrefix(frame, width, height, doubleSided);
    var y := 0;
    while y < height
      invariant 0 <= y <= height
      invariant RendersPrefix(g, frame, width, height, doubleSided, 0, y)
      invariant |g| == Entries(frame, width, height, doubleSided, y)
    {
      g := RenderRow(g, frame, width, height, doubleSided, y);
      y := y + 1;
    }
    CompletePrefix(g, frame, width, height, doubleSided);
    EntriesCount(frame, width, height, doubleSided, height);
  }

  /** Two groups that both render a frame are the same group. */
  lemma RendersFrameUnique(g1: DisplayGroup, g2: DisplayGroup, frame: Frame, width: nat, height: nat, doubleSided: bool)
    requires WellShaped(frame, width, height)
    requires RendersFrame(g1, frame, width, height, doubleSided)
    requires RendersFrame(g2, frame, width, height, doubleSided)
    ensures g1 == g2
  {
    assert g1.Keys == g2.Keys;
  }

  /** A transparent or black cell never has an entry on either side, and
      whatever a group held for it under an earlier frame is gone. */
  lemma HiddenCellHasNoEntry(g: DisplayGroup, frame: Frame, width: nat, height: nat, doubleSided: bool, x: nat, y: nat, side: Side)
    requires WellShaped(frame, width, height) && RendersFrame(g, frame, width, height, doubleSided)
    requires x < width && y < height && Hidden(frame[y][x])
    ensures CellKey(side, x, y) !in g
  {
  }

  /** A two-by-one frame whose left cell is opaque red and whose right cell is
      fully transparent renders, single-sided, to one forward entry. */
  lemma TwoCellExample(g: DisplayGroup)
    requires RendersFrame(g, [[Color(255, 0, 0, 255), Color(0, 0, 0, 0)]], 2, 1, false)
    ensures g == map[CellKey(Forward, 0, 0) := Color(255, 0, 0, 255)]
  {
    var frame: Frame := [[Color(255, 0, 0, 255), Color(0, 0, 0, 0)]];
    var key := CellKey(Forward, 0, 0);
    assert key in g;
    forall k | k in g
      ensures k == key
    {
      assert k.y == 0 && k.x < 2 && !Hidden(frame[0][k.x]);
    }
    assert g.Keys == {key};
  }
}

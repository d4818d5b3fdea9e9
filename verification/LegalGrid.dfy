/** The legaliser's pixel grid (Grid.cpp, Opendp.cpp): which cell owns which site, and the grid
    arithmetic that turns a cell's location into the rectangle of sites it must own. */
module LegalGrid {
  import opened IntMath

  const NOBODY: int := -1

  datatype Power = Undefined | VDD | VSS

  /** `group` is -1 for a cell or a site that belongs to no group; `block` marks macros. */
  datatype Cell = Cell(width: int, height: int, padLeft: int, padRight: int, group: int, fixed: bool, multiRow: bool,
                       block: bool, topPower: Power, initX: int, initY: int)

  /** `hopeless` marks sites too far from any row for the search to start there. */
  datatype Site = Site(valid: bool, group: int, hopeless: bool)

  /** Grid rectangle, upper ends excluded. */
  datatype Rect = Rect(x0: int, x1: int, y0: int, y1: int) {
    predicate Has(i: int, j: int) {
      x0 <= i < x1 && y0 <= j < y1
    }
  }

  /** The part of a cell that placement changes. */
  datatype Loc = Loc(x: int, y: int, placed: bool, hold: bool)

  datatype Core = Core(cols: int, rows: int, siteWidth: int, rowHeight: int, cells: seq<Cell>, sites: seq<seq<Site>>) {
    ghost predicate Valid() {
      && siteWidth > 0 && rowHeight > 0 && cols >= 0 && rows >= 0
      && |sites| == rows && (forall j :: 0 <= j < rows ==> |sites[j]| == cols)
      && forall c :: 0 <= c < |cells| ==>
           cells[c].width > 0 && cells[c].height > 0 && cells[c].padLeft >= 0 && cells[c].padRight >= 0
    }

    predicate InGrid(i: int, j: int) {
      0 <= i < cols && 0 <= j < rows
    }

    function PaddedWidth(c: nat): int
      requires c < |cells| && siteWidth > 0
    {
      DivCeil(cells[c].width + (cells[c].padLeft + cells[c].padRight) * siteWidth, siteWidth)
    }

    function GridHeight(c: nat): int
      requires c < |cells| && rowHeight > 0
    {
      DivCeil(cells[c].height, rowHeight)
    }

    /** A cell as wide as a site and as high as a row. */
    lemma {:induction false} OneSite(c: nat)
      requires c < |cells| && siteWidth > 0 && rowHeight > 0 && cells[c].width == siteWidth && cells[c].height == rowHeight
      ensures PaddedWidth(c) == 1 + cells[c].padLeft + cells[c].padRight && GridHeight(c) == 1
    {
      CeilShift(0, 1 + cells[c].padLeft + cells[c].padRight, siteWidth);
      CeilShift(0, 1, rowHeight);
      assert siteWidth + (cells[c].padLeft + cells[c].padRight) * siteWidth == (1 + cells[c].padLeft + cells[c].padRight) * siteWidth;
    }

    function GridPaddedX(c: nat, loc: Loc): int
      requires c < |cells| && siteWidth > 0
    {
      TruncDiv(loc.x - cells[c].padLeft * siteWidth, siteWidth)
    }

    function GridPaddedEndX(c: nat, loc: Loc): int
      requires c < |cells| && siteWidth > 0
    {
      DivCeil(loc.x + cells[c].width + cells[c].padRight * siteWidth, siteWidth)
    }

    function GridY(loc: Loc): int
      requires rowHeight > 0
    {
      TruncDiv(loc.y, rowHeight)
    }

    function GridEndY(c: nat, loc: Loc): int
      requires c < |cells| && rowHeight > 0
    {
      DivCeil(loc.y + cells[c].height, rowHeight)
    }

    /** The padded footprint of a cell at its location. */
    function Foot(c: nat, loc: Loc): Rect
      requires c < |cells| && siteWidth > 0 && rowHeight > 0
    {
      Rect(GridPaddedX(c, loc), GridPaddedEndX(c, loc), GridY(loc), GridEndY(c, loc))
    }

    /** The sites painted when the cell is put down with its padded corner at (gx, gy). */
    function PaintRect(c: nat, gx: int, gy: int): Rect
      requires c < |cells| && siteWidth > 0 && rowHeight > 0
    {
      Rect(gx, gx + PaddedWidth(c), gy, gy + GridHeight(c))
    }

    /** The location that painting at (gx, gy) gives the cell. */
    function PaintLoc(c: nat, gx: int, gy: int): Loc
      requires c < |cells|
    {
      Loc((gx + cells[c].padLeft) * siteWidth, gy * rowHeight, true, false)
    }

    /** What is painted is exactly what the footprint arithmetic finds again later. */
    lemma {:induction false} FootOfPaint(c: nat, gx: int, gy: int, loc: Loc)
      requires Valid() && c < |cells| && gx >= 0 && gy >= 0
      requires loc.x == PaintLoc(c, gx, gy).x && loc.y == PaintLoc(c, gx, gy).y
      ensures Foot(c, loc) == PaintRect(c, gx, gy)
      ensures PaddedWidth(c) >= 1 && GridHeight(c) >= 1
    {
      var cell := cells[c];
      assert loc.x - cell.padLeft * siteWidth == gx * siteWidth;
      DivMultiple(gx, siteWidth);
      DivMultiple(gy, rowHeight);
      CeilShift(cell.width + (cell.padLeft + cell.padRight) * siteWidth, gx, siteWidth);
      assert loc.x + cell.width + cell.padRight * siteWidth
          == cell.width + (cell.padLeft + cell.padRight) * siteWidth + gx * siteWidth;
      CeilShift(cell.height, gy, rowHeight);
      NonNegative(cell.padLeft + cell.padRight, siteWidth);
      CeilPositive(cell.width + (cell.padLeft + cell.padRight) * siteWidth, siteWidth);
      CeilPositive(cell.height, rowHeight);
    }
  }

  // ----- the invariant, on the contents of the grid: `g[j][i]` owns site i of row j

  type Grid = seq<seq<int>>

  ghost predicate Shaped(core: Core, g: Grid) {
    |g| == core.rows && forall j :: 0 <= j < |g| ==> |g[j]| == core.cols
  }

  /** Who owns a site; nobody outside the grid. */
  ghost function Owner(core: Core, g: Grid, i: int, j: int): int
    requires Shaped(core, g)
  {
    if core.InGrid(i, j) then g[j][i] else NOBODY
  }

  /** Sites of a rectangle are all in the grid, valid and of the cell's group. */
  ghost predicate Suits(core: Core, c: nat, r: Rect)
    requires core.Valid() && c < |core.cells|
  {
    forall i, j {:trigger r.Has(i, j)} :: r.Has(i, j) ==>
      core.InGrid(i, j) && core.sites[j][i].valid && core.sites[j][i].group == core.cells[c].group
  }

  ghost predicate Free(core: Core, g: Grid, r: Rect)
    requires Shaped(core, g)
  {
    forall i, j {:trigger r.Has(i, j)} :: r.Has(i, j) ==> Owner(core, g, i, j) == NOBODY
  }

  /** Painting the rectangle meets no owned site and stays inside the grid. */
  ghost predicate Paintable(core: Core, g: Grid, r: Rect)
    requires Shaped(core, g)
  {
    forall i, j {:trigger r.Has(i, j)} :: r.Has(i, j) ==> core.InGrid(i, j) && Owner(core, g, i, j) == NOBODY
  }

  /** Where a cell may be put down. */
  ghost predicate Fits(core: Core, g: Grid, c: nat, gx: int, gy: int)
    requires core.Valid() && c < |core.cells| && Shaped(core, g)
  {
    && gx >= 0 && gy >= 0
    && Suits(core, c, core.PaintRect(c, gx, gy)) && Free(core, g, core.PaintRect(c, gx, gy))
  }

  ghost predicate Movable(core: Core, c: int) {
    0 <= c < |core.cells| && !core.cells[c].fixed
  }

  /** The cell's padded corner is on a site corner of the grid. */
  ghost predicate Aligned(core: Core, c: nat, loc: Loc)
    requires c < |core.cells|
  {
    exists gx: nat, gy: nat {:trigger core.PaintLoc(c, gx, gy)} ::
      loc.x == core.PaintLoc(c, gx, gy).x && loc.y == core.PaintLoc(c, gx, gy).y
  }

  /** A placed cell sits on a site corner, on suitable sites, and owns all of them. */
  ghost predicate Settled(core: Core, g: Grid, c: nat, loc: Loc)
    requires core.Valid() && c < |core.cells| && Shaped(core, g)
  {
    && Aligned(core, c, loc) && Suits(core, c, core.Foot(c, loc))
    && forall i, j {:trigger core.Foot(c, loc).Has(i, j)} :: core.Foot(c, loc).Has(i, j) ==> Owner(core, g, i, j) == c
  }

  /** Every placed movable cell owns its whole footprint, and a movable cell owns nothing else. */
  ghost predicate Consistent(core: Core, g: Grid, loc: seq<Loc>)
    requires core.Valid() && Shaped(core, g) && |loc| == |core.cells|
  {
    && (forall c: nat {:trigger loc[c]} :: c < |loc| && Movable(core, c) && loc[c].placed ==> Settled(core, g, c, loc[c]))
    && (forall i, j {:trigger Owner(core, g, i, j)} :: Movable(core, Owner(core, g, i, j)) ==>
          var c := Owner(core, g, i, j); loc[c].placed && core.Foot(c, loc[c]).Has(i, j))
  }

  /** Hence footprints of different placed cells never meet. */
  lemma {:induction false} FootprintsDisjoint(core: Core, g: Grid, loc: seq<Loc>, c: nat, d: nat, i: int, j: int)
    requires core.Valid() && Shaped(core, g) && |loc| == |core.cells| && Consistent(core, g, loc)
    requires Movable(core, c) && Movable(core, d) && c != d && loc[c].placed && loc[d].placed
    ensures !(core.Foot(c, loc[c]).Has(i, j) && core.Foot(d, loc[d]).Has(i, j))
  {
    assert Settled(core, g, c, loc[c]) && Settled(core, g, d, loc[d]);
  }

  /** `g'` is `g` with the rectangle handed to `who`. */
  ghost predicate Filled(core: Core, g: Grid, g': Grid, r: Rect, who: int)
    requires Shaped(core, g) && Shaped(core, g')
  {
    forall i, j {:trigger Owner(core, g', i, j)} :: core.InGrid(i, j) ==>
      Owner(core, g', i, j) == if r.Has(i, j) then who else Owner(core, g, i, j)
  }

  /** Erasing a placed cell's footprint keeps the grid consistent. */
  lemma {:induction false} EraseKeeps(core: Core, g: Grid, g': Grid, loc: seq<Loc>, c: nat, l: Loc)
    requires core.Valid() && Shaped(core, g) && Shaped(core, g') && |loc| == |core.cells| && Consistent(core, g, loc)
    requires Movable(core, c) && loc[c].placed && !l.placed
    requires Filled(core, g, g', core.Foot(c, loc[c]), NOBODY)
    ensures Consistent(core, g', loc[c := l])
    ensures forall i, j {:trigger Owner(core, g', i, j)} :: Owner(core, g', i, j) == if Owner(core, g, i, j) == c then NOBODY else Owner(core, g, i, j)
  {
    assert Settled(core, g, c, loc[c]);
    var r := core.Foot(c, loc[c]);
    forall d: nat | d < |loc| && Movable(core, d) && loc[c := l][d].placed
      ensures Settled(core, g', d, loc[c := l][d])
    {
      assert Settled(core, g, d, loc[d]);
      forall i, j | core.Foot(d, loc[d]).Has(i, j)
        ensures Owner(core, g', i, j) == d
      {
        FootprintsDisjoint(core, g, loc, c, d, i, j);
      }
    }
  }

  /** Painting a cell where it fits keeps the grid consistent. */
  lemma {:induction false} PaintKeeps(core: Core, g: Grid, g': Grid, loc: seq<Loc>, c: nat, gx: int, gy: int, l: Loc)
    requires core.Valid() && Shaped(core, g) && Shaped(core, g') && |loc| == |core.cells| && Consistent(core, g, loc)
    requires Movable(core, c) && !loc[c].placed && Fits(core, g, c, gx, gy)
    requires l.x == core.PaintLoc(c, gx, gy).x && l.y == core.PaintLoc(c, gx, gy).y && l.placed
    requires Filled(core, g, g', core.PaintRect(c, gx, gy), c)
    ensures Consistent(core, g', loc[c := l])
  {
    core.FootOfPaint(c, gx, gy, l);
    var loc' := loc[c := l];
    forall d: nat | d < |loc| && Movable(core, d) && loc'[d].placed
      ensures Settled(core, g', d, loc'[d])
    {
      if d != c {
        assert Settled(core, g, d, loc[d]);
      }
    }
  }

  /** One of the first n cells is fixed and covers the site. */
  ghost predicate FixedThere(core: Core, loc: seq<Loc>, n: nat, i: int, j: int)
    requires core.Valid() && n <= |loc| == |core.cells|
  {
    exists c :: 0 <= c < n && FixedOver(core, loc, c, i, j)
  }

  /** Cell f is the last of the first n that is fixed and covers the site. */
  ghost predicate LastFixed(core: Core, loc: seq<Loc>, n: nat, i: int, j: int, f: int)
    requires core.Valid() && n <= |loc| == |core.cells|
  {
    0 <= f < n && FixedOver(core, loc, f, i, j) && forall c :: f < c < n ==> !FixedOver(core, loc, c, i, j)
  }

  ghost predicate FixedOver(core: Core, loc: seq<Loc>, c: nat, i: int, j: int)
    requires core.Valid() && c < |loc| == |core.cells|
  {
    core.cells[c].fixed && core.Foot(c, loc[c]).Has(i, j)
  }

  /** A site some of the first n cells is fixed over has the last such cell; the others are as before. */
  ghost predicate FixedPainted(core: Core, g: Grid, g': Grid, loc: seq<Loc>, n: nat)
    requires core.Valid() && Shaped(core, g) && Shaped(core, g') && n <= |loc| == |core.cells|
  {
    forall i, j {:trigger Owner(core, g', i, j)} :: core.InGrid(i, j) ==>
      if FixedThere(core, loc, n, i, j) then LastFixed(core, loc, n, i, j, Owner(core, g', i, j))
      else Owner(core, g', i, j) == Owner(core, g, i, j)
  }

  /** Cell n's turn. */
  lemma {:induction false} PaintsFixed(core: Core, g: Grid, mid: Grid, g': Grid, loc: seq<Loc>, n: nat)
    requires core.Valid() && Shaped(core, g) && Shaped(core, mid) && Shaped(core, g') && n < |loc| == |core.cells|
    requires FixedPainted(core, g, mid, loc, n)
    requires if core.cells[n].fixed then Filled(core, mid, g', core.Foot(n, loc[n]), n) else g' == mid
    ensures FixedPainted(core, g, g', loc, n + 1)
  {
    hide Core.Foot;
    forall i, j | core.InGrid(i, j)
      ensures if FixedThere(core, loc, n + 1, i, j) then LastFixed(core, loc, n + 1, i, j, Owner(core, g', i, j))
              else Owner(core, g', i, j) == Owner(core, g, i, j)
    {
      assert FixedThere(core, loc, n + 1, i, j) <==> FixedThere(core, loc, n, i, j) || FixedOver(core, loc, n, i, j);
      assert FixedOver(core, loc, n, i, j) ==> Owner(core, g', i, j) == n;
      assert !FixedOver(core, loc, n, i, j) ==> Owner(core, g', i, j) == Owner(core, mid, i, j);
    }
  }

  lemma FixedConsistent(core: Core, g: Grid, g': Grid, loc: seq<Loc>)
    requires core.Valid() && Shaped(core, g) && Shaped(core, g') && |loc| == |core.cells|
    requires Consistent(core, g, loc) && forall c :: 0 <= c < |loc| && Movable(core, c) ==> !loc[c].placed
    requires FixedPainted(core, g, g', loc, |loc|)
    ensures Consistent(core, g', loc)
  {
    forall i, j
      ensures !Movable(core, Owner(core, g', i, j))
    {
      if core.InGrid(i, j) && FixedThere(core, loc, |loc|, i, j) {
        assert LastFixed(core, loc, |loc|, i, j, Owner(core, g', i, j));
      } else if core.InGrid(i, j) {
        assert Owner(core, g', i, j) == Owner(core, g, i, j);
      }
    }
  }
}

/** What refining and swapping do to cells on the grid and to the total displacement, as relations between
    states (Place.cpp: refineMove, swapCells, distChange). */
module LegalMoves {
  import opened IntMath
  import opened LegalGrid
  import opened LegalSearch

  /** Distance of a location from where the cell wants to be. */
  function Displacement(core: Core, c: nat, x: int, y: int): int
    requires c < |core.cells|
  {
    Abs(x - core.cells[c].initX) + Abs(y - core.cells[c].initY)
  }

  /** It is nothing at the wish, and every unit away from it counts one. */
  lemma DisplacementCounts(core: Core, c: nat, x: int, y: int)
    requires c < |core.cells|
    ensures var cell := core.cells[c];
      && Displacement(core, c, cell.initX, cell.initY) == 0
      && (x >= cell.initX ==> Displacement(core, c, x + 1, y) == Displacement(core, c, x, y) + 1)
      && (x <= cell.initX ==> Displacement(core, c, x - 1, y) == Displacement(core, c, x, y) + 1)
      && (y >= cell.initY ==> Displacement(core, c, x, y + 1) == Displacement(core, c, x, y) + 1)
      && (y <= cell.initY ==> Displacement(core, c, x, y - 1) == Displacement(core, c, x, y) + 1)
  {
  }

  function DistChange(core: Core, loc: seq<Loc>, c: nat, x: int, y: int): int
    requires c < |core.cells| && c < |loc|
  {
    Displacement(core, c, x, y) - Displacement(core, c, loc[c].x, loc[c].y)
  }

  /** Total displacement of the first n cells. */
  ghost function TotalDisplacement(core: Core, ls: seq<Loc>, n: nat): int
    requires n <= |ls| == |core.cells|
  {
    if n == 0 then 0 else TotalDisplacement(core, ls, n - 1) + Displacement(core, n - 1, ls[n - 1].x, ls[n - 1].y)
  }

  lemma {:induction false} DisplacementUpdate(core: Core, ls: seq<Loc>, n: nat, c: nat, l: Loc)
    requires n <= |ls| == |core.cells| && c < |ls|
    ensures TotalDisplacement(core, ls[c := l], n) == TotalDisplacement(core, ls, n)
      + (if c < n then DistChange(core, ls, c, l.x, l.y) else 0)
  {
    if n > 0 {
      DisplacementUpdate(core, ls, n - 1, c, l);
    }
  }

  // ----- refining

  /** The search from the cell's start ends at p, near enough and nearer to the wish by the distance test. */
  ghost predicate Refines(rules: Rules, g: Grid, loc: seq<Loc>, c: nat, p: PixelPt) {
    var core := rules.core;
    && core.Valid() && |loc| == |core.cells| && Shaped(core, g) && Consistent(core, g, loc) && Movable(core, c)
    && var start := rules.StartPt(g, loc, c);
    && rules.Searched(g, c, start.0, start.1, p) && p.At?
    && Abs(start.0 - p.x) <= rules.limits.maxX && Abs(start.1 - p.y) <= rules.limits.maxY
    && DistChange(core, loc, c, p.x * core.siteWidth, p.y * core.rowHeight) < 0
  }

  function Refined(core: Core, loc: seq<Loc>, c: nat, p: PixelPt): seq<Loc>
    requires c < |loc| == |core.cells| && p.At?
  {
    loc[c := core.PaintLoc(c, p.x, p.y).(hold := !loc[c].placed && loc[c].hold)]
  }

  lemma {:induction false} RefinesOnce(rules: Rules, g: Grid, loc: seq<Loc>, c: nat, p: PixelPt)
    requires rules.core.Valid() && c < |loc| == |rules.core.cells| && Shaped(rules.core, g)
    requires var start := rules.StartPt(g, loc, c); rules.Searched(g, c, start.0, start.1, p)
    ensures forall q :: Refines(rules, g, loc, c, q) ==> q == p
  {
    forall q | Refines(rules, g, loc, c, q)
      ensures q == p
    {
      var start := rules.StartPt(g, loc, c);
      rules.SearchedOnce(g, c, start.0, start.1, p, q);
    }
  }

  /** Without left padding the distance test is exact. */
  lemma {:induction false} RefineLowers(rules: Rules, g: Grid, loc: seq<Loc>, c: nat, p: PixelPt)
    requires Refines(rules, g, loc, c, p) && rules.core.cells[c].padLeft == 0
    ensures TotalDisplacement(rules.core, Refined(rules.core, loc, c, p), |loc|) < TotalDisplacement(rules.core, loc, |loc|)
  {
    DisplacementUpdate(rules.core, loc, |loc|, c, Refined(rules.core, loc, c, p)[c]);
  }

  // ----- swapping

  /** Two different movable cells of equal size, neither on hold. */
  ghost predicate Swappable(core: Core, loc: seq<Loc>, c: nat, d: nat)
    requires c < |loc| == |core.cells| && d < |loc|
  {
    && c != d && !loc[c].hold && !loc[d].hold
    && core.cells[c].width == core.cells[d].width && core.cells[c].height == core.cells[d].height
    && !core.cells[c].fixed && !core.cells[d].fixed
  }

  /** What the swap's distance test adds up. */
  function SwapChange(core: Core, loc: seq<Loc>, c: nat, d: nat): int
    requires c < |loc| == |core.cells| && d < |loc|
  {
    DistChange(core, loc, c, loc[d].x, loc[d].y) + DistChange(core, loc, d, loc[c].x, loc[c].y)
  }

  ghost predicate SwapWanted(core: Core, loc: seq<Loc>, c: nat, d: nat)
    requires c < |loc| == |core.cells| && d < |loc|
  {
    Swappable(core, loc, c, d) && SwapChange(core, loc, c, d) < 0
  }

  lemma WantedMovable(core: Core, loc: seq<Loc>, c: nat, d: nat)
    requires c < |loc| == |core.cells| && d < |loc| && SwapWanted(core, loc, c, d)
    ensures Movable(core, c) && Movable(core, d) && c != d && !loc[c].hold && !loc[d].hold
  {
  }

  predicate AreCells(pairs: seq<(nat, nat)>, n: nat) {
    forall k :: 0 <= k < |pairs| ==> pairs[k].0 < n && pairs[k].1 < n
  }

  /** Where the cells are after the pairs in turn have been swapped if wanted, and how many swaps that takes. */
  ghost function Annealed(core: Core, loc: seq<Loc>, pairs: seq<(nat, nat)>): (r: (seq<Loc>, nat))
    requires core.Valid() && |loc| == |core.cells| && AreCells(pairs, |loc|)
    ensures |r.0| == |loc|
  {
    if pairs == [] then (loc, 0)
    else
      var n := |pairs| - 1;
      var (l, count) := Annealed(core, loc, pairs[..n]);
      if SwapWanted(core, l, pairs[n].0, pairs[n].1) then (Swapped(core, l, pairs[n].0, pairs[n].1), count + 1) else (l, count)
  }

  /** The sites cell c is painted on when it goes to d's place. */
  function SwapRect(core: Core, loc: seq<Loc>, c: nat, d: nat): Rect
    requires core.Valid() && c < |loc| == |core.cells| && d < |loc|
  {
    core.PaintRect(c, core.GridPaddedX(d, loc[d]), core.GridY(loc[d]))
  }

  /** There is room for both cells in each other's places: the two rectangles do not meet, and nobody but
      these two cells owns a site of them. */
  ghost predicate SwapRoom(core: Core, g: Grid, loc: seq<Loc>, c: nat, d: nat)
    requires core.Valid() && c < |loc| == |core.cells| && d < |loc| && Shaped(core, g)
  {
    RoomFor(core, g, c, d, SwapRect(core, loc, c, d), SwapRect(core, loc, d, c))
  }

  ghost predicate RoomFor(core: Core, g: Grid, c: nat, d: nat, r: Rect, s: Rect)
    requires Shaped(core, g)
  {
    && (forall i, j {:trigger r.Has(i, j)} {:trigger s.Has(i, j)} :: !(r.Has(i, j) && s.Has(i, j)))
    && (forall i, j {:trigger r.Has(i, j)} :: r.Has(i, j) ==> core.InGrid(i, j) && Owner(core, g, i, j) in {NOBODY, c, d})
    && (forall i, j {:trigger s.Has(i, j)} :: s.Has(i, j) ==> core.InGrid(i, j) && Owner(core, g, i, j) in {NOBODY, c, d})
  }

  /** The sites there are valid and of the cells' groups. */
  ghost predicate SwapSuits(core: Core, loc: seq<Loc>, c: nat, d: nat)
    requires core.Valid() && c < |loc| == |core.cells| && d < |loc|
  {
    Suits(core, c, SwapRect(core, loc, c, d)) && Suits(core, d, SwapRect(core, loc, d, c))
  }

  function Swapped(core: Core, loc: seq<Loc>, c: nat, d: nat): (r: seq<Loc>)
    requires core.Valid() && c < |loc| == |core.cells| && d < |loc|
    ensures |r| == |loc|
  {
    loc[c := core.PaintLoc(c, core.GridPaddedX(d, loc[d]), core.GridY(loc[d]))]
       [d := core.PaintLoc(d, core.GridPaddedX(c, loc[c]), core.GridY(loc[c]))]
  }

  /** Equally large with their padding. */
  predicate SameSize(core: Core, c: nat, d: nat)
    requires c < |core.cells| && d < |core.cells| && core.siteWidth > 0 && core.rowHeight > 0
  {
    core.PaddedWidth(c) == core.PaddedWidth(d) && core.GridHeight(c) == core.GridHeight(d)
  }

  /** Also of one group. */
  predicate SameShape(core: Core, c: nat, d: nat)
    requires c < |core.cells| && d < |core.cells| && core.siteWidth > 0 && core.rowHeight > 0
  {
    SameSize(core, c, d) && core.cells[c].group == core.cells[d].group
  }

  /** Where a settled cell's padded corner is, and that painting it there again gives its footprint. */
  lemma {:induction false} SettledRect(core: Core, g: Grid, c: nat, l: Loc)
    requires core.Valid() && c < |core.cells| && Shaped(core, g) && Settled(core, g, c, l)
    ensures var gx, gy := core.GridPaddedX(c, l), core.GridY(l);
      && gx >= 0 && gy >= 0 && core.Foot(c, l) == core.PaintRect(c, gx, gy)
      && l.x == core.PaintLoc(c, gx, gy).x && l.y == core.PaintLoc(c, gx, gy).y
  {
    var gx: nat, gy: nat :| l.x == core.PaintLoc(c, gx, gy).x && l.y == core.PaintLoc(c, gx, gy).y;
    core.FootOfPaint(c, gx, gy, l);
  }

  /** Cells of equal padded size always have room in each other's places, and if they are of one group the
      sites there suit them. */
  lemma {:induction false} SameSizeFits(core: Core, g: Grid, loc: seq<Loc>, c: nat, d: nat)
    requires core.Valid() && |loc| == |core.cells| && Shaped(core, g) && Consistent(core, g, loc)
    requires Movable(core, c) && Movable(core, d) && c != d && loc[c].placed && loc[d].placed && SameSize(core, c, d)
    ensures SwapRoom(core, g, loc, c, d)
    ensures core.cells[c].group == core.cells[d].group ==> SwapSuits(core, loc, c, d)
  {
    hide Core.PaintRect, Core.Foot;
    assert Settled(core, g, c, loc[c]) && Settled(core, g, d, loc[d]);
    SettledRect(core, g, c, loc[c]);
    SettledRect(core, g, d, loc[d]);
    SameRect(core, loc, c, d);
    SameRect(core, loc, d, c);
  }

  lemma SameRect(core: Core, loc: seq<Loc>, c: nat, d: nat)
    requires core.Valid() && c < |loc| == |core.cells| && d < |loc| && SameSize(core, c, d)
    ensures SwapRect(core, loc, c, d) == core.PaintRect(d, core.GridPaddedX(d, loc[d]), core.GridY(loc[d]))
  {
  }

  /** With equal left padding the displacement changes by exactly what the distance test added up. */
  lemma {:induction false} SwapExact(core: Core, g: Grid, loc: seq<Loc>, c: nat, d: nat)
    requires core.Valid() && |loc| == |core.cells| && Shaped(core, g) && Consistent(core, g, loc)
    requires Movable(core, c) && Movable(core, d) && c != d && loc[c].placed && loc[d].placed
    requires core.cells[c].padLeft == core.cells[d].padLeft
    ensures TotalDisplacement(core, Swapped(core, loc, c, d), |loc|)
         == TotalDisplacement(core, loc, |loc|) + SwapChange(core, loc, c, d)
  {
    hide Displacement;
    assert Settled(core, g, c, loc[c]) && Settled(core, g, d, loc[d]);
    SettledRect(core, g, c, loc[c]);
    SettledRect(core, g, d, loc[d]);
    SwapTotal(core, loc, c, d);
  }

  /** The displacement changes by the changes of the two cells. */
  lemma {:induction false} SwapTotal(core: Core, loc: seq<Loc>, c: nat, d: nat)
    requires core.Valid() && c < |loc| == |core.cells| && d < |loc| && c != d
    ensures var after := Swapped(core, loc, c, d);
      TotalDisplacement(core, after, |loc|) == TotalDisplacement(core, loc, |loc|)
        + DistChange(core, loc, c, after[c].x, after[c].y) + DistChange(core, loc, d, after[d].x, after[d].y)
  {
    hide Displacement;
    var after := Swapped(core, loc, c, d);
    DisplacementUpdate(core, loc, |loc|, c, after[c]);
    DisplacementUpdate(core, loc[c := after[c]], |loc|, d, after[d]);
  }

  lemma {:induction false} SwapLowers(core: Core, g: Grid, loc: seq<Loc>, c: nat, d: nat)
    requires core.Valid() && |loc| == |core.cells| && Shaped(core, g) && Consistent(core, g, loc)
    requires c < |loc| && d < |loc| && loc[c].placed && loc[d].placed && SwapWanted(core, loc, c, d)
    requires core.cells[c].padLeft == core.cells[d].padLeft
    ensures TotalDisplacement(core, Swapped(core, loc, c, d), |loc|) < TotalDisplacement(core, loc, |loc|)
  {
    SwapExact(core, g, loc, c, d);
  }

  // ----- the two paints of a swap

  /** `g'` is `g` without what the two cells own. */
  ghost predicate Without(core: Core, g: Grid, g': Grid, c: nat, d: nat)
    requires Shaped(core, g) && Shaped(core, g')
  {
    forall i, j {:trigger Owner(core, g', i, j)} ::
      Owner(core, g', i, j) == if Owner(core, g, i, j) == c || Owner(core, g, i, j) == d then NOBODY else Owner(core, g, i, j)
  }

  /** If the first paint fails there is no room. */
  lemma RoomFirst(core: Core, g: Grid, g2: Grid, c: nat, d: nat, r: Rect, s: Rect)
    requires Shaped(core, g) && Shaped(core, g2) && Without(core, g, g2, c, d)
    ensures RoomFor(core, g, c, d, r, s) ==> Paintable(core, g2, r)
  {
  }

  /** After the first paint, the second succeeds exactly when there is room for both. */
  lemma RoomBoth(core: Core, g: Grid, g2: Grid, g3: Grid, c: nat, d: nat, r: Rect, s: Rect)
    requires Shaped(core, g) && Shaped(core, g2) && Shaped(core, g3) && Without(core, g, g2, c, d)
    requires Paintable(core, g2, r) && Filled(core, g2, g3, r, c)
    ensures Paintable(core, g3, s) <==> RoomFor(core, g, c, d, r, s)
  {
    if Paintable(core, g3, s) {
      forall i, j
        ensures !(r.Has(i, j) && s.Has(i, j))
      {
        if s.Has(i, j) {
          assert Owner(core, g3, i, j) == NOBODY;
        }
      }
      forall i, j | r.Has(i, j) || s.Has(i, j)
        ensures core.InGrid(i, j) && Owner(core, g, i, j) in {NOBODY, c, d}
      {
        assert Owner(core, g2, i, j) == NOBODY;
      }
    }
    if RoomFor(core, g, c, d, r, s) {
      forall i, j | s.Has(i, j)
        ensures core.InGrid(i, j) && Owner(core, g3, i, j) == NOBODY
      {
        assert !r.Has(i, j) && Owner(core, g2, i, j) == NOBODY;
      }
    }
  }
}

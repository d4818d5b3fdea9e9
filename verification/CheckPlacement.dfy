/** The overlap check of the placement checker (CheckPlacement.cpp): cells are painted into the grid one
    after the other, and each is compared with the owners of the sites it finds taken. For unpadded cells
    that start on site corners. */
module CheckPlacement {
  import opened IntMath
  import opened LegalGrid
  import opened Legalizer

  /** The cells' rectangles meet; blocks may lie on blocks. */
  predicate Overlap(core: Core, loc: seq<Loc>, c: nat, d: nat)
    requires c < |core.cells| == |loc| && d < |loc|
  {
    && !(core.cells[c].block && core.cells[d].block)
    && loc[c].x < loc[d].x + core.cells[d].width && loc[c].x + core.cells[c].width > loc[d].x
    && loc[c].y < loc[d].y + core.cells[d].height && loc[c].y + core.cells[c].height > loc[d].y
  }

  /** The cell covers the unit square with this lower left corner. */
  predicate HasSquare(core: Core, loc: seq<Loc>, c: nat, x: int, y: int)
    requires c < |core.cells| == |loc|
  {
    loc[c].x <= x < loc[c].x + core.cells[c].width && loc[c].y <= y < loc[c].y + core.cells[c].height
  }

  /** That is, not both are blocks, and some unit square is covered by both. */
  lemma OverlapIsCommonSquare(core: Core, loc: seq<Loc>, c: nat, d: nat)
    requires core.Valid() && c < |core.cells| == |loc| && d < |loc|
    ensures Overlap(core, loc, c, d) <==>
      !(core.cells[c].block && core.cells[d].block) && exists x, y :: HasSquare(core, loc, c, x, y) && HasSquare(core, loc, d, x, y)
  {
    if Overlap(core, loc, c, d) {
      assert HasSquare(core, loc, c, Max(loc[c].x, loc[d].x), Max(loc[c].y, loc[d].y));
    }
  }

  /** Unpadded, on a site corner, and inside the grid. */
  ghost predicate InPlace(core: Core, c: nat, l: Loc)
    requires core.Valid() && c < |core.cells|
  {
    && core.cells[c].padLeft == core.cells[c].padRight == 0
    && l.x >= 0 && l.y >= 0 && l.x % core.siteWidth == 0 && l.y % core.rowHeight == 0
    && forall i, j {:trigger core.Foot(c, l).Has(i, j)} :: core.Foot(c, l).Has(i, j) ==> core.InGrid(i, j)
  }

  ghost predicate AllInPlace(core: Core, loc: seq<Loc>) {
    core.Valid() && |loc| == |core.cells| && forall c {:trigger loc[c]} :: 0 <= c < |loc| ==> InPlace(core, c, loc[c])
  }

  /** A site is in one axis of a footprint exactly when its corner is in the cell. */
  lemma {:induction false} CornerInside(x: int, w: int, s: int, i: int)
    requires s > 0 && w > 0 && x >= 0 && x % s == 0
    ensures TruncDiv(x, s) <= i < DivCeil(x + w, s) <==> x <= i * s < x + w
  {
    var a := x / s;
    assert x == a * s;
    FloorBound(x, s, i + 1);
    if a <= i {
      MulMono(a, i, s);
    }
    CeilBound(x + w, s, i);
  }

  /** A site is in a footprint exactly when its corner is in the cell. */
  lemma {:induction false} FootHas(core: Core, c: nat, l: Loc, i: int, j: int)
    requires core.Valid() && c < |core.cells| && InPlace(core, c, l)
    ensures core.Foot(c, l).Has(i, j) <==>
      (l.x <= i * core.siteWidth < l.x + core.cells[c].width && l.y <= j * core.rowHeight < l.y + core.cells[c].height)
  {
    hide TruncDiv, DivCeil;
    CornerInside(l.x, core.cells[c].width, core.siteWidth, i);
    CornerInside(l.y, core.cells[c].height, core.rowHeight, j);
    assert 0 * core.siteWidth == 0;
  }

  /** Cells that own a site of each other's footprint overlap, unless both are blocks: the site's corner is in both. */
  lemma {:induction false} SharedSite(core: Core, loc: seq<Loc>, c: nat, d: nat, i: int, j: int)
    requires AllInPlace(core, loc) && c < |loc| && d < |loc|
    requires core.Foot(c, loc[c]).Has(i, j) && core.Foot(d, loc[d]).Has(i, j)
    ensures Overlap(core, loc, c, d) <==> !(core.cells[c].block && core.cells[d].block)
  {
    hide Core.Foot, InPlace;
    FootHas(core, c, loc[c], i, j);
    FootHas(core, d, loc[d], i, j);
  }

  /** Cells that overlap share a site: the one at the corner where the later of the two begins. */
  lemma {:induction false} OverlapShares(core: Core, loc: seq<Loc>, c: nat, d: nat) returns (i: int, j: int)
    requires AllInPlace(core, loc) && c < |loc| && d < |loc| && Overlap(core, loc, c, d)
    ensures core.Foot(c, loc[c]).Has(i, j) && core.Foot(d, loc[d]).Has(i, j)
  {
    var x, y := Max(loc[c].x, loc[d].x), Max(loc[c].y, loc[d].y);
    i, j := x / core.siteWidth, y / core.rowHeight;
    assert x == i * core.siteWidth && y == j * core.rowHeight by {
      assert InPlace(core, c, loc[c]) && InPlace(core, d, loc[d]);
    }
    hide Core.Foot, InPlace;
    FootHas(core, c, loc[c], i, j);
    FootHas(core, d, loc[d], i, j);
  }

  /** Cell o is the first of all to cover the site. */
  ghost predicate First(core: Core, loc: seq<Loc>, o: int, i: int, j: int)
    requires core.Valid() && |loc| == |core.cells|
  {
    0 <= o < |loc| && core.Foot(o, loc[o]).Has(i, j) && forall d {:trigger loc[d]} :: 0 <= d < o ==> !core.Foot(d, loc[d]).Has(i, j)
  }

  /** The first n cells have been painted: every site they cover is the first one's. */
  ghost predicate Painted(core: Core, loc: seq<Loc>, g: Grid, n: nat)
    requires core.Valid() && |loc| == |core.cells| && n <= |loc| && Shaped(core, g)
  {
    forall i, j {:trigger Owner(core, g, i, j)} :: core.InGrid(i, j) ==>
      if Owner(core, g, i, j) == NOBODY then forall d {:trigger loc[d]} :: 0 <= d < n ==> !core.Foot(d, loc[d]).Has(i, j)
      else Owner(core, g, i, j) < n && First(core, loc, Owner(core, g, i, j), i, j)
  }

  /** The cell overlaps an earlier one that was the first on a site of its. */
  ghost predicate Reported(core: Core, loc: seq<Loc>, c: nat)
    requires core.Valid() && |loc| == |core.cells| && c < |loc|
  {
    exists i, j, o: nat {:trigger First(core, loc, o, i, j)} ::
      o < c && First(core, loc, o, i, j) && core.Foot(c, loc[c]).Has(i, j) && Overlap(core, loc, c, o)
  }

  ghost predicate OverlapsEarlier(core: Core, loc: seq<Loc>, c: nat)
    requires |loc| == |core.cells| && c < |loc|
  {
    exists d: nat :: d < c && Overlap(core, loc, c, d)
  }

  lemma {:induction false} FirstThere(core: Core, loc: seq<Loc>, d: nat, i: int, j: int) returns (o: nat)
    requires core.Valid() && d < |loc| == |core.cells| && core.Foot(d, loc[d]).Has(i, j)
    ensures o <= d && First(core, loc, o, i, j)
  {
    hide Core.Foot, Rect.Has;
    if e: nat :| e < d && core.Foot(e, loc[e]).Has(i, j) {
      o := FirstThere(core, loc, e, i, j);
    } else {
      o := d;
    }
  }

  /** A cell that overlaps an earlier one is reported, or else it is a block, the other is not, and a block was there
      before both; then the other one is reported. */
  lemma {:induction false} ReportedOrHidden(core: Core, loc: seq<Loc>, c: nat, d: nat) returns (o: nat)
    requires AllInPlace(core, loc) && c < |loc| && d < c && Overlap(core, loc, c, d)
    ensures Reported(core, loc, c)
      || (o < d && core.cells[c].block && !core.cells[d].block && core.cells[o].block && Reported(core, loc, d))
  {
    hide Core.Foot, Rect.Has, InPlace;
    var i, j := OverlapShares(core, loc, c, d);
    o := FirstThere(core, loc, d, i, j);
    SharedSite(core, loc, c, o, i, j);
    SharedSite(core, loc, d, o, i, j);
    hide First;
  }

  /** Nothing is reported exactly when no two cells overlap. */
  lemma {:induction false} VerdictIsRight(core: Core, loc: seq<Loc>)
    requires AllInPlace(core, loc)
    ensures (forall c: nat :: c < |loc| ==> !Reported(core, loc, c)) <==> forall c: nat, d: nat :: d < c < |loc| ==> !Overlap(core, loc, c, d)
  {
    hide Overlap, Core.Foot, InPlace;
    if c: nat, d: nat :| d < c < |loc| && Overlap(core, loc, c, d) {
      var o := ReportedOrHidden(core, loc, c, d);
    }
  }

  // ----- when all cells that overlap an earlier one are reported

  ghost predicate Blocks(core: Core, blocks: seq<bool>) {
    |core.cells| == |blocks| && forall c :: 0 <= c < |blocks| ==> core.cells[c].block == blocks[c]
  }

  /** Another cell is between two blocks. */
  predicate Between(blocks: seq<bool>) {
    exists o, c :: 0 <= o < c < |blocks| && blocks[o] && blocks[c] && exists d :: o < d < c && !blocks[d]
  }

  /** Exactly the cells that overlap an earlier one are reported, wherever they lie, if and only if no cell that is no
      block is listed between two blocks. */
  lemma {:induction false} ExactIff(blocks: seq<bool>)
    ensures (forall core: Core, loc {:trigger AllInPlace(core, loc), Blocks(core, blocks)} :: AllInPlace(core, loc) && Blocks(core, blocks) ==>
               forall c: nat :: c < |loc| ==> (Reported(core, loc, c) <==> OverlapsEarlier(core, loc, c)))
      <==> !Between(blocks)
  {
    hide Overlap, InPlace, Core.Foot;
    if !Between(blocks) {
      forall core: Core, loc, c: nat | AllInPlace(core, loc) && Blocks(core, blocks) && c < |loc|
        ensures Reported(core, loc, c) <==> OverlapsEarlier(core, loc, c)
      {
        if d: nat :| d < c && Overlap(core, loc, c, d) {
          var o := ReportedOrHidden(core, loc, c, d);
        }
      }
    } else {
      var o: nat, c: nat :| o < c < |blocks| && blocks[o] && blocks[c] && exists d :: o < d < c && !blocks[d];
      var d: nat :| o < d < c && !blocks[d];
      BlockIsHidden(blocks, o, d, c);
      assert AllInPlace(Line(blocks), Stacked(|blocks|, o, d, c)) && Blocks(Line(blocks), blocks);
    }
  }

  /** Cells of one site on a row. */
  function Line(blocks: seq<bool>): Core {
    Core(|blocks| + 1, 1, 1, 1,
         seq(|blocks|, k requires 0 <= k < |blocks| => Cell(1, 1, 0, 0, -1, false, false, blocks[k], Undefined, 0, 0)),
         [seq(|blocks| + 1, _ => Site(true, -1, false))])
  }

  /** Three of them on the first site, the others each on its own. */
  function Stacked(n: nat, o: nat, d: nat, c: nat): (loc: seq<Loc>)
    ensures |loc| == n
  {
    seq(n, k requires 0 <= k < n => Loc(if k == o || k == d || k == c then 0 else k + 1, 0, true, false))
  }

  /** A block on another block on which a third cell lies is not reported. */
  lemma {:induction false} BlockIsHidden(blocks: seq<bool>, o: nat, d: nat, c: nat)
    requires o < d < c < |blocks| && blocks[o] && !blocks[d] && blocks[c]
    ensures var core, loc := Line(blocks), Stacked(|blocks|, o, d, c);
      && AllInPlace(core, loc) && Blocks(core, blocks) && OverlapsEarlier(core, loc, c) && !Reported(core, loc, c)
  {
    var core, loc := Line(blocks), Stacked(|blocks|, o, d, c);
    LineCells(blocks);
    StackedFeet(blocks, core, loc, o, d, c);
    HiddenInStack(blocks, core, loc, o, d, c);
    hide *;
  }

  lemma HiddenInStack(blocks: seq<bool>, core: Core, loc: seq<Loc>, o: nat, d: nat, c: nat)
    requires core.Valid() && |loc| == |core.cells| && Blocks(core, blocks)
    requires o < d < c < |blocks| && blocks[o] && !blocks[d] && blocks[c] && loc[o].x == loc[d].x == loc[c].x == 0
    requires forall k: nat :: k < |loc| && k != o && k != d && k != c ==> loc[k].x > 0
    requires forall k: nat :: k < |loc| ==> loc[k].y == 0 && InPlace(core, k, loc[k]) && core.Foot(k, loc[k]) == Rect(loc[k].x, loc[k].x + 1, 0, 1)
    ensures AllInPlace(core, loc) && OverlapsEarlier(core, loc, c) && !Reported(core, loc, c)
  {
    hide Core.Foot, InPlace, Core.Valid, OverlapsEarlier, Reported, Overlap;
    StackHides(core, loc, o, d, c);
  }

  lemma StackedFeet(blocks: seq<bool>, core: Core, loc: seq<Loc>, o: nat, d: nat, c: nat)
    requires o < d < c < |blocks| && core == Line(blocks) && loc == Stacked(|blocks|, o, d, c) && OneRow(core)
    ensures core.Valid() && |loc| == |core.cells| && loc[o].x == loc[d].x == loc[c].x == 0
    ensures forall k: nat :: k < |loc| && k != o && k != d && k != c ==> loc[k].x > 0
    ensures forall k: nat :: k < |loc| ==> loc[k].y == 0 && InPlace(core, k, loc[k]) && core.Foot(k, loc[k]) == Rect(loc[k].x, loc[k].x + 1, 0, 1)
  {
    OneRowValid(core);
    hide OneRow, InPlace, Core.Foot, Core.Valid;
    forall k: nat | k < |blocks|
      ensures core.Foot(k, loc[k]) == Rect(loc[k].x, loc[k].x + 1, 0, 1) && InPlace(core, k, loc[k])
    {
      SiteFoot(core, k, loc[k]);
    }
  }

  lemma OneRowValid(core: Core)
    requires OneRow(core)
    ensures core.Valid()
  {
  }

  /** Unpadded cells of one site, on a row that begins with one. */
  ghost predicate OneRow(core: Core) {
    && core.Valid() && core.siteWidth == core.rowHeight == core.rows == 1
    && forall k :: 0 <= k < |core.cells| ==>
         core.cells[k].width == core.cells[k].height == 1 && core.cells[k].padLeft == core.cells[k].padRight == 0
  }

  lemma LineCells(blocks: seq<bool>)
    ensures OneRow(Line(blocks)) && Line(blocks).cols == |blocks| + 1 && Blocks(Line(blocks), blocks)
  {
  }

  lemma SiteFoot(core: Core, k: nat, l: Loc)
    requires OneRow(core) && k < |core.cells| && 0 <= l.x < core.cols && l.y == 0
    ensures core.Valid() && core.Foot(k, l) == Rect(l.x, l.x + 1, 0, 1) && InPlace(core, k, l)
  {
    ByOne(l.x);
    ByOne(l.x + 1);
    ByOne(0);
    ByOne(1);
    hide TruncDiv, DivCeil;
  }

  lemma ByOne(a: int)
    ensures DivCeil(a, 1) == a && TruncDiv(a, 1) == a && a % 1 == 0
  {
  }

  /** Cells o and c are blocks on each other, and d between them in the list lies on both. */
  lemma StackHides(core: Core, loc: seq<Loc>, o: nat, d: nat, c: nat)
    requires AllInPlace(core, loc) && o < d < c < |loc| && loc[o].x == loc[d].x == loc[c].x == 0
    requires forall k: nat :: k < |loc| ==> loc[k].y == 0 && core.Foot(k, loc[k]) == Rect(loc[k].x, loc[k].x + 1, 0, 1)
    requires forall k: nat :: k < |loc| && k != o && k != d && k != c ==> loc[k].x > 0
    requires core.cells[o].block && !core.cells[d].block && core.cells[c].block
    ensures OverlapsEarlier(core, loc, c) && !Reported(core, loc, c)
  {
    hide Core.Foot, InPlace;
    assert core.Foot(c, loc[c]).Has(0, 0) && core.Foot(d, loc[d]).Has(0, 0) && core.Foot(o, loc[o]).Has(0, 0);
    SharedSite(core, loc, c, d, 0, 0);
    SharedSite(core, loc, c, o, 0, 0);
    hide Overlap;
    forall i, j, e: nat | e < c && First(core, loc, e, i, j) && core.Foot(c, loc[c]).Has(i, j)
      ensures !Overlap(core, loc, c, e)
    {
      assert i == 0 && j == 0;
      assert core.Foot(e, loc[e]).Has(0, 0);
      assert e <= o && e == o;
    }
  }

  class PlacementChecker {
    const core: Core
    const loc: seq<Loc>
    const owner: array2<int>

    ghost predicate Valid() {
      AllInPlace(core, loc) && owner.Length0 == core.rows && owner.Length1 == core.cols
    }

    ghost function Contents(): (g: Grid)
      requires Valid()
      reads owner
      ensures Shaped(core, g)
      ensures forall i, j {:trigger Owner(core, g, i, j)} :: core.InGrid(i, j) ==> Owner(core, g, i, j) == owner[j, i]
    {
      seq(core.rows, j requires 0 <= j < core.rows && Valid() reads owner =>
        seq(core.cols, i requires 0 <= i < core.cols && 0 <= j < core.rows && Valid() reads owner => owner[j, i]))
    }

    /** An empty grid. */
    constructor (core: Core, loc: seq<Loc>)
      requires AllInPlace(core, loc)
      ensures Valid() && fresh(owner) && this.core == core && this.loc == loc && Painted(core, loc, Contents(), 0)
    {
      this.core, this.loc := core, loc;
      owner := new int[core.rows, core.cols]((_, _) => NOBODY);
    }

    /** Paints a cell and finds one it overlaps among those painted before; -1 when there is none. */
    method CheckOverlap(c: nat) returns (found: int)
      requires Valid() && c < |loc| && Painted(core, loc, Contents(), c)
      modifies owner
      ensures Painted(core, loc, Contents(), c + 1)
      ensures found != -1 ==> 0 <= found < c && Overlap(core, loc, c, found)
      ensures found != -1 <==> Reported(core, loc, c)
    {
      hide Core.Foot, Painted, Overlap, InPlace;
      found := -1;
      var r := core.Foot(c, loc[c]);
      ghost var g := Contents();
      RectInGrid(c);
      var x := r.x0;
      while x < r.x1
        invariant r.x0 <= x && Sweeping(g, c, x, r.y0, found) && PaintedUpTo(g, Contents(), c, x, r.y0)
      {
        var y := r.y0;
        while y < r.y1
          invariant r.y0 <= y && Sweeping(g, c, x, y, found) && PaintedUpTo(g, Contents(), c, x, y)
        {
          found := Visit(x, y, c, found, g);
          y := y + 1;
        }
        x := x + 1;
      }
      PaintedNext(g, Contents(), c, x);
      SweptAll(g, c, x, found);
    }

    lemma RectInGrid(c: nat)
      requires Valid() && c < |loc|
      ensures forall i, j {:trigger core.Foot(c, loc[c]).Has(i, j)} :: core.Foot(c, loc[c]).Has(i, j) ==> core.InGrid(i, j)
    {
      assert InPlace(core, c, loc[c]);
    }

    /** One site. */
    method Visit(x: int, y: int, c: nat, found0: int, ghost g: Grid) returns (found: int)
      requires Valid() && c < |loc| && Shaped(core, g) && core.Foot(c, loc[c]).Has(x, y) && core.InGrid(x, y)
      requires Painted(core, loc, g, c) && Sweeping(g, c, x, y, found0) && PaintedUpTo(g, Contents(), c, x, y)
      modifies owner
      ensures Sweeping(g, c, x, y + 1, found) && PaintedUpTo(g, Contents(), c, x, y + 1)
    {
      hide Core.Foot, Overlap;
      found := found0;
      var pixelCell := owner[y, x];
      assert pixelCell == Owner(core, Contents(), x, y) == Owner(core, g, x, y);
      if pixelCell != NOBODY {
        assert First(core, loc, pixelCell, x, y);
        if pixelCell != c && Overlap(core, loc, c, pixelCell) {
          found := pixelCell;
        }
      } else {
        owner[y, x] := c;
      }
      forall i, j | core.InGrid(i, j)
        ensures Owner(core, Contents(), i, j)
             == if i == x && j == y && pixelCell == NOBODY then c else Owner(core, old(Contents()), i, j)
      {
      }
    }

    /** What the sweep has painted so far. */
    ghost predicate PaintedUpTo(g: Grid, g': Grid, c: nat, x: int, y: int)
      requires Valid() && Shaped(core, g) && Shaped(core, g') && c < |loc|
    {
      forall i, j {:trigger Owner(core, g', i, j)} :: core.InGrid(i, j) ==>
        Owner(core, g', i, j) == if Swept(core.Foot(c, loc[c]), x, y, i, j) && Owner(core, g, i, j) == NOBODY then c
                                 else Owner(core, g, i, j)
    }

    /** What has been found in the part of the rectangle already visited. */
    ghost predicate Sweeping(g: Grid, c: nat, x: int, y: int, found: int)
      requires Valid() && Shaped(core, g) && c < |loc|
    {
      && (found != -1 ==> 0 <= found < c && Overlap(core, loc, c, found) && Reported(core, loc, c))
      && (found == -1 ==> forall i, j {:trigger Owner(core, g, i, j)} :: Swept(core.Foot(c, loc[c]), x, y, i, j) && core.InGrid(i, j) ==>
            var o := Owner(core, g, i, j); 0 <= o < |loc| ==> !Overlap(core, loc, c, o))
    }

    lemma PaintedNext(g: Grid, g': Grid, c: nat, x: int)
      requires Valid() && c < |loc| && Shaped(core, g) && Shaped(core, g') && Painted(core, loc, g, c)
      requires x >= core.Foot(c, loc[c]).x1 && PaintedUpTo(g, g', c, x, core.Foot(c, loc[c]).y0)
      ensures Painted(core, loc, g', c + 1)
    {
      hide Core.Foot, InPlace;
      var r := core.Foot(c, loc[c]);
      forall i, j | core.InGrid(i, j)
        ensures if Owner(core, g', i, j) == NOBODY then forall d {:trigger loc[d]} :: 0 <= d < c + 1 ==> !core.Foot(d, loc[d]).Has(i, j)
                else Owner(core, g', i, j) < c + 1 && First(core, loc, Owner(core, g', i, j), i, j)
      {
        assert Swept(r, x, r.y0, i, j) <==> r.Has(i, j);
      }
    }

    lemma SweptAll(g: Grid, c: nat, x: int, found: int)
      requires Valid() && c < |loc| && Shaped(core, g) && Painted(core, loc, g, c)
      requires x >= core.Foot(c, loc[c]).x1 && Sweeping(g, c, x, core.Foot(c, loc[c]).y0, found)
      ensures found != -1 <==> Reported(core, loc, c)
    {
      hide Core.Foot, Overlap;
      if found == -1 {
        forall i, j, o: nat | o < c && First(core, loc, o, i, j) && core.Foot(c, loc[c]).Has(i, j)
          ensures !Overlap(core, loc, c, o)
        {
          RectInGrid(c);
          assert Owner(core, g, i, j) == o;
        }
      }
    }

    /** The whole check, from an empty grid: it reports exactly the cells that overlap the first cell on one of their
        sites, and nothing exactly when no two cells overlap. */
    method CheckOverlaps() returns (failures: seq<nat>)
      requires Valid() && Painted(core, loc, Contents(), 0)
      modifies owner
      ensures forall c: nat :: c in failures <==> c < |loc| && Reported(core, loc, c)
      ensures failures == [] <==> forall c: nat, d: nat :: d < c < |loc| ==> !Overlap(core, loc, c, d)
    {
      hide Overlap, Painted, InPlace, Reported;
      failures := [];
      for c := 0 to |loc|
        invariant Painted(core, loc, Contents(), c)
        invariant forall e: nat :: e in failures <==> e < c && Reported(core, loc, e)
      {
        var found := CheckOverlap(c);
        if found != -1 {
          failures := failures + [c];
        }
      }
      VerdictIsRight(core, loc);
      if failures != [] {
        assert failures[0] in failures;
      }
    }
  }
}

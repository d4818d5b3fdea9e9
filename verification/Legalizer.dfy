/** Painting, erasing, searching and moving cells on the pixel grid (Grid.cpp, Place.cpp). */
module Legalizer {
  import opened IntMath
  import opened LegalGrid
  import opened LegalSearch
  import opened LegalMoves
  import opened LegalPlace
  import LegalStart
  import opened Permutations

  /** The part of a rectangle swept column by column up to column x, row y. */
  predicate Swept(r: Rect, x: int, y: int, i: int, j: int) {
    r.Has(i, j) && (i < x || (i == x && j < y))
  }

  class Opendp {
    const rules: Rules
    const core: Core := rules.core
    const owner: array2<int>
    var loc: seq<Loc>

    ghost predicate GridOk() {
      core.Valid() && owner.Length0 == core.rows && owner.Length1 == core.cols
    }

    ghost predicate Valid()
      reads this`loc
    {
      GridOk() && |loc| == |core.cells|
    }

    ghost function Contents(): (g: Grid)
      requires GridOk()
      reads owner
      ensures Shaped(core, g)
      ensures forall i, j {:trigger Owner(core, g, i, j)} :: core.InGrid(i, j) ==> Owner(core, g, i, j) == owner[j, i]
    {
      seq(core.rows, j requires 0 <= j < core.rows && GridOk() reads owner =>
        seq(core.cols, i requires 0 <= i < core.cols && 0 <= j < core.rows && GridOk() reads owner => owner[j, i]))
    }

    ghost function Now(): State
      requires GridOk()
      reads this`loc, owner
    {
      State(Contents(), loc)
    }

    /** The grid and the cells agree. */
    ghost predicate Inv()
      reads this`loc, owner
    {
      Valid() && Consistent(core, Contents(), loc)
    }

    /** An empty grid; no movable cell is placed yet. */
    constructor (rules: Rules, loc: seq<Loc>)
      requires rules.core.Valid() && |loc| == |rules.core.cells|
      requires forall c :: 0 <= c < |loc| && Movable(rules.core, c) ==> !loc[c].placed
      ensures Inv() && fresh(owner) && this.rules == rules && this.loc == loc
      ensures forall i, j {:trigger Owner(core, Contents(), i, j)} :: Owner(core, Contents(), i, j) == NOBODY
    {
      this.rules, this.loc := rules, loc;
      owner := new int[rules.core.rows, rules.core.cols]((_, _) => NOBODY);
    }

    /** Paints the fixed cells, wherever they stick into the grid; later cells win. */
    method SetFixedGridCells()
      requires Inv() && forall c :: 0 <= c < |loc| && Movable(core, c) ==> !loc[c].placed
      modifies owner
      ensures Inv()
      ensures FixedPainted(core, old(Contents()), Contents(), loc, |loc|)
    {
      for c := 0 to |loc|
        invariant FixedPainted(core, old(Contents()), Contents(), loc, c)
      {
        hide FixedPainted, Consistent, Filled;
        ghost var was := Contents();
        if core.cells[c].fixed {
          FillClipped(core.Foot(c, loc[c]), c);
        }
        PaintsFixed(core, old(Contents()), was, Contents(), loc, c);
      }
      FixedConsistent(core, old(Contents()), Contents(), loc);
    }

    /** Hands the sites of a rectangle that are inside the grid to `who`. */
    method FillClipped(r: Rect, who: int)
      requires Valid()
      modifies owner
      ensures Filled(core, old(Contents()), Contents(), r, who)
    {
      var x := r.x0;
      while x < r.x1
        invariant r.x0 <= x
        invariant forall i, j {:trigger owner[j, i]} :: core.InGrid(i, j) ==>
          owner[j, i] == if Swept(r, x, r.y0, i, j) then who else old(owner[j, i])
      {
        var y := r.y0;
        while y < r.y1
          invariant r.y0 <= y
          invariant forall i, j {:trigger owner[j, i]} :: core.InGrid(i, j) ==>
            owner[j, i] == if Swept(r, x, y, i, j) then who else old(owner[j, i])
        {
          if core.InGrid(x, y) {
            owner[y, x] := who;
          }
          y := y + 1;
        }
        x := x + 1;
      }
    }

    /** Clears the sites of a placed movable cell. */
    method ErasePixel(c: nat)
      requires Inv() && c < |loc|
      modifies this`loc, owner
      ensures Inv()
      ensures loc == if Movable(core, c) && old(loc[c].placed) then old(loc)[c := old(loc[c]).(placed := false, hold := false)] else old(loc)
      ensures forall i, j {:trigger Owner(core, Contents(), i, j)} ::
        Owner(core, Contents(), i, j) == if Movable(core, c) && Owner(core, old(Contents()), i, j) == c then NOBODY
                                         else Owner(core, old(Contents()), i, j)
    {
      if core.cells[c].fixed || !loc[c].placed {
        return;
      }
      var r := core.Foot(c, loc[c]);
      assert Settled(core, Contents(), c, loc[c]);
      FillClipped(r, NOBODY);
      ghost var was := loc;
      loc := loc[c := loc[c].(placed := false, hold := false)];
      EraseKeeps(core, old(Contents()), Contents(), was, c, loc[c]);
    }

    /** Hands the sites of a rectangle to a cell, stopping at the first that somebody owns or that is
        outside the grid. */
    method PaintSites(r: Rect, c: nat) returns (ok: bool)
      requires Valid()
      modifies owner
      ensures ok <==> Paintable(core, old(Contents()), r)
      ensures ok ==> Filled(core, old(Contents()), Contents(), r, c)
    {
      var x := r.x0;
      while x < r.x1
        invariant r.x0 <= x
        invariant forall i, j {:trigger owner[j, i]} :: core.InGrid(i, j) ==>
          owner[j, i] == if Swept(r, x, r.y0, i, j) then c else old(owner[j, i])
        invariant forall i, j {:trigger Swept(r, x, r.y0, i, j)} :: Swept(r, x, r.y0, i, j) ==>
          core.InGrid(i, j) && old(owner[j, i]) == NOBODY
      {
        ok := PaintColumn(r, c, x);
        if !ok {
          ghost var y :| r.y0 <= y < r.y1 && (core.InGrid(x, y) ==> old(owner[y, x]) != NOBODY);
          assert r.Has(x, y) && (core.InGrid(x, y) ==> Owner(core, old(Contents()), x, y) != NOBODY);
          return;
        }
        forall i, j | Swept(r, x + 1, r.y0, i, j)
          ensures core.InGrid(i, j) && old(owner[j, i]) == NOBODY
        {
          assert r.Has(i, j) && (i == x || Swept(r, x, r.y0, i, j));
          assert !Swept(r, x, r.y0, x, j);
        }
        x := x + 1;
      }
      ok := true;
      forall i, j | r.Has(i, j)
        ensures core.InGrid(i, j) && Owner(core, old(Contents()), i, j) == NOBODY
      {
        assert Swept(r, x, r.y0, i, j);
      }
    }

    /** One column of it. */
    method PaintColumn(r: Rect, c: nat, x: int) returns (ok: bool)
      requires Valid() && r.x0 <= x < r.x1
      modifies owner
      ensures ok ==> forall y :: r.y0 <= y < r.y1 ==> core.InGrid(x, y) && old(owner[y, x]) == NOBODY
      ensures !ok ==> exists y :: r.y0 <= y < r.y1 && (core.InGrid(x, y) ==> old(owner[y, x]) != NOBODY)
      ensures ok ==> forall i, j {:trigger owner[j, i]} :: core.InGrid(i, j) ==>
        owner[j, i] == if i == x && r.y0 <= j < r.y1 then c else old(owner[j, i])
    {
      var y := r.y0;
      while y < r.y1
        invariant r.y0 <= y && (y <= r.y1 || y == r.y0)
        invariant forall i, j {:trigger owner[j, i]} :: core.InGrid(i, j) ==>
          owner[j, i] == if i == x && r.y0 <= j < y then c else old(owner[j, i])
        invariant forall j :: r.y0 <= j < y && j < r.y1 ==> core.InGrid(x, j) && old(owner[j, x]) == NOBODY
      {
        if !core.InGrid(x, y) || owner[y, x] != NOBODY {
          return false;
        }
        owner[y, x] := c;
        y := y + 1;
      }
      ok := true;
    }

    /** Puts a cell down. Fails, as the tool does by aborting, on a site somebody owns; the tool has no
        test for sites outside its grid, and failing there stands for reading past it. Nothing checks that
        the sites are valid and of the cell's group: the grid stays consistent only if they are. */
    method PaintPixel(c: nat, gx: int, gy: int) returns (ok: bool)
      requires Valid() && Movable(core, c) && !loc[c].placed
      modifies this`loc, owner
      ensures Valid() && (ok <==> old(Paintable(core, Contents(), core.PaintRect(c, gx, gy))))
      ensures loc == old(loc)[c := core.PaintLoc(c, gx, gy).(hold := old(loc[c].hold))]
      ensures ok ==> Filled(core, old(Contents()), Contents(), core.PaintRect(c, gx, gy), c)
      ensures ok && old(Inv()) && Suits(core, c, core.PaintRect(c, gx, gy)) ==> Inv()
    {
      ghost var was := loc;
      loc := loc[c := core.PaintLoc(c, gx, gy).(hold := loc[c].hold)];
      ok := PaintSites(core.PaintRect(c, gx, gy), c);
      if ok && Consistent(core, old(Contents()), was) && Suits(core, c, core.PaintRect(c, gx, gy)) {
        NonEmptyCorner(core, c, gx, gy);
        PaintKeeps(core, old(Contents()), Contents(), was, c, gx, gy, loc[c]);
      }
    }

    /** All sites of the rectangle are in the grid, empty, valid and of the cell's group. */
    method CheckPixels(c: nat, r: Rect) returns (ok: bool)
      requires Valid() && c < |loc|
      ensures ok ==> Suits(core, c, r) && Free(core, Contents(), r)
      ensures !ok ==> r.x1 > core.cols || !Suits(core, c, r) || !Free(core, Contents(), r)
    {
      if r.x1 > core.cols {
        return false;
      }
      var y := r.y0;
      while y < r.y1
        invariant r.y0 <= y
        invariant forall i, j {:trigger r.Has(i, j)} :: r.Has(i, j) && j < y ==> Clear(c, i, j)
      {
        var x := r.x0;
        while x < r.x1
          invariant r.x0 <= x
          invariant forall i, j {:trigger r.Has(i, j)} :: r.Has(i, j) && (j < y || (j == y && i < x)) ==> Clear(c, i, j)
        {
          assert r.Has(x, y);
          if !core.InGrid(x, y) || owner[y, x] != NOBODY || !core.sites[y][x].valid
             || core.sites[y][x].group != core.cells[c].group {
            assert core.InGrid(x, y) ==> Owner(core, Contents(), x, y) == owner[y, x];
            return false;
          }
          x := x + 1;
        }
        y := y + 1;
      }
      ok := true;
    }

    ghost predicate Clear(c: nat, i: int, j: int)
      requires Valid() && c < |loc|
      reads this`loc, owner
    {
      core.InGrid(i, j) && owner[j, i] == NOBODY && core.sites[j][i].valid && core.sites[j][i].group == core.cells[c].group
    }

    /** Looks through one bin, from the side nearer to column x. */
    method BinSearch(x: int, c: nat, binX: int, binY: int) returns (p: PixelPt)
      requires Valid() && c < |loc|
      ensures rules.Found(Contents(), c, x, binX, binY, p)
    {
      hide Rules.Spot;
      SpotRow(c, binX, binY);
      var yEnd := binY + core.GridHeight(c);
      if yEnd > core.rows || rules.PowerClash(c, binY) {
        return None;
      }
      if x > binX {
        var i := BIN_WIDTH - 1;
        while i >= 0
          invariant i < BIN_WIDTH
          invariant forall k :: binX + i < k < binX + BIN_WIDTH ==> !rules.Spot(Contents(), c, k, binY)
        {
          var ok := CheckSpot(c, binX + i, binY);
          if ok {
            return At(binX + i, binY);
          }
          i := i - 1;
        }
      } else {
        var i := 0;
        while i < BIN_WIDTH
          invariant 0 <= i
          invariant forall k :: binX <= k < binX + i && k < binX + BIN_WIDTH ==> !rules.Spot(Contents(), c, k, binY)
        {
          var ok := CheckSpot(c, binX + i, binY);
          if ok {
            return At(binX + i, binY);
          }
          i := i + 1;
        }
      }
      return None;
    }

    /** No place where the cell would stick out above or clash with the row's power. */
    lemma SpotRow(c: nat, binX: int, binY: int)
      requires Valid() && c < |loc|
      ensures forall k :: binX <= k < binX + BIN_WIDTH && rules.Spot(Contents(), c, k, binY) ==>
        binY + core.GridHeight(c) <= core.rows && !rules.PowerClash(c, binY)
    {
      forall k | binX <= k < binX + BIN_WIDTH && rules.Spot(Contents(), c, k, binY)
        ensures binY + core.GridHeight(c) <= core.rows && !rules.PowerClash(c, binY)
      {
        NonEmptyCorner(core, c, k, binY);
      }
    }

    /** The pixel check, at one position. */
    method CheckSpot(c: nat, x: int, y: int) returns (ok: bool)
      requires Valid() && c < |loc| && !rules.PowerClash(c, y)
      ensures ok <==> rules.Spot(Contents(), c, x, y)
    {
      NonEmptyCorner(core, c, x, y);
      ok := CheckPixels(c, core.PaintRect(c, x, y));
    }

    /** One bin of the diamond: its place is kept if it is nearer than the best so far. */
    method DiamondSearchSide(c: nat, x: int, y: int, ghost i: int, xOffset: int, yOffset: int, best0: PixelPt, bestDist0: int)
        returns (best: PixelPt, bestDist: int)
      requires Valid() && c < |loc| && (best0.At? ==> bestDist0 == rules.GridDistance(x, y, best0))
      requires Abs(xOffset) + Abs(yOffset) == i && rules.Nearest(Contents(), c, x, y, i, rules.Turn(i, xOffset, yOffset), best0)
      ensures best.At? ==> bestDist == rules.GridDistance(x, y, best)
      ensures rules.Nearest(Contents(), c, x, y, i, rules.Turn(i, xOffset, yOffset) + 1, best)
    {
      hide Rules.Spot, Rules.GridDistance, Rules.Nearest, Rules.Found;
      best, bestDist := best0, bestDist0;
      if Abs(xOffset) < rules.limits.maxX && Abs(yOffset) < rules.limits.maxY {
        var bin := rules.Bin(c, x, y, xOffset, yOffset);
        var avail := BinSearch(x, c, bin.0, bin.1);
        rules.NearestNext(Contents(), c, x, y, i, xOffset, yOffset, best0, avail);
        if avail.At? {
          var availDist := rules.GridDistance(x, y, avail);
          if best.None? || availDist < bestDist {
            best, bestDist := avail, availDist;
          }
        }
      } else {
        rules.NearestSkip(Contents(), c, x, y, i, xOffset, yOffset, best0);
      }
    }

    /** One ring of the diamond, left side and then right side. */
    method SearchRing(c: nat, x: int, y: int, i: int) returns (best: PixelPt)
      requires Valid() && c < |loc| && i >= 1
      ensures rules.Nearest(Contents(), c, x, y, i, rules.LastTurn(i), best)
    {
      hide Rules.Nearest, Rules.GridDistance;
      rules.NearestStart(Contents(), c, x, y, i);
      var bestDist := 0;
      best := None;
      var j := 1;
      while j < i * 2
        invariant 1 <= j <= i * 2 && (best.At? ==> bestDist == rules.GridDistance(x, y, best))
        invariant rules.Nearest(Contents(), c, x, y, i, j, best)
      {
        var xOffset, yOffset := -((j + 1) / 2), (i * 2 - j) / 2;
        if j % 2 == 1 {
          yOffset := -yOffset;
        }
        best, bestDist := DiamondSearchSide(c, x, y, i, xOffset, yOffset, best, bestDist);
        j := j + 1;
      }
      j := 1;
      while j < (i + 1) * 2
        invariant 1 <= j <= (i + 1) * 2 && (best.At? ==> bestDist == rules.GridDistance(x, y, best))
        invariant rules.Nearest(Contents(), c, x, y, i, i * 2 + j - 1, best)
      {
        var xOffset, yOffset := (j - 1) / 2, ((i + 1) * 2 - j) / 2;
        if j % 2 == 1 {
          yOffset := -yOffset;
        }
        best, bestDist := DiamondSearchSide(c, x, y, i, xOffset, yOffset, best, bestDist);
        j := j + 1;
      }
    }

    /** Looks for a place for the cell on growing diamonds around (x, y), the target itself first. */
    method DiamondSearch(c: nat, x: int, y: int) returns (p: PixelPt)
      requires Valid() && c < |loc|
      ensures rules.Searched(Contents(), c, x, y, p)
    {
      hide Rules.Nearest, Rules.Found, Rules.RingEmpty;
      p := BinSearch(x, c, x, y);
      if p.At? {
        return;
      }
      var i := 1;
      while i < Max(rules.limits.maxY, rules.limits.maxX)
        invariant i >= 1 && forall k {:trigger rules.RingEmpty(Contents(), c, x, y, k)} ::
          1 <= k < i ==> rules.RingEmpty(Contents(), c, x, y, k)
      {
        p := SearchRing(c, x, y, i);
        if p.At? {
          assert rules.FirstRing(Contents(), c, x, y, i, p);
          return;
        }
        rules.NearestNone(Contents(), c, x, y, i);
        i := i + 1;
      }
      p := None;
    }

    // ----- where a search starts

    /** How many steps to the next valid site in one direction; -1 if there is none. */
    method StepsTo(w: Way, x: int, y: int) returns (n: int)
      requires Valid() && core.InGrid(x, y)
      ensures n == rules.Steps(w, x, y, 1)
    {
      var k := 1;
      while core.InGrid(Go(w, x, y, k).0, Go(w, x, y, k).1)
        invariant 1 <= k && rules.Steps(w, x, y, 1) == rules.Steps(w, x, y, k)
        decreases core.cols + core.rows - k
      {
        if core.sites[Go(w, x, y, k).1][Go(w, x, y, k).0].valid {
          return k;
        }
        k := k + 1;
      }
      n := -1;
    }

    /** Off a hopeless site: to the nearest valid one straight left, right, below or above. */
    method MoveHopeless(x: int, y: int) returns (bestX: int, bestY: int)
      requires Valid() && core.InGrid(x, y)
      ensures (bestX, bestY) == rules.LessHopeless(x, y)
    {
      var bestDist := -1;
      bestX, bestY := x, y;
      var n := StepsTo(Left, x, y);
      if n != -1 {
        bestX, bestDist := x - n, n * core.siteWidth;
        NonNegative(n, core.siteWidth);
      }
      ghost var left := (bestX, bestY, bestDist);
      n := StepsTo(Right, x, y);
      if n != -1 && (bestDist < 0 || n * core.siteWidth < bestDist) {
        bestX, bestY, bestDist := x + n, y, n * core.siteWidth;
      }
      ghost var right := (bestX, bestY, bestDist);
      n := StepsTo(Below, x, y);
      if n != -1 && (bestDist < 0 || n * core.rowHeight < bestDist) {
        bestX, bestY, bestDist := x, y - n, n * core.rowHeight;
      }
      ghost var below := (bestX, bestY, bestDist);
      n := StepsTo(Above, x, y);
      if n != -1 && (bestDist < 0 || n * core.rowHeight < bestDist) {
        bestX, bestY := x, y + n;
      }
      assert left == rules.Nearer(Left, x, y, (x, y, -1));
      assert right == rules.Nearer(Right, x, y, left);
      assert below == rules.Nearer(Below, x, y, right);
    }

    /** Start of the search for a cell. */
    method LegalGridPt(c: nat) returns (gx: int, gy: int)
      requires Valid() && c < |loc|
      ensures (gx, gy) == rules.StartPt(Contents(), loc, c)
    {
      var cell := core.cells[c];
      var pt := rules.LegalPt(c, cell.initX - cell.padLeft * core.siteWidth, cell.initY);
      gx, gy := rules.GridPt(pt).0, rules.GridPt(pt).1;
      if core.InGrid(gx, gy) {
        assert Owner(core, Contents(), gx, gy) == owner[gy, gx];
        pt := rules.OffBlock(loc, c, pt, owner[gy, gx]);
        gx, gy := rules.GridPt(pt).0, rules.GridPt(pt).1;
        if core.InGrid(gx, gy) && core.sites[gy][gx].hopeless {
          gx, gy := MoveHopeless(gx, gy);
        }
      }
    }

    // ----- moves

    /** Only cell `c` changed, and it is placed now. */
    ghost predicate OnlyPlaced(was: seq<Loc>, c: nat)
      reads this`loc
    {
      && |loc| == |was| && c < |loc| && loc[c].placed
      && forall d :: 0 <= d < |loc| && d != c ==> loc[d] == was[d]
    }

    /** Searches from (gx, gy) and puts the cell where the search ends; the paint never hits an owned site. */
    method MapMove(c: nat, gx: int, gy: int) returns (ok: bool, ghost p: PixelPt)
      requires Inv() && Movable(core, c) && !loc[c].placed
      modifies this`loc, owner
      ensures Inv() && rules.Searched(old(Contents()), c, gx, gy, p) && (ok <==> p.At?)
      ensures if ok then OnlyPlaced(old(loc), c) && PutDown(core, old(Now()), Now(), c, p) else Now() == old(Now())
    {
      hide Rules.Searched, Rules.Spot, Rules.PowerClash, Consistent, Core.PaintRect;
      var q := DiamondSearch(c, gx, gy);
      p := q;
      if q.None? {
        return false, q;
      }
      SearchFits(c, gx, gy, q);
      ok := PaintPixel(c, q.x, q.y);
      assert ok;
    }

    /** From the cell's own start. */
    method MapCell(c: nat) returns (ok: bool)
      requires Inv() && Movable(core, c) && !loc[c].placed
      modifies this`loc, owner
      ensures Inv()
      ensures if ok then OnlyPlaced(old(loc), c) else loc == old(loc)
      ensures if ok then Mapped(rules, old(Now()), Now(), c) else Now() == old(Now()) && NoPlace(rules, Now(), c)
    {
      hide Rules.Searched, Rules.StartPt, Consistent, PutDown;
      var gx, gy := LegalGridPt(c);
      ghost var p;
      ok, p := MapMove(c, gx, gy);
    }

    lemma SearchFits(c: nat, x: int, y: int, p: PixelPt)
      requires Valid() && c < |loc| && p.At? && rules.Searched(Contents(), c, x, y, p)
      ensures Fits(core, Contents(), c, p.x, p.y) && Paintable(core, Contents(), core.PaintRect(c, p.x, p.y))
      ensures Suits(core, c, core.PaintRect(c, p.x, p.y)) && p.x >= 0 && p.y >= 0
    {
      rules.SearchIsSpot(Contents(), c, x, y, p);
    }

    /** Re-places a cell if the search from its start ends somewhere the distance test likes. Every such move
        changes the total displacement by the change of the cell's own; without left padding it goes down. */
    method RefineMove(c: nat) returns (moved: bool)
      requires Inv() && Movable(core, c)
      modifies this`loc, owner
      ensures Inv()
      ensures forall p :: Refines(rules, old(Contents()), old(loc), c, p) ==> moved && loc == Refined(core, old(loc), c, p)
      ensures moved ==> exists p :: Refines(rules, old(Contents()), old(loc), c, p)
      ensures if moved then OnlyPlaced(old(loc), c) else loc == old(loc)
      ensures moved && core.cells[c].padLeft == 0 ==> TotalDisplacement(core, loc, |loc|) < old(TotalDisplacement(core, loc, |loc|))
    {
      hide Refines, Suits, Consistent, Core.PaintRect, Core.Foot, TotalDisplacement, Fits, Paintable;
      var p;
      moved, p := FindRefinement(c);
      if moved {
        ghost var was, g := loc, Contents();
        RefinementFits(c, p);
        Repaint(c, p);
        if core.cells[c].padLeft == 0 {
          RefineLowers(rules, g, was, c, p);
        }
      }
    }

    /** Searches from the cell's start, and tests what the search finds. */
    method FindRefinement(c: nat) returns (accept: bool, p: PixelPt)
      requires Inv() && Movable(core, c)
      ensures forall q :: Refines(rules, Contents(), loc, c, q) ==> accept && q == p
      ensures accept ==> Refines(rules, Contents(), loc, c, p)
    {
      hide Displacement, Rules.Searched, Rules.StartPt, Consistent;
      var gx, gy := LegalGridPt(c);
      p := DiamondSearch(c, gx, gy);
      RefinesOnce(rules, Contents(), loc, c, p);
      accept := p.At? && Abs(gx - p.x) <= rules.limits.maxX && Abs(gy - p.y) <= rules.limits.maxY
        && DistChange(core, loc, c, p.x * core.siteWidth, p.y * core.rowHeight) < 0;
    }

    lemma RefinementFits(c: nat, p: PixelPt)
      requires Valid() && Refines(rules, Contents(), loc, c, p)
      ensures c < |loc| && p.At? && Fits(core, Contents(), c, p.x, p.y)
      ensures Paintable(core, Contents(), core.PaintRect(c, p.x, p.y))
    {
      hide Rules.Searched, Rules.StartPt, Fits, Paintable;
      var start := rules.StartPt(Contents(), loc, c);
      SearchFits(c, start.0, start.1, p);
    }

    /** Takes a cell off the grid and puts it where it fits. */
    method Repaint(c: nat, p: PixelPt)
      requires Inv() && Movable(core, c) && p.At? && Fits(core, Contents(), c, p.x, p.y)
      requires Paintable(core, Contents(), core.PaintRect(c, p.x, p.y))
      modifies this`loc, owner
      ensures Inv() && loc == Refined(core, old(loc), c, p)
    {
      hide Suits, Consistent, Core.PaintRect, Core.Foot;
      ErasePixel(c);
      assert Paintable(core, Contents(), core.PaintRect(c, p.x, p.y));
      var ok := PaintPixel(c, p.x, p.y);
      assert ok;
    }

    /** Exchanges two cells of equal size when that brings them nearer to their wishes. Not `ok` means the tool
        stops in the middle: one of the cells does not fit where the other was. */
    method SwapCells(c: nat, d: nat) returns (ok: bool, swapped: bool)
      requires Inv() && c < |loc| && d < |loc|
      modifies this`loc, owner
      ensures Valid()
      ensures ok <==> old(SwapWanted(core, loc, c, d) ==> SwapRoom(core, Contents(), loc, c, d))
      ensures swapped <==> ok && old(SwapWanted(core, loc, c, d))
      ensures ok && !swapped ==> loc == old(loc) && Inv()
      ensures swapped ==> loc == Swapped(core, old(loc), c, d)
      ensures swapped && old(SwapSuits(core, loc, c, d)) ==> Inv()
      ensures old(loc[c].placed && loc[d].placed) && SameSize(core, c, d) ==> ok
      ensures old(loc[c].placed && loc[d].placed) && SameShape(core, c, d) ==> Inv()
      ensures swapped && old(loc[c].placed && loc[d].placed) && core.cells[c].padLeft == core.cells[d].padLeft ==>
        TotalDisplacement(core, loc, |loc|) < old(TotalDisplacement(core, loc, |loc|))
    {
      hide SwapRoom, SwapSuits, Swapped, SwapWanted, SameSize, Consistent;
      var wanted := WantsSwap(c, d);
      if !wanted {
        return true, false;
      }
      ghost var was, g := loc, Contents();
      WantedMovable(core, was, c, d);
      ok := Exchange(c, d);
      swapped := ok;
      if was[c].placed && was[d].placed && SameSize(core, c, d) {
        SameSizeFits(core, g, was, c, d);
      }
      if was[c].placed && was[d].placed && core.cells[c].padLeft == core.cells[d].padLeft {
        SwapLowers(core, g, was, c, d);
      }
    }

    /** The tests before a swap. */
    method WantsSwap(c: nat, d: nat) returns (wanted: bool)
      requires Valid() && c < |loc| && d < |loc|
      ensures wanted <==> SwapWanted(core, loc, c, d)
    {
      if c == d || loc[c].hold || loc[d].hold || core.cells[c].fixed || core.cells[d].fixed
         || core.cells[c].width != core.cells[d].width || core.cells[c].height != core.cells[d].height {
        return false;
      }
      var distChange := DistChange(core, loc, c, loc[d].x, loc[d].y) + DistChange(core, loc, d, loc[c].x, loc[c].y);
      wanted := distChange < 0;
    }

    /** Takes both cells off the grid and puts each with its padded corner where the other's was. */
    method Exchange(c: nat, d: nat) returns (ok: bool)
      requires Inv() && Movable(core, c) && Movable(core, d) && c != d
      requires !loc[c].hold && !loc[d].hold
      modifies this`loc, owner
      ensures Valid()
      ensures ok <==> old(SwapRoom(core, Contents(), loc, c, d))
      ensures ok ==> loc == Swapped(core, old(loc), c, d)
      ensures ok && old(SwapSuits(core, loc, c, d)) ==> Inv()
    {
      hide Core.PaintRect, Core.Foot, Suits, Consistent;
      var gx1, gy1 := core.GridPaddedX(d, loc[d]), core.GridY(loc[d]);
      var gx2, gy2 := core.GridPaddedX(c, loc[c]), core.GridY(loc[c]);
      ghost var was, g := loc, Contents();
      ErasePixel(c);
      ErasePixel(d);
      ghost var g2 := Contents();
      ok := PaintPixel(c, gx1, gy1);
      ghost var g3 := Contents();
      if ok {
        ok := PaintPixel(d, gx2, gy2);
        RoomBoth(core, g, g2, g3, c, d, SwapRect(core, was, c, d), SwapRect(core, was, d, c));
      } else {
        RoomFirst(core, g, g2, c, d, SwapRect(core, was, c, d), SwapRect(core, was, d, c));
      }
    }

    predicate InGroup(c: nat)
      requires c < |core.cells|
    {
      core.cells[c].group != -1
    }

    /** The placed cells are those placed before and `added`; fixed cells and cells on the other side of
        the grouped/ungrouped divide were left alone. */
    ghost predicate PlacedMore(was: seq<Loc>, grouped: bool, added: set<nat>)
      reads this`loc
    {
      && |loc| == |was| == |core.cells|
      && (forall d :: 0 <= d < |loc| ==> (loc[d].placed <==> was[d].placed || d in added))
      && (forall d :: 0 <= d < |loc| && (core.cells[d].fixed || InGroup(d) != grouped) ==> loc[d] == was[d])
    }

    /** The movable cells around a grid point. */
    method RegionCells(c: nat, gx: int, gy: int) returns (region: set<nat>)
      requires Inv() && c < |loc|
      ensures region == OwnersIn(core, Contents(), Neighbourhood(core, c, (gx, gy)))
      ensures forall d :: d in region ==> Movable(core, d) && loc[d].placed
    {
      region := {};
      var margin := core.PaddedWidth(c) * 3;
      ghost var r := Neighbourhood(core, c, (gx, gy));
      var x := gx - margin;
      while x < gx + margin
        invariant gx - margin <= x && region == OwnersSwept(r, x, gy - 3)
      {
        var y := gy - 3;
        while y < gy + 3
          invariant gy - 3 <= y <= gy + 3 && region == OwnersSwept(r, x, y)
        {
          SweepsOwner(r, x, y);
          if core.InGrid(x, y) && owner[y, x] != NOBODY {
            var d := owner[y, x];
            if 0 <= d < |core.cells| && !core.cells[d].fixed {
              region := region + {d};
            }
          }
          y := y + 1;
        }
        SweepsColumn(r, x);
        x := x + 1;
      }
      SweepsAll(r, x);
      OwnersPlaced(r);
    }

    /** The movable cells that own a site of the part of the rectangle that is swept. */
    ghost function OwnersSwept(r: Rect, x: int, y: int): set<nat>
      requires Valid()
      reads this`loc, owner
    {
      set d: nat | d < |core.cells| && Movable(core, d) && exists i, j :: Swept(r, x, y, i, j) && Owner(core, Contents(), i, j) == d
    }

    lemma SweepsOwner(r: Rect, x: int, y: int)
      requires Valid() && r.Has(x, y)
      ensures var d := Owner(core, Contents(), x, y);
        OwnersSwept(r, x, y + 1) == OwnersSwept(r, x, y) + if Movable(core, d) then {d as nat} else {}
    {
      var d := Owner(core, Contents(), x, y);
      assert Swept(r, x, y + 1, x, y);
      forall i, j | Swept(r, x, y + 1, i, j)
        ensures Swept(r, x, y, i, j) || (i == x && j == y)
      {
      }
      forall e: nat | e < |core.cells| && Movable(core, e)
        ensures e in OwnersSwept(r, x, y + 1) <==> e in OwnersSwept(r, x, y) || e == d
      {
      }
    }

    lemma SweepsColumn(r: Rect, x: int)
      requires Valid() && r.x0 <= x < r.x1
      ensures OwnersSwept(r, x, r.y1) == OwnersSwept(r, x + 1, r.y0)
    {
      forall i, j
        ensures Swept(r, x, r.y1, i, j) <==> Swept(r, x + 1, r.y0, i, j)
      {
      }
    }

    lemma SweepsAll(r: Rect, x: int)
      requires Valid() && r.x1 <= x
      ensures OwnersSwept(r, x, r.y0) == OwnersIn(core, Contents(), r)
    {
      forall i, j
        ensures Swept(r, x, r.y0, i, j) <==> r.Has(i, j)
      {
      }
    }

    lemma OwnersPlaced(r: Rect)
      requires Inv()
      ensures forall d :: d in OwnersIn(core, Contents(), r) ==> Movable(core, d) && loc[d].placed
    {
    }

    /** The region's cells on c's side of the divide. */
    ghost function Side(c: nat, region: set<nat>): set<nat>
      requires c < |core.cells|
    {
      set d | d in region && d < |core.cells| && (core.cells[d].group == -1 <==> core.cells[c].group == -1)
    }

    /** Takes the region's cells on c's side of the divide off the grid. */
    method EraseRegion(c: nat, region: set<nat>)
      requires Inv() && c < |loc| && forall d :: d in region ==> Movable(core, d) && loc[d].placed
      modifies this`loc, owner
      ensures Inv() && TakenOff(core, old(Now()), Now(), Side(c, region))
    {
      var todo := region;
      ghost var all, s0 := Side(c, region), Now();
      NoneTaken(s0);
      while todo != {}
        invariant Inv() && todo <= region && TakenOff(core, s0, Now(), all - todo)
      {
        hide Consistent;
        var d :| d in todo;
        ghost var was := Now();
        if InGroup(d) == InGroup(c) {
          ErasePixel(d);
          OneTaken(s0, was, Now(), all - todo, d);
          assert all - (todo - {d}) == (all - todo) + {d};
        } else {
          assert all - (todo - {d}) == all - todo;
        }
        todo := todo - {d};
      }
      assert all - {} == all;
    }

    lemma NoneTaken(s: State)
      requires StateOf(core, s)
      ensures TakenOff(core, s, s, {})
    {
    }

    lemma OneTaken(s: State, was: State, now: State, gone: set<nat>, d: nat)
      requires TakenOff(core, s, was, gone) && StateOf(core, now) && d < |s.loc| && Movable(core, d) && d !in gone
      requires now.loc == if was.loc[d].placed then was.loc[d := was.loc[d].(placed := false, hold := false)] else was.loc
      requires was.loc[d].placed
      requires forall i, j {:trigger Owner(core, now.g, i, j)} ::
        Owner(core, now.g, i, j) == if Owner(core, was.g, i, j) == d then NOBODY else Owner(core, was.g, i, j)
      ensures TakenOff(core, s, now, gone + {d})
    {
    }

    /** Puts them back, each where its search ends; the last one listed is the one that found no place, if one does not. */
    method ReplaceRegion(c: nat, region: set<nat>) returns (ok: bool, ghost cs: seq<nat>)
      requires Inv() && c < |loc| && forall d :: d in region ==> Movable(core, d)
      requires forall d :: d in Side(c, region) ==> !loc[d].placed
      modifies this`loc, owner
      ensures Inv() && |loc| == old(|loc|)
      ensures forall d :: 0 <= d < |loc| && d !in Side(c, region) ==> loc[d] == old(loc)[d]
      ensures ok ==> Lists(cs, Side(c, region)) && MappedAll(rules, old(Now()), Now(), cs) && forall d :: d in Side(c, region) ==> loc[d].placed
      ensures !ok ==> exists d :: d in Side(c, region) && d !in cs && MappedAll(rules, old(Now()), Now(), cs) && NoPlace(rules, Now(), d)
    {
      hide Mapped, MappedAll, NoPlace, Consistent, Lists;
      var todo := region;
      ListsNone(Now());
      ghost var all, s0 := Side(c, region), Now();
      assert all - todo == {};
      cs := [];
      while todo != {}
        invariant Inv() && |loc| == old(|loc|) && todo <= region
        invariant forall d :: 0 <= d < |loc| && (d in todo || d !in all) ==> loc[d] == old(loc)[d]
        invariant forall d :: d in all && d !in todo ==> loc[d].placed
        invariant Lists(cs, all - todo) && MappedAll(rules, s0, Now(), cs)
      {
        var d :| d in todo;
        if InGroup(d) == InGroup(c) {
          ListsMore(cs, all - todo, d);
          ok := MapNext(d, s0, cs);
          if !ok {
            return;
          }
          assert all - (todo - {d}) == (all - todo) + {d};
          cs := cs + [d];
        } else {
          assert all - (todo - {d}) == all - todo;
        }
        todo := todo - {d};
      }
      assert all - {} == all;
      ok := true;
    }

    method MapNext(d: nat, ghost s0: State, ghost cs: seq<nat>) returns (ok: bool)
      requires Inv() && Movable(core, d) && !loc[d].placed && MappedAll(rules, s0, Now(), cs)
      modifies this`loc, owner
      ensures Inv() && if ok then OnlyPlaced(old(loc), d) else loc == old(loc)
      ensures if ok then MappedAll(rules, s0, Now(), cs + [d]) else MappedAll(rules, s0, Now(), cs) && NoPlace(rules, Now(), d)
    {
      hide Mapped, MappedAll, NoPlace, Consistent;
      ghost var was := Now();
      ok := MapCell(d);
      if ok {
        MappedNext(rules, s0, was, Now(), cs, d);
      }
    }

    lemma ListsNone(s: State)
      ensures Lists([], {}) && MappedAll(rules, s, s, [])
    {
    }

    lemma ListsMore(cs: seq<nat>, s: set<nat>, d: nat)
      requires Lists(cs, s) && d !in s
      ensures Lists(cs + [d], s + {d}) && d !in cs
    {
    }

    /** Makes room for a cell by re-placing its neighbourhood. Success means the cell is placed and
        nobody else lost their place; failure is the tool's abort. */
    method ShiftMove(c: nat) returns (ok: bool)
      requires Inv() && Movable(core, c) && !loc[c].placed
      modifies this`loc, owner
      ensures Inv() && |loc| == old(|loc|)
      ensures ok ==> PlacedMore(old(loc), InGroup(c), {c})
      ensures if ok then Shifted(rules, old(Now()), Now(), c) else ShiftStuck(rules, old(Now()), c)
    {
      hide Mapped, MappedAll, NoPlace, Consistent, Rules.StartPt, TakenOff, OwnersIn, Lists, Shifted, ShiftStuck;
      ghost var s := Now();
      var gx, gy := LegalGridPt(c);
      var region := RegionCells(c, gx, gy);
      assert Side(c, region) == Around(rules, s, c);
      EraseRegion(c, region);
      ghost var t, around := Now(), Side(c, region);
      TakenLocs(s, t, around);
      ok := MapCell(c);
      if !ok {
        StuckFirst(rules, s, t, c);
        return;
      }
      ghost var v := Now();
      ghost var cs;
      ok, cs := ReplaceRegion(c, region);
      if ok {
        AllShifted(rules, s, t, v, Now(), c, cs);
      } else {
        ghost var d :| d in around && d !in cs && MappedAll(rules, v, Now(), cs) && NoPlace(rules, Now(), d);
        StuckAfterFirst(rules, s, t, v, Now(), c, cs, d);
      }
    }

    lemma TakenLocs(s: State, t: State, gone: set<nat>)
      requires TakenOff(core, s, t, gone)
      ensures |t.loc| == |s.loc| && forall d :: 0 <= d < |s.loc| ==> if d in gone then !t.loc[d].placed else t.loc[d] == s.loc[d]
    {
    }

    function CellFitsInCore(c: nat): bool
      requires c < |core.cells| && core.siteWidth > 0 && core.rowHeight > 0
    {
      core.PaddedWidth(c) <= core.cols && core.GridHeight(c) <= core.rows
    }

    lemma FitsMeans()
      requires core.Valid()
      ensures forall c: nat :: c < |core.cells| ==> (CellFitsInCore(c) <==> !LegalStart.LargerThanCore(core, c))
    {
      forall c: nat | c < |core.cells|
        ensures CellFitsInCore(c) <==> !LegalStart.LargerThanCore(core, c)
      {
        LegalStart.SitesNeeded(core, c, core.cols);
        LegalStart.SitesNeeded(core, c, core.rows);
      }
    }

    /** The ungrouped movable cells still to be placed; aborts if one is larger than the core. */
    method Unplaced() returns (ok: bool, cells: seq<nat>)
      requires Valid()
      ensures forall c :: c in cells ==> Movable(core, c) && !InGroup(c) && !loc[c].placed && CellFitsInCore(c)
      ensures ok ==> forall c: nat :: Movable(core, c) && !InGroup(c) && !loc[c].placed ==> c in cells
      ensures ok <==> forall c: nat :: Movable(core, c) && !InGroup(c) && !loc[c].placed ==> CellFitsInCore(c)
      ensures forall i, j :: 0 <= i < j < |cells| ==> cells[i] != cells[j]
    {
      cells := [];
      for c := 0 to |loc|
        invariant forall d :: d in cells ==> d < c && Movable(core, d) && !InGroup(d) && !loc[d].placed && CellFitsInCore(d)
        invariant forall d: nat :: d < c && Movable(core, d) && !InGroup(d) && !loc[d].placed ==> d in cells
        invariant forall i, j :: 0 <= i < j < |cells| ==> cells[i] != cells[j]
      {
        if !(core.cells[c].fixed || InGroup(c) || loc[c].placed) {
          if !CellFitsInCore(c) {
            return false, cells;
          }
          cells := cells + [c];
        }
      }
      ok := true;
    }

    /** Larger cells first, by number on ties. */
    method SortByArea(cells: seq<nat>) returns (r: seq<nat>)
      requires forall c :: c in cells ==> c < |core.cells|
      requires forall i, j :: 0 <= i < j < |cells| ==> cells[i] != cells[j]
      ensures multiset(r) == multiset(cells)
      ensures ByArea(core, r)
      ensures (forall c :: c in r <==> c in cells) && forall i, j :: 0 <= i < j < |r| ==> r[i] != r[j]
    {
      hide AreaGreater;
      r := [];
      for i := 0 to |cells|
        invariant multiset(r) == multiset(cells[..i])
        invariant ByArea(core, r)
      {
        assert cells[i] in cells && cells[..i + 1] == cells[..i] + [cells[i]];
        NotYet(cells, r, i);
        r := InsertByArea(r, cells[i]);
      }
      assert cells[..|cells|] == cells;
      SortedMembers(cells, r);
    }

    lemma SortedMembers(cells: seq<nat>, r: seq<nat>)
      requires multiset(r) == multiset(cells) && ByArea(core, r)
      ensures (forall c :: c in r <==> c in cells) && forall i, j :: 0 <= i < j < |r| ==> r[i] != r[j]
    {
      forall c
        ensures c in r <==> c in cells
      {
        assert c in r <==> c in multiset(r);
        assert c in cells <==> c in multiset(cells);
      }
    }

    lemma NotYet(cells: seq<nat>, r: seq<nat>, i: nat)
      requires i < |cells| && multiset(r) == multiset(cells[..i])
      requires forall i, j :: 0 <= i < j < |cells| ==> cells[i] != cells[j]
      ensures cells[i] !in r
    {
      assert cells[i] !in multiset(cells[..i]);
    }

    method InsertByArea(r: seq<nat>, c: nat) returns (s: seq<nat>)
      requires c < |core.cells| && c !in r && ByArea(core, r)
      ensures multiset(s) == multiset(r) + multiset{c} && ByArea(core, s)
    {
      hide Area;
      var k := |r|;
      while k > 0 && AreaGreater(core, c, r[k - 1])
        invariant 0 <= k <= |r|
        invariant forall j :: k <= j < |r| ==> AreaGreater(core, c, r[j])
      {
        k := k - 1;
      }
      assert forall j :: 0 <= j < k ==> AreaGreater(core, r[j], c) by {
        if k > 0 {
          assert AreaGreater(core, r[k - 1], c);
        }
      }
      s := r[..k] + [c] + r[k..];
      InsertMultiset(r, k, c);
    }

    /** Gives the listed cells of one kind their turns, shifting neighbours when the search finds nothing. */
    method PlaceKind(cells: seq<nat>, multi: bool) returns (ok: bool)
      requires Inv() && forall c :: c in cells ==> Movable(core, c) && !InGroup(c) && CellFitsInCore(c)
      requires forall c :: c in OfKind(core, cells, multi) ==> !loc[c].placed
      requires forall i, j :: 0 <= i < j < |cells| ==> cells[i] != cells[j]
      modifies this`loc, owner
      ensures Inv() && |loc| == old(|loc|)
      ensures ok ==> PlacedMore(old(loc), false, Members(OfKind(core, cells, multi)))
      ensures if ok then Turns(rules, old(Now()), Now(), OfKind(core, cells, multi)) else StuckAfter(rules, old(Now()), OfKind(core, cells, multi))
    {
      hide Turn, Turns, StuckAfter, Consistent, OfKind;
      ghost var s0 := Now();
      TurnsStart(s0, cells, multi);
      for k := 0 to |cells|
        invariant Inv() && PlacedMore(s0.loc, false, Members(OfKind(core, cells[..k], multi)))
        invariant Turns(rules, s0, Now(), OfKind(core, cells[..k], multi))
      {
        ok := PlaceNth(cells, multi, k, s0);
        if !ok {
          return;
        }
      }
      assert cells[..|cells|] == cells;
      ok := true;
    }

    lemma TurnsStart(s: State, cells: seq<nat>, multi: bool)
      ensures Turns(rules, s, s, OfKind(core, cells[..0], multi)) && Members(OfKind(core, cells[..0], multi)) == {}
    {
    }

    /** The k-th cell's turn, if it is of this kind. */
    method PlaceNth(cells: seq<nat>, multi: bool, k: nat, ghost s0: State) returns (ok: bool)
      requires Inv() && forall c :: c in cells ==> Movable(core, c) && !InGroup(c) && CellFitsInCore(c)
      requires forall c :: c in OfKind(core, cells, multi) ==> c < |s0.loc| && !s0.loc[c].placed
      requires k < |cells| && forall i, j :: 0 <= i < j < |cells| ==> cells[i] != cells[j]
      requires PlacedMore(s0.loc, false, Members(OfKind(core, cells[..k], multi)))
      requires Turns(rules, s0, Now(), OfKind(core, cells[..k], multi))
      modifies this`loc, owner
      ensures Inv() && |loc| == old(|loc|)
      ensures ok ==> PlacedMore(s0.loc, false, Members(OfKind(core, cells[..k + 1], multi)))
      ensures ok ==> Turns(rules, s0, Now(), OfKind(core, cells[..k + 1], multi))
      ensures !ok ==> StuckAfter(rules, s0, OfKind(core, cells, multi))
    {
      hide Turn, Turns, StuckTurn, StuckAfter, Consistent, OfKind;
      var c := cells[k];
      assert c in cells && c !in cells[..k];
      OfKindNext(core, cells, multi, k);
      ok := true;
      if core.cells[c].multiRow == multi && CellFitsInCore(c) {
        ghost var u, before := Now(), OfKind(core, cells[..k], multi);
        assert c in OfKind(core, cells, multi) && c !in before;
        ok := TakeTurn(c);
        if ok {
          TurnsNext(rules, s0, u, Now(), before, c);
          assert Members(before + [c]) == Members(before) + {c};
        } else {
          OfKindPrefix(core, cells, multi, k + 1);
          assert before == OfKind(core, cells, multi)[..|before|] && OfKind(core, cells, multi)[|before|] == c;
          StuckHere(rules, s0, u, OfKind(core, cells, multi), |before|);
        }
      }
    }

    ghost function Members(cs: seq<nat>): set<nat> {
      set c | c in cs
    }

    lemma TurnsNone(s: State)
      ensures Turns(rules, s, s, [])
    {
    }

    /** A cell is put where its search ends, or shifted in. */
    method TakeTurn(c: nat) returns (ok: bool)
      requires Inv() && Movable(core, c) && !loc[c].placed
      modifies this`loc, owner
      ensures Inv() && |loc| == old(|loc|)
      ensures ok ==> PlacedMore(old(loc), InGroup(c), {c})
      ensures if ok then Turn(rules, old(Now()), Now(), c) else StuckTurn(rules, old(Now()), c)
    {
      hide Mapped, NoPlace, Shifted, ShiftStuck, Consistent;
      ok := MapCell(c);
      if !ok {
        ok := ShiftMove(c);
      }
    }

    /** The placement of everything ungrouped: multi-row cells first, then the rest, larger cells first. On normal
        return every ungrouped movable cell is placed, on its own sites, and no grouped or fixed cell moved. It stops
        if a cell is larger than the core, before anything is placed, or when a turn gets stuck. */
    method Place(haveMultiRowCells: bool) returns (ok: bool)
      requires Inv()
      requires haveMultiRowCells || forall c :: 0 <= c < |core.cells| ==> !core.cells[c].multiRow
      modifies this`loc, owner
      ensures Inv() && |loc| == old(|loc|)
      ensures ok ==> forall c: nat :: Movable(core, c) && !InGroup(c) ==> loc[c].placed
      ensures ok ==> forall c :: 0 <= c < |loc| && (core.cells[c].fixed || InGroup(c)) ==> loc[c] == old(loc)[c]
      ensures if exists c :: Waiting(core, old(loc), c) && LegalStart.LargerThanCore(core, c) then !ok && Now() == old(Now())
        else exists cs :: TurnOrder(core, old(loc), cs) && if ok then Turns(rules, old(Now()), Now(), cs) else StuckAfter(rules, old(Now()), cs)
    {
      hide Consistent, Turn, Turns, StuckAfter, OfKind, TurnOrder, ByArea;
      ghost var s0 := Now();
      var cells;
      ok, cells := Unplaced();
      FitsMeans();
      if !ok {
        return;
      }
      cells := SortByArea(cells);
      ghost var cs, multi, rest := OfKind(core, cells, true) + OfKind(core, cells, false), OfKind(core, cells, true), OfKind(core, cells, false);
      KindsInOrder(core, cells, s0.loc);
      if haveMultiRowCells {
        ok := PlaceKind(cells, true);
        if !ok {
          StuckSooner(rules, s0, multi, rest);
          return;
        }
      } else {
        NoneOfSeveralRows(core, cells);
        TurnsNone(s0);
      }
      ghost var mid := Now();
      ok := PlaceKind(cells, false);
      if ok {
        TurnsConcat(rules, s0, mid, Now(), multi, rest);
      } else {
        StuckLater(rules, s0, mid, multi, rest);
      }
    }

    /** Random exchange of cells: any sequence of pairs in which cells of equal size, if movable, are placed, of one
        group and equally wide with their padding keeps the grid consistent and, if their left paddings agree,
        lowers the total displacement with every exchange. Pairs of other cells are skipped. */
    method Anneal(pairs: seq<(nat, nat)>) returns (count: nat)
      requires Inv() && AreCells(pairs, |loc|)
      requires forall k :: 0 <= k < |pairs| ==> Exchangeable(pairs[k].0, pairs[k].1)
      modifies this`loc, owner
      ensures Inv() && SamePlaced(old(loc))
      ensures (loc, count) == Annealed(core, old(loc), pairs)
      ensures (forall k :: 0 <= k < |pairs| ==> SameLeft(pairs[k].0, pairs[k].1)) ==>
        TotalDisplacement(core, loc, |loc|) + count <= old(TotalDisplacement(core, loc, |loc|))
    {
      hide Alike, SameLeft, Consistent, Core.Valid, SwapWanted, Swapped;
      count := 0;
      for k := 0 to |pairs|
        invariant Inv() && SamePlaced(old(loc))
        invariant (loc, count) == Annealed(core, old(loc), pairs[..k])
        invariant (forall k :: 0 <= k < |pairs| ==> SameLeft(pairs[k].0, pairs[k].1)) ==>
          TotalDisplacement(core, loc, |loc|) + count <= old(TotalDisplacement(core, loc, |loc|))
      {
        assert pairs[..k + 1][..k] == pairs[..k];
        var swapped := TrySwap(pairs[k].0, pairs[k].1);
        if swapped {
          count := count + 1;
        }
      }
      assert pairs[..|pairs|] == pairs;
    }

    /** One pair. */
    method TrySwap(c: nat, d: nat) returns (swapped: bool)
      requires Inv() && Exchangeable(c, d)
      modifies this`loc, owner
      ensures Inv() && SamePlaced(old(loc))
      ensures swapped <==> old(SwapWanted(core, loc, c, d))
      ensures loc == if swapped then Swapped(core, old(loc), c, d) else old(loc)
      ensures SameLeft(c, d) ==>
        TotalDisplacement(core, loc, |loc|) + (if swapped then 1 else 0) <= old(TotalDisplacement(core, loc, |loc|))
    {
      hide Consistent, SwapRoom, SwapSuits, Core.Valid, SwapChange, SameSize;
      var ok;
      ok, swapped := SwapCells(c, d);
    }

    /** The same cells are placed. */
    ghost predicate SamePlaced(was: seq<Loc>)
      reads this`loc
    {
      |loc| == |was| && forall c :: 0 <= c < |loc| ==> loc[c].placed == was[c].placed
    }

    /** Movable cells of equal size, which a swap does not skip outright. */
    predicate Alike(c: nat, d: nat) {
      && c != d && c < |core.cells| && d < |core.cells|
      && core.cells[c].width == core.cells[d].width && core.cells[c].height == core.cells[d].height
      && !core.cells[c].fixed && !core.cells[d].fixed
    }

    predicate SameLeft(c: nat, d: nat) {
      Alike(c, d) ==> core.cells[c].padLeft == core.cells[d].padLeft
    }

    /** If the cells are alike, they are placed, of one group and equally wide with their padding. */
    ghost predicate Exchangeable(c: nat, d: nat)
      reads this`loc
    {
      && c < |loc| == |core.cells| && d < |loc|
      && (Alike(c, d) ==> loc[c].placed && loc[d].placed && core.siteWidth > 0 && core.rowHeight > 0 && SameShape(core, c, d))
    }
  }

  /** A rectangle that is inside the grid starts inside the grid. */
  lemma {:induction false} NonEmptyCorner(core: Core, c: nat, gx: int, gy: int)
    requires core.Valid() && c < |core.cells|
    ensures Suits(core, c, core.PaintRect(c, gx, gy)) ==>
      gx >= 0 && gy >= 0 && gx + core.PaddedWidth(c) <= core.cols && gy + core.GridHeight(c) <= core.rows
  {
    core.FootOfPaint(c, 0, 0, core.PaintLoc(c, 0, 0));
    var r := core.PaintRect(c, gx, gy);
    assert r.Has(gx, gy);
    assert r.Has(r.x1 - 1, gy);
    assert r.Has(gx, r.y1 - 1);
  }
}

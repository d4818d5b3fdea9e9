/** Where the legaliser looks for a place (Place.cpp): the point a search starts from, the bins of the
    growing diamonds around it, and which place the search ends with. */
module LegalSearch {
  import opened IntMath
  import opened LegalGrid

  /** Sites looked at side by side in one step of the search. */
  const BIN_WIDTH: int := 10

  /** Result of a grid search. */
  datatype PixelPt = None | At(x: int, y: int)

  /** A rectangle in database units, as groups use for their boundary. */
  datatype Box = Box(xMin: int, yMin: int, xMax: int, yMax: int)

  /** How far a cell may be moved, in sites and rows. */
  datatype Limits = Limits(maxX: int, maxY: int)

  datatype Way = Left | Right | Below | Above

  /** The site n steps away. */
  function Go(w: Way, x: int, y: int, n: int): (int, int) {
    match w
    case Left => (x - n, y)
    case Right => (x + n, y)
    case Below => (x, y - n)
    case Above => (x, y + n)
  }

  /** C's rounded division of ints through double: halves away from zero. */
  function DivRound(a: int, b: int): int
    requires b > 0
  {
    if a >= 0 then (2 * a + b) / (2 * b) else -((-2 * a + b) / (2 * b))
  }

  function ClosestInside(b: Box, x: int, y: int): (int, int) {
    (Min(Max(x, b.xMin), b.xMax), Min(Max(y, b.yMin), b.yMax))
  }

  /** What does not change while cells are placed. */
  datatype Rules = Rules(core: Core, limits: Limits, boundary: seq<Box>, row0TopIsVdd: bool) {

    // ----- where a search starts

    /** A point moved into the core and onto a site corner. */
    function LegalPt(c: nat, x: int, y: int): (int, int)
      requires core.Valid() && c < |core.cells|
    {
      var coreX := Min(Max(0, x), core.cols * core.siteWidth - core.cells[c].width);
      var coreY := Min(Max(0, y), core.rows * core.rowHeight - core.cells[c].height);
      (DivRound(coreX, core.siteWidth) * core.siteWidth, DivRound(coreY, core.rowHeight) * core.rowHeight)
    }

    function GridPt(pt: (int, int)): (int, int)
      requires core.Valid()
    {
      (TruncDiv(pt.0, core.siteWidth), TruncDiv(pt.1, core.rowHeight))
    }

    /** Where on the edge of a macro a cell that starts on it is moved: to its nearest side. */
    function NearestBlockEdge(c: nat, pt: (int, int), b: Box): (int, int)
      requires core.Valid() && c < |core.cells|
    {
      var cell := core.cells[c];
      var left, right := Abs(pt.0 - b.xMin), Abs(b.xMax - (pt.0 + cell.width));
      var below, above := Abs(pt.1 - b.yMin), Abs(b.yMax - (pt.1 + cell.height));
      if left < right && left < below && left < above then
        LegalPt(c, b.xMin - cell.width, pt.1)
      else if right <= left && right <= below && right <= above then
        LegalPt(c, b.xMax, pt.1)
      else if below <= left && below <= right && below <= above then
        LegalPt(c, pt.0, TruncDiv(b.yMin, core.rowHeight) * core.rowHeight - cell.height)
      else
        LegalPt(c, pt.0, DivCeil(b.yMax, core.rowHeight) * core.rowHeight)
    }

    predicate Touches(c: nat, pt: (int, int), b: Box)
      requires c < |core.cells|
    {
      && pt.0 + core.cells[c].width >= b.xMin && pt.0 <= b.xMax
      && pt.1 + core.cells[c].height >= b.yMin && pt.1 <= b.yMax
    }

    function Outline(loc: seq<Loc>, o: nat): Box
      requires o < |core.cells| == |loc|
    {
      Box(loc[o].x, loc[o].y, loc[o].x + core.cells[o].width, loc[o].y + core.cells[o].height)
    }

    /** Off the macro that owns the site, if a macro does and the cell meets or touches it. */
    function OffBlock(loc: seq<Loc>, c: nat, pt: (int, int), owner: int): (int, int)
      requires core.Valid() && c < |core.cells| == |loc|
    {
      if 0 <= owner < |loc| && core.cells[owner].block && Touches(c, pt, Outline(loc, owner)) then
        NearestBlockEdge(c, pt, Outline(loc, owner))
      else pt
    }

    /** Start of the search for a cell: its wish, less its left padding, moved into the core and onto a
        site, off macros, and off sites no row is near. */
    ghost function StartPt(g: Grid, loc: seq<Loc>, c: nat): (int, int)
      requires core.Valid() && c < |core.cells| == |loc| && Shaped(core, g)
    {
      var pt := LegalPt(c, core.cells[c].initX - core.cells[c].padLeft * core.siteWidth, core.cells[c].initY);
      var at := GridPt(pt);
      if !core.InGrid(at.0, at.1) then at
      else
        var off := GridPt(OffBlock(loc, c, pt, Owner(core, g, at.0, at.1)));
        if core.InGrid(off.0, off.1) && core.sites[off.1][off.0].hopeless then LessHopeless(off.0, off.1) else off
    }

    predicate ValidSite(x: int, y: int)
      requires core.Valid()
    {
      core.InGrid(x, y) && core.sites[y][x].valid
    }

    predicate ValidAhead(w: Way, x: int, y: int, n: int)
      requires core.Valid()
    {
      ValidSite(Go(w, x, y, n).0, Go(w, x, y, n).1)
    }

    /** How many steps, at least k, to the next valid site that way; -1 if the grid ends before. */
    function Steps(w: Way, x: int, y: int, k: nat): (n: int)
      requires core.Valid() && core.InGrid(x, y)
      ensures n >= -1 && (n != -1 ==> n >= k && ValidAhead(w, x, y, n))
      ensures forall m :: k <= m && (n == -1 || m < n) ==> !ValidAhead(w, x, y, m)
      decreases core.cols + core.rows - k
    {
      if !core.InGrid(Go(w, x, y, k).0, Go(w, x, y, k).1) then -1
      else if ValidAhead(w, x, y, k) then k
      else Steps(w, x, y, k + 1)
    }

    function StepLength(w: Way): int {
      if w.Left? || w.Right? then core.siteWidth else core.rowHeight
    }

    /** One direction of the hopeless search: its next valid site replaces the best so far if nearer. */
    function Nearer(w: Way, x: int, y: int, best: (int, int, int)): (int, int, int)
      requires core.Valid() && core.InGrid(x, y)
    {
      var n := Steps(w, x, y, 1);
      if n != -1 && (best.2 < 0 || n * StepLength(w) < best.2) then
        (Go(w, x, y, n).0, Go(w, x, y, n).1, n * StepLength(w))
      else best
    }

    /** Best site and its distance, looking left, right, below and above; the distance is -1 when there is
        no valid site in any of these directions. */
    function BestAround(x: int, y: int): (int, int, int)
      requires core.Valid() && core.InGrid(x, y)
    {
      Nearer(Above, x, y, Nearer(Below, x, y, Nearer(Right, x, y, Nearer(Left, x, y, (x, y, -1)))))
    }

    function LessHopeless(x: int, y: int): (int, int)
      requires core.Valid() && core.InGrid(x, y)
    {
      (BestAround(x, y).0, BestAround(x, y).1)
    }

    /** A search off a hopeless site starts on a valid one, and no valid site straight left, right, below or
        above is nearer; it only stays where it is when there is none. */
    lemma {:induction false} HopelessNearest(x: int, y: int, w: Way, n: nat)
      requires core.Valid() && core.InGrid(x, y) && n >= 1 && ValidAhead(w, x, y, n)
      ensures var best := BestAround(x, y);
        && ValidSite(best.0, best.1) && best.2 <= n * StepLength(w)
        && best.2 == Abs(best.0 - x) * core.siteWidth + Abs(best.1 - y) * core.rowHeight
    {
      var b0 := (x, y, -1);
      var b1 := Nearer(Left, x, y, b0);
      var b2 := Nearer(Right, x, y, b1);
      var b3 := Nearer(Below, x, y, b2);
      OneWay(Left, x, y, b0);
      OneWay(Right, x, y, b1);
      OneWay(Below, x, y, b2);
      OneWay(Above, x, y, b3);
      NearerBounds(w, x, y, n);
    }

    /** A best site so far is valid and priced by its distance. */
    predicate Priced(x: int, y: int, best: (int, int, int))
      requires core.Valid()
    {
      best.2 >= 0 ==> ValidSite(best.0, best.1) && best.2 == Abs(best.0 - x) * core.siteWidth + Abs(best.1 - y) * core.rowHeight
    }

    lemma {:induction false} OneWay(w: Way, x: int, y: int, best: (int, int, int))
      requires core.Valid() && core.InGrid(x, y) && Priced(x, y, best)
      ensures var next := Nearer(w, x, y, best);
        && Priced(x, y, next)
        && (best.2 >= 0 ==> 0 <= next.2 <= best.2)
        && (Steps(w, x, y, 1) != -1 ==> 0 <= next.2 <= Steps(w, x, y, 1) * StepLength(w))
    {
      var n := Steps(w, x, y, 1);
      if n != -1 {
        NonNegative(n, StepLength(w));
      }
    }

    lemma NearerBounds(w: Way, x: int, y: int, n: nat)
      requires core.Valid() && core.InGrid(x, y) && n >= 1 && ValidAhead(w, x, y, n)
      ensures Steps(w, x, y, 1) != -1 && Steps(w, x, y, 1) * StepLength(w) <= n * StepLength(w)
    {
      MulMono(Steps(w, x, y, 1), n, StepLength(w));
    }

    // ----- where a search ends

    function RowTopPower(row: int): Power {
      if (if row0TopIsVdd then row else row + 1) % 2 == 0 then VDD else VSS
    }

    /** Even-height cells must not start on a row whose power matches theirs. */
    predicate PowerClash(c: nat, y: int)
      requires c < |core.cells| && core.rowHeight > 0
    {
      core.GridHeight(c) % 2 == 0 && RowTopPower(y) == core.cells[c].topPower
    }

    /** A place for the cell: it fits, and the power is right. */
    ghost predicate Spot(g: Grid, c: nat, x: int, y: int)
      requires core.Valid() && c < |core.cells| && Shaped(core, g)
    {
      Fits(core, g, c, x, y) && !PowerClash(c, y)
    }

    /** p is the first place in a bin, coming from the right end if x is right of the bin's start and from
        the left end otherwise; none when the bin has no place. */
    ghost predicate Found(g: Grid, c: nat, x: int, binX: int, binY: int, p: PixelPt)
      requires core.Valid() && c < |core.cells| && Shaped(core, g)
    {
      match p
      case None => forall k :: binX <= k < binX + BIN_WIDTH ==> !Spot(g, c, k, binY)
      case At(px, py) =>
        && py == binY && binX <= px < binX + BIN_WIDTH && Spot(g, c, px, py)
        && forall k :: binX <= k < binX + BIN_WIDTH && (if x > binX then px < k else k < px) ==> !Spot(g, c, k, binY)
    }

    lemma FoundOnce(g: Grid, c: nat, x: int, binX: int, binY: int, p: PixelPt, q: PixelPt)
      requires core.Valid() && c < |core.cells| && Shaped(core, g)
      requires Found(g, c, x, binX, binY, p) && Found(g, c, x, binX, binY, q)
      ensures p == q
    {
    }

    function GridDistance(x: int, y: int, p: PixelPt): int
      requires p.At?
    {
      Abs(x - p.x) * core.siteWidth + Abs(y - p.y) * core.rowHeight
    }

    /** The search window: displacement limits, the group's boundary, the grid. */
    function Window(c: nat, x: int, y: int): Box
      requires core.Valid() && c < |core.cells|
    {
      var lim := Box(x - limits.maxX, y - limits.maxY, x + limits.maxX, y + limits.maxY);
      var g := core.cells[c].group;
      var inGroup :=
        if 0 <= g < |boundary| then
          var b := boundary[g];
          var gb := Box(DivCeil(b.xMin, core.siteWidth), DivCeil(b.yMin, core.rowHeight),
                        TruncDiv(b.xMax, core.siteWidth), TruncDiv(b.yMax, core.rowHeight));
          var lo, hi := ClosestInside(gb, lim.xMin, lim.yMin), ClosestInside(gb, lim.xMax, lim.yMax);
          Box(lo.0, lo.1, hi.0, hi.1)
        else lim;
      Box(Max(0, inGroup.xMin), Max(0, inGroup.yMin), Min(core.cols, inGroup.xMax), Min(core.rows, inGroup.yMax))
    }

    /** Where a bin of the diamond begins. */
    function Bin(c: nat, x: int, y: int, dx: int, dy: int): (int, int)
      requires core.Valid() && c < |core.cells|
    {
      var lim := Window(c, x, y);
      (Min(lim.xMax, Max(lim.xMin, x + dx * BIN_WIDTH)), Min(lim.yMax, Max(lim.yMin, y + dy)))
    }

    /** Bins of ring i: i steps from the middle, inside the displacement limits. */
    predicate InRing(i: int, dx: int, dy: int) {
      Abs(dx) + Abs(dy) == i && Abs(dx) < limits.maxX && Abs(dy) < limits.maxY
    }

    /** The bin at (dx, dy) of ring i has place p. */
    ghost predicate RingHas(g: Grid, c: nat, x: int, y: int, i: int, dx: int, dy: int, p: PixelPt)
      requires core.Valid() && c < |core.cells| && Shaped(core, g)
    {
      InRing(i, dx, dy) && p.At? && Found(g, c, x, Bin(c, x, y, dx, dy).0, Bin(c, x, y, dx, dy).1, p)
    }

    /** In which turn ring i's bin at (dx, dy) is looked at: the left half of the diamond first, column by
        column outward, and in a column the lower bin first. */
    function Turn(i: int, dx: int, dy: int): int {
      if dx < 0 then -2 * dx - (if dy > 0 then 0 else 1) else 2 * i + 2 * dx + (if dy > 0 then 1 else 0)
    }

    ghost predicate RingEmpty(g: Grid, c: nat, x: int, y: int, i: int)
      requires core.Valid() && c < |core.cells| && Shaped(core, g)
    {
      forall dx, dy, p :: !RingHas(g, c, x, y, i, dx, dy, p)
    }

    /** p is the nearest place of the bins of ring i looked at before turn n, and the first of the nearest;
        None if these bins have no place. */
    ghost predicate Nearest(g: Grid, c: nat, x: int, y: int, i: int, n: int, p: PixelPt)
      requires core.Valid() && c < |core.cells| && Shaped(core, g)
    {
      match p
      case None => forall dx, dy, q {:trigger RingHas(g, c, x, y, i, dx, dy, q)} :: Turn(i, dx, dy) < n ==> !RingHas(g, c, x, y, i, dx, dy, q)
      case At(_, _) =>
        exists dx, dy {:trigger RingHas(g, c, x, y, i, dx, dy, p)} :: Turn(i, dx, dy) < n && RingHas(g, c, x, y, i, dx, dy, p)
          && forall ex, ey, q {:trigger RingHas(g, c, x, y, i, ex, ey, q)} :: Turn(i, ex, ey) < n && RingHas(g, c, x, y, i, ex, ey, q) ==>
               if Turn(i, ex, ey) < Turn(i, dx, dy) then GridDistance(x, y, p) < GridDistance(x, y, q)
               else GridDistance(x, y, p) <= GridDistance(x, y, q)
    }

    /** All of ring i is looked at before this turn. */
    function LastTurn(i: int): int {
      4 * i + 1
    }

    /** How far the rings go. */
    function Rings(): int {
      Max(limits.maxY, limits.maxX)
    }

    /** The outcome of a whole search from (x, y): the first place in the bin at (x, y); otherwise the nearest
        place of the first ring that has one; otherwise nothing. */
    ghost predicate Searched(g: Grid, c: nat, x: int, y: int, p: PixelPt)
      requires core.Valid() && c < |core.cells| && Shaped(core, g)
    {
      || (p.At? && Found(g, c, x, x, y, p))
      || (Found(g, c, x, x, y, None) && match p
            case None => forall i {:trigger RingEmpty(g, c, x, y, i)} :: 1 <= i < Rings() ==> RingEmpty(g, c, x, y, i)
            case At(_, _) => exists i :: 1 <= i < Rings() && FirstRing(g, c, x, y, i, p))
    }

    ghost predicate FirstRing(g: Grid, c: nat, x: int, y: int, i: int, p: PixelPt)
      requires core.Valid() && c < |core.cells| && Shaped(core, g)
    {
      && Nearest(g, c, x, y, i, LastTurn(i), p)
      && forall k {:trigger RingEmpty(g, c, x, y, k)} :: 1 <= k < i ==> RingEmpty(g, c, x, y, k)
    }

    /** A search ends with a place for the cell, or with nothing. */
    lemma {:induction false} SearchIsSpot(g: Grid, c: nat, x: int, y: int, p: PixelPt)
      requires core.Valid() && c < |core.cells| && Shaped(core, g) && Searched(g, c, x, y, p) && p.At?
      ensures Spot(g, c, p.x, p.y)
    {
      hide Spot, Turn, GridDistance, Bin;
    }

    /** Turns before the last are the whole ring. */
    lemma TurnsCover(i: int, dx: int, dy: int)
      requires i >= 1 && InRing(i, dx, dy)
      ensures 1 <= Turn(i, dx, dy) < LastTurn(i)
    {
    }

    /** Different bins of a ring have different turns. */
    lemma TurnOnce(i: int, dx: int, dy: int, ex: int, ey: int)
      requires InRing(i, dx, dy) && InRing(i, ex, ey) && Turn(i, dx, dy) == Turn(i, ex, ey)
      ensures dx == ex && dy == ey
    {
    }

    lemma {:induction false} NearestOnce(g: Grid, c: nat, x: int, y: int, i: int, n: int, p: PixelPt, q: PixelPt)
      requires core.Valid() && c < |core.cells| && Shaped(core, g)
      requires Nearest(g, c, x, y, i, n, p) && Nearest(g, c, x, y, i, n, q)
      ensures p == q
    {
      hide Found, Bin, GridDistance;
      if p.At? && q.At? {
        var dx, dy :| Turn(i, dx, dy) < n && RingHas(g, c, x, y, i, dx, dy, p)
          && forall ex, ey, q {:trigger RingHas(g, c, x, y, i, ex, ey, q)} :: Turn(i, ex, ey) < n && RingHas(g, c, x, y, i, ex, ey, q) ==>
               if Turn(i, ex, ey) < Turn(i, dx, dy) then GridDistance(x, y, p) < GridDistance(x, y, q)
               else GridDistance(x, y, p) <= GridDistance(x, y, q);
        var ex, ey :| Turn(i, ex, ey) < n && RingHas(g, c, x, y, i, ex, ey, q)
          && forall dx, dy, p {:trigger RingHas(g, c, x, y, i, dx, dy, p)} :: Turn(i, dx, dy) < n && RingHas(g, c, x, y, i, dx, dy, p) ==>
               if Turn(i, dx, dy) < Turn(i, ex, ey) then GridDistance(x, y, q) < GridDistance(x, y, p)
               else GridDistance(x, y, q) <= GridDistance(x, y, p);
        TurnOnce(i, dx, dy, ex, ey);
        FoundOnce(g, c, x, Bin(c, x, y, dx, dy).0, Bin(c, x, y, dx, dy).1, p, q);
      }
    }

    /** A search has one outcome. */
    lemma {:induction false} SearchedOnce(g: Grid, c: nat, x: int, y: int, p: PixelPt, q: PixelPt)
      requires core.Valid() && c < |core.cells| && Shaped(core, g)
      requires Searched(g, c, x, y, p) && Searched(g, c, x, y, q)
      ensures p == q
    {
      hide Spot, Bin, GridDistance, Turn;
      FoundAtMostOne(g, c, x, y, p, q);
      if Found(g, c, x, x, y, None) && p.At? {
        var i :| 1 <= i < Rings() && FirstRing(g, c, x, y, i, p);
        NotEmpty(g, c, x, y, i, p);
        if q.At? {
          var k :| 1 <= k < Rings() && FirstRing(g, c, x, y, k, q);
          NotEmpty(g, c, x, y, k, q);
          NearestOnce(g, c, x, y, i, LastTurn(i), p, q);
        }
      } else if Found(g, c, x, x, y, None) && q.At? {
        var k :| 1 <= k < Rings() && FirstRing(g, c, x, y, k, q);
        NotEmpty(g, c, x, y, k, q);
      }
    }

    lemma FoundAtMostOne(g: Grid, c: nat, x: int, y: int, p: PixelPt, q: PixelPt)
      requires core.Valid() && c < |core.cells| && Shaped(core, g)
      ensures Found(g, c, x, x, y, p) && Found(g, c, x, x, y, q) ==> p == q
      ensures Found(g, c, x, x, y, p) && Found(g, c, x, x, y, None) ==> p == None
      ensures Found(g, c, x, x, y, q) && Found(g, c, x, x, y, None) ==> q == None
    {
    }

    lemma NotEmpty(g: Grid, c: nat, x: int, y: int, i: int, p: PixelPt)
      requires core.Valid() && c < |core.cells| && Shaped(core, g)
      requires p.At? && Nearest(g, c, x, y, i, LastTurn(i), p)
      ensures !RingEmpty(g, c, x, y, i)
    {
    }

    /** One more bin looked at. */
    lemma {:induction false} NearestNext(g: Grid, c: nat, x: int, y: int, i: int, dx: int, dy: int, best: PixelPt, avail: PixelPt)
      requires core.Valid() && c < |core.cells| && Shaped(core, g)
      requires InRing(i, dx, dy) && Nearest(g, c, x, y, i, Turn(i, dx, dy), best)
      requires Found(g, c, x, Bin(c, x, y, dx, dy).0, Bin(c, x, y, dx, dy).1, avail)
      ensures Nearest(g, c, x, y, i, Turn(i, dx, dy) + 1,
        if avail.At? && (best.None? || GridDistance(x, y, avail) < GridDistance(x, y, best)) then avail else best)
    {
      hide Found, Bin, GridDistance, InRing;
      forall ex, ey, q | RingHas(g, c, x, y, i, ex, ey, q) && Turn(i, ex, ey) == Turn(i, dx, dy)
        ensures ex == dx && ey == dy && q == avail
      {
        TurnOnce(i, dx, dy, ex, ey);
        FoundOnce(g, c, x, Bin(c, x, y, dx, dy).0, Bin(c, x, y, dx, dy).1, q, avail);
      }
      if avail.At? {
        assert RingHas(g, c, x, y, i, dx, dy, avail);
      }
    }

    /** A turn whose bin is out of limits changes nothing. */
    lemma {:induction false} NearestSkip(g: Grid, c: nat, x: int, y: int, i: int, dx: int, dy: int, best: PixelPt)
      requires core.Valid() && c < |core.cells| && Shaped(core, g)
      requires Abs(dx) + Abs(dy) == i && !InRing(i, dx, dy) && Nearest(g, c, x, y, i, Turn(i, dx, dy), best)
      ensures Nearest(g, c, x, y, i, Turn(i, dx, dy) + 1, best)
    {
      hide Found, Bin, GridDistance;
    }

    lemma NearestStart(g: Grid, c: nat, x: int, y: int, i: int)
      requires core.Valid() && c < |core.cells| && Shaped(core, g) && i >= 1
      ensures Nearest(g, c, x, y, i, 1, None)
    {
    }

    lemma {:induction false} NearestNone(g: Grid, c: nat, x: int, y: int, i: int)
      requires core.Valid() && c < |core.cells| && Shaped(core, g) && i >= 1 && Nearest(g, c, x, y, i, LastTurn(i), None)
      ensures RingEmpty(g, c, x, y, i)
    {
      forall dx, dy, p
        ensures !RingHas(g, c, x, y, i, dx, dy, p)
      {
        if RingHas(g, c, x, y, i, dx, dy, p) {
          TurnsCover(i, dx, dy);
        }
      }
    }
  }
}

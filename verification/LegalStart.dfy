/** What the legaliser's arithmetic means (Opendp.cpp, Place.cpp): how many sites a cell takes, where on the grid a
    search starts, to which side of a macro a cell is moved, and what a search window has in it. */
module LegalStart {
  import opened IntMath
  import opened LegalGrid
  import opened LegalSearch

  function Apart(a: int, b: int): int {
    Abs(a - b)
  }

  /** A cell takes the least numbers of sites and rows that hold it with its padding. */
  lemma {:induction false} SitesNeeded(core: Core, c: nat, n: int)
    requires core.Valid() && c < |core.cells|
    ensures var cell := core.cells[c];
      && (core.PaddedWidth(c) <= n <==> cell.width + (cell.padLeft + cell.padRight) * core.siteWidth <= n * core.siteWidth)
      && (core.GridHeight(c) <= n <==> cell.height <= n * core.rowHeight)
  {
    var cell := core.cells[c];
    CeilBound(cell.width + (cell.padLeft + cell.padRight) * core.siteWidth, core.siteWidth, n);
    CeilBound(cell.height, core.rowHeight, n);
  }

  /** With its padding the cell is wider or higher than the core. */
  predicate LargerThanCore(core: Core, c: nat)
    requires c < |core.cells|
  {
    var cell := core.cells[c];
    cell.width + (cell.padLeft + cell.padRight) * core.siteWidth > core.cols * core.siteWidth || cell.height > core.rows * core.rowHeight
  }

  // ----- the site corner a search starts from

  /** z is as near to w as anything from 0 to room. */
  ghost predicate NearestInside(z: int, w: int, room: int) {
    0 <= z <= room && forall t :: 0 <= t <= room ==> Apart(z, w) <= Apart(t, w)
  }

  /** The corner of n steps. */
  function Corner(n: int, step: int): int {
    n * step
  }

  /** s is a corner, and no corner is nearer to z. */
  ghost predicate NearestCorner(s: int, z: int, step: int) {
    (exists n :: s == Corner(n, step)) && forall n :: Apart(s, z) <= Apart(Corner(n, step), z)
  }

  /** How far right and up a cell can start inside the core. */
  function RoomX(core: Core, c: nat): int
    requires c < |core.cells|
  {
    core.cols * core.siteWidth - core.cells[c].width
  }

  function RoomY(core: Core, c: nat): int
    requires c < |core.cells|
  {
    core.rows * core.rowHeight - core.cells[c].height
  }

  /** A point is moved as little as needed for the cell to be inside the core, and then to the nearest corner. */
  lemma {:induction false} StartIsNearest(rules: Rules, c: nat, x: int, y: int) returns (zx: int, zy: int)
    requires rules.core.Valid() && c < |rules.core.cells|
    requires RoomX(rules.core, c) >= 0 && RoomY(rules.core, c) >= 0
    ensures NearestInside(zx, x, RoomX(rules.core, c)) && NearestInside(zy, y, RoomY(rules.core, c))
    ensures var pt := rules.LegalPt(c, x, y);
      && NearestCorner(pt.0, zx, rules.core.siteWidth) && NearestCorner(pt.1, zy, rules.core.rowHeight)
      && pt == (Corner(rules.GridPt(pt).0, rules.core.siteWidth), Corner(rules.GridPt(pt).1, rules.core.rowHeight))
  {
    zx, zy := Clamped(x, RoomX(rules.core, c)), Clamped(y, RoomY(rules.core, c));
    RoundIsNearest(zx, rules.core.siteWidth);
    RoundIsNearest(zy, rules.core.rowHeight);
  }

  function Clamped(w: int, room: int): (z: int)
    requires room >= 0
    ensures NearestInside(z, w, room)
  {
    Min(Max(0, w), room)
  }

  lemma {:induction false} RoundIsNearest(z: int, step: int)
    requires z >= 0 && step > 0
    ensures NearestCorner(DivRound(z, step) * step, z, step)
    ensures var s := DivRound(z, step) * step; s == Corner(TruncDiv(s, step), step)
  {
    var n := DivRound(z, step);
    assert n * step == Corner(n, step);
    DivMultiple(n, step);
    RoundBounds(z, step);
    forall k
      ensures Apart(Corner(n, step), z) <= Apart(Corner(k, step), z)
    {
      CornersApart(n, k, step);
    }
  }

  lemma {:induction false} RoundBounds(z: int, step: int)
    requires z >= 0 && step > 0
    ensures var s := Corner(DivRound(z, step), step); 2 * (s - z) <= step && 2 * (z - s) < step
  {
    var n, b := DivRound(z, step), 2 * step;
    var r := (2 * z + step) % b;
    assert 2 * z + step == b * n + r;
    assert b * n == 2 * Corner(n, step);
  }

  lemma {:induction false} CornersApart(n: int, k: int, step: int)
    requires step > 0
    ensures n < k ==> Corner(n, step) + step <= Corner(k, step)
    ensures k < n ==> Corner(k, step) + step <= Corner(n, step)
  {
    if n < k {
      MulMono(n + 1, k, step);
    } else if k < n {
      MulMono(k + 1, n, step);
    }
  }

  /** That corner can be outside: rounding goes up past the room when the last corner is at least half a step away.
      So a cell is started inside the core, whatever it wishes, exactly when neither remainder is that large. */
  lemma {:induction false} StartsInsideIff(rules: Rules, c: nat)
    requires rules.core.Valid() && c < |rules.core.cells|
    requires RoomX(rules.core, c) >= 0 && RoomY(rules.core, c) >= 0
    ensures (forall x, y :: var pt := rules.LegalPt(c, x, y); 0 <= pt.0 <= RoomX(rules.core, c) && 0 <= pt.1 <= RoomY(rules.core, c))
      <==> (2 * (RoomX(rules.core, c) % rules.core.siteWidth) < rules.core.siteWidth
            && 2 * (RoomY(rules.core, c) % rules.core.rowHeight) < rules.core.rowHeight)
  {
    var core := rules.core;
    var rx, ry := RoomX(core, c), RoomY(core, c);
    forall x, y
      ensures var pt := rules.LegalPt(c, x, y);
        && pt.0 >= 0 && (2 * (rx % core.siteWidth) < core.siteWidth ==> pt.0 <= rx)
        && pt.1 >= 0 && (2 * (ry % core.rowHeight) < core.rowHeight ==> pt.1 <= ry)
    {
      Staying(Clamped(x, rx), rx, core.siteWidth);
      Staying(Clamped(y, ry), ry, core.rowHeight);
    }
    var far := rules.LegalPt(c, rx, ry);
    Staying(rx, rx, core.siteWidth);
    Staying(ry, ry, core.rowHeight);
  }

  lemma {:induction false} Staying(z: int, room: int, step: int)
    requires 0 <= z <= room && step > 0
    ensures DivRound(z, step) * step >= 0
    ensures 2 * (room % step) < step ==> DivRound(z, step) * step <= room
    ensures z == room && DivRound(z, step) * step <= room ==> 2 * (room % step) < step
  {
    var n, q := DivRound(z, step), room / step;
    RoundBounds(z, step);
    NonNegative(n, step);
    assert room == Corner(q, step) + room % step;
    CornersApart(n, q, step);
  }

  // ----- off a macro

  /** The rectangle has the point, its edges included. */
  predicate HasPoint(b: Box, x: int, y: int) {
    b.xMin <= x <= b.xMax && b.yMin <= y <= b.yMax
  }

  function CellBox(core: Core, c: nat, pt: (int, int)): Box
    requires c < |core.cells|
  {
    Box(pt.0, pt.1, pt.0 + core.cells[c].width, pt.1 + core.cells[c].height)
  }

  /** A cell is moved off a macro exactly when the two have a point in common, an edge or a corner being enough. */
  lemma {:induction false} TouchesIsCommonPoint(rules: Rules, c: nat, pt: (int, int), b: Box)
    requires rules.core.Valid() && c < |rules.core.cells| && b.xMin <= b.xMax && b.yMin <= b.yMax
    ensures rules.Touches(c, pt, b) <==> exists x, y :: HasPoint(b, x, y) && HasPoint(CellBox(rules.core, c, pt), x, y)
  {
    var x, y := Max(pt.0, b.xMin), Max(pt.1, b.yMin);
    if rules.Touches(c, pt, b) {
      assert HasPoint(b, x, y) && HasPoint(CellBox(rules.core, c, pt), x, y);
    }
  }

  datatype Side = East | South | North | West

  /** How far an edge of the cell is from the macro's edge on the same side. */
  function Gap(core: Core, c: nat, pt: (int, int), b: Box, s: Side): int
    requires c < |core.cells|
  {
    match s
    case East => Apart(pt.0 + core.cells[c].width, b.xMax)
    case South => Apart(pt.1, b.yMin)
    case North => Apart(pt.1 + core.cells[c].height, b.yMax)
    case West => Apart(pt.0, b.xMin)
  }

  /** Of sides equally near, east comes before south, south before north, and north before west. */
  function Rank(s: Side): nat {
    match s
    case East => 0
    case South => 1
    case North => 2
    case West => 3
  }

  ghost predicate NearestSide(core: Core, c: nat, pt: (int, int), b: Box, s: Side)
    requires c < |core.cells|
  {
    forall t :: t == s || Gap(core, c, pt, b, s) < Gap(core, c, pt, b, t)
      || (Gap(core, c, pt, b, s) == Gap(core, c, pt, b, t) && Rank(s) < Rank(t))
  }

  /** q is beside the macro: against it to the east and west, and on the first row line clear of it to the north and
      south, below the core's bottom excepted. */
  predicate Beside(core: Core, c: nat, pt: (int, int), b: Box, s: Side, q: (int, int))
    requires c < |core.cells| && core.rowHeight > 0
  {
    match s
    case East => q == (b.xMax, pt.1)
    case West => q.0 + core.cells[c].width == b.xMin && q.1 == pt.1
    case South =>
      q.0 == pt.0 && (q.1 + core.cells[c].height) % core.rowHeight == 0
        && (b.yMin >= 0 ==> q.1 + core.cells[c].height <= b.yMin < q.1 + core.cells[c].height + core.rowHeight)
    case North => q.0 == pt.0 && q.1 % core.rowHeight == 0 && b.yMax <= q.1 < b.yMax + core.rowHeight
  }

  /** The site's owner is a macro, and the cell has a point in common with it. */
  ghost predicate OnMacro(core: Core, loc: seq<Loc>, c: nat, pt: (int, int), owner: int) {
    && c < |core.cells| == |loc| && 0 <= owner < |loc| && core.cells[owner].block
    && var at, m := loc[owner], core.cells[owner];
    exists x, y :: HasPoint(Box(at.x, at.y, at.x + m.width, at.y + m.height), x, y) && HasPoint(CellBox(core, c, pt), x, y)
  }

  /** A cell on a macro starts beside its nearest side, as far as the core allows; any other stays where it is. */
  lemma {:induction false} OffNearestSide(rules: Rules, loc: seq<Loc>, c: nat, pt: (int, int), owner: int) returns (s: Side, q: (int, int))
    requires rules.core.Valid() && c < |rules.core.cells| == |loc|
    ensures if OnMacro(rules.core, loc, c, pt, owner) then
        var b := CellBox(rules.core, owner, (loc[owner].x, loc[owner].y));
        && NearestSide(rules.core, c, pt, b, s) && Beside(rules.core, c, pt, b, s, q)
        && rules.OffBlock(loc, c, pt, owner) == rules.LegalPt(c, q.0, q.1)
      else rules.OffBlock(loc, c, pt, owner) == pt
  {
    s, q := East, pt;
    OnlyMacros(rules, loc, c, pt, owner);
    if OnMacro(rules.core, loc, c, pt, owner) {
      var b := CellBox(rules.core, owner, (loc[owner].x, loc[owner].y));
      s := Nearest(rules.core, c, pt, b);
      q := Goal(rules.core, c, pt, b, s);
      GoalIsBeside(rules.core, c, pt, b, s);
      EdgeIsGoal(rules, c, pt, b);
    }
    hide *;
  }

  lemma {:induction false} OnlyMacros(rules: Rules, loc: seq<Loc>, c: nat, pt: (int, int), owner: int)
    requires rules.core.Valid() && c < |rules.core.cells| == |loc|
    ensures rules.OffBlock(loc, c, pt, owner) == if OnMacro(rules.core, loc, c, pt, owner) then
        rules.NearestBlockEdge(c, pt, CellBox(rules.core, owner, (loc[owner].x, loc[owner].y)))
      else pt
  {
    hide Rules.NearestBlockEdge, Rules.Touches;
    if 0 <= owner < |loc| {
      TouchesIsCommonPoint(rules, c, pt, rules.Outline(loc, owner));
    }
  }

  lemma EdgeIsGoal(rules: Rules, c: nat, pt: (int, int), b: Box)
    requires rules.core.Valid() && c < |rules.core.cells|
    ensures var q := Goal(rules.core, c, pt, b, Nearest(rules.core, c, pt, b)); rules.NearestBlockEdge(c, pt, b) == rules.LegalPt(c, q.0, q.1)
  {
    hide TruncDiv, DivCeil, Rules.LegalPt, NearestSide, Core.Valid;
  }

  function Nearest(core: Core, c: nat, pt: (int, int), b: Box): (s: Side)
    requires c < |core.cells|
    ensures NearestSide(core, c, pt, b, s)
  {
    var e, u, n, w := Gap(core, c, pt, b, East), Gap(core, c, pt, b, South), Gap(core, c, pt, b, North), Gap(core, c, pt, b, West);
    if w < e && w < u && w < n then West
    else if e <= w && e <= u && e <= n then East
    else if u <= w && u <= e && u <= n then South
    else North
  }

  function Goal(core: Core, c: nat, pt: (int, int), b: Box, s: Side): (int, int)
    requires c < |core.cells| && core.rowHeight > 0
  {
    match s
    case East => (b.xMax, pt.1)
    case South => (pt.0, TruncDiv(b.yMin, core.rowHeight) * core.rowHeight - core.cells[c].height)
    case North => (pt.0, DivCeil(b.yMax, core.rowHeight) * core.rowHeight)
    case West => (b.xMin - core.cells[c].width, pt.1)
  }

  lemma GoalIsBeside(core: Core, c: nat, pt: (int, int), b: Box, s: Side)
    requires c < |core.cells| && core.rowHeight > 0
    ensures Beside(core, c, pt, b, s, Goal(core, c, pt, b, s))
  {
    RowLines(b, core.rowHeight);
    hide TruncDiv, DivCeil;
  }

  lemma {:induction false} RowLines(b: Box, h: int)
    requires h > 0
    ensures (TruncDiv(b.yMin, h) * h) % h == 0 && (b.yMin >= 0 ==> TruncDiv(b.yMin, h) * h <= b.yMin < TruncDiv(b.yMin, h) * h + h)
    ensures (DivCeil(b.yMax, h) * h) % h == 0 && b.yMax <= DivCeil(b.yMax, h) * h < b.yMax + h
  {
    MultipleMod(TruncDiv(b.yMin, h), h);
    MultipleMod(DivCeil(b.yMax, h), h);
    var q := (-b.yMax) / h;
    assert q * h <= -b.yMax < q * h + h;
    assert -q * h == -(q * h);
  }

  lemma {:induction false} MultipleMod(n: int, h: int)
    requires h > 0
    ensures (n * h) % h == 0
  {
    DivUnique(n * h, n, 0, h);
  }

  // ----- the window of a search

  /** The group's boundary reaches or covers the corner of site i, row j. */
  predicate InBoundary(core: Core, b: Box, i: int, j: int) {
    HasPoint(b, Corner(i, core.siteWidth), Corner(j, core.rowHeight))
  }

  /** In the grid or on its edge, and not farther from (x, y) than a cell may be moved. */
  predicate InReach(rules: Rules, x: int, y: int, i: int, j: int) {
    && 0 <= i <= rules.core.cols && 0 <= j <= rules.core.rows
    && Apart(i, x) <= rules.limits.maxX && Apart(j, y) <= rules.limits.maxY
  }

  /** The window of a cell of no group is all that is in reach. */
  lemma WindowIsReach(rules: Rules, c: nat, x: int, y: int, i: int, j: int)
    requires rules.core.Valid() && c < |rules.core.cells| && !(0 <= rules.core.cells[c].group < |rules.boundary|)
    ensures HasPoint(rules.Window(c, x, y), i, j) <==> InReach(rules, x, y, i, j)
  {
  }

  /** The window of a grouped cell is what is in reach inside the boundary, if there is anything. */
  lemma {:induction false} GroupWindow(rules: Rules, c: nat, x: int, y: int, i: int, j: int, k: int, l: int)
    requires rules.core.Valid() && c < |rules.core.cells| && 0 <= rules.core.cells[c].group < |rules.boundary|
    requires var b := rules.boundary[rules.core.cells[c].group]; b.xMax >= 0 && b.yMax >= 0 && InBoundary(rules.core, b, k, l)
    requires InReach(rules, x, y, k, l)
    ensures HasPoint(rules.Window(c, x, y), i, j) <==>
      InReach(rules, x, y, i, j) && InBoundary(rules.core, rules.boundary[rules.core.cells[c].group], i, j)
  {
    var core := rules.core;
    var b := rules.boundary[core.cells[c].group];
    InsideLines(b.xMin, b.xMax, core.siteWidth, i);
    InsideLines(b.yMin, b.yMax, core.rowHeight, j);
    InsideLines(b.xMin, b.xMax, core.siteWidth, k);
    InsideLines(b.yMin, b.yMax, core.rowHeight, l);
    hide TruncDiv, DivCeil, Corner;
  }

  lemma {:induction false} InsideLines(lo: int, hi: int, step: int, i: int)
    requires step > 0 && hi >= 0
    ensures DivCeil(lo, step) <= i <= TruncDiv(hi, step) <==> lo <= Corner(i, step) <= hi
  {
    CeilBound(lo, step, i);
    FloorBound(hi, step, i);
  }

  /** A bin begins where it is meant to if that is in the window, and otherwise as near to it as the window goes. */
  lemma BinIsNearest(rules: Rules, c: nat, x: int, y: int, dx: int, dy: int, i: int, j: int)
    requires rules.core.Valid() && c < |rules.core.cells| && HasPoint(rules.Window(c, x, y), i, j)
    ensures var bin := rules.Bin(c, x, y, dx, dy);
      && HasPoint(rules.Window(c, x, y), bin.0, bin.1)
      && Apart(bin.0, x + 10 * dx) <= Apart(i, x + 10 * dx) && Apart(bin.1, y + dy) <= Apart(j, y + dy)
  {
    hide Rules.Window;
  }

  /** Distance of a place in database units. */
  lemma {:induction false} DistanceInUnits(rules: Rules, x: int, y: int, p: PixelPt)
    requires rules.core.Valid() && p.At?
    ensures rules.GridDistance(x, y, p) == Apart(Corner(x, rules.core.siteWidth), Corner(p.x, rules.core.siteWidth))
      + Apart(Corner(y, rules.core.rowHeight), Corner(p.y, rules.core.rowHeight))
  {
    StepsApart(x, p.x, rules.core.siteWidth);
    StepsApart(y, p.y, rules.core.rowHeight);
  }

  lemma {:induction false} StepsApart(a: int, b: int, step: int)
    requires step > 0
    ensures Apart(Corner(a, step), Corner(b, step)) == Abs(a - b) * step
  {
    CornersApart(a, b, step);
    Distribute(a, b, step);
  }

  // ----- power

  /** Cells an even number of rows high that have their power at the top only go on every other row; all others go
      on any row. */
  lemma PowerAlternates(rules: Rules, c: nat, y: int)
    requires rules.core.Valid() && c < |rules.core.cells|
    ensures var power, high := rules.core.cells[c].topPower, rules.core.GridHeight(c);
      rules.PowerClash(c, y) <==> (power != Undefined && high % 2 == 0 && (y % 2 == 0 <==> (power == VDD <==> rules.row0TopIsVdd)))
  {
  }
}

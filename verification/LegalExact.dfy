/** How far the distance tests of refining and swapping can be trusted: the exact conditions on the cells'
    padding, and for every padding outside them a grid on which the legaliser goes wrong (Place.cpp). */
module LegalExact {
  import opened IntMath
  import opened LegalGrid
  import opened LegalSearch
  import opened LegalMoves

  // ----- refining: exact only without left padding

  ghost predicate RefinesPadded(rules: Rules, g: Grid, loc: seq<Loc>, c: nat, p: PixelPt, padLeft: nat) {
    Refines(rules, g, loc, c, p) && rules.core.cells[c].padLeft == padLeft
  }

  /** Every refining move of a cell with this left padding lowers the total displacement, on every grid and
      for every wish, if and only if the padding is zero: the distance test prices the padded corner, the
      paint puts the cell right of it. */
  lemma {:induction false} RefineLowersIff(padLeft: nat)
    ensures (forall rules, g, loc, c, p {:trigger RefinesPadded(rules, g, loc, c, p, padLeft)} ::
               RefinesPadded(rules, g, loc, c, p, padLeft) ==>
               TotalDisplacement(rules.core, Refined(rules.core, loc, c, p), |loc|) < TotalDisplacement(rules.core, loc, |loc|))
       <==> padLeft == 0
  {
    if padLeft == 0 {
      forall rules, g, loc, c, p | RefinesPadded(rules, g, loc, c, p, padLeft)
        ensures TotalDisplacement(rules.core, Refined(rules.core, loc, c, p), |loc|) < TotalDisplacement(rules.core, loc, |loc|)
      {
        RefineLowers(rules, g, loc, c, p);
      }
    } else {
      RefineRaises(padLeft);
    }
  }

  /** Two rows, two units a site and one unit a row, the first site of the lower row unusable. One cell, as
      wide as a site, wishes to be at the origin. */
  function CornerCore(padLeft: nat): Core {
    Core(padLeft + 2, 2, 2, 1, [Cell(2, 1, padLeft, 0, -1, false, false, false, VDD, 0, 0)],
         [seq(padLeft + 2, i => Site(i != 0, -1, false)), seq(padLeft + 2, _ => Site(true, -1, false))])
  }

  /** The cell stands at the left end of the upper row. */
  function CornerGrid(padLeft: nat): Grid {
    [seq(padLeft + 2, _ => NOBODY), seq(padLeft + 2, i => if i <= padLeft then 0 else NOBODY)]
  }

  function CornerLoc(padLeft: nat): seq<Loc> {
    [Loc(padLeft * 2, 1, true, false)]
  }

  function CornerRules(padLeft: nat): Rules {
    Rules(CornerCore(padLeft), Limits(500, 100), [], true)
  }

  lemma CornerShape(padLeft: nat, gx: int, gy: int)
    ensures CornerCore(padLeft).PaintRect(0, gx, gy) == Rect(gx, gx + padLeft + 1, gy, gy + 1)
    ensures CornerCore(padLeft).PaintLoc(0, gx, gy).x == 2 * gx + 2 * padLeft
  {
    hide Core.PaddedWidth, Core.GridHeight;
    CornerCore(padLeft).OneSite(0);
  }

  /** Cell n stands with its padded corner on this site and this row, and is this many sites wide. */
  ghost predicate StandsAt(core: Core, loc: seq<Loc>, n: nat, gx: int, gy: int, width: int) {
    && core.Valid() && n < |loc| == |core.cells|
    && Aligned(core, n, loc[n]) && core.Foot(n, loc[n]) == Rect(gx, gx + width, gy, gy + 1)
  }

  lemma {:induction false} Stands(core: Core, loc: seq<Loc>, n: nat, gx: nat, gy: nat)
    requires core.Valid() && n < |loc| == |core.cells|
    requires core.cells[n].width == core.siteWidth && core.cells[n].height == core.rowHeight
    requires loc[n].x == core.PaintLoc(n, gx, gy).x && loc[n].y == core.PaintLoc(n, gx, gy).y
    ensures StandsAt(core, loc, n, gx, gy, 1 + core.cells[n].padLeft + core.cells[n].padRight)
  {
    hide Core.PaddedWidth, Core.GridHeight, Core.Foot;
    core.OneSite(n);
    core.FootOfPaint(n, gx, gy, loc[n]);
  }

  /** The rectangle another one-site cell is painted on when it takes cell d's place. */
  lemma {:induction false} RectThere(core: Core, loc: seq<Loc>, c: nat, d: nat, gx: int, gy: int, width: int)
    requires StandsAt(core, loc, d, gx, gy, width) && c < |loc|
    requires core.cells[c].width == core.siteWidth && core.cells[c].height == core.rowHeight
    ensures SwapRect(core, loc, c, d) == Rect(gx, gx + 1 + core.cells[c].padLeft + core.cells[c].padRight, gy, gy + 1)
  {
    hide Core.PaddedWidth, Core.GridHeight;
    core.OneSite(c);
  }

  lemma {:induction false} CornerConsistent(padLeft: nat)
    ensures var core, g, loc := CornerCore(padLeft), CornerGrid(padLeft), CornerLoc(padLeft);
      core.Valid() && Shaped(core, g) && Consistent(core, g, loc)
  {
    hide Core.PaddedWidth, Core.GridHeight, Core.Foot, Aligned;
    var core, g, loc := CornerCore(padLeft), CornerGrid(padLeft), CornerLoc(padLeft);
    Stands(core, loc, 0, 0, 1);
    forall i, j
      ensures Owner(core, g, i, j) == if core.Foot(0, loc[0]).Has(i, j) then 0 else NOBODY
    {
    }
    assert Settled(core, g, 0, loc[0]);
  }

  /** Its search starts at the lower left corner and ends on the site next to it. */
  lemma {:induction false} CornerSearch(padLeft: nat)
    ensures var rules, g, loc := CornerRules(padLeft), CornerGrid(padLeft), CornerLoc(padLeft);
      && rules.core.Valid() && Shaped(rules.core, g)
      && rules.StartPt(g, loc, 0) == (0, 0) && rules.Searched(g, 0, 0, 0, At(1, 0))
  {
    var rules, g, loc := CornerRules(padLeft), CornerGrid(padLeft), CornerLoc(padLeft);
    var core := rules.core;
    CornerShape(padLeft, 0, 0);
    CornerShape(padLeft, 1, 0);
    assert core.PaintRect(0, 0, 0).Has(0, 0);
    assert !rules.Spot(g, 0, 0, 0);
    assert core.GridHeight(0) == 1;
    assert rules.Spot(g, 0, 1, 0);
    assert rules.Found(g, 0, 0, 0, 0, At(1, 0));
  }

  /** The search's result passes the distance test, 2 against 2 * padLeft + 1, and the move takes the cell from
      a displacement of 2 * padLeft + 1 to one of 2 * padLeft + 2. */
  lemma {:induction false} RefineRaises(padLeft: nat)
    requires padLeft > 0
    ensures var rules, g, loc, p := CornerRules(padLeft), CornerGrid(padLeft), CornerLoc(padLeft), At(1, 0);
      && RefinesPadded(rules, g, loc, 0, p, padLeft) && loc[0].placed
      && TotalDisplacement(rules.core, Refined(rules.core, loc, 0, p), 1) == TotalDisplacement(rules.core, loc, 1) + 1
  {
    hide Rules.Searched, Rules.StartPt, Consistent, Core.Valid, Shaped;
    CornerConsistent(padLeft);
    CornerSearch(padLeft);
    var core, loc := CornerCore(padLeft), CornerLoc(padLeft);
    CornerShape(padLeft, 1, 0);
    DisplacementUpdate(core, loc, 1, 0, Refined(core, loc, 0, At(1, 0))[0]);
  }

  // ----- swapping: room exactly for equal widths, exact distances exactly for equal left padding

  datatype Padding = Padding(left: nat, right: nat) {
    function Total(): nat {
      left + right
    }
  }

  ghost predicate Padded(cell: Cell, pad: Padding) {
    cell.padLeft == pad.left && cell.padRight == pad.right
  }

  /** Two placed cells with these paddings pass the tests of a swap. */
  ghost predicate SwapCase(core: Core, g: Grid, loc: seq<Loc>, c: nat, d: nat, padC: Padding, padD: Padding) {
    && core.Valid() && |loc| == |core.cells| && Shaped(core, g) && Consistent(core, g, loc)
    && c < |loc| && d < |loc| && loc[c].placed && loc[d].placed && SwapWanted(core, loc, c, d)
    && Padded(core.cells[c], padC) && Padded(core.cells[d], padD)
  }

  ghost predicate OfGroups(core: Core, c: nat, d: nat, groupC: int, groupD: int) {
    c < |core.cells| && d < |core.cells| && core.cells[c].group == groupC && core.cells[d].group == groupD
  }

  /** No swap of cells with these paddings ever stops in the middle if and only if both add the same number of
      sites to their cells. */
  lemma {:induction false} SwapHasRoomIff(padC: Padding, padD: Padding)
    ensures (forall core, g, loc, c, d {:trigger SwapCase(core, g, loc, c, d, padC, padD)} ::
               SwapCase(core, g, loc, c, d, padC, padD) ==> SwapRoom(core, g, loc, c, d))
       <==> padC.Total() == padD.Total()
  {
    if padC.Total() == padD.Total() {
      forall core, g, loc, c, d | SwapCase(core, g, loc, c, d, padC, padD)
        ensures SwapRoom(core, g, loc, c, d)
      {
        EqualWidth(core, c, d, padC, padD);
        SameSizeFits(core, g, loc, c, d);
      }
    } else {
      SwapCollides(padC, padD, -1);
    }
  }

  /** Such a swap leaves every cell on suitable sites on all grids if and only if also the cells' groups agree. */
  lemma {:induction false} SwapSuitsIff(padC: Padding, padD: Padding, groupC: int, groupD: int)
    ensures (forall core, g, loc, c, d {:trigger SwapCase(core, g, loc, c, d, padC, padD)} ::
               SwapCase(core, g, loc, c, d, padC, padD) && OfGroups(core, c, d, groupC, groupD) ==>
               SwapRoom(core, g, loc, c, d) && SwapSuits(core, loc, c, d))
       <==> padC.Total() == padD.Total() && groupC == groupD
  {
    if padC.Total() == padD.Total() && groupC == groupD {
      forall core, g, loc, c, d | SwapCase(core, g, loc, c, d, padC, padD) && OfGroups(core, c, d, groupC, groupD)
        ensures SwapRoom(core, g, loc, c, d) && SwapSuits(core, loc, c, d)
      {
        EqualWidth(core, c, d, padC, padD);
        SameSizeFits(core, g, loc, c, d);
      }
    } else if groupC == groupD {
      SwapCollides(padC, padD, groupC);
    } else {
      SwapLeavesGroup(padC, padD, groupC, groupD);
    }
  }

  lemma {:induction false} EqualWidth(core: Core, c: nat, d: nat, padC: Padding, padD: Padding)
    requires core.Valid() && c < |core.cells| && d < |core.cells| && padC.Total() == padD.Total()
    requires core.cells[c].width == core.cells[d].width && core.cells[c].height == core.cells[d].height
    requires Padded(core.cells[c], padC) && Padded(core.cells[d], padD)
    ensures core.PaddedWidth(c) == core.PaddedWidth(d) && core.GridHeight(c) == core.GridHeight(d)
  {
  }

  /** Every swap of cells with these left paddings changes the total displacement by exactly what the distance
      test added up if and only if the paddings agree... */
  lemma {:induction false} SwapExactIff(padC: Padding, padD: Padding)
    ensures (forall core, g, loc, c, d {:trigger SwapCase(core, g, loc, c, d, padC, padD)} ::
               SwapCase(core, g, loc, c, d, padC, padD) && SwapRoom(core, g, loc, c, d) ==>
               TotalDisplacement(core, Swapped(core, loc, c, d), |loc|)
               == TotalDisplacement(core, loc, |loc|) + SwapChange(core, loc, c, d))
       <==> padC.left == padD.left
  {
    if padC.left == padD.left {
      forall core, g, loc, c, d | SwapCase(core, g, loc, c, d, padC, padD) && SwapRoom(core, g, loc, c, d)
        ensures TotalDisplacement(core, Swapped(core, loc, c, d), |loc|)
             == TotalDisplacement(core, loc, |loc|) + SwapChange(core, loc, c, d)
      {
        SwapExact(core, g, loc, c, d);
      }
    } else {
      SwapRaises(padC, padD);
    }
  }

  /** ... and lowers it if and only if they agree. */
  lemma {:induction false} SwapLowersIff(padC: Padding, padD: Padding)
    ensures (forall core, g, loc, c, d {:trigger SwapCase(core, g, loc, c, d, padC, padD)} ::
               SwapCase(core, g, loc, c, d, padC, padD) && SwapRoom(core, g, loc, c, d) ==>
               TotalDisplacement(core, Swapped(core, loc, c, d), |loc|) < TotalDisplacement(core, loc, |loc|))
       <==> padC.left == padD.left
  {
    if padC.left == padD.left {
      forall core, g, loc, c, d | SwapCase(core, g, loc, c, d, padC, padD) && SwapRoom(core, g, loc, c, d)
        ensures TotalDisplacement(core, Swapped(core, loc, c, d), |loc|) < TotalDisplacement(core, loc, |loc|)
      {
        SwapLowers(core, g, loc, c, d);
      }
    } else {
      SwapRaises(padC, padD);
    }
  }

  // ----- two cells on two rows of unit sites

  /** Two cells that own what they stand on, and nobody else owns anything. */
  lemma {:induction false} TwoStand(core: Core, g: Grid, loc: seq<Loc>, r: Rect, s: Rect)
    requires core.Valid() && Shaped(core, g) && |loc| == |core.cells| == 2 && loc[0].placed && loc[1].placed
    requires StandsAt(core, loc, 0, r.x0, r.y0, r.x1 - r.x0) && r.y1 == r.y0 + 1
    requires StandsAt(core, loc, 1, s.x0, s.y0, s.x1 - s.x0) && s.y1 == s.y0 + 1
    requires Suits(core, 0, r) && Suits(core, 1, s) && forall i, j {:trigger r.Has(i, j)} :: !(r.Has(i, j) && s.Has(i, j))
    requires forall i, j {:trigger Owner(core, g, i, j)} ::
      Owner(core, g, i, j) == if r.Has(i, j) then 0 else if s.Has(i, j) then 1 else NOBODY
    ensures Consistent(core, g, loc)
  {
    hide Core.Foot, Aligned;
    assert Settled(core, g, 0, loc[0]);
    assert Settled(core, g, 1, loc[1]);
  }

  /** Cell 0, with its padded corner at site a of row 0, and cell 1, at site b of row `row`. The cells are one
      site each; row 0 belongs to the first one's group and row 1 to the second one's. */
  datatype Pair = Pair(padC: Padding, padD: Padding, groupC: int, groupD: int, a: nat, b: nat, row: nat,
                       wishC: int, wishD: int, wishRow: int)
  {
    function WidthC(): nat {
      1 + padC.Total()
    }

    function WidthD(): nat {
      1 + padD.Total()
    }

    ghost predicate Valid() {
      row == 1 || (row == 0 && groupC == groupD && (a + WidthC() <= b || b + WidthD() <= a))
    }

    function Cols(): nat {
      a + b + WidthC() + WidthD()
    }

    function ToCore(): Core {
      Core(Cols(), 2, 1, 1,
           [Cell(1, 1, padC.left, padC.right, groupC, false, false, false, VDD, wishC, wishRow),
            Cell(1, 1, padD.left, padD.right, groupD, false, false, false, VDD, wishD, 0)],
           [seq(Cols(), _ => Site(true, groupC, false)), seq(Cols(), _ => Site(true, groupD, false))])
    }

    function Who(i: int, j: int): int {
      if j == 0 && a <= i < a + WidthC() then 0 else if j == row && b <= i < b + WidthD() then 1 else NOBODY
    }

    function ToGrid(): Grid {
      [seq(Cols(), i => Who(i, 0)), seq(Cols(), i => Who(i, 1))]
    }

    function Locs(): seq<Loc> {
      [Loc(a + padC.left, 0, true, false), Loc(b + padD.left, row, true, false)]
    }

    lemma CoreValid()
      ensures ToCore().Valid()
    {
    }

    lemma {:induction false} Stand()
      requires Valid()
      ensures StandsAt(ToCore(), Locs(), 0, a, 0, WidthC()) && StandsAt(ToCore(), Locs(), 1, b, row, WidthD())
    {
      hide StandsAt;
      Stands(ToCore(), Locs(), 0, a, 0);
      Stands(ToCore(), Locs(), 1, b, row);
    }

    lemma {:induction false} IsConsistent()
      requires Valid()
      ensures var core, g, loc := ToCore(), ToGrid(), Locs();
        core.Valid() && Shaped(core, g) && Consistent(core, g, loc)
    {
      hide StandsAt, Consistent, Suits;
      CoreValid();
      GridOwner();
      Suitable();
      Stand();
      TwoStand(ToCore(), ToGrid(), Locs(), Rect(a, a + WidthC(), 0, 1), Rect(b, b + WidthD(), row, row + 1));
    }

    lemma GridOwner()
      requires Valid()
      ensures Shaped(ToCore(), ToGrid())
      ensures forall i, j {:trigger Owner(ToCore(), ToGrid(), i, j)} :: Owner(ToCore(), ToGrid(), i, j) == Who(i, j)
    {
    }

    lemma Suitable()
      requires Valid() && ToCore().Valid()
      ensures Suits(ToCore(), 0, Rect(a, a + WidthC(), 0, 1)) && Suits(ToCore(), 1, Rect(b, b + WidthD(), row, row + 1))
    {
    }

    lemma IsCase()
      requires Valid() && SwapWanted(ToCore(), Locs(), 0, 1)
      ensures SwapCase(ToCore(), ToGrid(), Locs(), 0, 1, padC, padD)
    {
      hide Consistent, Shaped, Core.Valid, SwapWanted;
      IsConsistent();
    }

    /** What the distance test of a swap adds up. */
    lemma Change()
      ensures SwapChange(ToCore(), Locs(), 0, 1)
        == Abs(b + padD.left - wishC) + Abs(row - wishRow) - Abs(a + padC.left - wishC) - Abs(wishRow)
         + Abs(a + padC.left - wishD) - Abs(b + padD.left - wishD) - row
    {
    }

    lemma Wanted()
      requires SwapChange(ToCore(), Locs(), 0, 1) < 0
      ensures SwapWanted(ToCore(), Locs(), 0, 1)
    {
      hide SwapChange;
    }

    /** Cells that wish for each other's place want to swap. */
    lemma OppositeWishes()
      requires wishC == b + padD.left && wishD == a + padC.left && wishRow == row && row <= 1
      requires row == 1 || wishC != wishD
      ensures SwapWanted(ToCore(), Locs(), 0, 1)
    {
      hide SwapChange, SwapWanted;
      Change();
      Wanted();
    }

    /** On different rows there is room. */
    lemma HasRoom()
      requires Valid() && row == 1
      ensures ToCore().Valid() && Shaped(ToCore(), ToGrid()) && SwapRoom(ToCore(), ToGrid(), Locs(), 0, 1)
    {
      hide SwapRect, Core.Valid, Shaped, Owner;
      CoreValid();
      GridOwner();
      RectOfC();
      RectOfD();
    }

    /** What a swap really does to the total displacement. */
    lemma TotalChange()
      requires Valid()
      ensures ToCore().Valid()
      ensures TotalDisplacement(ToCore(), Swapped(ToCore(), Locs(), 0, 1), 2)
        == TotalDisplacement(ToCore(), Locs(), 2)
         + Abs(b + padC.left - wishC) + Abs(row - wishRow) - Abs(a + padC.left - wishC) - Abs(wishRow)
         + Abs(a + padD.left - wishD) - Abs(b + padD.left - wishD) - row
    {
      hide Core.Valid, TotalDisplacement, Swapped, DistChange;
      CoreValid();
      AfterSwap();
      SwapTotal(ToCore(), Locs(), 0, 1);
      ChangeOfC();
      ChangeOfD();
    }

    lemma ChangeOfC()
      ensures DistChange(ToCore(), Locs(), 0, b + padC.left, row)
        == Abs(b + padC.left - wishC) + Abs(row - wishRow) - Abs(a + padC.left - wishC) - Abs(wishRow)
    {
    }

    lemma ChangeOfD()
      ensures DistChange(ToCore(), Locs(), 1, a + padD.left, 0)
        == Abs(a + padD.left - wishD) - Abs(b + padD.left - wishD) - row
    {
    }

    lemma AfterSwap()
      requires Valid() && ToCore().Valid()
      ensures Swapped(ToCore(), Locs(), 0, 1) == [Loc(b + padC.left, row, true, false), Loc(a + padD.left, 0, true, false)]
    {
      hide Core.Valid, TruncDiv, DivCeil, Aligned;
      Stand();
    }

    /** The rectangle cell 0 is painted on in a swap. */
    lemma {:induction false} RectOfC()
      requires Valid()
      ensures ToCore().Valid() && SwapRect(ToCore(), Locs(), 0, 1) == Rect(b, b + WidthC(), row, row + 1)
    {
      hide StandsAt, SwapRect;
      CoreValid();
      Stand();
      RectThere(ToCore(), Locs(), 0, 1, b, row, WidthD());
    }

    /** The rectangle cell 1 is painted on. */
    lemma {:induction false} RectOfD()
      requires Valid()
      ensures ToCore().Valid() && SwapRect(ToCore(), Locs(), 1, 0) == Rect(a, a + WidthD(), 0, 1)
    {
      hide StandsAt, SwapRect;
      CoreValid();
      Stand();
      RectThere(ToCore(), Locs(), 1, 0, a, 0, WidthC());
    }
  }

  /** When one cell is wider, put the narrower at the left end of a row and the wider next to it, each wishing
      for the other's place. */
  function Colliding(padC: Padding, padD: Padding, group: int): (p: Pair)
    requires padC.Total() != padD.Total()
    ensures p.Valid() && p.padC == padC && p.padD == padD && p.groupC == p.groupD == group
    ensures p.wishC == p.b + padD.left && p.wishD == p.a + padC.left && p.wishRow == 0 && p.row == 0
  {
    var a, b := if padC.Total() > padD.Total() then 1 + padD.Total() else 0, if padC.Total() > padD.Total() then 0 else 1 + padC.Total();
    Pair(padC, padD, group, group, a, b, 0, b + padD.left, a + padC.left, 0)
  }

  /** The wider one then needs a site the narrower one needs. */
  lemma {:induction false} SwapCollides(padC: Padding, padD: Padding, group: int)
    requires padC.Total() != padD.Total()
    ensures var p := Colliding(padC, padD, group);
      && SwapCase(p.ToCore(), p.ToGrid(), p.Locs(), 0, 1, padC, padD)
      && !SwapRoom(p.ToCore(), p.ToGrid(), p.Locs(), 0, 1)
  {
    hide SwapCase, SwapRect, SwapWanted, Core.Valid;
    var p := Colliding(padC, padD, group);
    p.OppositeWishes();
    p.IsCase();
    p.CoreValid();
    p.RectOfC();
    p.RectOfD();
    var i := if padC.Total() > padD.Total() then p.a else p.b;
    assert SwapRect(p.ToCore(), p.Locs(), 0, 1).Has(i, 0) && SwapRect(p.ToCore(), p.Locs(), 1, 0).Has(i, 0);
  }

  /** Cells of different groups on different rows, each wishing for the other's place... */
  function Strangers(padC: Padding, padD: Padding, groupC: int, groupD: int): (p: Pair)
    ensures p.Valid() && p.padC == padC && p.padD == padD && p.groupC == groupC && p.groupD == groupD
    ensures p.wishC == p.b + padD.left && p.wishD == p.a + padC.left && p.wishRow == 1 && p.row == 1
  {
    Pair(padC, padD, groupC, groupD, 0, 0, 1, padD.left, padC.left, 1)
  }

  /** ... end up on sites of each other's groups. */
  lemma {:induction false} SwapLeavesGroup(padC: Padding, padD: Padding, groupC: int, groupD: int)
    requires groupC != groupD
    ensures var p := Strangers(padC, padD, groupC, groupD);
      && SwapCase(p.ToCore(), p.ToGrid(), p.Locs(), 0, 1, padC, padD)
      && !SwapSuits(p.ToCore(), p.Locs(), 0, 1)
  {
    hide SwapCase, SwapRect, SwapWanted, Core.Valid;
    var p := Strangers(padC, padD, groupC, groupD);
    p.OppositeWishes();
    p.IsCase();
    p.CoreValid();
    p.RectOfC();
    assert SwapRect(p.ToCore(), p.Locs(), 0, 1).Has(p.b, 1);
  }

  /** Cells one unit apart on different rows, each wishing for the other's column. */
  function UnitApart(padC: Padding, padD: Padding): (p: Pair)
    ensures p.Valid() && p.padC == padC && p.padD == padD && p.groupC == p.groupD == -1
    ensures p.wishC == padC.left + padD.left + 1 && p.wishD == padC.left + padD.left && p.wishRow == 0 && p.row == 1
    ensures p.a == padD.left && p.b == padC.left + 1
  {
    Pair(padC, padD, -1, -1, padD.left, padC.left + 1, 1, padC.left + padD.left + 1, padC.left + padD.left, 0)
  }

  /** The distance test counts on a gain of two units, but each cell ends as far from its wish as the left
      paddings differ. */
  lemma {:induction false} SwapRaises(padC: Padding, padD: Padding)
    requires padC.left != padD.left
    ensures var p := UnitApart(padC, padD);
      && SwapCase(p.ToCore(), p.ToGrid(), p.Locs(), 0, 1, padC, padD)
      && SwapRoom(p.ToCore(), p.ToGrid(), p.Locs(), 0, 1)
      && SwapChange(p.ToCore(), p.Locs(), 0, 1) == -2
      && TotalDisplacement(p.ToCore(), Swapped(p.ToCore(), p.Locs(), 0, 1), |p.Locs()|)
         == TotalDisplacement(p.ToCore(), p.Locs(), |p.Locs()|) + 2 * Abs(padC.left - padD.left) - 2
  {
    hide SwapCase, SwapRoom, SwapWanted, Core.Valid, TotalDisplacement, SwapChange, Swapped;
    var p := UnitApart(padC, padD);
    p.Change();
    p.Wanted();
    p.IsCase();
    p.CoreValid();
    p.HasRoom();
    p.TotalChange();
  }
}

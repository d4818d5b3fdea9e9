/** What placing does to the grid and the cells, cell by cell (Place.cpp: place, mapMove, shiftMove). */
module LegalPlace {
  import opened LegalGrid
  import opened LegalSearch
  import opened Permutations

  /** The contents of the grid, and where the cells are. */
  datatype State = State(g: Grid, loc: seq<Loc>)

  ghost predicate StateOf(core: Core, s: State) {
    core.Valid() && Shaped(core, s.g) && |s.loc| == |core.cells|
  }

  /** The cell is put where the search from its start ends. */
  ghost predicate Mapped(rules: Rules, s: State, s': State, c: nat) {
    var core := rules.core;
    && StateOf(core, s) && StateOf(core, s') && Movable(core, c)
    && var start := rules.StartPt(s.g, s.loc, c);
    exists p: PixelPt :: rules.Searched(s.g, c, start.0, start.1, p) && PutDown(core, s, s', c, p)
  }

  /** The cell is put down at p, and nothing else changes. */
  ghost predicate PutDown(core: Core, s: State, s': State, c: nat, p: PixelPt) {
    && StateOf(core, s) && StateOf(core, s') && c < |s.loc| && p.At?
    && s'.loc == s.loc[c := core.PaintLoc(c, p.x, p.y).(hold := s.loc[c].hold)]
    && Filled(core, s.g, s'.g, core.PaintRect(c, p.x, p.y), c)
  }

  /** The search from the cell's start ends with nothing. */
  ghost predicate NoPlace(rules: Rules, s: State, c: nat) {
    && StateOf(rules.core, s) && c < |s.loc|
    && var start := rules.StartPt(s.g, s.loc, c); rules.Searched(s.g, c, start.0, start.1, None)
  }

  /** One cell after the other. */
  ghost predicate MappedAll(rules: Rules, s: State, s': State, cs: seq<nat>)
    decreases |cs|
  {
    if cs == [] then s' == s
    else
      var n := |cs| - 1;
      exists t :: MappedAll(rules, s, t, cs[..n]) && Mapped(rules, t, s', cs[n])
  }

  lemma MappedNext(rules: Rules, s: State, t: State, s': State, cs: seq<nat>, c: nat)
    requires MappedAll(rules, s, t, cs) && Mapped(rules, t, s', c)
    ensures MappedAll(rules, s, s', cs + [c])
  {
    hide Mapped;
    assert (cs + [c])[..|cs|] == cs;
  }

  // ----- shifting

  /** The grid points around a search's start that a shift clears: three widths to either side, three rows up and down. */
  function Neighbourhood(core: Core, c: nat, start: (int, int)): Rect
    requires core.Valid() && c < |core.cells|
  {
    var m := 3 * core.PaddedWidth(c);
    Rect(start.0 - m, start.0 + m, start.1 - 3, start.1 + 3)
  }

  /** The movable cells that own a site of the rectangle. */
  ghost function OwnersIn(core: Core, g: Grid, r: Rect): set<nat>
    requires Shaped(core, g)
  {
    set d: nat | d < |core.cells| && Movable(core, d) && exists i, j :: r.Has(i, j) && Owner(core, g, i, j) == d
  }

  /** The cells a shift takes off for c: those around its start that are in a group if c is, and in none if c is not. */
  ghost function Around(rules: Rules, s: State, c: nat): set<nat>
    requires StateOf(rules.core, s) && c < |s.loc|
  {
    var core := rules.core;
    set d | d in OwnersIn(core, s.g, Neighbourhood(core, c, rules.StartPt(s.g, s.loc, c)))
      && (core.cells[d].group == -1 <==> core.cells[c].group == -1)
  }

  /** These cells are off the grid. */
  ghost predicate TakenOff(core: Core, s: State, s': State, gone: set<nat>) {
    && StateOf(core, s) && StateOf(core, s')
    && (forall d :: 0 <= d < |s.loc| ==> s'.loc[d] == if d in gone then s.loc[d].(placed := false, hold := false) else s.loc[d])
    && (forall i, j {:trigger Owner(core, s'.g, i, j)} ::
          Owner(core, s'.g, i, j) == if Owner(core, s.g, i, j) in gone then NOBODY else Owner(core, s.g, i, j))
  }

  ghost predicate Lists(cs: seq<nat>, s: set<nat>) {
    Distinct(cs) && forall c :: c in cs <==> c in s
  }

  /** The cells around c are taken off, then c is put down, and then they are, in some order. */
  ghost predicate Shifted(rules: Rules, s: State, s': State, c: nat) {
    && StateOf(rules.core, s) && c < |s.loc|
    && exists t, cs :: TakenOff(rules.core, s, t, Around(rules, s, c)) && Lists(cs, Around(rules, s, c)) && MappedAll(rules, t, s', [c] + cs)
  }

  /** In such an attempt some cell finds no place: c itself, or one that was taken off. */
  ghost predicate ShiftStuck(rules: Rules, s: State, c: nat) {
    && StateOf(rules.core, s) && c < |s.loc|
    && exists t, u, cs, d :: StuckAt(rules, s, c, t, u, cs, d)
  }

  ghost predicate StuckAt(rules: Rules, s: State, c: nat, t: State, u: State, cs: seq<nat>, d: nat)
    requires StateOf(rules.core, s) && c < |s.loc|
  {
    && TakenOff(rules.core, s, t, Around(rules, s, c)) && MappedAll(rules, t, u, cs) && NoPlace(rules, u, d)
    && if cs == [] then d == c else cs[0] == c && d in Around(rules, s, c) && d !in cs[1..]
  }

  lemma StuckFirst(rules: Rules, s: State, t: State, c: nat)
    requires StateOf(rules.core, s) && c < |s.loc| && TakenOff(rules.core, s, t, Around(rules, s, c)) && NoPlace(rules, t, c)
    ensures ShiftStuck(rules, s, c)
  {
    hide TakenOff, NoPlace, Around;
    assert MappedAll(rules, t, t, []);
    assert StuckAt(rules, s, c, t, t, [], c);
  }

  /** c was put down, but not all of the others. */
  lemma StuckAfterFirst(rules: Rules, s: State, t: State, v: State, u: State, c: nat, cs: seq<nat>, d: nat)
    requires StateOf(rules.core, s) && c < |s.loc| && TakenOff(rules.core, s, t, Around(rules, s, c))
    requires Mapped(rules, t, v, c) && MappedAll(rules, v, u, cs) && NoPlace(rules, u, d) && d in Around(rules, s, c) && d !in cs
    ensures ShiftStuck(rules, s, c)
  {
    hide TakenOff, NoPlace, Around, Mapped, MappedAll;
    MappedFirst(rules, t, v, u, c, cs);
    assert ([c] + cs)[1..] == cs;
    assert StuckAt(rules, s, c, t, u, [c] + cs, d);
  }

  lemma AllShifted(rules: Rules, s: State, t: State, v: State, s': State, c: nat, cs: seq<nat>)
    requires StateOf(rules.core, s) && c < |s.loc| && TakenOff(rules.core, s, t, Around(rules, s, c))
    requires Mapped(rules, t, v, c) && MappedAll(rules, v, s', cs) && Lists(cs, Around(rules, s, c))
    ensures Shifted(rules, s, s', c)
  {
    hide TakenOff, Around, Mapped, MappedAll, Lists;
    MappedFirst(rules, t, v, s', c, cs);
  }

  /** The first one before the others. */
  lemma {:induction false} MappedFirst(rules: Rules, s: State, t: State, s': State, c: nat, cs: seq<nat>)
    requires Mapped(rules, s, t, c) && MappedAll(rules, t, s', cs)
    ensures MappedAll(rules, s, s', [c] + cs)
    decreases |cs|
  {
    hide Mapped;
    if cs == [] {
      assert [c] + cs == [c] && MappedAll(rules, s, s, []);
      MappedNext(rules, s, s, t, [], c);
      assert [] + [c] == [c];
    } else {
      var n := |cs| - 1;
      var u :| MappedAll(rules, t, u, cs[..n]) && Mapped(rules, u, s', cs[n]);
      MappedFirst(rules, s, t, u, c, cs[..n]);
      MappedNext(rules, s, u, s', [c] + cs[..n], cs[n]);
      assert [c] + cs == [c] + cs[..n] + [cs[n]];
    }
  }

  // ----- placing all

  /** A cell's turn: it is put where its search ends, or shifted in if that ends with nothing. */
  ghost predicate Turn(rules: Rules, s: State, s': State, c: nat) {
    Mapped(rules, s, s', c) || (NoPlace(rules, s, c) && Shifted(rules, s, s', c))
  }

  ghost predicate Turns(rules: Rules, s: State, s': State, cs: seq<nat>)
    decreases |cs|
  {
    if cs == [] then s' == s
    else
      var n := |cs| - 1;
      exists t :: Turns(rules, s, t, cs[..n]) && Turn(rules, t, s', cs[n])
  }

  lemma TurnsNext(rules: Rules, s: State, t: State, s': State, cs: seq<nat>, c: nat)
    requires Turns(rules, s, t, cs) && Turn(rules, t, s', c)
    ensures Turns(rules, s, s', cs + [c])
  {
    hide Turn;
    assert (cs + [c])[..|cs|] == cs;
  }

  lemma {:induction false} TurnsConcat(rules: Rules, s: State, t: State, s': State, a: seq<nat>, b: seq<nat>)
    requires Turns(rules, s, t, a) && Turns(rules, t, s', b)
    ensures Turns(rules, s, s', a + b)
    decreases |b|
  {
    hide Turn;
    if b == [] {
      assert a + b == a;
    } else {
      var n := |b| - 1;
      var u :| Turns(rules, t, u, b[..n]) && Turn(rules, u, s', b[n]);
      TurnsConcat(rules, s, t, u, a, b[..n]);
      TurnsNext(rules, s, u, s', a + b[..n], b[n]);
      assert a + b == a + b[..n] + [b[n]];
    }
  }

  /** Cells on several rows have their turn first; then larger cells; then those with smaller numbers. */
  predicate Earlier(core: Core, c: nat, d: nat) {
    && c < |core.cells| && d < |core.cells|
    && if core.cells[c].multiRow != core.cells[d].multiRow then core.cells[c].multiRow
    else
      var a, b := core.cells[c].width * core.cells[c].height, core.cells[d].width * core.cells[d].height;
      a > b || (a == b && c < d)
  }

  /** Ungrouped, movable, and not placed yet. */
  ghost predicate Waiting(core: Core, loc: seq<Loc>, c: nat) {
    c < |loc| == |core.cells| && Movable(core, c) && core.cells[c].group == -1 && !loc[c].placed
  }

  /** The waiting cells in the order of their turns. */
  ghost predicate TurnOrder(core: Core, loc: seq<Loc>, cs: seq<nat>) {
    && (forall c :: c in cs <==> Waiting(core, loc, c))
    && (forall i, j :: 0 <= i < j < |cs| ==> Earlier(core, cs[i], cs[j]))
  }

  /** There is one such order. */
  lemma {:induction false} TurnOrderOnce(core: Core, loc: seq<Loc>, a: seq<nat>, b: seq<nat>)
    requires TurnOrder(core, loc, a) && TurnOrder(core, loc, b)
    ensures a == b
  {
    hide Waiting;
    forall c
      ensures c in a <==> c in b
    {
      assert c in a <==> Waiting(core, loc, c);
    }
    SameOrder(core, a, b);
  }

  /** A list in order is known by its members. */
  lemma {:induction false} SameOrder(core: Core, a: seq<nat>, b: seq<nat>)
    requires forall c :: c in a <==> c in b
    requires forall i, j :: 0 <= i < j < |a| ==> Earlier(core, a[i], a[j])
    requires forall i, j :: 0 <= i < j < |b| ==> Earlier(core, b[i], b[j])
    ensures a == b
  {
    if a == [] {
      if b != [] {
        HasMember(b);
      }
    } else {
      assert a[0] in b && (b == [] || b[0] in a);
      SameFirst(core, a, b);
      NotAgain(core, a);
      NotAgain(core, b);
      assert a == [a[0]] + a[1..] && b == [b[0]] + b[1..];
      forall c
        ensures c in a[1..] <==> c in b[1..]
      {
        assert c in a <==> c == a[0] || c in a[1..];
        assert c in b <==> c == b[0] || c in b[1..];
      }
      SameOrder(core, a[1..], b[1..]);
    }
  }

  lemma HasMember(b: seq<nat>)
    requires b != []
    ensures exists c :: c in b
  {
    assert b[0] in b;
  }

  lemma SameFirst(core: Core, a: seq<nat>, b: seq<nat>)
    requires a != [] && b != [] && a[0] in b && b[0] in a
    requires forall i, j :: 0 <= i < j < |a| ==> Earlier(core, a[i], a[j])
    requires forall i, j :: 0 <= i < j < |b| ==> Earlier(core, b[i], b[j])
    ensures a[0] == b[0]
  {
    var i :| 0 <= i < |a| && a[i] == b[0];
    var j :| 0 <= j < |b| && b[j] == a[0];
  }

  lemma NotAgain(core: Core, a: seq<nat>)
    requires a != [] && forall i, j :: 0 <= i < j < |a| ==> Earlier(core, a[i], a[j])
    ensures a[0] !in a[1..]
  {
  }

  // ----- one kind after the other

  function Area(core: Core, c: nat): int
    requires c < |core.cells|
  {
    core.cells[c].width * core.cells[c].height
  }

  /** Larger, or as large and with the smaller number. */
  predicate AreaGreater(core: Core, c: nat, d: nat)
    requires c < |core.cells| && d < |core.cells|
  {
    Area(core, c) > Area(core, d) || (Area(core, c) == Area(core, d) && c < d)
  }

  ghost predicate ByArea(core: Core, cs: seq<nat>) {
    && (forall k :: 0 <= k < |cs| ==> cs[k] < |core.cells|)
    && (forall i, j :: 0 <= i < j < |cs| ==> AreaGreater(core, cs[i], cs[j]))
  }

  /** The listed cells of one kind, in their order. */
  ghost function OfKind(core: Core, cells: seq<nat>, multi: bool): (s: seq<nat>)
    ensures forall c :: c in s <==> c in cells && c < |core.cells| && core.cells[c].multiRow == multi
  {
    if cells == [] then [] else
      var n := |cells| - 1;
      OfKind(core, cells[..n], multi) + if cells[n] < |core.cells| && core.cells[cells[n]].multiRow == multi then [cells[n]] else []
  }

  lemma OfKindNext(core: Core, cells: seq<nat>, multi: bool, k: nat)
    requires k < |cells| && cells[k] < |core.cells|
    ensures OfKind(core, cells[..k + 1], multi) == if core.cells[cells[k]].multiRow == multi then OfKind(core, cells[..k], multi) + [cells[k]]
                                                   else OfKind(core, cells[..k], multi)
  {
    assert cells[..k + 1][..k] == cells[..k];
  }

  lemma {:induction false} OfKindPrefix(core: Core, cells: seq<nat>, multi: bool, k: nat)
    requires k <= |cells|
    ensures OfKind(core, cells[..k], multi) <= OfKind(core, cells, multi)
    decreases |cells| - k
  {
    if k < |cells| {
      assert cells[..k + 1][..k] == cells[..k];
      OfKindPrefix(core, cells, multi, k + 1);
    } else {
      assert cells[..k] == cells;
    }
  }

  lemma {:induction false} OfKindOrder(core: Core, cells: seq<nat>, multi: bool)
    requires ByArea(core, cells)
    ensures ByArea(core, OfKind(core, cells, multi))
  {
    hide AreaGreater;
    if cells != [] {
      var n := |cells| - 1;
      OfKindOrder(core, cells[..n], multi);
      var r := OfKind(core, cells[..n], multi);
      forall i | 0 <= i < |r|
        ensures AreaGreater(core, r[i], cells[n])
      {
        assert r[i] in r && r[i] in cells[..n];
        var m :| 0 <= m < n && cells[..n][m] == r[i];
        assert cells[m] == r[i];
      }
    }
  }

  /** The waiting cells by area, those of several rows first, are in the order of their turns. */
  lemma {:induction false} KindsInOrder(core: Core, cells: seq<nat>, was: seq<Loc>)
    requires core.Valid() && |was| == |core.cells| && ByArea(core, cells) && forall c :: c in cells <==> Waiting(core, was, c)
    ensures TurnOrder(core, was, OfKind(core, cells, true) + OfKind(core, cells, false))
  {
    hide Waiting, OfKind, ByArea;
    var a, b := OfKind(core, cells, true), OfKind(core, cells, false);
    assert forall c :: c in cells ==> c < |core.cells| by {
      AllInRange(core, cells);
    }
    forall c: nat
      ensures c in a + b <==> Waiting(core, was, c)
    {
      assert c in a + b <==> c in a || c in b;
      assert c in cells <==> Waiting(core, was, c);
    }
    OfKindOrder(core, cells, true);
    OfKindOrder(core, cells, false);
    BothInOrder(core, a, b);
  }

  lemma AllInRange(core: Core, cells: seq<nat>)
    requires ByArea(core, cells)
    ensures forall c :: c in cells ==> c < |core.cells|
  {
  }

  lemma BothInOrder(core: Core, a: seq<nat>, b: seq<nat>)
    requires ByArea(core, a) && ByArea(core, b)
    requires forall c :: c in a ==> c < |core.cells| && core.cells[c].multiRow
    requires forall c :: c in b ==> c < |core.cells| && !core.cells[c].multiRow
    ensures var cs := a + b; forall i, j :: 0 <= i < j < |cs| ==> Earlier(core, cs[i], cs[j])
  {
    var cs := a + b;
    forall i, j | 0 <= i < j < |cs|
      ensures Earlier(core, cs[i], cs[j])
    {
      if i < |a| <= j {
        assert cs[i] in a && cs[j] == b[j - |a|] && b[j - |a|] in b;
      } else if j < |a| {
        assert cs[i] == a[i] && cs[j] == a[j] && AreaGreater(core, a[i], a[j]) && a[i] in a && a[j] in a;
      } else {
        assert cs[i] == b[i - |a|] && cs[j] == b[j - |a|] && b[i - |a|] in b && b[j - |a|] in b;
        assert AreaGreater(core, b[i - |a|], b[j - |a|]);
      }
    }
  }

  lemma NoneOfSeveralRows(core: Core, cells: seq<nat>)
    requires forall c :: 0 <= c < |core.cells| ==> !core.cells[c].multiRow
    ensures OfKind(core, cells, true) == []
  {
    hide OfKind;
    if OfKind(core, cells, true) != [] {
      HasMember(OfKind(core, cells, true));
    }
  }

  // ----- turns that get stuck

  /** No place at its turn, and none by shifting. */
  ghost predicate StuckTurn(rules: Rules, s: State, c: nat) {
    NoPlace(rules, s, c) && ShiftStuck(rules, s, c)
  }

  /** Some had their turns, and then one got stuck. */
  ghost predicate StuckAfter(rules: Rules, s: State, cs: seq<nat>) {
    exists k, u {:trigger Turns(rules, s, u, cs[..k])} :: 0 <= k < |cs| && Turns(rules, s, u, cs[..k]) && StuckTurn(rules, u, cs[k])
  }

  lemma StuckHere(rules: Rules, s: State, u: State, cs: seq<nat>, k: nat)
    requires k < |cs| && Turns(rules, s, u, cs[..k]) && StuckTurn(rules, u, cs[k])
    ensures StuckAfter(rules, s, cs)
  {
    hide Turns, StuckTurn;
  }

  lemma StuckSooner(rules: Rules, s: State, a: seq<nat>, b: seq<nat>)
    requires StuckAfter(rules, s, a)
    ensures StuckAfter(rules, s, a + b)
  {
    hide Turns, StuckTurn;
    var k, u :| 0 <= k < |a| && Turns(rules, s, u, a[..k]) && StuckTurn(rules, u, a[k]);
    assert (a + b)[..k] == a[..k];
    StuckHere(rules, s, u, a + b, k);
  }

  lemma StuckLater(rules: Rules, s: State, t: State, a: seq<nat>, b: seq<nat>)
    requires Turns(rules, s, t, a) && StuckAfter(rules, t, b)
    ensures StuckAfter(rules, s, a + b)
  {
    hide Turns, StuckTurn;
    var k, u :| 0 <= k < |b| && Turns(rules, t, u, b[..k]) && StuckTurn(rules, u, b[k]);
    TurnsConcat(rules, s, t, u, a, b[..k]);
    assert (a + b)[..|a| + k] == a + b[..k];
    StuckHere(rules, s, u, a + b, |a| + k);
  }

  // ----- a first consequence

  /** The first cell in the order goes where its search on the starting grid ends, if that ends with a place. */
  lemma {:induction false} FirstTakesItsPlace(rules: Rules, s: State, s': State, cs: seq<nat>, p: PixelPt) returns (t: State)
    requires cs != [] && Turns(rules, s, s', cs) && StateOf(rules.core, s) && cs[0] < |s.loc| && p.At?
    requires var start := rules.StartPt(s.g, s.loc, cs[0]); rules.Searched(s.g, cs[0], start.0, start.1, p)
    ensures PutDown(rules.core, s, t, cs[0], p) && Turns(rules, t, s', cs[1..])
    decreases |cs|
  {
    hide Rules.Searched, Rules.StartPt, Shifted, PutDown;
    var n := |cs| - 1;
    if n == 0 {
      t := s';
      assert cs[..0] == [] && cs[1..] == [];
      SearchDecides(rules, s, s', cs[0], p);
    } else {
      var u :| Turns(rules, s, u, cs[..n]) && Turn(rules, u, s', cs[n]);
      t := FirstTakesItsPlace(rules, s, u, cs[..n], p);
      assert cs[..n][1..] == cs[1..][..n - 1];
      TurnsNext(rules, t, u, s', cs[..n][1..], cs[n]);
      assert cs[1..] == cs[..n][1..] + [cs[n]];
    }
  }

  lemma SearchDecides(rules: Rules, s: State, s': State, c: nat, p: PixelPt)
    requires Turn(rules, s, s', c) && StateOf(rules.core, s) && c < |s.loc| && p.At?
    requires var start := rules.StartPt(s.g, s.loc, c); rules.Searched(s.g, c, start.0, start.1, p)
    ensures PutDown(rules.core, s, s', c, p)
  {
    hide Rules.Searched, Rules.StartPt, Shifted, PutDown;
    var start := rules.StartPt(s.g, s.loc, c);
    if NoPlace(rules, s, c) {
      rules.SearchedOnce(s.g, c, start.0, start.1, None, p);
    } else {
      var q :| rules.Searched(s.g, c, start.0, start.1, q) && PutDown(rules.core, s, s', c, q);
      rules.SearchedOnce(s.g, c, start.0, start.1, p, q);
    }
  }
}

/** The utilisation objective of the placement optimiser (detailed_abu.cxx): bins, buckets and totals kept
    up to date move by move, with an undo. */
module AbuObjective {
  import opened RealMath
  import opened Netlist
  import opened Utilization

  class DetailedAbu {
    const chip: Chip
    var pos: Placement
    var mUtil: seq<real>
    var cUtil: seq<real>
    var buckets: seq<set<nat>>
    var totals: seq<real>
    var changed: seq<nat>
    var mask: seq<int>
    var counter: int
    ghost var base: seq<real> // the utilisations when recording changes began

    ghost predicate Valid()
      reads this
    {
      && chip.Valid() && |pos| == |chip.width|
      && |mUtil| == |cUtil| == |mask| == |base| == chip.Bins()
      && |buckets| == |totals| == BUCKETS
      && (forall b :: 0 <= b < |mask| ==> mask[b] <= counter)
    }

    /** The bins in `changed`, and only they, may differ from `base`, which `cUtil` remembers for them. */
    ghost predicate Recording()
      requires Valid()
      reads this
    {
      && (forall i :: 0 <= i < |changed| ==> changed[i] < chip.Bins())
      && (forall i, j :: 0 <= i < j < |changed| ==> changed[i] != changed[j])
      && (forall b: nat :: b < chip.Bins() ==>
            && (mask[b] == counter <==> b in changed)
            && (if b in changed then cUtil[b] == base[b] else mUtil[b] == base[b]))
    }

    /** Everything is the recount of placement p. */
    ghost predicate Tracks(p: Placement)
      requires Valid() && |p| == |chip.width|
      reads this
    {
      mUtil == chip.Utils(p) && chip.Bucketed(mUtil, buckets, totals)
    }

    constructor (chip: Chip, pos: Placement)
      requires chip.Valid() && |pos| == |chip.width|
      ensures Valid() && this.chip == chip && this.pos == pos && changed == []
    {
      this.chip, this.pos := chip, pos;
      mUtil, cUtil := seq(chip.Bins(), _ => 0.0), seq(chip.Bins(), _ => 0.0);
      buckets, totals := seq(BUCKETS, _ => {}), seq(BUCKETS, _ => 0.0);
      changed, mask, counter := [], seq(chip.Bins(), _ => 0), 1;
      base := seq(chip.Bins(), _ => 0.0);
    }

    // ----- one cell's covers

    /** The bins before column k of row j in the range looked at for a cell. */
    ghost predicate Done(b: nat, i: nat, p: Point, j: int, k: int)
      requires chip.Valid() && i < |chip.width|
    {
      chip.InRange(b, i, p) && (b / chip.numX < j || (b / chip.numX == j && b % chip.numX < k))
    }

    function Signed(sign: int, area: real): real {
      if sign < 0 then -area else area
    }

    /** The covers of one cell were added, or taken off, in the bins before column k of row j. */
    ghost predicate Partway(u: seq<real>, v: seq<real>, i: nat, p: Point, sign: int, j: int, k: int)
      requires chip.Valid() && i < |chip.width|
    {
      && |u| == |v| == chip.Bins()
      && forall b: nat :: b < chip.Bins() ==> v[b] == u[b] + (if Done(b, i, p, j, k) then Signed(sign, chip.Cover(b, i, p)) else 0.0)
    }

    /** The covers of one cell were added, or taken off, in all bins. */
    ghost predicate Shifted(u: seq<real>, v: seq<real>, i: nat, p: Point, sign: int)
      requires chip.Valid() && i < |chip.width|
    {
      && |u| == |v| == chip.Bins()
      && forall b: nat :: b < chip.Bins() ==> v[b] == u[b] + Signed(sign, chip.Cover(b, i, p))
    }

    lemma RowStart(u: seq<real>, i: nat, p: Point, sign: int)
      requires chip.Valid() && i < |chip.width| && |u| == chip.Bins()
      ensures Partway(u, u, i, p, sign, chip.BottomRow(i, p), chip.LeftCol(i, p))
    {
    }

    /** One more bin. */
    lemma NextBin(u: seq<real>, v: seq<real>, i: nat, p: Point, sign: int, j: nat, k: nat)
      requires chip.Valid() && i < |chip.width| && Partway(u, v, i, p, sign, j, k)
      requires chip.BottomRow(i, p) <= j <= chip.TopRow(i, p) && chip.LeftCol(i, p) <= k <= chip.RightCol(i, p)
      ensures 0 <= chip.BinId(j, k) < chip.Bins()
      ensures var n := chip.BinId(j, k); Partway(u, v[n := v[n] + Signed(sign, chip.Cover(n, i, p))], i, p, sign, j, k + 1)
    {
      assert 0 <= chip.BinId(j, k) < chip.Bins() by {
        chip.BinAt(j, k);
      }
      hide Done, Chip.Cover, Chip.BinId, Chip.LeftCol, Chip.RightCol, Chip.BottomRow, Chip.TopRow;
      DoneNext(chip.BinId(j, k), i, p, j, k);
      forall b: nat | b < chip.Bins()
        ensures Done(b, i, p, j, k + 1) <==> Done(b, i, p, j, k) || b == chip.BinId(j, k)
      {
        DoneNext(b, i, p, j, k);
      }
    }

    lemma DoneNext(b: nat, i: nat, p: Point, j: nat, k: nat)
      requires chip.Valid() && i < |chip.width|
      requires chip.BottomRow(i, p) <= j <= chip.TopRow(i, p) && chip.LeftCol(i, p) <= k <= chip.RightCol(i, p)
      ensures 0 <= chip.BinId(j, k) < chip.Bins() && !Done(chip.BinId(j, k), i, p, j, k)
      ensures Done(b, i, p, j, k + 1) <==> Done(b, i, p, j, k) || b == chip.BinId(j, k)
    {
      assert j < chip.numY && k < chip.numX;
      chip.BinAt(j, k);
      hide Chip.LeftCol, Chip.RightCol, Chip.BottomRow, Chip.TopRow;
      if b / chip.numX == j && b % chip.numX == k {
        OneBin(b, chip.BinId(j, k));
      }
    }

    /** A bin is known by its row and column. */
    lemma OneBin(b: nat, c: nat)
      requires chip.numX > 0 && b / chip.numX == c / chip.numX && b % chip.numX == c % chip.numX
      ensures b == c
    {
    }

    /** The next row begins where this one ended. */
    lemma NextRow(u: seq<real>, v: seq<real>, i: nat, p: Point, sign: int, j: int, k: int)
      requires chip.Valid() && i < |chip.width| && Partway(u, v, i, p, sign, j, k) && k > chip.RightCol(i, p)
      ensures Partway(u, v, i, p, sign, j + 1, chip.LeftCol(i, p))
    {
    }

    /** Bins that were not looked at are not covered. */
    lemma AllRows(u: seq<real>, v: seq<real>, i: nat, p: Point, sign: int, j: int, k: int)
      requires chip.Valid() && i < |chip.width| && Partway(u, v, i, p, sign, j, k) && j > chip.TopRow(i, p)
      ensures Shifted(u, v, i, p, sign)
    {
      forall b: nat | b < chip.Bins()
        ensures v[b] == u[b] + Signed(sign, chip.Cover(b, i, p))
      {
        if !chip.InRange(b, i, p) {
          chip.OutOfRange(b, i, p);
        }
      }
    }

    // ----- from scratch

    method ClearUtils()
      requires Valid()
      modifies this`mUtil, this`cUtil
      ensures Valid() && forall b :: 0 <= b < |mUtil| ==> mUtil[b] == 0.0
    {
      mUtil, cUtil := seq(chip.Bins(), _ => 0.0), seq(chip.Bins(), _ => 0.0);
    }

    /** Adds up what every movable cell covers of every bin. */
    method ComputeUtils()
      requires Valid() && forall b :: 0 <= b < |mUtil| ==> mUtil[b] == 0.0
      modifies this`mUtil
      ensures Valid() && mUtil == chip.Utils(pos)
    {
      ghost var zero := mUtil;
      forall b: nat | b < chip.Bins()
        ensures Sum(chip.Covers(pos, b)[..0]) == 0.0
      {
      }
      for i := 0 to |pos|
        invariant Valid() && forall b: nat :: b < chip.Bins() ==> mUtil[b] == Sum(chip.Covers(pos, b)[..i])
      {
        ghost var u := mUtil;
        if chip.movable[i] {
          AddCell(i, pos[i]);
        }
        forall b: nat | b < chip.Bins()
          ensures Sum(chip.Covers(pos, b)[..i + 1]) == Sum(chip.Covers(pos, b)[..i]) + chip.Covers(pos, b)[i]
        {
          SumPrefix(chip.Covers(pos, b), i);
        }
      }
      forall b: nat | b < chip.Bins()
        ensures mUtil[b] == chip.Utils(pos)[b]
      {
        assert chip.Covers(pos, b)[..|pos|] == chip.Covers(pos, b);
      }
    }

    method AddCell(i: nat, p: Point)
      requires Valid() && i < |pos|
      modifies this`mUtil
      ensures Valid() && Shifted(old(mUtil), mUtil, i, p, 1)
    {
      ghost var u := mUtil;
      var j := chip.BottomRow(i, p);
      RowStart(u, i, p, 1);
      while j <= chip.TopRow(i, p)
        invariant chip.BottomRow(i, p) <= j && Valid() && Partway(u, mUtil, i, p, 1, j, chip.LeftCol(i, p))
        decreases chip.TopRow(i, p) - j
      {
        var k := chip.LeftCol(i, p);
        while k <= chip.RightCol(i, p)
          invariant chip.LeftCol(i, p) <= k && Valid() && Partway(u, mUtil, i, p, 1, j, k)
          decreases chip.RightCol(i, p) - k
        {
          NextBin(u, mUtil, i, p, 1, j, k);
          var binId := chip.BinId(j, k);
          mUtil := mUtil[binId := mUtil[binId] + chip.Cover(binId, i, p)];
          k := k + 1;
        }
        NextRow(u, mUtil, i, p, 1, j, k);
        j := j + 1;
      }
      AllRows(u, mUtil, i, p, 1, j, chip.LeftCol(i, p));
    }

    /** Sorts the bins into buckets and adds up the buckets. */
    method ComputeBuckets()
      requires Valid()
      modifies this`buckets, this`totals
      ensures Valid() && chip.Bucketed(mUtil, buckets, totals)
    {
      buckets := seq(BUCKETS, _ => {});
      for binId: nat := 0 to chip.Bins()
        invariant Valid()
        invariant forall ix :: 0 <= ix < BUCKETS ==> buckets[ix] == set b: nat | b < chip.Bins() && b < binId && chip.BucketId(b, mUtil[b]) == ix
      {
        var ix := chip.BucketId(binId, mUtil[binId]);
        if ix != -1 {
          buckets := buckets[ix := buckets[ix] + {binId}];
        }
      }
      for ix := 0 to BUCKETS
        invariant Valid() && forall ix :: 0 <= ix < BUCKETS ==> buckets[ix] == chip.Bucket(mUtil, ix)
        invariant forall k :: 0 <= k < ix ==> totals[k] == Sum(Masked(chip.Ratios(mUtil), chip.Bucket(mUtil, k)))
      {
        var total := AddUp(ix);
        totals := totals[ix := total];
      }
    }

    method AddUp(ix: nat) returns (total: real)
      requires Valid() && ix < BUCKETS && buckets[ix] == chip.Bucket(mUtil, ix)
      ensures total == Sum(Masked(chip.Ratios(mUtil), chip.Bucket(mUtil, ix)))
    {
      total := 0.0;
      var todo := buckets[ix];
      ghost var done := {};
      MaskedNone(chip.Ratios(mUtil));
      while todo != {}
        invariant todo + done == buckets[ix] && todo !! done
        invariant total == Sum(Masked(chip.Ratios(mUtil), done))
      {
        var binId :| binId in todo;
        assert binId in buckets[ix];
        MaskedAdd(chip.Ratios(mUtil), done, binId);
        total := total + mUtil[binId] / chip.Space(binId);
        todo, done := todo - {binId}, done + {binId};
      }
      assert done == buckets[ix];
    }

    /** The cost of the buckets above the target. */
    method Fof() returns (fof: real)
      requires Valid() && chip.target >= 0.0
      ensures fof == chip.FofBelow(buckets, totals, BUCKETS)
    {
      fof := 0.0;
      var i := BUCKETS;
      while i as real / BUCKETS as real > chip.target
        invariant 0 <= i <= BUCKETS
        invariant fof + chip.FofBelow(buckets, totals, i) == chip.FofBelow(buckets, totals, BUCKETS)
        decreases i
      {
        i := i - 1;
        if buckets[i] != {} {
          fof := fof + totals[i] / |buckets[i]| as real;
        }
      }
    }

    /** The objective from scratch; afterwards everything tracks the current placement. */
    method Curr() returns (fof: real)
      requires Valid() && chip.target >= 0.0 && changed == []
      modifies this`mUtil, this`cUtil, this`buckets, this`totals
      ensures Valid()
      ensures if chip.target >= 0.999 then fof == 0.0 else fof == chip.Cost(pos) && Tracks(pos)
    {
      if chip.target >= 0.999 {
        return 0.0;
      }
      ClearUtils();
      ComputeUtils();
      ComputeBuckets();
      fof := Fof();
      chip.BucketedUnique(mUtil, buckets, totals);
    }

    // ----- move by move

    /** Adds or takes off what a cell at p covers, recording each bin before it first changes. */
    method UpdateBins(i: nat, p: Point, addSub: int)
      requires Valid() && Recording() && i < |pos| && chip.movable[i] && (addSub == 1 || addSub == -1)
      modifies this`mUtil, this`cUtil, this`changed, this`mask
      ensures Valid() && Recording() && Shifted(old(mUtil), mUtil, i, p, addSub)
    {
      ghost var u := mUtil;
      var j := chip.BottomRow(i, p);
      RowStart(u, i, p, addSub);
      while j <= chip.TopRow(i, p)
        invariant chip.BottomRow(i, p) <= j && Valid() && Recording()
        invariant Partway(u, mUtil, i, p, addSub, j, chip.LeftCol(i, p))
        decreases chip.TopRow(i, p) - j
      {
        var k := chip.LeftCol(i, p);
        while k <= chip.RightCol(i, p)
          invariant chip.LeftCol(i, p) <= k && Valid() && Recording() && Partway(u, mUtil, i, p, addSub, j, k)
          decreases chip.RightCol(i, p) - k
        {
          NextBin(u, mUtil, i, p, addSub, j, k);
          UpdateBin(chip.BinId(j, k), chip.Cover(chip.BinId(j, k), i, p), addSub);
          k := k + 1;
        }
        NextRow(u, mUtil, i, p, addSub, j, k);
        j := j + 1;
      }
      AllRows(u, mUtil, i, p, addSub, j, chip.LeftCol(i, p));
    }

    /** One bin of it; a bin that is not covered is not touched. */
    method UpdateBin(binId: nat, area: real, addSub: int)
      requires Valid() && Recording() && binId < chip.Bins() && (addSub == 1 || addSub == -1)
      modifies this`mUtil, this`cUtil, this`changed, this`mask
      ensures Valid() && Recording() && mUtil == old(mUtil)[binId := old(mUtil[binId]) + Signed(addSub, area)]
    {
      if area != 0.0 {
        if mask[binId] != counter {
          mask := mask[binId := counter];
          changed := changed + [binId];
          cUtil := cUtil[binId := mUtil[binId]];
        }
        mUtil := mUtil[binId := mUtil[binId] + area * addSub as real];
      }
    }

    /** Takes a bin out of its bucket at one utilisation and puts it back at another. `w` is what the
        buckets hold the bins at. */
    method Rebucket(binId: nat, from: real, to: real, ghost w: seq<real>)
      requires Valid() && binId < chip.Bins() && chip.Bucketed(w, buckets, totals) && w[binId] == from
      modifies this`buckets, this`totals
      ensures Valid() && chip.Bucketed(w[binId := to], buckets, totals)
    {
      hide Chip.BucketId, Chip.Space, Masked, Sum;
      forall ix | 0 <= ix < BUCKETS
        ensures chip.Bucket(w[binId := to], ix) == (chip.Bucket(w, ix) - {binId}) + (if chip.BucketId(binId, to) == ix then {binId} else {})
        ensures Sum(Masked(chip.Ratios(w[binId := to]), chip.Bucket(w[binId := to], ix)))
          == Sum(Masked(chip.Ratios(w), chip.Bucket(w, ix)))
             - (if chip.BucketId(binId, from) == ix then from / chip.Space(binId) else 0.0)
             + (if chip.BucketId(binId, to) == ix then to / chip.Space(binId) else 0.0)
      {
        chip.Rebucketed(w, binId, to, ix);
      }
      var space := chip.Space(binId);
      var ix := chip.BucketId(binId, from);
      if ix != -1 {
        assert binId in buckets[ix];
        buckets := buckets[ix := buckets[ix] - {binId}];
        totals := totals[ix := totals[ix] - from / space];
      }
      ix := chip.BucketId(binId, to);
      if ix != -1 {
        buckets := buckets[ix := buckets[ix] + {binId}];
        totals := totals[ix := totals[ix] + to / space];
      }
    }

    /** The price of moving cells: cost before minus cost after. Bins, buckets and totals then track the
        moved placement, and remember how to go back. */
    method Delta(nodes: seq<nat>, cur: seq<Point>, next: seq<Point>) returns (delta: real)
      requires Valid() && 0.0 <= chip.target < 0.999 && changed == [] && Tracks(pos)
      requires chip.Cells(nodes) && chip.StandAt(pos, nodes, cur) && |next| == |nodes|
      modifies this`mUtil, this`cUtil, this`changed, this`mask, this`counter, this`buckets, this`totals, this`base
      ensures Valid() && Recording() && base == old(mUtil)
      ensures Tracks(PlaceAt(pos, nodes, next))
      ensures delta == chip.Cost(pos) - chip.Cost(PlaceAt(pos, nodes, next))
    {
      var fofOld := Fof();
      chip.BucketedUnique(mUtil, buckets, totals);
      base := mUtil;
      counter := counter + 1;
      MoveBins(nodes, cur, next);
      SortChanged();
      var fofNew := Fof();
      chip.BucketedUnique(mUtil, buckets, totals);
      delta := fofOld - fofNew;
    }

    /** Old places off, new places on. */
    method MoveBins(nodes: seq<nat>, cur: seq<Point>, next: seq<Point>)
      requires Valid() && Recording() && mUtil == base == chip.Utils(pos)
      requires chip.Cells(nodes) && chip.StandAt(pos, nodes, cur) && |next| == |nodes|
      modifies this`mUtil, this`cUtil, this`changed, this`mask
      ensures Valid() && Recording() && mUtil == chip.Utils(PlaceAt(pos, nodes, next))
    {
      hide PlaceAt;
      TakeOff(nodes, cur);
      PutOn(nodes, next);
      forall b: nat | b < chip.Bins()
        ensures mUtil[b] == chip.Utils(PlaceAt(pos, nodes, next))[b]
      {
        chip.MoveChanges(pos, nodes, cur, next, b, |nodes|);
        assert nodes[..|nodes|] == nodes && next[..|next|] == next;
      }
    }

    method TakeOff(nodes: seq<nat>, cur: seq<Point>)
      requires Valid() && Recording() && chip.Cells(nodes) && |cur| == |nodes| && (forall i :: 0 <= i < |nodes| ==> nodes[i] < |pos|)
      modifies this`mUtil, this`cUtil, this`changed, this`mask
      ensures Valid() && Recording()
      ensures forall b: nat :: b < chip.Bins() ==> mUtil[b] == old(mUtil[b]) - chip.CoverSum(b, nodes, cur, |nodes|)
    {
      for i := 0 to |nodes|
        invariant Valid() && Recording()
        invariant forall b: nat :: b < chip.Bins() ==> mUtil[b] == old(mUtil[b]) - chip.CoverSum(b, nodes, cur, i)
      {
        UpdateBins(nodes[i], cur[i], -1);
      }
    }

    method PutOn(nodes: seq<nat>, next: seq<Point>)
      requires Valid() && Recording() && chip.Cells(nodes) && |next| == |nodes| && (forall i :: 0 <= i < |nodes| ==> nodes[i] < |pos|)
      modifies this`mUtil, this`cUtil, this`changed, this`mask
      ensures Valid() && Recording()
      ensures forall b: nat :: b < chip.Bins() ==> mUtil[b] == old(mUtil[b]) + chip.CoverSum(b, nodes, next, |nodes|)
    {
      for i := 0 to |nodes|
        invariant Valid() && Recording()
        invariant forall b: nat :: b < chip.Bins() ==> mUtil[b] == old(mUtil[b]) + chip.CoverSum(b, nodes, next, i)
      {
        UpdateBins(nodes[i], next[i], 1);
      }
    }

    /** Puts every changed bin into the bucket it belongs in now. */
    method SortChanged()
      requires Valid() && Recording() && chip.Bucketed(base, buckets, totals)
      modifies this`buckets, this`totals
      ensures Valid() && chip.Bucketed(mUtil, buckets, totals)
    {
      ghost var w := base;
      for i := 0 to |changed|
        invariant Valid() && |w| == chip.Bins() && chip.Bucketed(w, buckets, totals)
        invariant forall b: nat :: b < chip.Bins() ==> w[b] == if b in changed[..i] then mUtil[b] else base[b]
      {
        var binId := changed[i];
        assert changed[..i + 1] == changed[..i] + [binId] && binId in changed;
        Rebucket(binId, cUtil[binId], mUtil[binId], w);
        w := w[binId := mUtil[binId]];
      }
      assert changed[..|changed|] == changed;
      assert w == mUtil;
    }

    method AcceptBins()
      requires Valid()
      modifies this`changed
      ensures Valid() && changed == []
    {
      changed := [];
    }

    /** Goes back: utilisations, buckets and totals are what they were. */
    method RejectBins()
      requires Valid() && Recording() && chip.Bucketed(mUtil, buckets, totals)
      modifies this`mUtil, this`changed, this`buckets, this`totals
      ensures Valid() && changed == [] && mUtil == base && chip.Bucketed(base, buckets, totals)
    {
      ghost var was := mUtil;
      for i := 0 to |changed|
        invariant Valid() && changed == old(changed) && chip.Bucketed(mUtil, buckets, totals)
        invariant forall b: nat :: b < chip.Bins() ==> mUtil[b] == if b in changed[..i] then cUtil[b] else was[b]
      {
        var binId := changed[i];
        assert changed[..i + 1] == changed[..i] + [binId] && binId in changed;
        Rebucket(binId, mUtil[binId], cUtil[binId], mUtil);
        mUtil := mUtil[binId := cUtil[binId]];
      }
      assert changed[..|changed|] == changed;
      changed := [];
    }

    /** The placement manager's part of accepting a move. */
    method SetPositions(nodes: seq<nat>, next: seq<Point>)
      requires Valid() && chip.Cells(nodes) && |next| == |nodes|
      modifies this`pos
      ensures Valid() && pos == PlaceAt(old(pos), nodes, next)
    {
      for i := 0 to |nodes|
        invariant Valid() && pos == PlaceAt(old(pos), nodes[..i], next[..i])
      {
        pos := pos[nodes[i] := next[i]];
        assert nodes[..i + 1][..i] == nodes[..i] && next[..i + 1][..i] == next[..i];
      }
      assert nodes[..|nodes|] == nodes && next[..|next|] == next;
    }

    /** Any run of priced moves, each accepted or rejected: the running cost is always the recount, and a
        rejected move leaves no trace. */
    method Run(moves: seq<Trial>) returns (cost: real)
      requires Valid() && 0.0 <= chip.target < 0.999 && changed == []
      requires forall m :: 0 <= m < |moves| ==> chip.Cells(moves[m].nodes) && |moves[m].to| == |moves[m].nodes|
      modifies this
      ensures Valid() && changed == [] && Tracks(pos) && cost == chip.Cost(pos)
      ensures pos == Accepted(old(pos), moves, |moves|)
    {
      cost := Curr();
      for m := 0 to |moves|
        invariant Valid() && changed == [] && Tracks(pos) && cost == chip.Cost(pos)
        invariant pos == Accepted(old(pos), moves, m)
      {
        cost := Try(moves[m], cost);
      }
    }

    method Try(move: Trial, cost0: real) returns (cost: real)
      requires Valid() && 0.0 <= chip.target < 0.999 && changed == [] && Tracks(pos) && cost0 == chip.Cost(pos)
      requires chip.Cells(move.nodes) && |move.to| == |move.nodes|
      modifies this
      ensures Valid() && changed == [] && Tracks(pos) && cost == chip.Cost(pos)
      ensures pos == if move.keep then PlaceAt(old(pos), move.nodes, move.to) else old(pos)
      ensures !move.keep ==> mUtil == old(mUtil) && buckets == old(buckets) && totals == old(totals)
    {
      var nodes, here := move.nodes, pos;
      var cur := seq(|nodes|, i requires 0 <= i < |nodes| && nodes[i] < |here| => here[nodes[i]]);
      chip.BucketedUnique(mUtil, buckets, totals);
      var delta := Delta(nodes, cur, move.to);
      if move.keep {
        AcceptBins();
        SetPositions(nodes, move.to);
        cost := cost0 - delta;
      } else {
        RejectBins();
        chip.BucketedUnique(mUtil, buckets, totals);
        cost := cost0;
      }
    }

    /** Where the cells are after the accepted ones of the first m moves. */
    ghost function Accepted(p: Placement, moves: seq<Trial>, m: nat): (r: Placement)
      requires m <= |moves| && |p| == |chip.width|
      requires forall m :: 0 <= m < |moves| ==> chip.Cells(moves[m].nodes) && |moves[m].to| == |moves[m].nodes|
      ensures |r| == |p|
    {
      if m == 0 then p
      else
        var before := Accepted(p, moves, m - 1);
        if moves[m - 1].keep then PlaceAt(before, moves[m - 1].nodes, moves[m - 1].to) else before
    }
  }

  /** A move of some cells, and whether the optimiser keeps it. */
  datatype Trial = Trial(nodes: seq<nat>, to: seq<Point>, keep: bool)
}

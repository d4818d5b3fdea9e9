/** The coarse grid the matcher searches for partner cells (detailed_mis.cxx): candidates sit in
    the bin under their centre, and a breadth-first walk from the seed's bin collects cells. */
module MisGrid {
  import opened RealMath
  import opened Netlist
  import opened Permutations

  const MAX_PROBLEM_SIZE: nat := 25

  datatype Bin = Bin(i: int, j: int)

  ghost predicate InGrid(b: Bin, dimW: int, dimH: int) {
    0 <= b.i < dimW && 0 <= b.j < dimH
  }

  ghost predicate Adjacent(a: Bin, b: Bin) {
    (a.i == b.i && (a.j == b.j + 1 || b.j == a.j + 1)) || (a.j == b.j && (a.i == b.i + 1 || b.i == a.i + 1))
  }

  ghost function Distance(a: Bin, b: Bin): nat {
    (if a.i <= b.i then b.i - a.i else a.i - b.i) + (if a.j <= b.j then b.j - a.j else a.j - b.j)
  }

  /** A set of bins closed under adjacency that holds one bin holds them all. */
  lemma {:induction false} ClosedIsEverything(seen: set<Bin>, start: Bin, b: Bin, dimW: int, dimH: int)
    requires InGrid(start, dimW, dimH) && InGrid(b, dimW, dimH) && start in seen
    requires forall p, q :: p in seen && InGrid(q, dimW, dimH) && Adjacent(p, q) ==> q in seen
    ensures b in seen
    decreases Distance(start, b)
  {
    if b != start {
      var p := if b.i < start.i then Bin(b.i + 1, b.j) else if b.i > start.i then Bin(b.i - 1, b.j)
               else if b.j < start.j then Bin(b.i, b.j + 1) else Bin(b.i, b.j - 1);
      ClosedIsEverything(seen, start, p, dimW, dimH);
      assert Adjacent(p, b);
    }
  }

  /** Every listed cell is in exactly one bucket, once, and `cellToBin` says which. */
  ghost predicate Partition(bucket: map<Bin, seq<nat>>, cellToBin: map<nat, Bin>, cs: seq<nat>) {
    && (forall c :: c in cellToBin <==> c in cs)
    && (forall c :: c in cellToBin ==> cellToBin[c] in bucket && c in bucket[cellToBin[c]])
    && (forall b, c :: b in bucket && c in bucket[b] ==> c in cellToBin && cellToBin[c] == b)
    && (forall b :: b in bucket ==> Distinct(bucket[b]))
  }

  lemma {:induction false} PartitionInsert(bucket: map<Bin, seq<nat>>, cellToBin: map<nat, Bin>, cs: seq<nat>, c: nat, b: Bin)
    requires Partition(bucket, cellToBin, cs) && c !in cs && b in bucket
    ensures Partition(bucket[b := bucket[b] + [c]], cellToBin[c := b], cs + [c])
  {
    assert c !in bucket[b];
  }

  /** Breadth-first frontier: all that is visited has its neighbours visited or queued. */
  ghost predicate Frontier(start: Bin, queue: seq<Bin>, visited: set<Bin>, dimW: int, dimH: int) {
    && (forall b :: b in queue ==> InGrid(b, dimW, dimH))
    && (start in visited || start in queue)
    && (forall p, q :: p in visited && InGrid(q, dimW, dimH) && Adjacent(p, q) ==> q in visited || q in queue)
  }

  lemma {:induction false} FrontierSkip(start: Bin, queue: seq<Bin>, visited: set<Bin>, dimW: int, dimH: int)
    requires Frontier(start, queue, visited, dimW, dimH) && queue != [] && queue[0] in visited
    ensures Frontier(start, queue[1..], visited, dimW, dimH)
  {
    assert queue == [queue[0]] + queue[1..];
  }

  lemma {:induction false} FrontierVisit(start: Bin, queue: seq<Bin>, more: seq<Bin>, visited: set<Bin>, dimW: int, dimH: int)
    requires Frontier(start, queue, visited, dimW, dimH) && queue != []
    requires queue[1..] <= more
    requires forall b :: b in more[|queue| - 1..] ==> InGrid(b, dimW, dimH)
    requires forall q :: InGrid(q, dimW, dimH) && Adjacent(queue[0], q) ==> q in more
    ensures Frontier(start, more, visited + {queue[0]}, dimW, dimH)
  {
    assert queue == [queue[0]] + queue[1..];
    assert more == queue[1..] + more[|queue| - 1..];
  }

  // ----- what a search outwards from a bin gathers

  /** The compatible ones of the listed cells, in their order. */
  ghost function Picked(cs: seq<nat>, compatible: nat -> bool): (s: seq<nat>)
    ensures forall c :: c in s <==> c in cs && compatible(c)
  {
    if cs == [] then [] else
      var n := |cs| - 1;
      Picked(cs[..n], compatible) + if compatible(cs[n]) then [cs[n]] else []
  }

  /** The compatible cells of the bins, bin after bin. */
  ghost function Scanned(bucket: map<Bin, seq<nat>>, compatible: nat -> bool, bins: seq<Bin>): (s: seq<nat>)
    ensures forall c :: c in s <==> compatible(c) && exists b :: b in bins && b in bucket && c in bucket[b]
  {
    if bins == [] then [] else
      var n := |bins| - 1;
      Scanned(bucket, compatible, bins[..n]) + if bins[n] in bucket then Picked(bucket[bins[n]], compatible) else []
  }

  lemma ScannedNext(bucket: map<Bin, seq<nat>>, compatible: nat -> bool, bins: seq<Bin>, b: Bin)
    requires b in bucket
    ensures Scanned(bucket, compatible, bins + [b]) == Scanned(bucket, compatible, bins) + Picked(bucket[b], compatible)
  {
    assert (bins + [b])[..|bins|] == bins;
  }

  /** Different bins from the start outwards: none is left out that is nearer. */
  ghost predicate Outward(start: Bin, bins: seq<Bin>, dimW: int, dimH: int) {
    && Distinct(bins) && (forall k :: 0 <= k < |bins| ==> InGrid(bins[k], dimW, dimH))
    && forall k, b :: 0 <= k < |bins| && InGrid(b, dimW, dimH) && Distance(start, b) < Distance(start, bins[k]) ==> b in bins[..k]
  }

  /** What is gathered around a seed: the compatible cells of the bins from the seed's outwards, until there are
      enough with the seed or no bins are left. */
  ghost predicate Collected(bucket: map<Bin, seq<nat>>, compatible: nat -> bool, start: Bin, seed: nat, nbrs: seq<nat>,
                            bins: seq<Bin>, dimW: int, dimH: int) {
    && bins != [] && Outward(start, bins, dimW, dimH) && nbrs == [seed] + Scanned(bucket, compatible, bins)
    && |Scanned(bucket, compatible, bins[..|bins| - 1])| + 1 < MAX_PROBLEM_SIZE
    && (|nbrs| < MAX_PROBLEM_SIZE ==> forall b :: InGrid(b, dimW, dimH) ==> b in bins)
  }

  ghost function Seen(bins: seq<Bin>): set<Bin> {
    set b | b in bins
  }

  /** The queue's new bins come in the order of their distance, and none is nearer than any seen, or more than one
      step farther than the last. */
  ghost predicate InOrder(start: Bin, queue: seq<Bin>, bins: seq<Bin>) {
    && (forall i, j :: 0 <= i < j < |queue| && queue[i] !in bins && queue[j] !in bins ==> Distance(start, queue[i]) <= Distance(start, queue[j]))
    && (bins != [] ==> forall i :: 0 <= i < |queue| && queue[i] !in bins ==>
          Distance(start, bins[|bins| - 1]) <= Distance(start, queue[i]) <= Distance(start, bins[|bins| - 1]) + 1)
  }

  /** One step from a bin towards the start. */
  ghost function Closer(start: Bin, b: Bin): (p: Bin)
    requires b != start
    ensures Distance(start, p) == Distance(start, b) - 1 && Adjacent(p, b)
    ensures forall dimW, dimH :: InGrid(start, dimW, dimH) && InGrid(b, dimW, dimH) ==> InGrid(p, dimW, dimH)
  {
    if b.i < start.i then Bin(b.i + 1, b.j) else if b.i > start.i then Bin(b.i - 1, b.j)
    else if b.j < start.j then Bin(b.i, b.j + 1) else Bin(b.i, b.j - 1)
  }

  /** All bins nearer than the next new one are seen. */
  lemma {:induction false} NearerSeen(start: Bin, queue: seq<Bin>, bins: seq<Bin>, b: Bin, dimW: int, dimH: int)
    requires Frontier(start, queue, Seen(bins), dimW, dimH) && InOrder(start, queue, bins) && queue != [] && queue[0] !in bins
    requires InGrid(start, dimW, dimH) && InGrid(b, dimW, dimH) && Distance(start, b) < Distance(start, queue[0])
    ensures b in bins
    decreases Distance(start, b)
  {
    hide Distance, Adjacent, InGrid;
    if b == start {
      assert start in Seen(bins) || start in queue;
    } else {
      var p := Closer(start, b);
      NearerSeen(start, queue, bins, p, dimW, dimH);
      assert p in Seen(bins);
    }
    NotQueued(start, queue, bins, b);
  }

  /** What waits to be seen is no nearer than the next. */
  lemma NotQueued(start: Bin, queue: seq<Bin>, bins: seq<Bin>, b: Bin)
    requires InOrder(start, queue, bins) && queue != [] && queue[0] !in bins && Distance(start, b) < Distance(start, queue[0])
    ensures b in queue ==> b in bins
  {
    hide Distance;
  }

  lemma {:induction false} NextIsOutward(start: Bin, queue: seq<Bin>, bins: seq<Bin>, dimW: int, dimH: int)
    requires Frontier(start, queue, Seen(bins), dimW, dimH) && InOrder(start, queue, bins) && queue != [] && queue[0] !in bins
    requires InGrid(start, dimW, dimH) && Outward(start, bins, dimW, dimH)
    ensures Outward(start, bins + [queue[0]], dimW, dimH) && Seen(bins + [queue[0]]) == Seen(bins) + {queue[0]}
  {
    hide Distance, Adjacent, InGrid;
    var next := bins + [queue[0]];
    assert queue[0] in queue;
    forall k, b | 0 <= k < |next| && InGrid(b, dimW, dimH) && Distance(start, b) < Distance(start, next[k])
      ensures b in next[..k]
    {
      if k < |bins| {
        assert next[..k] == bins[..k];
      } else {
        NearerSeen(start, queue, bins, b, dimW, dimH);
        assert next[..k] == bins;
      }
    }
  }

  /** Queueing what is next to the bin just seen keeps the order. */
  lemma {:induction false} QueuedInOrder(start: Bin, queue: seq<Bin>, more: seq<Bin>, bins: seq<Bin>, dimW: int, dimH: int)
    requires Frontier(start, queue, Seen(bins), dimW, dimH) && InOrder(start, queue, bins) && queue != [] && queue[0] !in bins
    requires InGrid(start, dimW, dimH) && (bins == [] ==> |queue| == 1)
    requires queue[1..] <= more && forall b :: b in more[|queue| - 1..] ==> InGrid(b, dimW, dimH) && Adjacent(queue[0], b)
    ensures InOrder(start, more, bins + [queue[0]])
  {
    hide Adjacent, InGrid, Distance;
    var curr, next := queue[0], bins + [queue[0]];
    var d := Distance(start, curr);
    forall i | 0 <= i < |more| && more[i] !in next
      ensures d <= Distance(start, more[i]) <= d + 1 && (i >= |queue| - 1 ==> Distance(start, more[i]) == d + 1)
    {
      if i < |queue| - 1 {
        assert more[i] == queue[1..][i] == queue[i + 1];
        QueueClose(start, queue, bins, i + 1);
      } else {
        assert more[i] == more[|queue| - 1..][i - (|queue| - 1)];
        assert more[i] in more[|queue| - 1..];
        OneStep(start, curr, more[i]);
        if Distance(start, more[i]) < d {
          NearerSeen(start, queue, bins, more[i], dimW, dimH);
        }
      }
    }
    forall i, j | 0 <= i < j < |more| && more[i] !in next && more[j] !in next
      ensures Distance(start, more[i]) <= Distance(start, more[j])
    {
      if j < |queue| - 1 {
        assert more[i] == queue[i + 1] && more[j] == queue[j + 1];
      }
    }
  }

  /** New bins of the queue are at most one step farther than the first one. */
  lemma QueueClose(start: Bin, queue: seq<Bin>, bins: seq<Bin>, i: nat)
    requires InOrder(start, queue, bins) && 0 < i < |queue| && queue[0] !in bins && queue[i] !in bins
    requires bins == [] ==> |queue| == 1
    ensures Distance(start, queue[0]) <= Distance(start, queue[i]) <= Distance(start, queue[0]) + 1
  {
    hide Distance;
  }

  lemma OneStep(start: Bin, a: Bin, b: Bin)
    requires Adjacent(a, b)
    ensures Distance(start, b) == Distance(start, a) + 1 || Distance(start, b) == Distance(start, a) - 1
  {
  }

  lemma {:induction false} Shrinks(all: set<Bin>, visited: set<Bin>, b: Bin)
    requires b in all && b !in visited
    ensures |all - (visited + {b})| < |all - visited|
  {
    assert all - (visited + {b}) == (all - visited) - {b};
  }

  /** The marks of this traversal are exactly the visited bins. */
  ghost predicate Marked(travId: map<Bin, nat>, traversal: nat, visited: set<Bin>, dimW: int, dimH: int) {
    && (forall b :: b in travId <==> InGrid(b, dimW, dimH))
    && (forall b :: b in travId ==> travId[b] <= traversal && (travId[b] == traversal <==> b in visited))
  }

  lemma {:induction false} MarkOne(travId: map<Bin, nat>, traversal: nat, visited: set<Bin>, dimW: int, dimH: int, b: Bin)
    requires Marked(travId, traversal, visited, dimW, dimH) && b in travId
    ensures Marked(travId[b := traversal], traversal, visited + {b}, dimW, dimH)
  {
  }

  class SearchGrid {
    const xmin: real
    const ymin: real
    const stepX: real
    const stepY: real
    const dimW: int
    const dimH: int
    var bucket: map<Bin, seq<nat>>
    var cellToBin: map<nat, Bin>
    var travId: map<Bin, nat>
    var traversal: nat

    /** A visit mark never runs ahead of the current traversal. */
    ghost predicate Valid()
      reads this
    {
      && dimW > 0 && dimH > 0 && stepX > 0.0 && stepY > 0.0
      && (forall b :: b in travId <==> InGrid(b, dimW, dimH))
      && (forall b :: b in travId ==> travId[b] <= traversal)
    }

    /** The buckets partition the candidates. */
    ghost predicate Holds(candidates: seq<nat>)
      reads this`bucket, this`cellToBin
    {
      && (forall b :: b in bucket <==> InGrid(b, dimW, dimH))
      && Partition(bucket, cellToBin, candidates)
    }

    constructor (xmin: real, ymin: real, stepX: real, stepY: real, dimW: int, dimH: int)
      requires dimW > 0 && dimH > 0 && stepX > 0.0 && stepY > 0.0
      ensures Valid()
    {
      this.xmin, this.ymin, this.stepX, this.stepY, this.dimW, this.dimH := xmin, ymin, stepX, stepY, dimW, dimH;
      bucket, cellToBin, traversal := map[], map[], 0;
      travId := map i, j | 0 <= i < dimW && 0 <= j < dimH :: Bin(i, j) := 0;
    }

    function Clamp(v: int, dim: int): int {
      var capped := if v <= dim - 1 then v else dim - 1;
      if capped >= 0 then capped else 0
    }

    function BinOf(at: Point): (b: Bin)
      requires stepX > 0.0 && stepY > 0.0
    {
      Bin(Clamp(Trunc((at.x - xmin) / stepX), dimW), Clamp(Trunc((at.y - ymin) / stepY), dimH))
    }

    /** The bin over a point; the nearest border bin if the point is outside. */
    lemma {:induction false} BinCovers(at: Point)
      requires Valid()
      ensures InGrid(BinOf(at), dimW, dimH)
      ensures Covers(xmin, stepX, dimW, BinOf(at).i, at.x) && Covers(ymin, stepY, dimH, BinOf(at).j, at.y)
    {
      CoversAxis(xmin, stepX, dimW, at.x);
      CoversAxis(ymin, stepY, dimH, at.y);
    }

    /** Bin i of an axis reaches over v, or is the first or the last and v lies beyond it. */
    ghost predicate Covers(min: real, step: real, dim: int, i: int, v: real) {
      && (i == 0 || min + i as real * step <= v)
      && (i == dim - 1 || v < min + (i + 1) as real * step)
    }

    lemma {:induction false} CoversAxis(min: real, step: real, dim: int, v: real)
      requires step > 0.0 && dim > 0
      ensures var i := Clamp(Trunc((v - min) / step), dim); 0 <= i < dim && Covers(min, step, dim, i, v)
    {
      var i := Clamp(Trunc((v - min) / step), dim);
      Times(v - min, step, i as real);
      Times(v - min, step, (i + 1) as real);
    }

    /** Dividing by a positive number keeps the order. */
    lemma Times(d: real, step: real, n: real)
      requires step > 0.0
      ensures d / step < n <==> d < n * step
    {
      var q := d / step;
      assert q * step == d;
      if q < n {
        assert (n - q) * step > 0.0;
      } else {
        assert (q - n) * step >= 0.0;
      }
    }

    method Insert(ghost before: seq<nat>, ndi: nat, at: Point)
      requires Valid() && ndi !in before
      requires (forall b :: b in bucket <==> InGrid(b, dimW, dimH)) && Partition(bucket, cellToBin, before)
      modifies this`bucket, this`cellToBin
      ensures (forall b :: b in bucket <==> InGrid(b, dimW, dimH)) && Partition(bucket, cellToBin, before + [ndi])
      ensures cellToBin == old(cellToBin)[ndi := BinOf(at)]
      ensures BinOf(at) in old(bucket) && bucket == old(bucket)[BinOf(at) := old(bucket)[BinOf(at)] + [ndi]]
    {
      hide Covers, Trunc, Clamp, Partition;
      var i := Clamp(Trunc((at.x - xmin) / stepX), dimW);
      var j := Clamp(Trunc((at.y - ymin) / stepY), dimH);
      BinCovers(at);
      var b := Bin(i, j);
      PartitionInsert(bucket, cellToBin, before, ndi, b);
      bucket := bucket[b := bucket[b] + [ndi]];
      cellToBin := cellToBin[ndi := b];
    }

    /** The listed cells over a bin, in their order. */
    ghost function Over(cs: seq<nat>, pos: Placement, b: Bin): seq<nat>
      requires stepX > 0.0 && stepY > 0.0 && forall n :: 0 <= n < |cs| ==> cs[n] < |pos|
    {
      if cs == [] then [] else
        var n := |cs| - 1;
        Over(cs[..n], pos, b) + if BinOf(pos[cs[n]]) == b then [cs[n]] else []
    }

    lemma OverNext(cs: seq<nat>, pos: Placement, n: nat)
      requires stepX > 0.0 && stepY > 0.0 && n < |cs| && forall n :: 0 <= n < |cs| ==> cs[n] < |pos|
      ensures forall b :: Over(cs[..n + 1], pos, b) == if b == BinOf(pos[cs[n]]) then Over(cs[..n], pos, b) + [cs[n]] else Over(cs[..n], pos, b)
    {
      assert cs[..n + 1][..n] == cs[..n];
    }

    /** Puts every candidate into the bin over its centre; cells outside go to the border bins. */
    method Populate(candidates: seq<nat>, pos: Placement)
      requires Valid() && Distinct(candidates)
      requires forall n :: 0 <= n < |candidates| ==> candidates[n] < |pos|
      modifies this`bucket, this`cellToBin
      ensures Valid() && Holds(candidates)
      ensures forall c :: c in candidates ==> c in cellToBin && cellToBin[c] == BinOf(pos[c])
      ensures forall b :: b in bucket ==> bucket[b] == Over(candidates, pos, b)
    {
      hide HasFirst;
      bucket := map i, j | 0 <= i < dimW && 0 <= j < dimH :: Bin(i, j) := [];
      cellToBin := map[];
      HasNone(candidates, pos);
      for n := 0 to |candidates|
        invariant HasFirst(candidates, pos, n)
      {
        InsertNth(candidates, pos, n);
      }
      HasAll(candidates, pos);
    }

    lemma HasNone(candidates: seq<nat>, pos: Placement)
      requires Valid() && (forall k :: 0 <= k < |candidates| ==> candidates[k] < |pos|) && cellToBin == map[]
      requires (forall b :: b in bucket <==> InGrid(b, dimW, dimH)) && forall b :: b in bucket ==> bucket[b] == []
      ensures HasFirst(candidates, pos, 0)
    {
      assert candidates[..0] == [];
    }

    lemma HasAll(candidates: seq<nat>, pos: Placement)
      requires Valid() && HasFirst(candidates, pos, |candidates|)
      ensures Holds(candidates) && forall c :: c in candidates ==> c in cellToBin && cellToBin[c] == BinOf(pos[c])
      ensures forall b :: b in bucket ==> bucket[b] == Over(candidates, pos, b)
    {
      assert candidates[..|candidates|] == candidates;
    }

    /** The first n candidates are in their bins, in order. */
    ghost predicate HasFirst(candidates: seq<nat>, pos: Placement, n: nat)
      reads this`bucket, this`cellToBin
    {
      && stepX > 0.0 && stepY > 0.0 && n <= |candidates| && (forall k :: 0 <= k < |candidates| ==> candidates[k] < |pos|)
      && (forall b :: b in bucket <==> InGrid(b, dimW, dimH)) && Partition(bucket, cellToBin, candidates[..n])
      && (forall k :: 0 <= k < n ==> candidates[k] in cellToBin && cellToBin[candidates[k]] == BinOf(pos[candidates[k]]))
      && (forall b :: b in bucket ==> bucket[b] == Over(candidates[..n], pos, b))
    }

    method InsertNth(candidates: seq<nat>, pos: Placement, n: nat)
      requires Valid() && Distinct(candidates) && n < |candidates| && HasFirst(candidates, pos, n)
      modifies this`bucket, this`cellToBin
      ensures HasFirst(candidates, pos, n + 1)
    {
      hide Partition, Over, BinOf;
      assert candidates[..n + 1] == candidates[..n] + [candidates[n]];
      OverNext(candidates, pos, n);
      Insert(candidates[..n], candidates[n], pos[candidates[n]]);
    }

    /** Breadth-first over the grid from the seed's bin until enough cells are found. What is
        gathered is distinct and compatible; if the list stayed short of the limit, the whole
        grid was searched and no compatible candidate was missed. */
    method Gather(ghost candidates: seq<nat>, seed: nat, compatible: nat -> bool) returns (ok: bool, nbrs: seq<nat>, ghost bins: seq<Bin>)
      requires Valid() && Holds(candidates) && !compatible(seed)
      modifies this`travId, this`traversal
      ensures Valid() && (ok <==> seed in candidates)
      ensures |nbrs| > 0 && nbrs[0] == seed && Distinct(nbrs)
      ensures forall k :: 1 <= k < |nbrs| ==> nbrs[k] in candidates && compatible(nbrs[k])
      ensures ok && |nbrs| < MAX_PROBLEM_SIZE ==> forall c :: c in candidates && compatible(c) ==> c in nbrs
      ensures ok ==> seed in cellToBin && Collected(bucket, compatible, cellToBin[seed], seed, nbrs, bins, dimW, dimH)
      ensures !ok ==> nbrs == [seed]
    {
      nbrs, bins := [seed], [];
      if seed !in cellToBin {
        return false, nbrs, bins;
      }
      ok := true;
      nbrs, bins := Search(candidates, seed, compatible, cellToBin[seed]);
      GatheredCells(candidates, seed, compatible, nbrs, bins);
    }

    /** What was collected is distinct and compatible, and complete if short of the limit. */
    lemma {:induction false} GatheredCells(candidates: seq<nat>, seed: nat, compatible: nat -> bool, nbrs: seq<nat>, bins: seq<Bin>)
      requires Holds(candidates) && !compatible(seed) && seed in cellToBin
      requires Collected(bucket, compatible, cellToBin[seed], seed, nbrs, bins, dimW, dimH)
      ensures |nbrs| > 0 && nbrs[0] == seed && Distinct(nbrs)
      ensures forall k :: 1 <= k < |nbrs| ==> nbrs[k] in candidates && compatible(nbrs[k])
      ensures |nbrs| < MAX_PROBLEM_SIZE ==> forall c :: c in candidates && compatible(c) ==> c in nbrs
    {
      var s := Scanned(bucket, compatible, bins);
      ScannedDistinct(candidates, compatible, bins);
      hide Scanned, Outward, Distance, Picked, Partition;
      BinsHold(candidates);
      forall k | 1 <= k < |nbrs|
        ensures nbrs[k] in candidates && compatible(nbrs[k])
      {
        assert nbrs[k] == s[k - 1] && s[k - 1] in s;
      }
      if |nbrs| < MAX_PROBLEM_SIZE {
        forall c | c in candidates && compatible(c)
          ensures c in nbrs
        {
          assert c in cellToBin && c in s;
        }
      }
    }

    lemma BinsHold(candidates: seq<nat>)
      requires Holds(candidates)
      ensures forall c :: c in candidates ==> c in cellToBin && cellToBin[c] in bucket && c in bucket[cellToBin[c]]
      ensures forall b, c :: b in bucket && c in bucket[b] ==> c in candidates
      ensures forall b :: b in bucket <==> InGrid(b, dimW, dimH)
    {
    }

    lemma {:induction false} ScannedDistinct(candidates: seq<nat>, compatible: nat -> bool, bins: seq<Bin>)
      requires Holds(candidates) && Distinct(bins)
      ensures Distinct(Scanned(bucket, compatible, bins))
    {
      if bins != [] {
        var n := |bins| - 1;
        ScannedDistinct(candidates, compatible, bins[..n]);
        if bins[n] in bucket {
          PickedDistinct(bucket[bins[n]], compatible);
          hide Picked;
          forall c | c in Scanned(bucket, compatible, bins[..n])
            ensures c !in bucket[bins[n]]
          {
            var b :| b in bins[..n] && b in bucket && c in bucket[b];
            assert cellToBin[c] == b && b != bins[n];
          }
          DistinctConcat(Scanned(bucket, compatible, bins[..n]), Picked(bucket[bins[n]], compatible));
        }
      }
    }

    lemma DistinctConcat(s: seq<nat>, t: seq<nat>)
      requires Distinct(s) && Distinct(t) && forall c :: c in s ==> c !in t
      ensures Distinct(s + t)
    {
      forall i, j | 0 <= i < j < |s + t|
        ensures (s + t)[i] != (s + t)[j]
      {
        if i < |s| <= j {
          assert (s + t)[j] == t[j - |s|] && (s + t)[i] in s && t[j - |s|] in t;
        }
      }
    }

    lemma {:induction false} PickedDistinct(cs: seq<nat>, compatible: nat -> bool)
      requires Distinct(cs)
      ensures Distinct(Picked(cs, compatible))
    {
      if cs != [] {
        PickedDistinct(cs[..|cs| - 1], compatible);
      }
    }

    /** Begins a new traversal and searches it. */
    method Search(ghost candidates: seq<nat>, seed: nat, compatible: nat -> bool, start: Bin)
        returns (nbrs: seq<nat>, ghost bins: seq<Bin>)
      requires Valid() && Holds(candidates) && !compatible(seed) && start in bucket
      modifies this`travId, this`traversal
      ensures Valid() && Collected(bucket, compatible, start, seed, nbrs, bins, dimW, dimH)
    {
      hide Frontier, InOrder, Outward, Distance, Adjacent, Scanned, Picked, Partition, Marked, Seen;
      traversal := traversal + 1;
      SearchStarts(start, compatible);
      assert Marked(travId, traversal, Seen([]), dimW, dimH) by {
        NothingMarked();
      }
      nbrs, bins := Spread(candidates, seed, compatible, start);
    }

    /** The breadth-first loop: stops on an exhausted queue or on enough neighbours. */
    method Spread(ghost candidates: seq<nat>, seed: nat, compatible: nat -> bool, start: Bin)
        returns (nbrs: seq<nat>, ghost bins: seq<Bin>)
      requires Valid() && Holds(candidates) && start in bucket && InGrid(start, dimW, dimH)
      requires Marked(travId, traversal, Seen([]), dimW, dimH) && Outward(start, [], dimW, dimH)
      requires Frontier(start, [start], Seen([]), dimW, dimH) && InOrder(start, [start], []) && Scanned(bucket, compatible, []) == []
      modifies this`travId
      ensures Valid() && Collected(bucket, compatible, start, seed, nbrs, bins, dimW, dimH)
    {
      hide Frontier, InOrder, Outward, Distance, Adjacent, Scanned, Picked, Partition, Marked, Seen, Valid, Holds;
      nbrs := [seed];
      var queue := [start];
      bins := [];
      while |queue| > 0
        invariant Valid() && Marked(travId, traversal, Seen(bins), dimW, dimH) && Outward(start, bins, dimW, dimH)
        invariant nbrs == [seed] + Scanned(bucket, compatible, bins) && |nbrs| < MAX_PROBLEM_SIZE
        invariant bins != [] ==> |Scanned(bucket, compatible, bins[..|bins| - 1])| + 1 < MAX_PROBLEM_SIZE
        invariant Frontier(start, queue, Seen(bins), dimW, dimH) && InOrder(start, queue, bins) && (bins == [] ==> queue == [start])
        decreases |bucket.Keys - Seen(bins)|, |queue|
      {
        var curr := queue[0];
        QueueInGrid(start, queue, Seen(bins));
        MarkMeans(curr, bins);
        if travId[curr] == traversal {
          SkipInOrder(start, queue, bins);
          queue := queue[1..];
          continue;
        }
        ghost var bins0 := bins;
        Unseen(candidates, bins, curr);
        nbrs, queue, bins := Visit(candidates, seed, compatible, start, queue, nbrs, bins);
        assert bins[..|bins| - 1] == bins0;
        if |nbrs| >= MAX_PROBLEM_SIZE {
          return;
        }
      }
      EverythingSeen(start, bins);
    }

    lemma Unseen(candidates: seq<nat>, bins: seq<Bin>, b: Bin)
      requires Holds(candidates) && InGrid(b, dimW, dimH) && b !in bins
      ensures |bucket.Keys - (Seen(bins) + {b})| < |bucket.Keys - Seen(bins)|
    {
      Shrinks(bucket.Keys, Seen(bins), b);
    }

    lemma NothingMarked()
      requires (forall b :: b in travId <==> InGrid(b, dimW, dimH)) && forall b :: b in travId ==> travId[b] < traversal
      ensures Marked(travId, traversal, Seen([]), dimW, dimH)
    {
    }

    lemma SearchStarts(start: Bin, compatible: nat -> bool)
      requires (forall b :: b in bucket <==> InGrid(b, dimW, dimH)) && start in bucket
      ensures Frontier(start, [start], Seen([]), dimW, dimH) && InOrder(start, [start], []) && Outward(start, [], dimW, dimH)
      ensures Seen([]) == {} && Scanned(bucket, compatible, []) == []
    {
    }

    lemma MarkMeans(b: Bin, bins: seq<Bin>)
      requires Marked(travId, traversal, Seen(bins), dimW, dimH) && InGrid(b, dimW, dimH)
      ensures b in travId && (travId[b] == traversal <==> b in bins) && (b in Seen(bins) <==> b in bins)
    {
    }

    lemma QueueInGrid(start: Bin, queue: seq<Bin>, visited: set<Bin>)
      requires Frontier(start, queue, visited, dimW, dimH) && queue != []
      ensures InGrid(queue[0], dimW, dimH)
    {
      assert queue[0] in queue;
    }

    lemma {:induction false} SkipInOrder(start: Bin, queue: seq<Bin>, bins: seq<Bin>)
      requires Frontier(start, queue, Seen(bins), dimW, dimH) && InOrder(start, queue, bins) && queue != [] && queue[0] in bins
      ensures Frontier(start, queue[1..], Seen(bins), dimW, dimH) && InOrder(start, queue[1..], bins)
    {
      hide Distance, Adjacent, InGrid;
      FrontierSkip(start, queue, Seen(bins), dimW, dimH);
    }

    lemma {:induction false} EverythingSeen(start: Bin, bins: seq<Bin>)
      requires InGrid(start, dimW, dimH) && Frontier(start, [], Seen(bins), dimW, dimH)
      ensures bins != [] && forall b :: InGrid(b, dimW, dimH) ==> b in bins
    {
      hide Distance, Adjacent, InGrid;
      forall b | InGrid(b, dimW, dimH)
        ensures b in bins
      {
        ClosedIsEverything(Seen(bins), start, b, dimW, dimH);
      }
    }

    /** Marks and scans the front bin of the queue, and, unless that fills the problem, queues what is next to it. */
    method Visit(ghost candidates: seq<nat>, seed: nat, compatible: nat -> bool, ghost start: Bin, queue0: seq<Bin>,
                 nbrs0: seq<nat>, ghost bins0: seq<Bin>) returns (nbrs: seq<nat>, queue: seq<Bin>, ghost bins: seq<Bin>)
      requires Valid() && Holds(candidates) && queue0 != [] && queue0[0] !in bins0 && InGrid(start, dimW, dimH)
      requires Marked(travId, traversal, Seen(bins0), dimW, dimH) && Frontier(start, queue0, Seen(bins0), dimW, dimH)
      requires InOrder(start, queue0, bins0) && Outward(start, bins0, dimW, dimH) && (bins0 == [] ==> |queue0| == 1)
      requires nbrs0 == [seed] + Scanned(bucket, compatible, bins0)
      modifies this`travId
      ensures Valid() && bins == bins0 + [queue0[0]] && Seen(bins) == Seen(bins0) + {queue0[0]}
      ensures Marked(travId, traversal, Seen(bins), dimW, dimH) && Outward(start, bins, dimW, dimH)
      ensures nbrs == [seed] + Scanned(bucket, compatible, bins)
      ensures |nbrs| < MAX_PROBLEM_SIZE ==> Frontier(start, queue, Seen(bins), dimW, dimH) && InOrder(start, queue, bins)
    {
      hide Frontier, InOrder, Outward, Distance, Adjacent, Scanned, Picked;
      var curr := queue0[0];
      QueueInGrid(start, queue0, Seen(bins0));
      NextIsOutward(start, queue0, bins0, dimW, dimH);
      MarkOne(travId, traversal, Seen(bins0), dimW, dimH, curr);
      travId := travId[curr := traversal];
      bins := bins0 + [curr];
      var found := ScanBin(compatible, curr);
      ScannedNext(bucket, compatible, bins0, curr);
      nbrs := nbrs0 + found;
      assert nbrs == [seed] + (Scanned(bucket, compatible, bins0) + found);
      queue := queue0;
      if |nbrs| < MAX_PROBLEM_SIZE {
        queue := PushAdjacent(start, queue0, bins0);
      }
    }

    /** The compatible cells of a bin. */
    method ScanBin(compatible: nat -> bool, b: Bin) returns (found: seq<nat>)
      requires b in bucket
      ensures found == Picked(bucket[b], compatible)
    {
      found := [];
      var here := bucket[b];
      for j := 0 to |here|
        invariant found == Picked(here[..j], compatible)
      {
        assert here[..j + 1][..j] == here[..j];
        if compatible(here[j]) {
          found := found + [here[j]];
        }
      }
      assert here[..|here|] == here;
    }

    /** Takes the front bin off and queues the bins left, right, below and above it that exist. */
    method PushAdjacent(ghost start: Bin, queue0: seq<Bin>, ghost bins: seq<Bin>) returns (queue: seq<Bin>)
      requires queue0 != [] && queue0[0] !in bins && Frontier(start, queue0, Seen(bins), dimW, dimH) && InOrder(start, queue0, bins)
      requires InGrid(start, dimW, dimH) && (bins == [] ==> |queue0| == 1)
      ensures Frontier(start, queue, Seen(bins) + {queue0[0]}, dimW, dimH) && InOrder(start, queue, bins + [queue0[0]])
    {
      hide InOrder, Distance, Adjacent;
      var curr := queue0[0];
      assert curr in queue0;
      queue := PushAround(curr, queue0[1..]);
      hide Frontier;
      FrontierVisit(start, queue0, queue, Seen(bins), dimW, dimH);
      QueuedInOrder(start, queue0, queue, bins, dimW, dimH);
    }

    /** The bins around one. */
    method PushAround(curr: Bin, queue0: seq<Bin>) returns (queue: seq<Bin>)
      requires InGrid(curr, dimW, dimH)
      ensures queue0 <= queue && forall b :: b in queue[|queue0|..] ==> InGrid(b, dimW, dimH) && Adjacent(curr, b)
      ensures forall b :: InGrid(b, dimW, dimH) && Adjacent(curr, b) ==> b in queue
    {
      queue := queue0;
      if curr.i - 1 >= 0 { queue := queue + [Bin(curr.i - 1, curr.j)]; }
      if curr.i + 1 <= dimW - 1 { queue := queue + [Bin(curr.i + 1, curr.j)]; }
      if curr.j - 1 >= 0 { queue := queue + [Bin(curr.i, curr.j - 1)]; }
      if curr.j + 1 <= dimH - 1 { queue := queue + [Bin(curr.i, curr.j + 1)]; }
      forall q | InGrid(q, dimW, dimH) && Adjacent(curr, q)
        ensures q in queue
      {
        assert q == Bin(curr.i - 1, curr.j) || q == Bin(curr.i + 1, curr.j)
            || q == Bin(curr.i, curr.j - 1) || q == Bin(curr.i, curr.j + 1);
      }
    }
  }
}

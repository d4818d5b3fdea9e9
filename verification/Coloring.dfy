/** Greedy graph colouring (color.h). */
module Coloring {
  import opened Permutations

  /** Adjacency lists over vertices 0..|adj|-1 are symmetric and in range. */
  ghost predicate Symmetric(adj: seq<seq<nat>>) {
    forall u: nat, v: nat {:trigger v in adj[u]} :: u < |adj| && v in adj[u] ==> v < |adj| && u in adj[v]
  }

  ghost predicate Increasing(s: seq<nat>) {
    forall i, j :: 0 <= i < j < |s| ==> s[i] < s[j]
  }

  ghost predicate NoLoops(adj: seq<seq<nat>>) {
    forall u :: 0 <= u < |adj| ==> u !in adj[u]
  }

  /** Adjacent vertices below `n` have different colours. */
  ghost predicate ProperBelow(adj: seq<seq<nat>>, color: seq<int>, n: nat)
    requires n <= |adj| == |color|
  {
    forall u, v :: 0 <= u < n && v in adj[u] && v < n ==> color[u] != color[v]
  }

  ghost predicate Proper(adj: seq<seq<nat>>, color: seq<int>)
    requires |adj| == |color|
  {
    ProperBelow(adj, color, |adj|)
  }

  /** The first n vertices have the smallest colours they can have after the vertices before them. */
  ghost predicate FirstFit(adj: seq<seq<nat>>, color: seq<int>, n: nat)
    requires n <= |adj| == |color|
  {
    forall v: nat, c {:trigger EarlierHas(adj, color, v, c)} :: v < n && 0 <= c < color[v] ==> EarlierHas(adj, color, v, c)
  }

  /** A neighbour before v has the colour. */
  ghost predicate EarlierHas(adj: seq<seq<nat>>, color: seq<int>, v: nat, c: int)
    requires v < |adj| == |color|
  {
    exists u :: u in adj[v] && u < v && color[u] == c
  }

  ghost function Neighbours(adj: seq<seq<nat>>, v: nat): set<nat>
    requires v < |adj|
  {
    Members(adj[v])
  }

  /** The naturals below `n`. */
  ghost function UpTo(n: nat): (r: set<int>)
    ensures |r| == n && forall i :: i in r <==> 0 <= i < n
  {
    if n == 0 then {} else UpTo(n - 1) + {n - 1}
  }

  /** The colours of the coloured vertices among `us`. */
  ghost function Taken(color: seq<int>, us: set<nat>): set<int>
    requires forall u :: u in us ==> u < |color|
  {
    set u | u in us && color[u] != -1 :: color[u]
  }

  /** The colours met are no more than the vertices. */
  lemma {:induction false} TakenSize(color: seq<int>, us: set<nat>)
    requires forall u :: u in us ==> u < |color|
    ensures |Taken(color, us)| <= |us|
  {
    if us != {} {
      var u :| u in us;
      TakenSize(color, us - {u});
      var more := Taken(color, us - {u}) + {color[u]};
      assert Taken(color, us) <= more;
      SubsetSize(Taken(color, us), more);
    }
  }

  lemma {:induction false} InsertMembers(r: seq<nat>, p: nat, x: nat)
    requires p <= |r|
    ensures forall b: nat :: b in r[..p] + [x] + r[p..] <==> b == x || b in r
  {
    assert r == r[..p] + r[p..];
  }

  ghost function Members(r: seq<nat>): set<nat> {
    set b | b in r
  }

  /** A strictly increasing list has as many members as entries. */
  lemma {:induction false} DistinctSize(r: seq<nat>)
    requires forall i, j :: 0 <= i < j < |r| ==> r[i] < r[j]
    ensures |r| == |Members(r)|
  {
    if r != [] {
      var n := |r| - 1;
      DistinctSize(r[..n]);
      MembersSnoc(r[..n], r[n]);
      assert r == r[..n] + [r[n]];
      assert r[n] !in r[..n];
    }
  }

  lemma {:induction false} MembersSnoc(r: seq<nat>, x: nat)
    ensures Members(r + [x]) == Members(r) + {x}
  {
  }

  class Graph {
    var adj: seq<seq<nat>>
    var color: seq<int>
    var ncolors: int

    ghost predicate Valid()
      reads this
    {
      |color| == |adj| && Symmetric(adj)
    }

    constructor (v: nat)
      ensures Valid() && |adj| == v && (forall u :: 0 <= u < v ==> adj[u] == [])
    {
      adj := seq(v, _ => []);
      color := seq(v, _ => -1);
      ncolors := 0;
    }

    method AddEdge(u: nat, v: nat)
      requires Valid() && u < |adj| && v < |adj|
      modifies this`adj
      ensures Valid() && |adj| == |old(adj)|
      ensures forall a: nat, b: nat :: a < |adj| ==>
        (b in adj[a] <==> b in old(adj)[a] || (a == u && b == v) || (a == v && b == u))
    {
      ghost var was := adj;
      adj := adj[u := adj[u] + [v]];
      adj := adj[v := adj[v] + [u]];
      forall a: nat, b: nat | a < |adj|
        ensures b in adj[a] <==> b in was[a] || (a == u && b == v) || (a == v && b == u)
      {
      }
    }

    /** Sorts every list and drops repeats: the same neighbours, each listed once. */
    method RemoveDuplicates()
      requires Valid()
      modifies this`adj
      ensures Valid() && |adj| == |old(adj)|
      ensures forall a: nat, b: nat :: a < |adj| ==> (b in adj[a] <==> b in old(adj)[a])
      ensures forall a: nat :: a < |adj| ==> |adj[a]| == |Neighbours(adj, a)|
      ensures forall a: nat :: a < |adj| ==> Increasing(adj[a])
    {
      for i := 0 to |adj|
        invariant |adj| == |old(adj)|
        invariant forall a: nat, b: nat :: a < |adj| ==> (b in adj[a] <==> b in old(adj)[a])
        invariant forall a: nat :: a < i ==> |adj[a]| == |Neighbours(adj, a)| && Increasing(adj[a])
      {
        var sorted := SortUnique(adj[i]);
        adj := adj[i := sorted];
        assert Neighbours(adj, i) == Members(sorted);
      }
    }

    static method SortUnique(s: seq<nat>) returns (r: seq<nat>)
      ensures forall b: nat :: b in r <==> b in s
      ensures Increasing(r) && |r| == |Members(r)|
    {
      r := [];
      for k := 0 to |s|
        invariant forall b: nat :: b in r <==> b in s[..k]
        invariant Increasing(r)
      {
        assert s[..k + 1] == s[..k] + [s[k]];
        var p := 0;
        while p < |r| && r[p] < s[k]
          invariant 0 <= p <= |r|
          invariant forall i :: 0 <= i < p ==> r[i] < s[k]
        {
          p := p + 1;
        }
        if p == |r| || r[p] != s[k] {
          InsertMembers(r, p, s[k]);
          r := r[..p] + [s[k]] + r[p..];
        }
      }
      assert s[..|s|] == s;
      DistinctSize(r);
    }

    /** Colours vertices in order, each with the smallest colour no coloured neighbour has.
        `avail[c] == v` means colour `c` is taken for `v`; marks left by earlier vertices are
        never cleared, and need not be. A free colour is always found: every colour is at most
        the vertex's number of neighbours, and colours below `ncolors` are all that is used. */
    method GreedyColoring()
      requires Valid() && NoLoops(adj) && |adj| > 0
      modifies this`color, this`ncolors
      ensures Valid() && Proper(adj, color)
      ensures forall v :: 0 <= v < |color| ==> 0 <= color[v] < ncolors
      ensures exists v :: 0 <= v < |color| && color[v] == ncolors - 1
      ensures forall v: nat :: v < |color| ==> color[v] <= |Neighbours(adj, v)|
      ensures FirstFit(adj, color, |adj|)
    {
      hide Taken, Neighbours;
      var n := |adj|;
      color := seq(n, _ => -1)[0 := 0];
      ncolors := 1;
      ghost var top: nat := 0;
      var avail := seq(n, _ => -1);
      for v := 1 to n
        invariant |color| == n == |avail|
        invariant forall w :: v <= w < n ==> color[w] == -1
        invariant forall w :: 0 <= w < v ==> 0 <= color[w] < ncolors
        invariant forall w: nat :: w < v ==> color[w] <= |Neighbours(adj, w)|
        invariant forall w :: 0 <= w < v ==> color[w] <= w
        invariant top < v && color[top] == ncolors - 1
        invariant ProperBelow(adj, color, v) && FirstFit(adj, color, v)
        invariant forall c :: 0 <= c < n ==> avail[c] < v
      {
        var cr;
        avail, cr := FreeColor(v, avail);
        NextFits(adj, color, v, cr);
        color := color[v := cr];
        ncolors := if ncolors >= cr + 1 then ncolors else cr + 1;
        top := if color[top] == ncolors - 1 then top else v;
      }
    }

    /** The smallest colour none of the vertex's neighbours has. */
    method FreeColor(v: nat, avail0: seq<int>) returns (avail: seq<int>, cr: int)
      requires Valid() && NoLoops(adj) && 0 < v < |adj| == |avail0| && |color| == |adj|
      requires (forall c :: 0 <= c < |adj| ==> avail0[c] < v) && ProperBelow(adj, color, v)
      requires forall w :: 0 <= w < |adj| ==> (if w < v then 0 <= color[w] <= w else color[w] == -1)
      ensures |avail| == |adj| && forall c :: 0 <= c < |adj| ==> avail[c] <= v
      ensures 0 <= cr <= v && cr <= |Neighbours(adj, v)|
      ensures ProperBelow(adj, color[v := cr], v + 1)
      ensures forall c :: 0 <= c < cr ==> EarlierHas(adj, color, v, c)
    {
      hide Taken, Neighbours;
      avail := MarkTaken(v, avail0);
      TakenSize(color, Neighbours(adj, v));
      TakenBelow(color, Neighbours(adj, v), v);
      cr := SmallestUnmarked(avail, v, Taken(color, Neighbours(adj, v)));
      FreshColourIsProper(adj, color, v, cr);
      TakenByNeighbour(adj, color, v, cr);
    }

    /** The smallest colour not marked with `v`; fewer than all colours are. */
    static method SmallestUnmarked(avail: seq<int>, v: int, ghost taken: set<int>) returns (cr: int)
      requires forall c :: 0 <= c < |avail| ==> (avail[c] == v <==> c in taken)
      requires |taken| < |avail|
      ensures 0 <= cr <= |taken| && cr !in taken && UpTo(cr) <= taken
    {
      cr := 0;
      while avail[cr] == v
        invariant 0 <= cr <= |taken| && UpTo(cr) <= taken
        decreases |avail| - cr
      {
        assert UpTo(cr + 1) == UpTo(cr) + {cr};
        SubsetSize(UpTo(cr + 1), taken);
        cr := cr + 1;
      }
    }

    /** Marks with `v` every colour a neighbour of `v` already has. */
    method MarkTaken(v: nat, avail0: seq<int>) returns (avail: seq<int>)
      requires Valid() && v < |adj| == |avail0|
      requires forall c :: 0 <= c < |avail0| ==> avail0[c] < v
      requires forall w :: 0 <= w < |color| ==> -1 <= color[w] < |adj|
      ensures |avail| == |avail0| && forall c :: 0 <= c < |avail| ==> avail[c] <= v
      ensures forall u :: u in Neighbours(adj, v) ==> u < |color|
      ensures forall c :: 0 <= c < |avail| ==> (avail[c] == v <==> c in Taken(color, Neighbours(adj, v)))
    {
      avail := avail0;
      assert forall u :: u in adj[v] ==> u < |color|;
      for i := 0 to |adj[v]|
        invariant |avail| == |avail0|
        invariant forall c :: 0 <= c < |avail| ==> avail[c] <= v
        invariant forall u :: u in ListedIn(adj[v], i) ==> u < |color|
        invariant forall c :: 0 <= c < |avail| ==> (avail[c] == v <==> c in Taken(color, ListedIn(adj[v], i)))
      {
        var u := adj[v][i];
        assert u in adj[v];
        assert ListedIn(adj[v], i + 1) == ListedIn(adj[v], i) + {u};
        if color[u] != -1 {
          avail := avail[color[u] := v];
        }
      }
      assert ListedIn(adj[v], |adj[v]|) == Neighbours(adj, v);
    }
  }

  lemma TakenByNeighbour(adj: seq<seq<nat>>, color: seq<int>, v: nat, cr: nat)
    requires |color| == |adj| && v < |adj| && forall u :: u in Neighbours(adj, v) ==> u < |color|
    requires UpTo(cr) <= Taken(color, Neighbours(adj, v)) && forall w :: v <= w < |color| ==> color[w] == -1
    ensures forall c :: 0 <= c < cr ==> EarlierHas(adj, color, v, c)
  {
    forall c | 0 <= c < cr
      ensures EarlierHas(adj, color, v, c)
    {
      assert c in UpTo(cr);
    }
  }

  lemma NextFits(adj: seq<seq<nat>>, color: seq<int>, v: nat, cr: int)
    requires v < |adj| == |color| && FirstFit(adj, color, v) && forall c :: 0 <= c < cr ==> EarlierHas(adj, color, v, c)
    ensures FirstFit(adj, color[v := cr], v + 1)
  {
    var next := color[v := cr];
    forall w: nat, c | w < v + 1 && 0 <= c < next[w]
      ensures EarlierHas(adj, next, w, c)
    {
      assert EarlierHas(adj, color, w, c);
      var u :| u in adj[w] && u < w && color[u] == c;
      assert next[u] == c;
    }
  }

  ghost function ListedIn(s: seq<nat>, i: nat): set<nat>
    requires i <= |s|
  {
    set k | 0 <= k < i :: s[k]
  }

  /** While only vertices below `v` are coloured, at most `v` colours are taken. */
  lemma {:induction false} TakenBelow(color: seq<int>, us: set<nat>, v: nat)
    requires forall u :: u in us ==> u < |color|
    requires forall w :: v <= w < |color| ==> color[w] == -1
    requires forall w :: 0 <= w < v && w < |color| ==> 0 <= color[w] <= w
    ensures |Taken(color, us)| <= v
  {
    SubsetSize(Taken(color, us), UpTo(v));
  }

  lemma {:induction false} FreshColourIsProper(adj: seq<seq<nat>>, color: seq<int>, v: nat, c: int)
    requires |color| == |adj| && v < |adj| && Symmetric(adj) && NoLoops(adj)
    requires ProperBelow(adj, color, v)
    requires forall w :: 0 <= w < v ==> color[w] != -1
    requires c !in Taken(color, Neighbours(adj, v))
    ensures ProperBelow(adj, color[v := c], v + 1)
  {
    forall u: nat, w | u < v + 1 && w in adj[u] && w < v + 1
      ensures color[v := c][u] != color[v := c][w]
    {
      assert u in adj[w];
      if u == v {
        assert w in Neighbours(adj, v);
      } else if w == v {
        assert u in Neighbours(adj, v);
      }
    }
  }
}

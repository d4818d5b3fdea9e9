/** Setting up a window of a row (detailed_interleaving.cxx, build): which nets it touches, how much
    room it has, how wide each cell may be bloated, and the clamped terminals. */
module InterleaveBuild {
  import opened RealMath
  import opened Intervals
  import opened Netlist
  import opened InterleaveSpec
  import opened InterleaveClamp

  /** The listed cells stand left to right without overlap between `lo` and `hi`, each taking
      `size` of its width, half on either side of its centre. */
  ghost predicate Spread(pos: Placement, list: seq<nat>, size: seq<real>, lo: real, hi: real) {
    && (forall k :: 0 <= k < |list| ==> list[k] < |pos| && list[k] < |size|)
    && (list != [] ==> lo <= LeftEnd(pos, size, list[0]) && RightEnd(pos, size, list[|list| - 1]) <= hi)
    && (forall k :: 0 < k < |list| ==> RightEnd(pos, size, list[k - 1]) <= LeftEnd(pos, size, list[k]))
  }

  function LeftEnd(pos: Placement, size: seq<real>, n: nat): real
    requires n < |pos| && n < |size|
  {
    pos[n].x - 0.5 * size[n]
  }

  function RightEnd(pos: Placement, size: seq<real>, n: nat): real
    requires n < |pos| && n < |size|
  {
    pos[n].x + 0.5 * size[n]
  }

  ghost function Sizes(size: seq<real>, list: seq<nat>): (s: seq<real>)
    requires forall k :: 0 <= k < |list| ==> list[k] < |size|
    ensures |s| == |list|
  {
    seq(|list|, k requires 0 <= k < |list| => size[list[k]])
  }

  /** Cells that stand without overlap are together no wider than the stretch they stand on. */
  lemma {:induction false} SpreadFits(pos: Placement, list: seq<nat>, size: seq<real>, lo: real, hi: real)
    requires Spread(pos, list, size, lo, hi) && list != []
    ensures Sum(Sizes(size, list)) <= RightEnd(pos, size, list[|list| - 1]) - LeftEnd(pos, size, list[0])
  {
    var n := |list| - 1;
    assert Sizes(size, list)[..n] == Sizes(size, list[..n]);
    if n == 0 {
      assert Sizes(size, list[..n]) == [];
    } else {
      SpreadFits(pos, list[..n], size, lo, RightEnd(pos, size, list[n - 1]));
    }
  }

  /** Every cell of a spread list lies between its first cell's left and its last cell's right end. */
  lemma {:induction false} SpreadWithin(pos: Placement, list: seq<nat>, size: seq<real>, lo: real, hi: real, k: nat)
    requires Spread(pos, list, size, lo, hi) && k < |list|
    requires forall n :: 0 <= n < |size| ==> size[n] >= 0.0
    ensures LeftEnd(pos, size, list[0]) <= LeftEnd(pos, size, list[k])
    ensures RightEnd(pos, size, list[k]) <= RightEnd(pos, size, list[|list| - 1])
    decreases |list|
  {
    var n := |list| - 1;
    if k < n {
      SpreadWithin(pos, list[..n], size, lo, RightEnd(pos, size, list[n - 1]), k);
    } else if n > 0 {
      SpreadWithin(pos, list[..n], size, lo, RightEnd(pos, size, list[n - 1]), n - 1);
    }
  }

  // ----- room

  /** Where growing the window site by site ends: when `need` fits or neither end can move. */
  ghost function Enlarged(left: real, right: real, leftLimit: real, rightLimit: real, siteWidth: real, need: real): (r: (real, real))
    requires siteWidth > 0.0 && leftLimit <= left && right <= rightLimit
    decreases SitesIn(rightLimit - right, siteWidth) + SitesIn(left - leftLimit, siteWidth)
  {
    var canRight, canLeft := right + siteWidth <= rightLimit, left - siteWidth >= leftLimit;
    if right - left >= need - 0.001 || (!canRight && !canLeft) then (left, right)
    else
      OneSite(rightLimit - right, siteWidth);
      OneSite(left - leftLimit, siteWidth);
      Enlarged(if canLeft then left - siteWidth else left, if canRight then right + siteWidth else right,
               leftLimit, rightLimit, siteWidth, need)
  }

  lemma {:induction false} EnlargedRoom(left0: real, right0: real, leftLimit: real, rightLimit: real, siteWidth: real, need: real)
    requires siteWidth > 0.0 && leftLimit <= left0 && right0 <= rightLimit
    ensures var (left, right) := Enlarged(left0, right0, leftLimit, rightLimit, siteWidth, need);
      && leftLimit <= left <= left0 && right0 <= right <= rightLimit
      && (right - left >= need - 0.001 || (right + siteWidth > rightLimit && left - siteWidth < leftLimit))
    decreases SitesIn(rightLimit - right0, siteWidth) + SitesIn(left0 - leftLimit, siteWidth)
  {
    hide SitesIn;
    var canRight, canLeft := right0 + siteWidth <= rightLimit, left0 - siteWidth >= leftLimit;
    if right0 - left0 < need - 0.001 && (canRight || canLeft) {
      OneSite(rightLimit - right0, siteWidth);
      OneSite(left0 - leftLimit, siteWidth);
      EnlargedRoom(if canLeft then left0 - siteWidth else left0, if canRight then right0 + siteWidth else right0,
                   leftLimit, rightLimit, siteWidth, need);
    }
  }

  /** Grows the window site by site, right end first, until `need` fits or neither end can move. */
  method Enlarge(left0: real, right0: real, leftLimit: real, rightLimit: real, siteWidth: real, need: real)
      returns (left: real, right: real)
    requires siteWidth > 0.0 && leftLimit <= left0 && right0 <= rightLimit
    ensures (left, right) == Enlarged(left0, right0, leftLimit, rightLimit, siteWidth, need)
    ensures leftLimit <= left <= left0 && right0 <= right <= rightLimit
    ensures right - left >= need - 0.001 || (right + siteWidth > rightLimit && left - siteWidth < leftLimit)
  {
    hide SitesIn;
    left, right := left0, right0;
    var changed := true;
    while changed && right - left < need - 0.001
      invariant leftLimit <= left <= left0 && right0 <= right <= rightLimit
      invariant changed || (right + siteWidth > rightLimit && left - siteWidth < leftLimit)
      invariant Enlarged(left, right, leftLimit, rightLimit, siteWidth, need) == Enlarged(left0, right0, leftLimit, rightLimit, siteWidth, need)
      decreases SitesIn(rightLimit - right, siteWidth) + SitesIn(left - leftLimit, siteWidth), changed
    {
      changed := false;
      if right + siteWidth <= rightLimit {
        OneSite(rightLimit - right, siteWidth);
        right := right + siteWidth;
        changed := true;
      }
      if left - siteWidth >= leftLimit {
        OneSite(left - leftLimit, siteWidth);
        left := left - siteWidth;
        changed := true;
      }
    }
  }

  ghost function SitesIn(room: real, site: real): (n: real)
    requires site > 0.0
    ensures room >= 0.0 ==> n >= 0.0
  {
    room / site
  }

  lemma {:induction false} OneSite(room: real, site: real)
    requires site > 0.0
    ensures SitesIn(room - site, site) == SitesIn(room, site) - 1.0
  {
    Quotient(room - site, site, room / site - 1.0);
  }

  lemma {:induction false} Quotient(a: real, b: real, q: real)
    requires b > 0.0 && a == q * b
    ensures a / b == q
  {
  }

  /** A cell's share of the spare room in whole sites, at least one. */
  function SitesPerCell(spare: real, cells: nat, siteWidth: real): (n: int)
    requires siteWidth > 0.0 && cells > 0
    ensures n >= 1
  {
    var sites := (spare / cells as real / siteWidth).Floor;
    if sites >= 1 then sites else 1
  }

  /** As many whole sites as all cells can have, unless that is none: then one. */
  lemma {:induction false} SharesFit(spare: real, cells: nat, siteWidth: real)
    requires siteWidth > 0.0 && cells > 0
    ensures var n := SitesPerCell(spare, cells, siteWidth);
      (n > 1 ==> ForAll(n, cells, siteWidth) <= spare) && ForAll(n + 1, cells, siteWidth) > spare
  {
    var each := spare / cells as real;
    var sites := each / siteWidth;
    assert each * cells as real == spare && sites * siteWidth == each;
    Given(sites.Floor, sites, siteWidth, cells);
    Given(sites.Floor + 1, sites, siteWidth, cells);
    Given(2, sites, siteWidth, cells);
  }

  /** What n sites for each cell take. */
  function ForAll(n: int, cells: nat, siteWidth: real): real {
    n as real * siteWidth * cells as real
  }

  lemma Given(n: int, sites: real, siteWidth: real, cells: nat)
    requires siteWidth > 0.0 && cells > 0
    ensures n as real <= sites ==> ForAll(n, cells, siteWidth) <= sites * siteWidth * cells as real
    ensures n as real > sites ==> ForAll(n, cells, siteWidth) > sites * siteWidth * cells as real
  {
    var d, c := n as real - sites, cells as real;
    assert n as real * siteWidth == sites * siteWidth + d * siteWidth;
    assert (sites * siteWidth + d * siteWidth) * c == sites * siteWidth * c + d * siteWidth * c;
    if d <= 0.0 {
      assert d * siteWidth <= 0.0;
      assert d * siteWidth * c <= 0.0;
    } else {
      assert d * siteWidth > 0.0;
      assert d * siteWidth * c > 0.0;
    }
  }

  /** What a cell is given at a time. */
  ghost function Share(reserve: seq<real>, space: real, siteWidth: real): (step: real)
    requires siteWidth > 0.0 && reserve != []
    ensures step > 0.0
  {
    var sites := SitesPerCell(space - Sum(reserve), |reserve|, siteWidth);
    MoreThanNothing(sites, siteWidth);
    sites as real * siteWidth
  }

  /** The widths after the first n cells were offered theirs: taken when some room is left then. */
  ghost function GivenOut(reserve: seq<real>, n: nat, step: real, space: real): (ws: seq<real>)
    requires n <= |reserve|
    ensures |ws| == |reserve|
  {
    if n == 0 then reserve
    else
      var before := GivenOut(reserve, n - 1, step, space);
      if Sum(before) + step < space then before[n - 1 := before[n - 1] + step] else before
  }

  method Total(s: seq<real>) returns (t: real)
    ensures t == Sum(s)
  {
    t := 0.0;
    for k := 0 to |s|
      invariant t == Sum(s[..k])
    {
      SumPrefix(s, k);
      t := t + s[k];
    }
    assert s[..|s|] == s;
  }

  ghost function Bloated(reserve: seq<real>, space: real, siteWidth: real): (ws: seq<real>)
    requires siteWidth > 0.0 && reserve != []
    ensures |ws| == |reserve|
  {
    GivenOut(reserve, |reserve|, Share(reserve, space, siteWidth), space)
  }

  /** At least what each reserves, never more in all than the space there is. */
  lemma {:induction false} GivenOutFits(reserve: seq<real>, n: nat, step: real, space: real)
    requires n <= |reserve| && step > 0.0 && Sum(reserve) <= space
    ensures var ws := GivenOut(reserve, n, step, space); Sum(ws) <= space && forall k :: 0 <= k < |ws| ==> ws[k] >= reserve[k]
  {
    hide Sum;
    if n > 0 {
      GivenOutFits(reserve, n - 1, step, space);
      var before := GivenOut(reserve, n - 1, step, space);
      SumUpdate(before, n - 1, before[n - 1] + step);
    }
  }

  lemma {:induction false} BloatedFits(reserve: seq<real>, space: real, siteWidth: real)
    requires siteWidth > 0.0 && reserve != [] && Sum(reserve) <= space
    ensures var ws := Bloated(reserve, space, siteWidth); Sum(ws) <= space && forall k :: 0 <= k < |ws| ==> ws[k] >= reserve[k]
  {
    GivenOutFits(reserve, |reserve|, Share(reserve, space, siteWidth), space);
  }

  /** Widths for the cells: what each reserves, with spare room handed out in whole sites from the left. */
  method Bloat(reserve: seq<real>, space: real, siteWidth: real) returns (ws: seq<real>)
    requires siteWidth > 0.0 && reserve != [] && Sum(reserve) <= space
    ensures ws == Bloated(reserve, space, siteWidth)
    ensures |ws| == |reserve| && Sum(ws) <= space
    ensures forall n :: 0 <= n < |ws| ==> ws[n] >= reserve[n]
  {
    var total := Total(reserve);
    assert space - total == space - Sum(reserve);
    var sitesPerCell := SitesPerCell(space - total, |reserve|, siteWidth);
    ghost var step := Share(reserve, space, siteWidth);
    assert step == sitesPerCell as real * siteWidth;
    hide SitesPerCell, Share, Sum;
    ws := GiveOut(reserve, total, sitesPerCell as real * siteWidth, space);
    GivenOutFits(reserve, |reserve|, step, space);
  }

  method GiveOut(reserve: seq<real>, total0: real, step: real, space: real) returns (ws: seq<real>)
    requires total0 == Sum(reserve)
    ensures ws == GivenOut(reserve, |reserve|, step, space)
  {
    hide Sum;
    var total := total0;
    ws := reserve;
    for n := 0 to |reserve|
      invariant ws == GivenOut(reserve, n, step, space) && total == Sum(ws)
    {
      if total + step < space {
        SumUpdate(ws, n, ws[n] + step);
        total := total - ws[n];
        ws := ws[n := ws[n] + step];
        total := total + ws[n];
      }
    }
  }

  datatype Space = NoSpace | Space(xmin: real, xmax: real, widths: seq<real>)

  /** The window grown for the padded widths, and the cells bloated from these if they fit, else from the plain. */
  ghost function SpaceFor(plain: seq<real>, padded: seq<real>, left: real, right: real, leftLimit: real, rightLimit: real, siteWidth: real): Space
    requires plain != [] && |plain| == |padded| && siteWidth > 0.0 && leftLimit <= left && right <= rightLimit
  {
    var (xmin, xmax) := Enlarged(left, right, leftLimit, rightLimit, siteWidth, Sum(padded));
    if xmax - xmin >= Sum(padded) then Space(xmin, xmax, Bloated(padded, xmax - xmin, siteWidth))
    else if xmax - xmin >= Sum(plain) then Space(xmin, xmax, Bloated(plain, xmax - xmin, siteWidth))
    else NoSpace
  }

  /** If the plain widths fit there is room, and if the padded ones fit they are kept. */
  lemma {:induction false} SpaceFits(plain: seq<real>, padded: seq<real>, left: real, right: real, leftLimit: real, rightLimit: real, siteWidth: real)
    requires plain != [] && |plain| == |padded| && siteWidth > 0.0 && leftLimit <= left && right <= rightLimit
    requires forall n :: 0 <= n < |plain| ==> plain[n] <= padded[n]
    ensures var r := SpaceFor(plain, padded, left, right, leftLimit, rightLimit, siteWidth);
      && (r.Space? ==> leftLimit <= r.xmin <= left && right <= r.xmax <= rightLimit && |r.widths| == |plain| && Sum(r.widths) <= r.xmax - r.xmin)
      && (r.Space? ==> forall n :: 0 <= n < |plain| ==> r.widths[n] >= plain[n])
      && (Sum(plain) <= right - left ==> r.Space?)
      && (Sum(padded) <= right - left ==> r.Space? && forall n :: 0 <= n < |plain| ==> r.widths[n] >= padded[n])
  {
    hide Sum, Enlarged, Bloated;
    EnlargedRoom(left, right, leftLimit, rightLimit, siteWidth, Sum(padded));
    var (xmin, xmax) := Enlarged(left, right, leftLimit, rightLimit, siteWidth, Sum(padded));
    if xmax - xmin >= Sum(padded) {
      BloatedFits(padded, xmax - xmin, siteWidth);
    } else if xmax - xmin >= Sum(plain) {
      BloatedFits(plain, xmax - xmin, siteWidth);
    }
  }

  method FindSpace(plain: seq<real>, padded: seq<real>, left: real, right: real, leftLimit: real, rightLimit: real, siteWidth: real)
      returns (ok: bool, xmin: real, xmax: real, ws: seq<real>)
    requires plain != [] && |plain| == |padded| && siteWidth > 0.0 && leftLimit <= left && right <= rightLimit
    ensures SpaceFor(plain, padded, left, right, leftLimit, rightLimit, siteWidth) == if ok then Space(xmin, xmax, ws) else NoSpace
    ensures leftLimit <= xmin && xmax <= rightLimit
  {
    hide Sum, Enlarged, Bloated;
    var totalWidth := Total(plain);
    var totalBoth := Total(padded);
    xmin, xmax := Enlarge(left, right, leftLimit, rightLimit, siteWidth, totalBoth);
    ok := true;
    if xmax - xmin >= totalBoth {
      ws := Bloat(padded, xmax - xmin, siteWidth);
    } else if xmax - xmin >= totalWidth {
      ws := Bloat(plain, xmax - xmin, siteWidth);
    } else {
      ok, ws := false, [];
    }
  }

  lemma {:induction false} MoreThanNothing(sites: int, siteWidth: real)
    requires sites >= 1 && siteWidth > 0.0
    ensures sites as real * siteWidth > 0.0
  {
  }

  // ----- nets

  /** The counted nets of the window, in the order they are met. */
  method CollectNets(net: Network, nodes: seq<nat>) returns (ids: seq<nat>)
    requires net.Valid() && forall n :: 0 <= n < |nodes| ==> nodes[n] < |net.nodePins|
    ensures ListsNets(net, nodes, ids)
  {
    ids := [];
    for n := 0 to |nodes|
      invariant ListsNets(net, nodes[..n], ids)
    {
      ids := AddNets(net, nodes[..n], nodes[n], ids);
      assert nodes[..n + 1] == nodes[..n] + [nodes[n]];
    }
    assert nodes[..|nodes|] == nodes;
  }

  /** The nets of one more node, as far as its first `k` pins. */
  ghost predicate ListsSome(net: Network, before: seq<nat>, node: nat, k: nat, ids: seq<nat>)
    requires net.Valid() && node < |net.nodePins| && k <= |net.nodePins[node]|
    requires forall n :: 0 <= n < |before| ==> before[n] < |net.nodePins|
  {
    && (forall k :: 0 <= k < |ids| ==> ids[k] < |net.edgePins| && net.Counted(ids[k], LIMIT))
    && (forall j, k :: 0 <= j < k < |ids| ==> ids[j] != ids[k])
    && (forall e: nat :: e < |net.edgePins| && net.Counted(e, LIMIT) ==>
          (e in ids <==> TouchedBy(net, before, e) || exists j :: 0 <= j < k && net.pins[net.nodePins[node][j]].edge == e))
  }

  method AddNets(net: Network, ghost before: seq<nat>, node: nat, ids0: seq<nat>) returns (ids: seq<nat>)
    requires net.Valid() && node < |net.nodePins| && forall n :: 0 <= n < |before| ==> before[n] < |net.nodePins|
    requires ListsNets(net, before, ids0)
    ensures ListsNets(net, before + [node], ids)
  {
    ids := ids0;
    var ps := net.nodePins[node];
    for k := 0 to |ps|
      invariant ListsSome(net, before, node, k, ids)
    {
      var e := net.pins[ps[k]].edge;
      var npins := |net.edgePins[e]|;
      if npins < 2 || npins >= 100 {
        continue;
      }
      if e !in ids {
        ids := ids + [e];
      }
    }
    forall e: nat | e < |net.edgePins| && net.Counted(e, LIMIT)
      ensures e in ids <==> TouchedBy(net, before + [node], e)
    {
      TouchedSnoc(net, before, node, e);
    }
  }

  lemma {:induction false} TouchedSnoc(net: Network, before: seq<nat>, node: nat, e: nat)
    requires net.Valid() && node < |net.nodePins| && forall n :: 0 <= n < |before| ==> before[n] < |net.nodePins|
    ensures TouchedBy(net, before + [node], e) <==> TouchedBy(net, before, e) || net.Touches(node, e)
  {
    var nodes := before + [node];
    assert nodes[|before|] == node;
    assert forall n :: 0 <= n < |before| ==> nodes[n] == before[n];
    if TouchedBy(net, before, e) {
      var n :| 0 <= n < |before| && net.Touches(before[n], e);
      assert net.Touches(nodes[n], e);
    }
    if net.Touches(node, e) {
      assert net.Touches(nodes[|before|], e);
    }
  }

  // ----- connectivity and clamped terminals

  /** The window position of a node, or -1. */
  method Lookup(nodes: seq<nat>, node: nat) returns (nid: int)
    ensures node !in nodes ==> nid == -1
    ensures node in nodes ==> 0 <= nid < |nodes| && nodes[nid] == node
  {
    nid := -1;
    for n := 0 to |nodes|
      invariant nid == -1 ==> node !in nodes[..n]
      invariant nid != -1 ==> 0 <= nid < n && nodes[nid] == node
    {
      if nodes[n] == node {
        nid := n;
      }
    }
    assert nodes[..|nodes|] == nodes;
  }

  /** Net `e` has, among its first `j` pins, one of node `n` at offset `off`. */
  ghost predicate HasPinBefore(net: Network, e: nat, j: nat, n: nat, off: real)
    requires e < |net.edgePins| && j <= |net.edgePins[e]|
  {
    exists i :: 0 <= i < j && net.edgePins[e][i] < |net.pins|
      && net.pins[net.edgePins[e][i]].node == n && net.pins[net.edgePins[e][i]].dx == off
  }

  /** `adj` is `adj0` with net `k` standing for the first `j` pins of net `e`. */
  ghost predicate Attached(net: Network, nodes: seq<nat>, e: nat, j: nat, k: nat, adj0: seq<seq<PinOn>>, adj: seq<seq<PinOn>>)
    requires e < |net.edgePins| && j <= |net.edgePins[e]|
  {
    && |adj| == |adj0| == |nodes|
    && forall n, pin {:trigger pin in adj[n]} :: 0 <= n < |nodes| ==>
         (pin in adj[n] <==> pin in adj0[n] || (pin.edge == k && HasPinBefore(net, e, j, nodes[n], pin.offset)))
  }

  lemma {:induction false} AttachOne(net: Network, nodes: seq<nat>, e: nat, j: nat, k: nat, adj0: seq<seq<PinOn>>, adj: seq<seq<PinOn>>, nid: int)
    requires net.Valid() && e < |net.edgePins| && j < |net.edgePins[e]|
    requires forall m, n :: 0 <= m < n < |nodes| ==> nodes[m] != nodes[n]
    requires Attached(net, nodes, e, j, k, adj0, adj)
    requires var node := net.pins[net.edgePins[e][j]].node;
      if nid == -1 then node !in nodes else 0 <= nid < |nodes| && nodes[nid] == node
    ensures var next := if nid == -1 then adj
              else adj[nid := adj[nid] + [PinOn(k, net.pins[net.edgePins[e][j]].dx)]];
      Attached(net, nodes, e, j + 1, k, adj0, next)
  {
    var pin := net.pins[net.edgePins[e][j]];
    forall n, off | 0 <= n < |nodes|
      ensures HasPinBefore(net, e, j + 1, nodes[n], off) <==>
        HasPinBefore(net, e, j, nodes[n], off) || (n == nid && off == pin.dx)
    {
      if n == nid && off == pin.dx {
        assert net.pins[net.edgePins[e][j]].node == nodes[n];
      }
    }
  }

  /** Hangs the window's pins of net `e` on the cells as net `k`, and boxes the other pins, clamped. */
  method AttachNet(net: Network, pos: Placement, nodes: seq<nat>, e: nat, k: nat, adj0: seq<seq<PinOn>>, xmin: real, xmax: real)
      returns (adj: seq<seq<PinOn>>, box: Interval)
    requires Window(net, pos, nodes) && e < |net.edgePins| && |adj0| == |nodes|
    ensures Attached(net, nodes, e, |net.edgePins[e]|, k, adj0, adj)
    ensures box == Hull(ClampAll(Outside(net, pos, nodes, net.edgePins[e]), xmin, xmax))
  {
    adj, box := adj0, Empty;
    var ps := net.edgePins[e];
    for j := 0 to |ps|
      invariant Attached(net, nodes, e, j, k, adj0, adj)
      invariant box == Hull(ClampAll(Outside(net, pos, nodes, ps[..j]), xmin, xmax))
    {
      OutsideSnoc(net, pos, nodes, ps, j);
      var pin := net.pins[ps[j]];
      var nid := Lookup(nodes, pin.node);
      AttachOne(net, nodes, e, j, k, adj0, adj, nid);
      if nid != -1 {
        adj := adj[nid := adj[nid] + [PinOn(k, pin.dx)]];
      } else {
        var x := net.XOf(pos, ps[j]);
        ClampSnoc(Outside(net, pos, nodes, ps[..j]), x, xmin, xmax);
        box := box.Add(Clamp(x, xmin, xmax));
      }
    }
    assert ps[..|ps|] == ps;
  }

  lemma {:induction false} OutsideSnoc(net: Network, pos: Placement, nodes: seq<nat>, ps: seq<nat>, j: nat)
    requires net.Fits(pos) && (forall k :: 0 <= k < |ps| ==> ps[k] < |net.pins|) && j < |ps|
    ensures net.pins[ps[j]].node in nodes ==> Outside(net, pos, nodes, ps[..j + 1]) == Outside(net, pos, nodes, ps[..j])
    ensures net.pins[ps[j]].node !in nodes ==>
      Outside(net, pos, nodes, ps[..j + 1]) == Outside(net, pos, nodes, ps[..j]) + [net.XOf(pos, ps[j])]
  {
    assert ps[..j + 1][..j] == ps[..j];
  }

  lemma {:induction false} ClampSnoc(xs: seq<real>, x: real, lo: real, hi: real)
    ensures Hull(ClampAll(xs + [x], lo, hi)) == Hull(ClampAll(xs, lo, hi)).Add(Clamp(x, lo, hi))
  {
    assert ClampAll(xs + [x], lo, hi) == ClampAll(xs, lo, hi) + [Clamp(x, lo, hi)];
    ExtendSnoc(Empty, ClampAll(xs, lo, hi), Clamp(x, lo, hi));
  }

  /** What `Models` asks of the adjacency lists, for the first `k` nets. */
  ghost predicate Adjacency(net: Network, nodes: seq<nat>, ids: seq<nat>, k: nat, adj: seq<seq<PinOn>>)
    requires k <= |ids| && forall i :: 0 <= i < |ids| ==> ids[i] < |net.edgePins|
  {
    && |adj| == |nodes|
    && forall n, pin {:trigger pin in adj[n]} :: 0 <= n < |nodes| ==>
         (pin in adj[n] <==> pin.edge < k && HasPin(net, ids[pin.edge], nodes[n], pin.offset))
  }

  /** The whole connectivity of the window. */
  method AttachAll(net: Network, pos: Placement, nodes: seq<nat>, ids: seq<nat>, xmin: real, xmax: real)
      returns (adj: seq<seq<PinOn>>, boxes: seq<Interval>)
    requires Window(net, pos, nodes) && forall i :: 0 <= i < |ids| ==> ids[i] < |net.edgePins|
    ensures Adjacency(net, nodes, ids, |ids|, adj) && |boxes| == |ids|
    ensures forall k :: 0 <= k < |ids| ==>
      boxes[k] == Hull(ClampAll(Outside(net, pos, nodes, net.edgePins[ids[k]]), xmin, xmax))
  {
    adj := seq(|nodes|, _ => []);
    boxes := [];
    for k := 0 to |ids|
      invariant Adjacency(net, nodes, ids, k, adj) && |boxes| == k
      invariant forall i :: 0 <= i < k ==>
        boxes[i] == Hull(ClampAll(Outside(net, pos, nodes, net.edgePins[ids[i]]), xmin, xmax))
    {
      ghost var was := adj;
      var box;
      adj, box := AttachNet(net, pos, nodes, ids[k], k, adj, xmin, xmax);
      AdjacencyNext(net, nodes, ids, k, was, adj);
      boxes := boxes + [box];
    }
  }

  lemma {:induction false} AdjacencyNext(net: Network, nodes: seq<nat>, ids: seq<nat>, k: nat, was: seq<seq<PinOn>>, adj: seq<seq<PinOn>>)
    requires net.Valid() && k < |ids| && forall i :: 0 <= i < |ids| ==> ids[i] < |net.edgePins|
    requires Adjacency(net, nodes, ids, k, was)
    requires Attached(net, nodes, ids[k], |net.edgePins[ids[k]]|, k, was, adj)
    ensures Adjacency(net, nodes, ids, k + 1, adj)
  {
    forall n, pin | 0 <= n < |nodes|
      ensures pin in adj[n] <==> pin.edge < k + 1 && HasPin(net, ids[pin.edge], nodes[n], pin.offset)
    {
      assert pin in was[n] <==> pin.edge < k && HasPin(net, ids[pin.edge], nodes[n], pin.offset);
    }
  }
}

/** Filler cells (FillerPlacement.cpp): which masters fill a gap, and where fillers go in a row. */
module Fillers {
  import opened Options

  /** The filler masters' widths, widest first, in database units. */
  datatype Library = Library(masters: seq<int>, siteWidth: int) {
    ghost predicate Valid() {
      && siteWidth > 0 && |masters| > 0
      && (forall k :: 0 <= k < |masters| ==> masters[k] > 0 && masters[k] % siteWidth == 0)
      && (forall j, k :: 0 <= j <= k < |masters| ==> masters[j] >= masters[k])
    }

    /** Width of a master in sites. */
    function Width(k: nat): (w: int)
      requires Valid() && k < |masters|
      ensures w >= 1 && w * siteWidth == masters[k]
    {
      masters[k] / siteWidth
    }

    predicate HaveFiller1()
      requires |masters| > 0
    {
      masters[|masters| - 1] == siteWidth
    }

    /** Master k can go next: it fits, and does not leave a single site that nothing can fill. */
    predicate Goes(gap: int, width: int, k: nat)
      requires Valid() && k < |masters|
    {
      width + Width(k) <= gap && (HaveFiller1() || width + Width(k) != gap - 1)
    }

    /** The masters that complete a filling of width `width`, looking from master k on; None if it fails. */
    ghost function Greedy(gap: int, width: int, k: nat): (r: Option<seq<nat>>)
      requires Valid() && k <= |masters| && width < gap
      decreases |masters| - k, gap - width
    {
      if k == |masters| then None
      else if Goes(gap, width, k) then
        if width + Width(k) == gap then Some([k])
        else
          match Greedy(gap, width + Width(k), k)
          case None => None
          case Some(rest) => Some([k] + rest)
      else Greedy(gap, width, k + 1)
    }

    ghost function Total(fillers: seq<nat>): int
      requires Valid() && forall i :: 0 <= i < |fillers| ==> fillers[i] < |masters|
    {
      if fillers == [] then 0 else Total(fillers[..|fillers| - 1]) + Width(fillers[|fillers| - 1])
    }

    /** A filling that succeeds fills exactly. */
    lemma {:induction false} GreedyFills(gap: int, width: int, k: nat)
      requires Valid() && k <= |masters| && width < gap
      ensures var r := Greedy(gap, width, k); r.Some? ==>
        |r.value| > 0 && (forall i :: 0 <= i < |r.value| ==> r.value[i] < |masters|) && width + Total(r.value) == gap
      decreases |masters| - k, gap - width
    {
      if k < |masters| {
        if Goes(gap, width, k) {
          if width + Width(k) == gap {
            assert [k][..0] == [];
          } else {
            GreedyFills(gap, width + Width(k), k);
            var rest := Greedy(gap, width + Width(k), k);
            if rest.Some? {
              TotalCons(k, rest.value);
            }
          }
        } else {
          GreedyFills(gap, width, k + 1);
        }
      }
    }

    lemma {:induction false} TotalCons(k: nat, s: seq<nat>)
      requires Valid() && k < |masters| && forall i :: 0 <= i < |s| ==> s[i] < |masters|
      ensures Total([k] + s) == Width(k) + Total(s)
    {
      if s == [] {
        assert [k] + s == [k] && [k][..0] == [];
      } else {
        TotalCons(k, s[..|s| - 1]);
        assert ([k] + s)[..|s|] == [k] + s[..|s| - 1];
      }
    }

    /** With a one-site filler every gap can be filled. */
    lemma {:induction false} OneSiteFills(gap: int, width: int, k: nat)
      requires Valid() && k < |masters| && width < gap && HaveFiller1()
      ensures Greedy(gap, width, k).Some?
      decreases |masters| - k, gap - width
    {
      Smallest();
      if Goes(gap, width, k) {
        if width + Width(k) != gap {
          OneSiteFills(gap, width + Width(k), k);
        }
      } else {
        OneSiteFills(gap, width, k + 1);
      }
    }

    lemma Smallest()
      requires Valid()
      ensures HaveFiller1() <==> Width(|masters| - 1) == 1
    {
      assert 1 * siteWidth == siteWidth;
    }

    /** Masters of these widths, in sites, come at or after position k. */
    ghost predicate HasWidth(w: int, k: nat)
      requires Valid()
    {
      exists l :: k <= l < |masters| && Width(l) == w
    }

    lemma Descending(j: nat, k: nat)
      requires Valid() && j <= k < |masters|
      ensures Width(j) >= Width(k)
    {
    }

    lemma NoneWiderAfter(k: nat, w: int)
      requires Valid() && k < |masters| && Width(k) < w
      ensures !HasWidth(w, k)
    {
      if l: nat :| k <= l < |masters| && Width(l) == w {
        Descending(k, l);
        assert false;
      }
    }

    /** With two- and three-site fillers every gap can be filled except a single site: the look-ahead never
        leaves one behind. */
    lemma {:induction false} TwoAndThreeFill(gap: int, width: int, k: nat)
      requires Valid() && k < |masters| && width < gap && EnoughLeft(gap, width, k)
      ensures Greedy(gap, width, k).Some?
      decreases |masters| - k, gap - width
    {
      hide Width, HasWidth, EnoughLeft, Goes;
      NextStep(gap, width, k);
      if !Goes(gap, width, k) {
        TwoAndThreeFill(gap, width, k + 1);
      } else if width + Width(k) != gap {
        TwoAndThreeFill(gap, width + Width(k), k);
      }
    }

    /** Not a single site to fill, and masters of two sites to come, and either masters of three or an even gap. */
    ghost predicate EnoughLeft(gap: int, width: int, k: nat)
      requires Valid() && k < |masters|
    {
      && !HaveFiller1() && width != gap - 1 && HasWidth(2, k)
      && (HasWidth(3, k) || (Width(k) == 2 && (gap - width) % 2 == 0))
    }

    /** The choice at k leaves enough. */
    lemma NextStep(gap: int, width: int, k: nat)
      requires Valid() && k < |masters| && width < gap && EnoughLeft(gap, width, k)
      ensures if !Goes(gap, width, k) then k + 1 < |masters| && EnoughLeft(gap, width, k + 1)
        else width + Width(k) <= gap && (width + Width(k) != gap ==> EnoughLeft(gap, width + Width(k), k))
    {
      hide Width, HasWidth;
      AtLeast(2, k);
      if Width(k) == 2 {
        NoneWiderAfter(k, 3);
        assert Goes(gap, width, k);
      } else if HasWidth(3, k) && !Goes(gap, width, k) {
        NextMaster(gap, width, k);
      }
    }

    lemma AtLeast(w: int, k: nat)
      requires Valid() && k < |masters| && HasWidth(w, k)
      ensures Width(k) >= w
    {
      var l: nat :| k <= l < |masters| && Width(l) == w;
      Descending(k, l);
    }

    lemma NextMaster(gap: int, width: int, k: nat)
      requires Valid() && k < |masters| && width < gap - 1 && !HaveFiller1() && !Goes(gap, width, k) && Width(k) >= 3
      requires HasWidth(2, k) && HasWidth(3, k)
      ensures HasWidth(2, k + 1) && k + 1 < |masters|
      ensures HasWidth(3, k + 1) || (Width(k + 1) == 2 && (gap - width) % 2 == 0)
    {
      hide Width;
      var two: nat :| k <= two < |masters| && Width(two) == 2;
      var three: nat :| k <= three < |masters| && Width(three) == 3;
      Descending(k + 1, two);
      if three == k {
        Descending(k, k + 1);
        assert gap - width == 2 || gap - width == 4;
      }
    }

    /** Gaps that are always filled: all of them with a one-site filler, and otherwise, with two- and
        three-site fillers, all but single sites. */
    ghost predicate SureToFill(gap: nat)
      requires Valid()
    {
      (gap >= 1 && HaveFiller1()) || (gap >= 2 && HasWidth(2, 0) && HasWidth(3, 0))
    }

    lemma {:induction false} SureFills(gap: nat)
      requires Valid() && SureToFill(gap)
      ensures Greedy(gap, 0, 0).Some?
    {
      if HaveFiller1() {
        OneSiteFills(gap, 0, 0);
      } else {
        TwoAndThreeFill(gap, 0, 0);
      }
    }

    /** Every gap fills exactly when there is a one-site filler. */
    lemma {:induction false} FillsEveryGap()
      requires Valid()
      ensures (forall gap: nat :: gap >= 1 ==> Greedy(gap, 0, 0).Some?) <==> HaveFiller1()
    {
      if HaveFiller1() {
        forall gap: nat | gap >= 1
          ensures Greedy(gap, 0, 0).Some?
        {
          OneSiteFills(gap, 0, 0);
        }
      } else {
        TakesExactly(1);
        Smallest();
        NoneNarrower(1);
        var gap: nat := 1;
        assert Greedy(gap, 0, 0).None?;
      }
    }

    lemma NoneNarrower(w: int)
      requires Valid() && Width(|masters| - 1) > w
      ensures !HasWidth(w, 0)
    {
      if l: nat :| 0 <= l < |masters| && Width(l) == w {
        Descending(l, |masters| - 1);
        assert false;
      }
    }

    /** Every gap but a single site fills exactly when there is a one-site filler, or both a two- and a
        three-site filler. */
    lemma {:induction false} FillsAllButSingleSites()
      requires Valid()
      ensures (forall gap: nat :: gap >= 2 ==> Greedy(gap, 0, 0).Some?) <==> HaveFiller1() || (HasWidth(2, 0) && HasWidth(3, 0))
    {
      if HaveFiller1() || (HasWidth(2, 0) && HasWidth(3, 0)) {
        forall gap: nat | gap >= 2
          ensures Greedy(gap, 0, 0).Some?
        {
          SureFills(gap);
        }
      } else {
        TakesExactly(2);
        TakesExactly(3);
        var gap: nat := if Greedy(2, 0, 0).None? then 2 else 3;
        assert Greedy(gap, 0, 0).None?;
      }
    }

    /** Without a one-site filler a gap of at most three sites only takes a filler of its own width. */
    lemma {:induction false} TakesExactly(gap: nat)
      requires Valid() && !HaveFiller1() && 1 <= gap <= 3
      ensures Greedy(gap, 0, 0).Some? ==> HasWidth(gap, 0)
    {
      GreedyFills(gap, 0, 0);
      var r := Greedy(gap, 0, 0);
      if r.Some? {
        FirstChoice(gap, 0);
        var k := r.value[0];
        Smallest();
        Descending(k, |masters| - 1);
      }
    }

    /** The first master chosen goes, and none before it does; the rest fills what it leaves. */
    lemma {:induction false} FirstChoice(gap: nat, k: nat)
      requires Valid() && k <= |masters| && gap >= 1 && Greedy(gap, 0, k).Some?
      ensures var f := Greedy(gap, 0, k).value;
        && |f| > 0 && k <= f[0] < |masters| && Goes(gap, 0, f[0]) && forall j :: k <= j < f[0] ==> !Goes(gap, 0, j)
      decreases |masters| - k
    {
      if !Goes(gap, 0, k) {
        FirstChoice(gap, k + 1);
      }
    }

    // ----- when a gap that could be filled is filled

    /** Some masters have this total width. */
    ghost predicate Fillable(gap: int)
      requires Valid()
    {
      exists f: seq<nat> {:trigger Total(f)} :: f != [] && (forall i :: 0 <= i < |f| ==> f[i] < |masters|) && Total(f) == gap
    }

    /** Master k is the widest that goes into an empty gap. */
    predicate Widest(gap: int, k: nat)
      requires Valid() && k < |masters|
    {
      Goes(gap, 0, k) && forall j :: 0 <= j < k ==> !Goes(gap, 0, j)
    }

    /** Taking the widest master that goes never spoils a total: whatever remains is again a sum of widths. */
    ghost predicate WidestIsSafe()
      requires Valid()
    {
      forall gap: int, k: nat {:trigger Goes(gap, 0, k)} ::
        k < |masters| && Fillable(gap) && Widest(gap, k) && gap != Width(k) ==> Fillable(gap - Width(k))
    }

    /** The greedy choice fills every gap that can be filled exactly when the widest master is always safe. */
    lemma {:induction false} CompleteIffSafe()
      requires Valid()
      ensures (forall gap: nat :: gap >= 1 && Fillable(gap) ==> Greedy(gap, 0, 0).Some?) <==> WidestIsSafe()
    {
      if WidestIsSafe() {
        forall gap: nat | gap >= 1 && Fillable(gap)
          ensures Greedy(gap, 0, 0).Some?
        {
          SafeFills(gap);
        }
      }
      if forall gap: nat :: gap >= 1 && Fillable(gap) ==> Greedy(gap, 0, 0).Some? {
        forall gap: int, k: nat | k < |masters| && Fillable(gap) && Widest(gap, k) && gap != Width(k)
          ensures Fillable(gap - Width(k))
        {
          GreedyFromWidest(gap, k);
          GreedyFills(gap, Width(k), k);
          var rest := Greedy(gap, Width(k), k).value;
          assert Total(rest) == gap - Width(k);
        }
      }
    }

    /** A gap that can be filled starts with its widest master. */
    lemma {:induction false} SafeFills(gap: nat)
      requires Valid() && WidestIsSafe() && gap >= 1 && Fillable(gap)
      ensures Greedy(gap, 0, 0).Some?
      decreases gap
    {
      hide Width, Total;
      var k := HasWidest(gap);
      GreedyFromWidest(gap, k);
      if gap != Width(k) {
        assert Goes(gap, 0, k);
        SafeFills(gap - Width(k));
        Shift(gap, Width(k), k);
        Passed(gap, k, gap - Width(k));
        GreedySkips(gap - Width(k), 0, k);
      }
    }

    /** In a gap that can be filled some master goes, so one is the widest that does. */
    lemma {:induction false} HasWidest(gap: nat) returns (k: nat)
      requires Valid() && Fillable(gap)
      ensures k < |masters| && Widest(gap, k)
    {
      var f :| f != [] && (forall i :: 0 <= i < |f| ==> f[i] < |masters|) && Total(f) == gap;
      var n := |f| - 1;
      TotalAtLeast(f[..n]);
      assert Goes(gap, 0, f[n]);
      k := 0;
      while !Goes(gap, 0, k)
        invariant k <= f[n] && forall j :: 0 <= j < k ==> !Goes(gap, 0, j)
        decreases f[n] - k
      {
        k := k + 1;
      }
    }

    /** A total is nothing, or at least one site; it is one site only with a one-site filler. */
    lemma {:induction false} TotalAtLeast(f: seq<nat>)
      requires Valid() && forall i :: 0 <= i < |f| ==> f[i] < |masters|
      ensures if f == [] then Total(f) == 0 else Total(f) >= 1 && (Total(f) == 1 ==> HaveFiller1())
    {
      if f != [] {
        TotalAtLeast(f[..|f| - 1]);
        Smallest();
        Descending(f[|f| - 1], |masters| - 1);
      }
    }

    lemma {:induction false} GreedyFromWidest(gap: int, k: nat)
      requires Valid() && k < |masters| && Widest(gap, k)
      ensures Greedy(gap, 0, 0) == if gap == Width(k) then Some([k])
                                   else match Greedy(gap, Width(k), k) case None => None case Some(rest) => Some([k] + rest)
    {
      GreedySkips(gap, 0, k);
    }

    /** Masters that do not go are passed over. */
    lemma {:induction false} GreedySkips(gap: int, j: nat, k: nat)
      requires Valid() && j <= k < |masters| && gap >= 1 && forall i :: j <= i < k ==> !Goes(gap, 0, i)
      ensures Greedy(gap, 0, j) == Greedy(gap, 0, k)
      decreases k - j
    {
      if j < k {
        GreedySkips(gap, j + 1, k);
      }
    }

    /** Only the width still to fill matters. */
    lemma {:induction false} Shift(gap: int, width: int, k: nat)
      requires Valid() && k <= |masters| && width < gap
      ensures Greedy(gap, width, k) == Greedy(gap - width, 0, k)
      decreases |masters| - k, gap - width
    {
      if k < |masters| {
        if Goes(gap, width, k) {
          if width + Width(k) != gap {
            Shift(gap, width + Width(k), k);
            Shift(gap - width, Width(k), k);
          }
        } else {
          Shift(gap, width, k + 1);
        }
      }
    }

    /** A master passed over once does not go later either. */
    lemma Passed(gap: int, k: nat, rest: int)
      requires Valid() && k < |masters| && Widest(gap, k) && rest == gap - Width(k) > 0
      ensures forall j :: 0 <= j < k ==> !Goes(rest, 0, j)
    {
      Smallest();
      forall j | 0 <= j < k
        ensures !Goes(rest, 0, j)
      {
        Descending(k, |masters| - 1);
        assert !Goes(gap, 0, j) && Goes(gap, 0, k);
        if !HaveFiller1() {
          assert Width(k) >= 2;
        } else {
          assert Width(j) > gap;
        }
      }
    }
  }

  class FillerPlacer {
    const library: Library
    var memo: seq<seq<nat>>

    constructor (library: Library)
      requires library.Valid()
      ensures Valid() && this.library == library && memo == []
    {
      this.library, memo := library, [];
    }

    /** An entry of the memo that is not empty is the greedy filling of its gap. */
    ghost predicate Valid()
      reads this
    {
      library.Valid() && forall gap: nat :: 0 < gap < |memo| && memo[gap] != [] ==> library.Greedy(gap, 0, 0) == Some(memo[gap])
    }

    /** The masters for a gap; none when the greedy choice does not come out even. The answer does not
        depend on what was asked before. */
    method GapFillers(gap: nat) returns (fillers: seq<nat>)
      requires Valid() && gap >= 1
      modifies this`memo
      ensures Valid()
      ensures |memo| == if old(|memo|) > gap then old(|memo|) else gap + 1
      ensures forall g: nat :: g < |memo| ==> memo[g] == if g == gap then fillers else if g < old(|memo|) then old(memo)[g] else []
      ensures fillers == match library.Greedy(gap, 0, 0) case None => [] case Some(f) => f
      ensures forall i :: 0 <= i < |fillers| ==> fillers[i] < |library.masters|
      ensures fillers != [] ==> library.Total(fillers) == gap
      ensures library.SureToFill(gap) ==> fillers != []
    {
      library.GreedyFills(gap, 0, 0);
      if library.SureToFill(gap) {
        library.SureFills(gap);
      }
      if |memo| < gap + 1 {
        memo := memo + seq(gap + 1 - |memo|, _ => []);
      }
      fillers := memo[gap];
      if fillers != [] {
        return;
      }
      fillers := Choose(gap);
      memo := memo[gap := fillers];
    }

    method Choose(gap: nat) returns (fillers: seq<nat>)
      requires library.Valid() && gap >= 1
      ensures fillers == match library.Greedy(gap, 0, 0) case None => [] case Some(f) => f
    {
      fillers := [];
      var width := 0;
      var haveFiller1 := library.masters[|library.masters| - 1] == library.siteWidth;
      CompletesStart(gap);
      for k := 0 to |library.masters|
        invariant width < gap && Completes(gap, fillers, width, k)
      {
        var fillerWidth := library.Width(k);
        while width + fillerWidth <= gap && (haveFiller1 || width + fillerWidth != gap - 1)
          invariant width < gap && Completes(gap, fillers, width, k)
          decreases gap - width
        {
          CompletesNext(gap, fillers, width, k);
          fillers := fillers + [k];
          width := width + fillerWidth;
          if width == gap {
            return;
          }
        }
      }
      fillers := [];
    }

    /** The fillers so far, completed greedily, are the greedy filling. */
    ghost predicate Completes(gap: nat, fillers: seq<nat>, width: int, k: nat)
      requires library.Valid() && gap >= 1 && k <= |library.masters| && width < gap
    {
      library.Greedy(gap, 0, 0) == match library.Greedy(gap, width, k) case None => None case Some(rest) => Some(fillers + rest)
    }

    lemma CompletesStart(gap: nat)
      requires library.Valid() && gap >= 1
      ensures Completes(gap, [], 0, 0)
    {
      var r := library.Greedy(gap, 0, 0);
      assert r.Some? ==> [] + r.value == r.value;
    }

    lemma CompletesNext(gap: nat, fillers: seq<nat>, width: int, k: nat)
      requires library.Valid() && gap >= 1 && k < |library.masters| && width < gap
      requires Completes(gap, fillers, width, k) && library.Goes(gap, width, k)
      ensures width + library.Width(k) == gap ==> library.Greedy(gap, 0, 0) == Some(fillers + [k])
      ensures width + library.Width(k) < gap ==> Completes(gap, fillers + [k], width + library.Width(k), k)
    {
      if width + library.Width(k) < gap {
        var r := library.Greedy(gap, width + library.Width(k), k);
        assert r.Some? ==> fillers + ([k] + r.value) == fillers + [k] + r.value;
      }
    }

    // ----- a row

    /** Filler placed at a site: its first site and its master. */
    ghost predicate CoversSite(placed: seq<(nat, nat)>, l: nat, site: int)
      requires library.Valid() && l < |placed| && placed[l].1 < |library.masters|
    {
      placed[l].0 <= site < placed[l].0 + library.Width(placed[l].1)
    }

    /** The fillers come one after the other from left to right, and below site j cover exactly the free sites. */
    ghost predicate Filled(free: seq<bool>, placed: seq<(nat, nat)>, j: nat)
      requires library.Valid()
    {
      && (forall l :: 0 <= l < |placed| ==> placed[l].1 < |library.masters| && placed[l].0 + library.Width(placed[l].1) <= j)
      && (forall l, m {:trigger placed[l], placed[m]} :: 0 <= l < m < |placed| ==> placed[l].0 + library.Width(placed[l].1) <= placed[m].0)
      && (forall site {:trigger free[site]} :: 0 <= site < j && site < |free| ==>
            (free[site] <==> exists l :: 0 <= l < |placed| && CoversSite(placed, l, site)))
    }

    /** Sites j..k-1 are free and nothing next to them is. */
    ghost predicate Run(free: seq<bool>, j: nat, k: nat) {
      && j < k <= |free| && (forall s :: j <= s < k ==> free[s])
      && (j > 0 ==> !free[j - 1]) && (k < |free| ==> !free[k])
    }

    /** Every run that begins before site j can be filled. */
    ghost predicate RunsFill(free: seq<bool>, j: nat)
      requires library.Valid()
    {
      forall a: nat, b: nat :: Run(free, a, b) && a < j ==> library.Greedy(b - a, 0, 0).Some?
    }

    /** From the l-th on, the placed fillers are these, one against the other from site a on. */
    ghost predicate LaidAt(placed: seq<(nat, nat)>, l: nat, fillers: seq<nat>, a: nat)
      requires library.Valid() && forall i :: 0 <= i < |fillers| ==> fillers[i] < |library.masters|
    {
      && l + |fillers| <= |placed|
      && forall i :: 0 <= i < |fillers| ==> placed[l + i] == (a + library.Total(fillers[..i]), fillers[i])
    }

    /** The fillers of a run are the greedy choice for it, in the order of the choice. */
    ghost predicate RunLaid(placed: seq<(nat, nat)>, a: nat, b: nat)
      requires library.Valid() && a < b
    {
      var f := library.Greedy(b - a, 0, 0);
      f.Some? && (forall i :: 0 <= i < |f.value| ==> f.value[i] < |library.masters|) && exists l :: LaidAt(placed, l, f.value, a)
    }

    /** So it is for every run that begins before site j. */
    ghost predicate RunsLaid(free: seq<bool>, placed: seq<(nat, nat)>, j: nat)
      requires library.Valid()
    {
      forall a: nat, b: nat :: Run(free, a, b) && a < j ==> RunLaid(placed, a, b)
    }

    /** No free site stands alone. */
    ghost predicate NoSingleSites(free: seq<bool>) {
      forall a: nat, b: nat :: Run(free, a, b) ==> b - a >= 2
    }

    /** Fills every run of free sites. It succeeds exactly when the greedy choice fills every run; then each run has
        the fillers of its greedy choice in their order, each free site is under exactly one filler, and no other site
        is under any. Failure is the tool's error. It is sure to succeed with a one-site filler, and with two- and three-site fillers
        when no free site stands alone. */
    method PlaceRowFillers(free: seq<bool>) returns (ok: bool, placed: seq<(nat, nat)>)
      requires Valid()
      modifies this`memo
      ensures Valid() && (ok <==> RunsFill(free, |free|)) && (ok ==> Filled(free, placed, |free|) && RunsLaid(free, placed, |free|))
      ensures library.HaveFiller1() ==> ok
      ensures library.HasWidth(2, 0) && library.HasWidth(3, 0) && NoSingleSites(free) ==> ok
    {
      hide Filled, RunsFill, RunsLaid;
      if library.HaveFiller1() || (library.HasWidth(2, 0) && library.HasWidth(3, 0) && NoSingleSites(free)) {
        SureRow(free);
      }
      NothingYet(free);
      placed := [];
      var j := 0;
      while j < |free|
        invariant Valid() && j <= |free| && Filled(free, placed, j) && RunsFill(free, j) && RunsLaid(free, placed, j)
        invariant 0 < j < |free| && free[j] ==> !free[j - 1]
      {
        if free[j] {
          var k := EndOfRun(free, j);
          ok, placed := FillRun(free, placed, j, k);
          if !ok {
            return;
          }
          j := k;
        } else {
          Skip(free, placed, j);
          j := j + 1;
        }
      }
      ok := true;
    }

    lemma NothingYet(free: seq<bool>)
      requires library.Valid()
      ensures Filled(free, [], 0) && RunsFill(free, 0) && RunsLaid(free, [], 0)
    {
    }

    /** Rows of which every run is sure to fill. */
    lemma SureRow(free: seq<bool>)
      requires library.Valid()
      requires library.HaveFiller1() || (library.HasWidth(2, 0) && library.HasWidth(3, 0) && NoSingleSites(free))
      ensures RunsFill(free, |free|)
    {
      forall a: nat, b: nat | Run(free, a, b)
        ensures library.Greedy(b - a, 0, 0).Some?
      {
        library.SureFills(b - a);
      }
    }

    method EndOfRun(free: seq<bool>, j: nat) returns (k: nat)
      requires j < |free| && free[j] && (j > 0 ==> !free[j - 1])
      ensures Run(free, j, k)
    {
      k := j;
      while k < |free| && free[k]
        invariant j <= k <= |free| && forall s :: j <= s < k ==> free[s]
      {
        k := k + 1;
      }
    }

    /** Fills one run, if the greedy choice can. */
    method FillRun(free: seq<bool>, placed0: seq<(nat, nat)>, j: nat, k: nat) returns (ok: bool, placed: seq<(nat, nat)>)
      requires Valid() && Run(free, j, k) && Filled(free, placed0, j) && RunsFill(free, j) && RunsLaid(free, placed0, j)
      modifies this`memo
      ensures Valid() && (ok <==> RunsFill(free, k)) && (!ok ==> !RunsFill(free, |free|))
      ensures ok ==> Filled(free, placed, k) && RunsLaid(free, placed, k)
    {
      hide Filled, Library.Greedy, Library.Total, LaidAt, RunsLaid;
      placed := placed0;
      var fillers := GapFillers(k - j);
      ok := fillers != [];
      if ok {
        OneRun(free, j, k);
        placed := PlaceGap(free, placed, j, k - j, fillers);
        assert LaidAt(placed, |placed0|, fillers, j);
        OneRunLaid(free, placed0, placed, j, k);
      } else {
        library.GreedyFills(k - j, 0, 0);
      }
    }

    /** The runs that begin before the end of a run are those before it and the run itself. */
    lemma OneRun(free: seq<bool>, j: nat, k: nat)
      requires library.Valid() && Run(free, j, k) && RunsFill(free, j) && library.Greedy(k - j, 0, 0).Some?
      ensures RunsFill(free, k)
    {
      forall a: nat, b: nat | Run(free, a, b) && a < k
        ensures library.Greedy(b - a, 0, 0).Some?
      {
        if a >= j {
          assert a == j && b == k;
        }
      }
    }

    lemma OneRunLaid(free: seq<bool>, was: seq<(nat, nat)>, placed: seq<(nat, nat)>, j: nat, k: nat)
      requires library.Valid() && Run(free, j, k) && RunsLaid(free, was, j) && was <= placed && RunLaid(placed, j, k)
      ensures RunsLaid(free, placed, k)
    {
      forall a: nat, b: nat | Run(free, a, b) && a < k
        ensures RunLaid(placed, a, b)
      {
        if a >= j {
          assert a == j && b == k;
        } else {
          var l :| LaidAt(was, l, library.Greedy(b - a, 0, 0).value, a);
          assert LaidAt(placed, l, library.Greedy(b - a, 0, 0).value, a);
        }
      }
    }

    lemma Skip(free: seq<bool>, placed: seq<(nat, nat)>, j: nat)
      requires library.Valid() && j < |free| && !free[j] && Filled(free, placed, j) && RunsFill(free, j)
      ensures Filled(free, placed, j + 1) && RunsFill(free, j + 1)
      ensures RunsLaid(free, placed, j) ==> RunsLaid(free, placed, j + 1)
    {
    }

    /** The fillers of one gap, side by side. */
    method PlaceGap(free: seq<bool>, placed0: seq<(nat, nat)>, j: nat, gap: nat, fillers: seq<nat>) returns (placed: seq<(nat, nat)>)
      requires library.Valid() && j + gap <= |free| && Filled(free, placed0, j) && forall s :: j <= s < j + gap ==> free[s]
      requires (forall i :: 0 <= i < |fillers| ==> fillers[i] < |library.masters|) && library.Total(fillers) == gap
      ensures Filled(free, placed, j + gap) && placed0 <= placed && LaidAt(placed, |placed0|, fillers, j)
    {
      hide Filled, LaidAt;
      placed := placed0;
      LaidNone(placed0, j);
      var k := j;
      assert fillers[..|fillers|] == fillers;
      for i := 0 to |fillers|
        invariant k == j + library.Total(fillers[..i]) && j <= k <= j + gap && Filled(free, placed, k)
        invariant placed0 <= placed && |placed| == |placed0| + i && LaidAt(placed, |placed0|, fillers[..i], j)
      {
        assert fillers[..i + 1][..i] == fillers[..i];
        TotalGrows(fillers, i);
        PlaceOne(free, placed, k, fillers[i]);
        LaidNext(placed, |placed0|, fillers, i, j);
        placed := placed + [(k, fillers[i])];
        k := k + library.Width(fillers[i]);
      }
    }

    lemma LaidNone(placed: seq<(nat, nat)>, j: nat)
      requires library.Valid()
      ensures LaidAt(placed, |placed|, [], j)
    {
    }

    lemma LaidNext(placed: seq<(nat, nat)>, l: nat, fillers: seq<nat>, i: nat, j: nat)
      requires library.Valid() && forall m :: 0 <= m < |fillers| ==> fillers[m] < |library.masters|
      requires i < |fillers| && |placed| == l + i && LaidAt(placed, l, fillers[..i], j) && library.Total(fillers[..i]) >= 0
      ensures LaidAt(placed + [(j + library.Total(fillers[..i]), fillers[i])], l, fillers[..i + 1], j)
    {
      hide Library.Total;
      forall m | 0 <= m <= i
        ensures fillers[..i + 1][..m] == fillers[..m] && (m < i ==> fillers[..i][..m] == fillers[..m])
      {
      }
    }

    lemma PlaceOne(free: seq<bool>, placed: seq<(nat, nat)>, k: nat, f: nat)
      requires library.Valid() && f < |library.masters| && Filled(free, placed, k)
      requires k + library.Width(f) <= |free| && forall s :: k <= s < k + library.Width(f) ==> free[s]
      ensures Filled(free, placed + [(k, f)], k + library.Width(f))
    {
      var placed' := placed + [(k, f)];
      forall site | 0 <= site < k + library.Width(f)
        ensures free[site] <==> exists l :: 0 <= l < |placed'| && CoversSite(placed', l, site)
      {
        if site >= k {
          assert CoversSite(placed', |placed|, site);
        } else if free[site] {
          var l :| 0 <= l < |placed| && CoversSite(placed, l, site);
          assert CoversSite(placed', l, site);
        } else {
          assert forall l :: 0 <= l < |placed| ==> CoversSite(placed', l, site) == CoversSite(placed, l, site);
        }
      }
    }

    lemma {:induction false} TotalGrows(fillers: seq<nat>, i: nat)
      requires library.Valid() && i < |fillers| && forall i :: 0 <= i < |fillers| ==> fillers[i] < |library.masters|
      ensures library.Total(fillers[..i]) + library.Width(fillers[i]) <= library.Total(fillers)
      decreases |fillers|
    {
      var n := |fillers| - 1;
      if i < n {
        TotalGrows(fillers[..n], i);
        assert fillers[..n][..i] == fillers[..i];
      }
    }
  }
}

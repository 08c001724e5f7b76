/**
 * The invariant of the unit-weight Dijkstra search run from the corner cell 0
 * of a freshly built grid, and the lemmas that make it work: some unsettled
 * cell of least distance always exists, the one picked is already exact (its
 * hop count from the corner), and no walk through the grid is shorter.
 */
module PathFinder {
  import opened Grid
  import opened Nodes

  /** Cell v's recorded distance is not below its hop count from the corner. */
  ghost predicate SoundAt(columns: nat, g: seq<Node>, v: nat)
    requires columns > 0 && v < |g|
  {
    AtMost(Fin(Manhattan(columns, v)), g[v].distance)
  }

  /** No recorded distance is below the true hop count from the corner. */
  ghost predicate Sound(columns: nat, g: seq<Node>)
    requires columns > 0
  {
    forall v :: 0 <= v < |g| ==> SoundAt(columns, g, v)
  }

  /** Cell s holds its exact hop count. */
  ghost predicate ExactAt(columns: nat, g: seq<Node>, s: nat)
    requires columns > 0 && s < |g|
  {
    g[s].distance == Fin(Manhattan(columns, s))
  }

  /** Every settled cell holds its exact hop count. */
  ghost predicate Exact(columns: nat, g: seq<Node>, unsettled: set<nat>)
    requires columns > 0
  {
    forall s :: 0 <= s < |g| && s !in unsettled ==> ExactAt(columns, g, s)
  }

  /** The neighbours of s are no further than one hop beyond s. */
  ghost predicate RelaxedFrom(rows: nat, columns: nat, g: seq<Node>, s: nat)
    requires columns > 0
  {
    forall n :: n in NeighborList(rows, columns, s) && n < |g| ==> AtMost(g[n].distance, Fin(Manhattan(columns, s) + 1))
  }

  /** Every cell outside `pending` has had its neighbours relaxed. */
  ghost predicate Relaxed(rows: nat, columns: nat, g: seq<Node>, pending: set<nat>)
    requires columns > 0
  {
    forall s :: 0 <= s < |g| && s !in pending ==> RelaxedFrom(rows, columns, g, s)
  }

  /** A predecessor link of v goes from a neighbour p, and v's distance is p's hop count plus one. */
  ghost predicate LinkedAt(rows: nat, columns: nat, g: seq<Node>, v: nat)
    requires columns > 0 && v < |g|
  {
    g[v].previous.Some? ==>
      && g[v].previous.value < |g|
      && v in NeighborList(rows, columns, g[v].previous.value)
      && g[v].distance == Fin(Manhattan(columns, g[v].previous.value) + 1)
  }

  /** Every predecessor link is one hop along a neighbour list. */
  ghost predicate Linked(rows: nat, columns: nat, g: seq<Node>)
    requires columns > 0
  {
    forall v :: 0 <= v < |g| ==> LinkedAt(rows, columns, g, v)
  }

  /** A reached cell v has a predecessor. */
  ghost predicate ReachedAt(g: seq<Node>, v: nat)
    requires v < |g|
  {
    g[v].distance.Fin? ==> g[v].previous.Some?
  }

  /** Every reached cell other than the corner has a predecessor. */
  ghost predicate Reached(g: seq<Node>)
  {
    forall v :: 0 < v < |g| ==> ReachedAt(g, v)
  }

  /** All of the search invariant except the relaxation of settled cells. */
  ghost predicate Progress(rows: nat, columns: nat, g: seq<Node>, unsettled: set<nat>)
  {
    && columns > 0
    && |g| == rows * columns
    && 0 < |g|
    && (forall u :: u in unsettled ==> u < |g|)
    && g[0].distance == Fin(0)
    && g[0].previous == None
    && Sound(columns, g)
    && Exact(columns, g, unsettled)
    && Linked(rows, columns, g)
    && Reached(g)
  }

  /** The invariant of the search loop between rounds. */
  ghost predicate SearchInv(rows: nat, columns: nat, g: seq<Node>, unsettled: set<nat>)
  {
    Progress(rows, columns, g, unsettled) && Relaxed(rows, columns, g, unsettled)
  }

  /** Some unsettled cell has a least distance (ties are broken arbitrarily). */
  lemma {:induction false} MinExists(g: seq<Node>, unsettled: set<nat>) returns (m: nat)
    requires unsettled != {}
    requires forall u :: u in unsettled ==> u < |g|
    ensures m in unsettled
    ensures forall u :: u in unsettled ==> AtMost(g[m].distance, g[u].distance)
    decreases unsettled
  {
    var x :| x in unsettled;
    if unsettled == {x} {
      m := x;
    } else {
      var m' := MinExists(g, unsettled - {x});
      m := if AtMost(g[x].distance, g[m'].distance) then x else m';
    }
  }

  /**
   * Below any unsettled cell w (in hop count) lies an unsettled cell whose
   * recorded distance is already exact: follow w's corner-ward neighbours back
   * to the first one that is settled, or to the corner itself.
   */
  lemma {:induction false} Frontier(rows: nat, columns: nat, g: seq<Node>, unsettled: set<nat>, w: nat) returns (u: nat)
    requires SearchInv(rows, columns, g, unsettled)
    requires w in unsettled
    ensures u in unsettled && u < |g|
    ensures g[u].distance == Fin(Manhattan(columns, u))
    ensures Manhattan(columns, u) <= Manhattan(columns, w)
    decreases Manhattan(columns, w)
  {
    if w == 0 {
      u := 0;
    } else {
      var p := Predecessor(rows, columns, w);
      if p in unsettled {
        u := Frontier(rows, columns, g, unsettled, p);
      } else {
        assert RelaxedFrom(rows, columns, g, p);
        assert SoundAt(columns, g, w);
        u := w;
      }
    }
  }

  /** The state at the start of a search: the corner at distance 0, every cell unsettled, the shape untouched. */
  lemma SearchStarts(rows: nat, columns: nat, g: seq<Node>, unsettled: set<nat>)
    requires Shaped(rows, columns, g) && |g| > 0 && Unsearched(g)
    requires forall u :: u in unsettled <==> 0 <= u < |g|
    ensures Shaped(rows, columns, g[0 := g[0].(distance := Fin(0))])
    ensures SearchInv(rows, columns, g[0 := g[0].(distance := Fin(0))], unsettled)
  {
    var g' := g[0 := g[0].(distance := Fin(0))];
    ShapeKept(rows, columns, g, 0, g'[0]);
    forall v | 0 <= v < |g'|
      ensures SoundAt(columns, g', v) && LinkedAt(rows, columns, g', v)
      ensures 0 < v ==> ReachedAt(g', v)
    {
    }
  }

  /** The invariant while the neighbours of c, the cell just settled, are relaxed. */
  ghost predicate Round(rows: nat, columns: nat, g: seq<Node>, unsettled: set<nat>, c: nat)
  {
    && Progress(rows, columns, g, unsettled)
    && c < |g|
    && c !in unsettled
    && Relaxed(rows, columns, g, unsettled + {c})
  }

  /**
   * The unsettled cell of least distance is never at Infinity: it already holds
   * its exact hop count, so settling it starts a round.
   */
  lemma SettleExact(rows: nat, columns: nat, g: seq<Node>, unsettled: set<nat>, c: nat)
    requires SearchInv(rows, columns, g, unsettled)
    requires c in unsettled
    requires forall u :: u in unsettled ==> AtMost(g[c].distance, g[u].distance)
    ensures g[c].distance == Fin(Manhattan(columns, c))
    ensures Round(rows, columns, g, unsettled - {c}, c)
  {
    var u := Frontier(rows, columns, g, unsettled, c);
    assert SoundAt(columns, g, c);
    forall s | 0 <= s < |g| && s !in unsettled - {c}
      ensures ExactAt(columns, g, s)
    {
    }
    assert unsettled - {c} + {c} == unsettled;
  }

  /** One relaxation of the edge from c to n: n improves to c's distance plus one, and c becomes its predecessor, if that is shorter. */
  ghost function RelaxEdge(g: seq<Node>, c: nat, n: nat): (r: seq<Node>)
    requires c < |g| && n < |g| && g[c].distance.Fin?
    ensures |r| == |g|
    ensures forall v :: 0 <= v < |g| && v != n ==> r[v] == g[v]
    ensures AtMost(r[n].distance, g[n].distance) && AtMost(r[n].distance, Fin(g[c].distance.n + 1))
    ensures r[n] != g[n] <==> Below(Fin(g[c].distance.n + 1), g[n].distance)
    ensures r[n] != g[n] ==> r[n] == g[n].(distance := Fin(g[c].distance.n + 1), previous := Some(c))
  {
    var tentative := g[c].distance.n + 1;
    if Below(Fin(tentative), g[n].distance)
    then g[n := g[n].(distance := Fin(tentative), previous := Some(c))]
    else g
  }

  /** Facts about one relaxation out of the settled cell c: only n may change, only downwards, and only when n is unsettled. */
  lemma RelaxChanges(rows: nat, columns: nat, g: seq<Node>, unsettled: set<nat>, c: nat, n: nat)
    requires Round(rows, columns, g, unsettled, c)
    requires n in NeighborList(rows, columns, c)
    ensures n < |g| && g[c].distance == Fin(Manhattan(columns, c))
    ensures Manhattan(columns, n) <= Manhattan(columns, c) + 1
    ensures RelaxEdge(g, c, n) != g ==> n != 0 && n in unsettled && Below(Fin(Manhattan(columns, c) + 1), g[n].distance)
  {
    NeighborsOneHop(rows, columns, c);
    assert ExactAt(columns, g, c);
    if n !in unsettled {
      assert ExactAt(columns, g, n);
      assert !Below(Fin(g[c].distance.n + 1), g[n].distance);
    }
  }

  /** Relaxing an edge out of the settled cell c keeps all of the search invariant but the relaxation facts. */
  lemma RelaxKeepsProgress(rows: nat, columns: nat, g: seq<Node>, unsettled: set<nat>, c: nat, n: nat)
    requires Round(rows, columns, g, unsettled, c)
    requires n in NeighborList(rows, columns, c)
    ensures n < |g| && g[c].distance.Fin?
    ensures Progress(rows, columns, RelaxEdge(g, c, n), unsettled)
  {
    RelaxChanges(rows, columns, g, unsettled, c, n);
    var g' := RelaxEdge(g, c, n);
    if g' != g {
      forall v | 0 <= v < |g'|
        ensures SoundAt(columns, g', v) && LinkedAt(rows, columns, g', v)
        ensures 0 < v ==> ReachedAt(g', v)
        ensures v !in unsettled ==> ExactAt(columns, g', v)
      {
        if v != n {
          assert SoundAt(columns, g, v) && LinkedAt(rows, columns, g, v);
          assert 0 < v ==> ReachedAt(g, v);
          assert v !in unsettled ==> ExactAt(columns, g, v);
        }
      }
    }
  }

  /** Relaxing an edge out of c keeps every settled cell, and c, relaxed. */
  lemma RelaxKeepsRelaxed(rows: nat, columns: nat, g: seq<Node>, unsettled: set<nat>, c: nat, n: nat)
    requires Round(rows, columns, g, unsettled, c)
    requires n in NeighborList(rows, columns, c)
    ensures n < |g| && g[c].distance.Fin?
    ensures Relaxed(rows, columns, RelaxEdge(g, c, n), unsettled + {c})
  {
    RelaxChanges(rows, columns, g, unsettled, c, n);
    var g' := RelaxEdge(g, c, n);
    forall s | 0 <= s < |g'| && s !in unsettled + {c}
      ensures RelaxedFrom(rows, columns, g', s)
    {
      assert RelaxedFrom(rows, columns, g, s);
    }
  }

  /**
   * Relaxing an edge out of the settled cell c keeps the round's invariant and
   * the grid's shape, never raises a distance, and leaves n at most one hop
   * beyond c.
   */
  lemma RelaxStep(rows: nat, columns: nat, g: seq<Node>, unsettled: set<nat>, c: nat, n: nat)
    requires Shaped(rows, columns, g) && Round(rows, columns, g, unsettled, c)
    requires n in NeighborList(rows, columns, c)
    ensures n < |g| && g[c].distance.Fin?
    ensures Shaped(rows, columns, RelaxEdge(g, c, n))
    ensures Round(rows, columns, RelaxEdge(g, c, n), unsettled, c)
    ensures AtMost(RelaxEdge(g, c, n)[n].distance, Fin(Manhattan(columns, c) + 1))
    ensures forall v :: 0 <= v < |g| ==> AtMost(RelaxEdge(g, c, n)[v].distance, g[v].distance)
  {
    RelaxChanges(rows, columns, g, unsettled, c, n);
    RelaxKeepsProgress(rows, columns, g, unsettled, c, n);
    RelaxKeepsRelaxed(rows, columns, g, unsettled, c, n);
    var g' := RelaxEdge(g, c, n);
    if g' != g {
      ShapeKept(rows, columns, g, n, g'[n]);
    }
  }

  /** The relaxations of the edges from c to each cell of ns, one after the other. */
  ghost function RelaxAll(g: seq<Node>, c: nat, ns: seq<nat>): (r: seq<Node>)
    requires c < |g| && g[c].distance.Fin?
    requires forall k :: 0 <= k < |ns| ==> ns[k] < |g|
    ensures |r| == |g| && r[c] == g[c]
    ensures forall v :: 0 <= v < |g| && v !in ns ==> r[v] == g[v]
    ensures forall v :: 0 <= v < |g| ==>
      r[v].row == g[v].row && r[v].column == g[v].column && r[v].visited == g[v].visited && r[v].neighbors == g[v].neighbors
    decreases |ns|
  {
    if ns == [] then g
    else RelaxEdge(RelaxAll(g, c, ns[..|ns| - 1]), c, ns[|ns| - 1])
  }

  /**
   * Relaxing the edges from the settled cell c to any of its neighbours, in any
   * order, keeps the round's invariant and the grid's shape, lowers no distance
   * below the hop-count bound or raises any, brings each of those neighbours
   * within one hop of c, and changes no other cell.
   */
  lemma {:induction false} RelaxRound(rows: nat, columns: nat, g: seq<Node>, unsettled: set<nat>, c: nat, ns: seq<nat>)
    requires Shaped(rows, columns, g) && Round(rows, columns, g, unsettled, c)
    requires forall k :: 0 <= k < |ns| ==> ns[k] in NeighborList(rows, columns, c)
    ensures c < |g| && g[c].distance == Fin(Manhattan(columns, c))
    ensures forall k :: 0 <= k < |ns| ==> ns[k] < |g|
    ensures Shaped(rows, columns, RelaxAll(g, c, ns))
    ensures Round(rows, columns, RelaxAll(g, c, ns), unsettled, c)
    ensures forall k :: 0 <= k < |ns| ==> AtMost(RelaxAll(g, c, ns)[ns[k]].distance, Fin(Manhattan(columns, c) + 1))
    ensures forall v :: 0 <= v < |g| ==> AtMost(RelaxAll(g, c, ns)[v].distance, g[v].distance)
    ensures forall v :: 0 <= v < |g| && v !in ns ==> RelaxAll(g, c, ns)[v] == g[v]
    decreases |ns|
  {
    NeighborsOneHop(rows, columns, c);
    assert ExactAt(columns, g, c);
    if ns != [] {
      var prefix, n := ns[..|ns| - 1], ns[|ns| - 1];
      RelaxRound(rows, columns, g, unsettled, c, prefix);
      var h := RelaxAll(g, c, prefix);
      RelaxStep(rows, columns, h, unsettled, c, n);
      var r := RelaxEdge(h, c, n);
      assert r == RelaxAll(g, c, ns);
      forall k | 0 <= k < |ns|
        ensures AtMost(r[ns[k]].distance, Fin(Manhattan(columns, c) + 1))
      {
        if k < |ns| - 1 {
          assert ns[k] == prefix[k];
          AtMostTransitive(r[ns[k]].distance, h[ns[k]].distance, Fin(Manhattan(columns, c) + 1));
        }
      }
      forall v | 0 <= v < |g|
        ensures AtMost(r[v].distance, g[v].distance)
      {
        AtMostTransitive(r[v].distance, h[v].distance, g[v].distance);
      }
    }
  }

  /** Relaxing the edges from the settled cell c to all of its neighbours, in list order, ends the round with the search invariant restored. */
  lemma RoundComplete(rows: nat, columns: nat, g: seq<Node>, unsettled: set<nat>, c: nat)
    requires Shaped(rows, columns, g) && Round(rows, columns, g, unsettled, c)
    ensures c < |g| && g[c].distance.Fin?
    ensures forall k :: 0 <= k < |NeighborList(rows, columns, c)| ==> NeighborList(rows, columns, c)[k] < |g|
    ensures Shaped(rows, columns, RelaxAll(g, c, NeighborList(rows, columns, c)))
    ensures SearchInv(rows, columns, RelaxAll(g, c, NeighborList(rows, columns, c)), unsettled)
    ensures forall v :: 0 <= v < |g| ==> AtMost(RelaxAll(g, c, NeighborList(rows, columns, c))[v].distance, g[v].distance)
    ensures forall v :: 0 <= v < |g| && v !in NeighborList(rows, columns, c) ==> RelaxAll(g, c, NeighborList(rows, columns, c))[v] == g[v]
  {
    var ns := NeighborList(rows, columns, c);
    RelaxRound(rows, columns, g, unsettled, c, ns);
    RoundEnds(rows, columns, RelaxAll(g, c, ns), unsettled, c);
  }

  /** Once every neighbour of c is relaxed, the round ends with the search invariant restored. */
  lemma RoundEnds(rows: nat, columns: nat, g: seq<Node>, unsettled: set<nat>, c: nat)
    requires Round(rows, columns, g, unsettled, c)
    requires forall n :: n in NeighborList(rows, columns, c) && n < |g| ==> AtMost(g[n].distance, Fin(Manhattan(columns, c) + 1))
    ensures SearchInv(rows, columns, g, unsettled)
  {
  }

  /** After the search every cell holds its hop count from the corner, row + column. */
  lemma SearchDone(rows: nat, columns: nat, g: seq<Node>)
    requires Shaped(rows, columns, g) && SearchInv(rows, columns, g, {})
    ensures forall i :: 0 <= i < |g| ==> g[i].distance == Fin(g[i].row + g[i].column)
  {
    forall i | 0 <= i < |g|
      ensures g[i].distance == Fin(g[i].row + g[i].column)
    {
      assert ExactAt(columns, g, i) && CellShaped(rows, columns, g, i);
    }
  }

  /** After the search every cell but the corner links back to a neighbour one hop closer to the corner. */
  lemma BackLink(rows: nat, columns: nat, g: seq<Node>, v: nat)
    requires SearchInv(rows, columns, g, {}) && v < |g|
    ensures g[v].distance == Fin(Manhattan(columns, v))
    ensures g[v].previous.None? <==> v == 0
    ensures g[v].previous.Some? ==>
      && g[v].previous.value < |g|
      && v in NeighborList(rows, columns, g[v].previous.value)
      && Manhattan(columns, g[v].previous.value) + 1 == Manhattan(columns, v)
  {
    assert ExactAt(columns, g, v) && LinkedAt(rows, columns, g, v);
    if v > 0 {
      assert ReachedAt(g, v);
    }
  }

  /** A walk: each entry is a cell and each next entry is in the previous one's neighbour list. */
  ghost predicate IsWalk(rows: nat, columns: nat, w: seq<nat>)
    requires columns > 0
  {
    && (forall k :: 0 <= k < |w| ==> w[k] < rows * columns)
    && (forall k :: 0 <= k < |w| - 1 ==> w[k + 1] in NeighborList(rows, columns, w[k]))
  }

  /** Putting a cell in front of a walk that starts at one of its neighbours gives a walk. */
  lemma WalkPrepend(rows: nat, columns: nat, x: nat, w: seq<nat>)
    requires columns > 0 && IsWalk(rows, columns, w) && x < rows * columns
    requires w != [] ==> w[0] in NeighborList(rows, columns, x)
    ensures IsWalk(rows, columns, [x] + w)
  {
  }

  /** On a shaped grid a walk is a path through the cells' own neighbour lists. */
  lemma WalkThroughGrid(rows: nat, columns: nat, g: seq<Node>, w: seq<nat>)
    requires Shaped(rows, columns, g) && IsWalk(rows, columns, w)
    ensures forall k :: 0 <= k < |w| ==> w[k] < |g|
    ensures forall k :: 0 <= k < |w| - 1 ==> w[k + 1] in g[w[k]].neighbors
  {
    forall k | 0 <= k < |w| - 1
      ensures w[k + 1] in g[w[k]].neighbors
    {
      assert CellShaped(rows, columns, g, w[k]);
    }
  }

  /** A walk that starts at the corner and ends at cell x visits at least hops(x) + 1 cells. */
  lemma {:induction false} WalkFromCorner(rows: nat, columns: nat, w: seq<nat>)
    requires columns > 0 && IsWalk(rows, columns, w)
    requires |w| > 0 && w[0] == 0
    ensures |w| >= Manhattan(columns, w[|w| - 1]) + 1
  {
    if |w| > 1 {
      var w' := w[..|w| - 1];
      assert IsWalk(rows, columns, w');
      WalkFromCorner(rows, columns, w');
      NeighborsOneHop(rows, columns, w[|w| - 2]);
    }
  }

  /** No walk from the top-left to the bottom-right corner has fewer than rows + columns - 1 cells. */
  lemma NoShorterWalk(rows: nat, columns: nat, w: seq<nat>)
    requires rows > 0 && columns > 0 && IsWalk(rows, columns, w)
    requires |w| > 0 && w[0] == 0 && w[|w| - 1] == rows * columns - 1
    ensures |w| >= rows + columns - 1
  {
    WalkFromCorner(rows, columns, w);
    FarCorner(rows, columns);
  }
}

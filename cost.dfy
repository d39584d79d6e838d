/** The cost model of the searches: how many G1 edges a mapping fails to find
    in G2 (the deficit), the cost added by mapping one more vertex, and the
    heuristic lower bound on the cost still to come. */
module Costs {
  import opened Sums
  import opened Graphs
  import opened Assignments

  /** The sentinel added for a vertex with no free candidate. */
  const IntMax: int := 2147483647

  /** Edges that must be added so that `found` covers `need`. */
  function Excess(need: nat, found: nat): nat
  {
    if need > found then need - found else 0
  }

  /** The image of x, or Unmapped outside the forward table. */
  function Image(a: Assignment, x: int): int
  {
    if 0 <= x < |a.forward| then a.forward[x] else Unmapped
  }

  /** Edges to add so that G2 pair (v2, u2) covers G1 pair (v1, u1). The
      weight guard only skips work: the result is always the excess. */
  function SingleDirection(g1: Digraph, v1: int, u1: int, g2: Digraph, v2: int, u2: int): (r: nat)
    ensures r == Excess(g1.Weight(v1, u1), g2.Weight(v2, u2))
    ensures r <= g1.Weight(v1, u1)
  {
    if g1.Weight(v1, u1) > 0 then Excess(g1.Weight(v1, u1), g2.Weight(v2, u2)) else 0
  }

  /** Edges to add for both directions between (v1, u1) and (v2, u2). */
  function EdgesAdditions(g1: Digraph, v1: int, u1: int, g2: Digraph, v2: int, u2: int): (r: nat)
    ensures r == Excess(g1.Weight(v1, u1), g2.Weight(v2, u2)) + Excess(g1.Weight(u1, v1), g2.Weight(u2, v2))
  {
    SingleDirection(g1, v1, u1, g2, v2, u2) + SingleDirection(g1, u1, v1, g2, u2, v2)
  }

  /** The deficit of the ordered G1 pair (u, v): zero unless both are mapped. */
  function PairDeficit(g1: Digraph, g2: Digraph, a: Assignment, u: int, v: int): nat
  {
    if a.IsMapped(u) && a.IsMapped(v) then Excess(g1.Weight(u, v), g2.Weight(a.forward[u], a.forward[v])) else 0
  }

  /** The deficit as a two-argument term. */
  function Deficit(g1: Digraph, g2: Digraph, a: Assignment): (nat, nat) -> int
  {
    (u: nat, v: nat) => PairDeficit(g1, g2, a, u, v)
  }

  /** The total number of G1 edges the mapping does not find in G2: the sum
      of the deficits over all ordered pairs of G1 vertices, u == v included. */
  function MissingEdges(g1: Digraph, g2: Digraph, a: Assignment): (r: int)
    ensures r >= 0
  {
    DoubleSumNonNegative(g1.n, Deficit(g1, g2, a));
    DoubleSum(g1.n, Deficit(g1, g2, a))
  }

  /** The term of vertex u in the incremental cost of x: the deficits of
      (u, x) and, for u != x, of (x, u), when u is mapped. */
  function IncrementalTerm(g1: Digraph, g2: Digraph, a: Assignment, x: nat, u: nat): int
  {
    if !a.IsMapped(u) then 0
    else
      (if g1.Weight(u, x) > 0 then Excess(g1.Weight(u, x), g2.Weight(a.forward[u], Image(a, x))) else 0) +
      (if u != x && g1.Weight(x, u) > 0 then Excess(g1.Weight(x, u), g2.Weight(Image(a, x), a.forward[u])) else 0)
  }

  /** The incremental-cost terms as a function of u. */
  function IncrementalTerms(g1: Digraph, g2: Digraph, a: Assignment, x: nat): nat -> int
  {
    (u: nat) => IncrementalTerm(g1, g2, a, x, u)
  }

  /** The cost contributed by x: the deficits of all pairs joining x to a
      mapped vertex (the self pair once). It is never negative, and is zero
      while no vertex is mapped. */
  function IncrementalCost(g1: Digraph, g2: Digraph, a: Assignment, x: nat): (r: int)
    ensures 0 <= r
    ensures (forall u :: 0 <= u < g1.n ==> !a.IsMapped(u)) ==> r == 0
  {
    SumNonNegative(g1.n, IncrementalTerms(g1, g2, a, x));
    if forall u :: 0 <= u < g1.n ==> !a.IsMapped(u) then
      SumZero(g1.n, IncrementalTerms(g1, g2, a, x));
      Sum(g1.n, IncrementalTerms(g1, g2, a, x))
    else
      Sum(g1.n, IncrementalTerms(g1, g2, a, x))
  }

  /** The term of u in the cost of mapping v1 to v2: neighbours of v1 only;
      v1 itself pairs with v2, other neighbours with their images. */
  function AssignmentTerm(g1: Digraph, g2: Digraph, a: Assignment, v1: nat, v2: nat, u: nat): int
  {
    if !g1.Adjacent(v1, u) then 0
    else if u == v1 then SingleDirection(g1, v1, u, g2, v2, v2)
    else if !a.IsMapped(u) then 0
    else SingleDirection(g1, v1, u, g2, v2, a.forward[u]) + SingleDirection(g1, u, v1, g2, a.forward[u], v2)
  }

  /** The assignment-cost terms as a function of u. */
  function AssignmentTerms(g1: Digraph, g2: Digraph, a: Assignment, v1: nat, v2: nat): nat -> int
  {
    (u: nat) => AssignmentTerm(g1, g2, a, v1, v2, u)
  }

  /** The cost of mapping the unmapped v1 to v2, computed before the
      mapping is changed: never negative, and zero for a vertex without
      neighbours. */
  function AssignmentCost(g1: Digraph, g2: Digraph, a: Assignment, v1: nat, v2: nat): (r: int)
    ensures 0 <= r
    ensures (forall u :: 0 <= u < g1.n ==> !g1.Adjacent(v1, u)) ==> r == 0
  {
    SumNonNegative(g1.n, AssignmentTerms(g1, g2, a, v1, v2));
    if forall u :: 0 <= u < g1.n ==> !g1.Adjacent(v1, u) then
      SumZero(g1.n, AssignmentTerms(g1, g2, a, v1, v2));
      Sum(g1.n, AssignmentTerms(g1, g2, a, v1, v2))
    else
      Sum(g1.n, AssignmentTerms(g1, g2, a, v1, v2))
  }

  /** The term of u in the heuristic cost of the candidate v2 for v1: the
      edge additions against u when u is a mapped neighbour of v1. */
  function CandidateTerm(g1: Digraph, g2: Digraph, a: Assignment, v1: nat, v2: int, u: nat): int
  {
    if !g1.Adjacent(v1, u) || !a.IsMapped(u) then 0 else EdgesAdditions(g1, v1, u, g2, v2, a.forward[u])
  }

  /** The candidate terms as a function of u. */
  function CandidateTerms(g1: Digraph, g2: Digraph, a: Assignment, v1: nat, v2: int): nat -> int
  {
    (u: nat) => CandidateTerm(g1, g2, a, v1, v2, u)
  }

  /** The cost of the edges between v1 and its mapped neighbours were v1
      mapped to v2: never negative. */
  function CandidateCost(g1: Digraph, g2: Digraph, a: Assignment, v1: nat, v2: int): (r: int)
    ensures 0 <= r
  {
    SumNonNegative(g1.n, CandidateTerms(g1, g2, a, v1, v2));
    Sum(g1.n, CandidateTerms(g1, g2, a, v1, v2))
  }

  /** The smaller of two integers. */
  function Min(x: int, y: int): int
  {
    if x <= y then x else y
  }

  /** G2 vertex y is free in the state's mask. */
  predicate IsFree(s: SearchState, y: int)
  {
    0 <= y < |s.used| && !s.used[y]
  }

  /** The running minimum, from IntMax, of the candidate costs of v1 over
      the free G2 vertices below k: a lower bound on each of them, and
      either IntMax or one of them. */
  function MinCandidate(g1: Digraph, g2: Digraph, s: SearchState, v1: nat, k: nat): (r: int)
    ensures r <= IntMax
    ensures forall y: nat :: y < k && IsFree(s, y) ==> r <= CandidateCost(g1, g2, s.mapping, v1, y)
    ensures r == IntMax || exists y: nat :: y < k && IsFree(s, y) && r == CandidateCost(g1, g2, s.mapping, v1, y)
  {
    if k == 0 then IntMax
    else if IsFree(s, k - 1) then
      Min(MinCandidate(g1, g2, s, v1, k - 1), CandidateCost(g1, g2, s.mapping, v1, k - 1))
    else
      MinCandidate(g1, g2, s, v1, k - 1)
  }

  /** The heuristic term of v1: zero when mapped, otherwise its cheapest
      free candidate. */
  function HeuristicTerm(g1: Digraph, g2: Digraph, s: SearchState, v1: nat): int
  {
    if s.mapping.IsMapped(v1) then 0 else MinCandidate(g1, g2, s, v1, g2.n)
  }

  /** The heuristic terms as a function of v1. */
  function HeuristicTerms(g1: Digraph, g2: Digraph, s: SearchState): nat -> int
  {
    (v1: nat) => HeuristicTerm(g1, g2, s, v1)
  }

  /** The heuristic: the sum over unmapped G1 vertices of their cheapest
      free candidate, which is never negative. */
  function Heuristic(g1: Digraph, g2: Digraph, s: SearchState): (r: int)
    ensures 0 <= r
  {
    SumNonNegative(g1.n, HeuristicTerms(g1, g2, s));
    Sum(g1.n, HeuristicTerms(g1, g2, s))
  }

  /** The missing-edge count as a function of the mapping. */
  ghost function CostOf(g1: Digraph, g2: Digraph): Assignment -> int
  {
    (m: Assignment) => MissingEdges(g1, g2, m)
  }

  /** The heuristic as a function of the search state. */
  ghost function HeuristicOf(g1: Digraph, g2: Digraph): SearchState -> int
  {
    (s: SearchState) => Heuristic(g1, g2, s)
  }

  /** The graphs and the mapping have matching sizes. */
  ghost predicate Fits(g1: Digraph, g2: Digraph, a: Assignment)
  {
    g1.Valid() && g2.Valid() && a.sizeG1 == g1.n && a.sizeG2 == g2.n
  }

  /** The empty mapping misses nothing. */
  lemma MissingEdgesFresh(g1: Digraph, g2: Digraph, n2: nat)
    ensures MissingEdges(g1, g2, Fresh(g1.n, n2)) == 0
  {
    var f := Deficit(g1, g2, Fresh(g1.n, n2));
    forall i: nat | i < g1.n
      ensures RowSums(g1.n, f)(i) == 0
    {
      SumZero(g1.n, Row(f, i));
    }
    SumZero(g1.n, RowSums(g1.n, f));
  }

  /** Mapping the unmapped x to the free y adds to the missing edges exactly
      the incremental cost of x in the new mapping. */
  lemma IncrementalAdditivity(g1: Digraph, g2: Digraph, a: Assignment, x: nat, y: nat)
    requires Fits(g1, g2, a) && a.Consistent()
    requires x < a.sizeG1 && y < a.sizeG2 && !a.IsMapped(x) && !a.IsUsed(y)
    ensures MissingEdges(g1, g2, Set(a, x, y)) == MissingEdges(g1, g2, a) + IncrementalCost(g1, g2, Set(a, x, y), x)
  {
    var n := g1.n;
    var b := Set(a, x, y);
    var D := Deficit(g1, g2, a);
    var E := Deficit(g1, g2, b);
    // Outside row and column x the two deficits agree; on them the old one vanishes.
    forall u: nat, v: nat | u < n && v < n
      ensures u != x && v != x ==> E(u, v) == D(u, v)
      ensures u == x || v == x ==> D(u, v) == 0
    {
      if u != x {
        assert a.forward[u] != y;
      }
      if v != x {
        assert a.forward[v] != y;
      }
    }
    var Rx := RowSums(n, E)(x);
    var Extra := (u: nat) => if u == x then Rx else E(u, x);
    forall u: nat | u < n
      ensures RowSums(n, E)(u) == RowSums(n, D)(u) + Extra(u)
    {
      if u == x {
        SumZero(n, Row(D, u));
      } else {
        SumPlusPoint(n, Row(D, u), Row(E, u), x, E(u, x));
      }
    }
    SumAdd(n, RowSums(n, D), Extra, RowSums(n, E));
    var Below := (u: nat) => if u == x then 0 else E(u, x);
    var Across := (u: nat) => if u == x then 0 else E(x, u);
    SumPlusPoint(n, Below, Extra, x, Rx);
    SumPlusPoint(n, Across, Row(E, x), x, E(x, x));
    var Column := (u: nat) => E(u, x);
    SumPlusPoint(n, Below, Column, x, E(x, x));
    forall u: nat | u < n
      ensures IncrementalTerms(g1, g2, b, x)(u) == Column(u) + Across(u)
    {
    }
    SumAdd(n, Column, Across, IncrementalTerms(g1, g2, b, x));
  }

  /** The cost of mapping v1 to v2 computed on the old mapping equals the
      incremental cost of v1 in the new one. */
  lemma AssignmentCostIsIncremental(g1: Digraph, g2: Digraph, a: Assignment, v1: nat, v2: nat)
    requires Fits(g1, g2, a) && a.Consistent()
    requires v1 < a.sizeG1 && v2 < a.sizeG2 && !a.IsMapped(v1) && !a.IsUsed(v2)
    ensures AssignmentCost(g1, g2, a, v1, v2) == IncrementalCost(g1, g2, Set(a, v1, v2), v1)
  {
    var b := Set(a, v1, v2);
    forall u: nat | u < g1.n
      ensures AssignmentTerms(g1, g2, a, v1, v2)(u) == IncrementalTerms(g1, g2, b, v1)(u)
    {
      if u != v1 {
        assert a.forward[u] != v2;
      }
    }
    SumEq(g1.n, AssignmentTerms(g1, g2, a, v1, v2), IncrementalTerms(g1, g2, b, v1));
  }

  /** The A* cost update: the child's missing edges are the parent's plus the
      assignment cost. */
  lemma AssignmentCostAdditivity(g1: Digraph, g2: Digraph, a: Assignment, v1: nat, v2: nat)
    requires Fits(g1, g2, a) && a.Consistent()
    requires v1 < a.sizeG1 && v2 < a.sizeG2 && !a.IsMapped(v1) && !a.IsUsed(v2)
    ensures MissingEdges(g1, g2, Set(a, v1, v2)) == MissingEdges(g1, g2, a) + AssignmentCost(g1, g2, a, v1, v2)
  {
    IncrementalAdditivity(g1, g2, a, v1, v2);
    AssignmentCostIsIncremental(g1, g2, a, v1, v2);
  }

  /** Extending a mapping never lowers the missing-edge count. */
  lemma MissingEdgesMonotone(g1: Digraph, g2: Digraph, a: Assignment, m: Assignment)
    requires Extends(m, a) && a.Consistent() && m.Consistent()
    ensures MissingEdges(g1, g2, a) <= MissingEdges(g1, g2, m)
  {
    var D := Deficit(g1, g2, a);
    var E := Deficit(g1, g2, m);
    forall u: nat, v: nat | u < g1.n && v < g1.n
      ensures D(u, v) <= E(u, v)
    {
    }
    DoubleSumLe(g1.n, D, E);
  }

  /** The deficit of m on pairs with exactly one endpoint mapped by a. */
  function CrossDeficit(g1: Digraph, g2: Digraph, a: Assignment, m: Assignment): (nat, nat) -> int
  {
    (u: nat, v: nat) => if a.IsMapped(u) != a.IsMapped(v) then PairDeficit(g1, g2, m, u, v) else 0
  }

  /** For each vertex w left unmapped by a, the candidate cost of the image
      m gives it. */
  function CrossRows(g1: Digraph, g2: Digraph, a: Assignment, m: Assignment): nat -> int
  {
    (w: nat) => if a.IsMapped(w) then 0 else CandidateCost(g1, g2, a, w, Image(m, w))
  }

  /** A full extension m of a misses at least what a misses plus its
      deficit on the pairs that cross between a's mapped and unmapped
      vertices. */
  lemma DeficitLowerBound(g1: Digraph, g2: Digraph, a: Assignment, m: Assignment)
    requires a.Consistent() && IsFullMapping(m) && Extends(m, a) && a.sizeG1 == g1.n
    ensures MissingEdges(g1, g2, m) >= MissingEdges(g1, g2, a) + DoubleSum(g1.n, CrossDeficit(g1, g2, a, m))
  {
    var n := g1.n;
    var D := Deficit(g1, g2, a);
    var C := CrossDeficit(g1, g2, a, m);
    var E := Deficit(g1, g2, m);
    var DC := (u: nat, v: nat) => D(u, v) + C(u, v);
    FullMappingMapsAll(m);
    forall u: nat, v: nat | u < n && v < n
      ensures DC(u, v) <= E(u, v)
    {
      assert m.IsMapped(u) && m.IsMapped(v);
    }
    DoubleSumAdd(n, D, C, DC);
    DoubleSumLe(n, DC, E);
  }

  /** The crossing deficit, regrouped by the unmapped endpoint, is the sum
      of the candidate costs of the images m gives a's unmapped vertices. */
  lemma CrossDeficitByVertex(g1: Digraph, g2: Digraph, a: Assignment, m: Assignment)
    requires a.Consistent() && IsFullMapping(m) && Extends(m, a) && a.sizeG1 == g1.n
    ensures DoubleSum(g1.n, CrossDeficit(g1, g2, a, m)) == Sum(g1.n, CrossRows(g1, g2, a, m))
  {
    var n := g1.n;
    var E := Deficit(g1, g2, m);
    FullMappingMapsAll(m);
    // Pairs whose source is mapped and whose target is not, and the reverse.
    var B := (u: nat, v: nat) => if a.IsMapped(u) && !a.IsMapped(v) then E(u, v) else 0;
    var C := (u: nat, v: nat) => if !a.IsMapped(u) && a.IsMapped(v) then E(u, v) else 0;
    DoubleSumAdd(n, B, C, CrossDeficit(g1, g2, a, m));
    var Into := (v: nat) => Sum(n, Column(B, v));
    SumSwap(n, n, B, RowSums(n, B), Into);
    forall w: nat | w < n
      ensures CrossRows(g1, g2, a, m)(w) == RowSums(n, C)(w) + Into(w)
    {
      if a.IsMapped(w) {
        SumZero(n, Row(C, w));
        SumZero(n, Column(B, w));
      } else {
        forall u: nat | u < n
          ensures CandidateTerms(g1, g2, a, w, Image(m, w))(u) == Row(C, w)(u) + Column(B, w)(u)
        {
          assert m.IsMapped(u) && m.IsMapped(w);
        }
        SumAdd(n, Row(C, w), Column(B, w), CandidateTerms(g1, g2, a, w, Image(m, w)));
      }
    }
    SumAdd(n, RowSums(n, C), Into, CrossRows(g1, g2, a, m));
  }

  /** Admissibility: for every full mapping m extending the state's mapping,
      the missing edges of m are at least those of the state plus the
      heuristic. */
  lemma HeuristicAdmissible(g1: Digraph, g2: Digraph, s: SearchState, m: Assignment)
    requires s.Valid() && Fits(g1, g2, s.mapping) && IsFullMapping(m) && Extends(m, s.mapping)
    ensures MissingEdges(g1, g2, m) >= MissingEdges(g1, g2, s.mapping) + Heuristic(g1, g2, s)
  {
    var a := s.mapping;
    DeficitLowerBound(g1, g2, a, m);
    CrossDeficitByVertex(g1, g2, a, m);
    forall w: nat | w < g1.n
      ensures HeuristicTerms(g1, g2, s)(w) <= CrossRows(g1, g2, a, m)(w)
    {
      if !a.IsMapped(w) {
        ExtensionUsesFreeVertices(m, a, w);
        assert IsFree(s, m.forward[w]);
      }
    }
    SumLe(g1.n, HeuristicTerms(g1, g2, s), CrossRows(g1, g2, a, m));
  }

  /** Nothing remains to estimate once every G1 vertex is mapped. */
  lemma HeuristicOfFullMapping(g1: Digraph, g2: Digraph, s: SearchState)
    requires IsFullMapping(s.mapping) && s.mapping.sizeG1 == g1.n
    ensures Heuristic(g1, g2, s) == 0
  {
    FullMappingMapsAll(s.mapping);
    SumZero(g1.n, HeuristicTerms(g1, g2, s));
  }

  /** When G1 is no larger than G2, an unmapped vertex always has a free
      candidate, so its heuristic term is the least free candidate cost,
      capped at IntMax only if every such cost reaches it. */
  lemma HeuristicTermAttained(g1: Digraph, g2: Digraph, s: SearchState, v1: nat)
    requires s.Valid() && Fits(g1, g2, s.mapping) && g1.n <= g2.n
    requires v1 < g1.n && !s.mapping.IsMapped(v1)
    ensures exists y: nat :: IsFree(s, y) &&
              HeuristicTerm(g1, g2, s, v1) == Min(IntMax, CandidateCost(g1, g2, s.mapping, v1, y))
    ensures forall y: nat :: IsFree(s, y) ==> HeuristicTerm(g1, g2, s, v1) <= CandidateCost(g1, g2, s.mapping, v1, y)
  {
    FreeVertexExists(s.mapping, v1);
    var y: nat :| y < s.mapping.sizeG2 && !s.mapping.IsUsed(y);
    assert IsFree(s, y);
  }

  /** The edges G2 pair (v2, u2) lacks for G1 pair (v1, u1). */
  method CalculateSingleDirection(g1: Graph, v1: nat, u1: nat, g2: Graph, v2: nat, u2: nat) returns (cost: int)
    requires g1.Valid() && g2.Valid() && v1 < g1.vertices && u1 < g1.vertices && v2 < g2.vertices && u2 < g2.vertices
    ensures cost == SingleDirection(g1.View(), v1, u1, g2.View(), v2, u2)
  {
    cost := 0;
    var edgesG1 := g1.GetEdges(v1, u1);
    if edgesG1 > 0 {
      var edgesG2 := g2.GetEdges(v2, u2);
      if edgesG1 > edgesG2 {
        cost := cost + (edgesG1 - edgesG2);
      }
    }
  }

  /** The incremental cost of x, by a loop over the G1 vertices. */
  method CalculateIncrementalCost(g1: Graph, g2: Graph, a: Assignment, x: nat) returns (cost: int)
    requires g1.Valid() && g2.Valid() && Fits(g1.View(), g2.View(), a) && a.Consistent()
    requires x < g1.vertices && a.IsMapped(x)
    ensures cost == IncrementalCost(g1.View(), g2.View(), a, x)
  {
    ghost var G1, G2 := g1.View(), g2.View();
    cost := 0;
    var u: nat := 0;
    while u < g1.vertices
      invariant u <= g1.vertices
      invariant cost == Sum(u, IncrementalTerms(G1, G2, a, x))
    {
      ghost var before := cost;
      if a.IsMapped(u) {
        var edgesUV := g1.GetEdges(u, x);
        if edgesUV > 0 {
          var edgesG2 := g2.GetEdges(a.forward[u], a.forward[x]);
          if edgesUV > edgesG2 {
            cost := cost + (edgesUV - edgesG2);
          }
        }
        if u != x {
          var edgesVU := g1.GetEdges(x, u);
          if edgesVU > 0 {
            var edgesG2 := g2.GetEdges(a.forward[x], a.forward[u]);
            if edgesVU > edgesG2 {
              cost := cost + (edgesVU - edgesG2);
            }
          }
        }
      }
      assert cost == before + IncrementalTerms(G1, G2, a, x)(u);
      u := u + 1;
    }
  }

  /** The cost of mapping v1 to v2, by a loop over the neighbours of v1. */
  method CalculateAssignmentCost(g1: Graph, g2: Graph, a: Assignment, v1: nat, v2: nat) returns (cost: int)
    requires g1.Valid() && g2.Valid() && Fits(g1.View(), g2.View(), a) && a.Consistent()
    requires v1 < g1.vertices && v2 < g2.vertices
    ensures cost == AssignmentCost(g1.View(), g2.View(), a, v1, v2)
  {
    cost := 0;
    var u: nat := 0;
    while u < g1.vertices
      invariant u <= g1.vertices
      invariant cost == Sum(u, AssignmentTerms(g1.View(), g2.View(), a, v1, v2))
    {
      var outgoing := g1.GetEdges(v1, u);
      var incoming := g1.GetEdges(u, v1);
      if outgoing > 0 || incoming > 0 {
        if u == v1 {
          var c := CalculateSingleDirection(g1, v1, u, g2, v2, v2);
          cost := cost + c;
        } else if a.IsMapped(u) {
          var u2 := a.forward[u];
          var c1 := CalculateSingleDirection(g1, v1, u, g2, v2, u2);
          var c2 := CalculateSingleDirection(g1, u, v1, g2, u2, v2);
          cost := cost + c1 + c2;
        }
      }
      u := u + 1;
    }
  }

  /** The candidate cost of v2 for v1, by a loop over the neighbours of v1. */
  method CalculateCandidateCost(g1: Graph, g2: Graph, a: Assignment, v1: nat, v2: nat) returns (cost: int)
    requires g1.Valid() && g2.Valid() && Fits(g1.View(), g2.View(), a) && a.Consistent()
    requires v1 < g1.vertices && v2 < g2.vertices
    ensures cost == CandidateCost(g1.View(), g2.View(), a, v1, v2)
  {
    ghost var G1, G2 := g1.View(), g2.View();
    cost := 0;
    var u: nat := 0;
    while u < g1.vertices
      invariant u <= g1.vertices
      invariant cost == Sum(u, CandidateTerms(G1, G2, a, v1, v2))
    {
      ghost var before := cost;
      var outgoing := g1.GetEdges(v1, u);
      var incoming := g1.GetEdges(u, v1);
      if (outgoing > 0 || incoming > 0) && a.IsMapped(u) {
        var u2 := a.forward[u];
        var c1 := CalculateSingleDirection(g1, v1, u, g2, v2, u2);
        var c2 := CalculateSingleDirection(g1, u, v1, g2, u2, v2);
        cost := cost + (c1 + c2);
      }
      assert cost == before + CandidateTerms(G1, G2, a, v1, v2)(u);
      u := u + 1;
    }
  }

  /** The cheapest free candidate of v1, by a running minimum from IntMax
      over the G2 vertices whose mask bit is clear. */
  method CalculateMinCandidate(g1: Graph, g2: Graph, s: SearchState, v1: nat) returns (minCost: int)
    requires g1.Valid() && g2.Valid() && Fits(g1.View(), g2.View(), s.mapping) && s.mapping.Consistent()
    requires |s.used| == g2.vertices && v1 < g1.vertices
    ensures minCost == MinCandidate(g1.View(), g2.View(), s, v1, g2.vertices)
  {
    ghost var G1, G2 := g1.View(), g2.View();
    minCost := IntMax;
    var v2: nat := 0;
    while v2 < g2.vertices
      invariant v2 <= g2.vertices
      invariant minCost == MinCandidate(G1, G2, s, v1, v2)
    {
      if !s.used[v2] {
        var candidate := CalculateCandidateCost(g1, g2, s.mapping, v1, v2);
        minCost := Min(minCost, candidate);
      }
      v2 := v2 + 1;
    }
  }

  /** The heuristic, by a loop over the unmapped G1 vertices. */
  method CalculateHeuristic(g1: Graph, g2: Graph, s: SearchState) returns (h: int)
    requires g1.Valid() && g2.Valid() && Fits(g1.View(), g2.View(), s.mapping) && s.mapping.Consistent()
    requires |s.used| == g2.vertices
    ensures h == Heuristic(g1.View(), g2.View(), s)
  {
    h := 0;
    var v1: nat := 0;
    while v1 < g1.vertices
      invariant v1 <= g1.vertices
      invariant h == Sum(v1, HeuristicTerms(g1.View(), g2.View(), s))
    {
      var term := 0;
      if !s.mapping.IsMapped(v1) {
        term := CalculateMinCandidate(g1, g2, s, v1);
      }
      assert term == HeuristicTerms(g1.View(), g2.View(), s)(v1);
      h := h + term;
      v1 := v1 + 1;
    }
  }
}

/** The fail-first choice of the next G1 vertex to map. */
module Ordering {
  import opened Sums
  import opened Graphs
  import opened Assignments

  /** The all-ones 32-bit value returned when no vertex is left. */
  const NoVertex: nat := 0xFFFF_FFFF

  /** Indicator of the mapped neighbours of v. */
  function MappedNeighbourIndicator(g: Digraph, a: Assignment, v: nat): nat -> int
  {
    (u: nat) => if g.Adjacent(v, u) && a.IsMapped(u) then 1 else 0
  }

  /** The number of neighbours of v that are already mapped: at most the
      number of its neighbours. */
  function MappedNeighbourCount(g: Digraph, a: Assignment, v: nat): (r: nat)
    ensures r <= g.NeighbourCount(v)
  {
    SumNonNegative(g.n, MappedNeighbourIndicator(g, a, v));
    SumLe(g.n, MappedNeighbourIndicator(g, a, v), g.NeighbourIndicator(v));
    Sum(g.n, MappedNeighbourIndicator(g, a, v))
  }

  /** Lexicographic order on (mapped neighbours, total neighbours). */
  predicate KeyLe(g: Digraph, a: Assignment, v: nat, w: nat)
  {
    MappedNeighbourCount(g, a, v) < MappedNeighbourCount(g, a, w) ||
    (MappedNeighbourCount(g, a, v) == MappedNeighbourCount(g, a, w) && g.NeighbourCount(v) <= g.NeighbourCount(w))
  }

  /** v is the last vertex of maximal neighbour count. */
  ghost predicate IsLastMostConnected(g: Digraph, v: nat)
  {
    v < g.n &&
    (forall u :: 0 <= u < g.n ==> g.NeighbourCount(u) <= g.NeighbourCount(v)) &&
    (forall u :: v < u < g.n ==> g.NeighbourCount(u) < g.NeighbourCount(v))
  }

  /** v is the last unmapped vertex whose key is maximal among the unmapped
      vertices. */
  ghost predicate IsLastMostConstrained(g: Digraph, a: Assignment, v: nat)
  {
    v < g.n && !a.IsMapped(v) &&
    (forall u :: 0 <= u < g.n && !a.IsMapped(u) ==> KeyLe(g, a, u, v)) &&
    (forall u :: v < u < g.n && !a.IsMapped(u) ==> !KeyLe(g, a, v, u))
  }

  /** Counts the neighbours of v and those of them already mapped. */
  method CountNeighbours(g: Graph, a: Assignment, v: nat) returns (mapped: nat, total: nat)
    requires g.Valid() && v < g.vertices
    ensures mapped == MappedNeighbourCount(g.View(), a, v)
    ensures total == g.View().NeighbourCount(v)
    ensures mapped <= total
  {
    ghost var gv := g.View();
    mapped, total := 0, 0;
    var u: nat := 0;
    while u < g.vertices
      invariant u <= g.vertices
      invariant mapped == Sum(u, MappedNeighbourIndicator(gv, a, v))
      invariant total == Sum(u, gv.NeighbourIndicator(v))
      invariant mapped <= total
    {
      var outgoing := g.GetEdges(v, u);
      var incoming := g.GetEdges(u, v);
      if outgoing > 0 || incoming > 0 {
        if a.IsMapped(u) {
          mapped := mapped + 1;
        }
        total := total + 1;
      }
      u := u + 1;
    }
  }

  /** The last vertex of maximal neighbour count (the first choice, when
      nothing is mapped yet). */
  method PickMostConnected(g: Graph) returns (best: nat)
    requires g.Valid() && g.vertices > 0
    ensures IsLastMostConnected(g.View(), best)
  {
    ghost var gv := g.View();
    best := NoVertex;
    var maxNeighbours := 0;
    var v: nat := 0;
    while v < g.vertices
      invariant v <= g.vertices
      invariant v == 0 ==> maxNeighbours == 0
      invariant v > 0 ==> best < v && maxNeighbours == gv.NeighbourCount(best)
      invariant forall u :: 0 <= u < v ==> gv.NeighbourCount(u) <= maxNeighbours
      invariant forall u :: best < u < v ==> gv.NeighbourCount(u) < maxNeighbours
    {
      var count := g.GetNumOfNeighbours(v);
      if count >= maxNeighbours {
        maxNeighbours := count;
        best := v;
      }
      v := v + 1;
    }
  }

  /** The last unmapped vertex maximising (mapped neighbours, total
      neighbours), or NoVertex when every vertex is mapped. */
  method PickMostConstrained(g: Graph, a: Assignment) returns (best: nat)
    requires g.Valid() && a.Shaped() && a.sizeG1 == g.vertices
    ensures (exists v :: 0 <= v < g.vertices && !a.IsMapped(v)) ==> IsLastMostConstrained(g.View(), a, best)
    ensures (forall v :: 0 <= v < g.vertices ==> a.IsMapped(v)) ==> best == NoVertex
  {
    ghost var gv := g.View();
    best := NoVertex;
    ghost var found := false;
    var maxMapped, maxTotal := 0, 0;
    var v: nat := 0;
    while v < g.vertices
      invariant v <= g.vertices
      invariant !found <==> forall u :: 0 <= u < v ==> a.IsMapped(u)
      invariant !found ==> best == NoVertex && maxMapped == 0 && maxTotal == 0
      invariant found ==>
                  best < v && !a.IsMapped(best) &&
                  maxMapped == MappedNeighbourCount(gv, a, best) && maxTotal == gv.NeighbourCount(best)
      invariant found ==> forall u :: 0 <= u < v && !a.IsMapped(u) ==> KeyLe(gv, a, u, best)
      invariant found ==> forall u :: best < u < v && !a.IsMapped(u) ==> !KeyLe(gv, a, best, u)
    {
      if !a.IsMapped(v) {
        var mapped, total := CountNeighbours(g, a, v);
        if mapped > maxMapped || (mapped == maxMapped && total >= maxTotal) {
          found := true;
          best := v;
          maxMapped := mapped;
          maxTotal := total;
        }
      }
      v := v + 1;
    }
  }

  /** With nothing mapped (by the stored count): the last vertex of maximal
      neighbour count. Otherwise: the last unmapped vertex maximising
      (mapped neighbours, total neighbours), or NoVertex when every vertex
      is mapped. */
  method PickNextVertex(g: Graph, s: SearchState) returns (best: nat)
    requires g.Valid() && s.mapping.Shaped() && s.mapping.sizeG1 == g.vertices
    requires s.mapping.count == 0 ==> g.vertices > 0
    ensures s.mapping.count == 0 ==> IsLastMostConnected(g.View(), best)
    ensures s.mapping.count != 0 && (exists v :: 0 <= v < g.vertices && !s.mapping.IsMapped(v)) ==>
              IsLastMostConstrained(g.View(), s.mapping, best)
    ensures s.mapping.count != 0 && (forall v :: 0 <= v < g.vertices ==> s.mapping.IsMapped(v)) ==>
              best == NoVertex
  {
    if s.mapping.count == 0 {
      best := PickMostConnected(g);
    } else {
      best := PickMostConstrained(g, s.mapping);
    }
  }
}

/** The exhaustive branch-and-bound search for the k cheapest full mappings. */
module BruteForce {
  import opened Graphs
  import opened Assignments
  import opened Costs

  /** A kept result: its cost and its mapping. */
  type Entry = (int, Assignment)

  /** Kept results in ascending cost order. */
  predicate SortedByCost(best: seq<Entry>)
  {
    forall i, j :: 0 <= i < j < |best| ==> best[i].0 <= best[j].0
  }

  /** Some kept result equals m in the sense of mapping equality. */
  method IsMappingPresent(m: Assignment, best: seq<Entry>) returns (present: bool)
    ensures present <==> exists i :: 0 <= i < |best| && Same(best[i].1, m)
  {
    var i: nat := 0;
    while i < |best|
      invariant i <= |best|
      invariant forall j :: 0 <= j < i ==> !Same(best[j].1, m)
    {
      if Same(best[i].1, m) {
        return true;
      }
      i := i + 1;
    }
    return false;
  }

  /** The number of leading entries whose cost is at most c: where an
      ordered multimap inserts a new entry of cost c (after equal keys). */
  function UpperBound(best: seq<Entry>, c: int): (p: nat)
    ensures p <= |best|
    ensures SortedByCost(best) ==>
              (forall i :: 0 <= i < p ==> best[i].0 <= c) && (forall i :: p <= i < |best| ==> best[i].0 > c)
  {
    if best == [] || c < best[0].0 then 0 else 1 + UpperBound(best[1..], c)
  }

  /** Inserts e after every entry of cost at most e's. */
  function InsertSorted(best: seq<Entry>, e: Entry): (r: seq<Entry>)
    ensures |r| == |best| + 1
    ensures forall x :: x in r <==> x in best || x == e
  {
    var p := UpperBound(best, e.0);
    assert best == best[..p] + best[p..];
    best[..p] + [e] + best[p..]
  }

  /** Where the inserted entry lands: everything before it is unchanged and
      everything after it moves up one place. */
  lemma InsertPlaces(best: seq<Entry>, e: Entry)
    ensures var p := UpperBound(best, e.0);
            var r := InsertSorted(best, e);
            r[p] == e &&
            (forall i :: 0 <= i < p ==> r[i] == best[i]) &&
            (forall i :: p < i < |r| ==> r[i] == best[i - 1])
  {
  }

  /** Insertion keeps the ascending order, and the costliest entry
      afterwards is the costlier of e and the previous costliest. */
  lemma InsertKeepsOrder(best: seq<Entry>, e: Entry)
    requires SortedByCost(best)
    ensures SortedByCost(InsertSorted(best, e))
    ensures InsertSorted(best, e)[|best|].0 ==
              if best == [] || best[|best| - 1].0 < e.0 then e.0 else best[|best| - 1].0
  {
    var p := UpperBound(best, e.0);
    var r := InsertSorted(best, e);
    InsertPlaces(best, e);
    forall i, j | 0 <= i < j < |r|
      ensures r[i].0 <= r[j].0
    {
      if j < p {
      } else if j == p {
      } else if i < p {
        assert best[i].0 <= best[j - 1].0;
      } else if i == p {
      } else {
      }
    }
  }

  /** No two kept results hold the same mapping. */
  predicate DistinctMappings(best: seq<Entry>)
  {
    forall i, j :: 0 <= i < j < |best| ==> best[i].1 != best[j].1
  }

  /** Inserting a mapping not yet kept keeps the kept mappings distinct. */
  lemma InsertKeepsDistinct(best: seq<Entry>, e: Entry)
    requires DistinctMappings(best)
    requires forall i :: 0 <= i < |best| ==> best[i].1 != e.1
    ensures DistinctMappings(InsertSorted(best, e))
  {
    var p := UpperBound(best, e.0);
    var r := InsertSorted(best, e);
    InsertPlaces(best, e);
    forall i, j | 0 <= i < j < |r|
      ensures r[i].1 != r[j].1
    {
      if j < p {
      } else if j == p {
      } else if i < p {
      } else if i == p {
      } else {
      }
    }
  }

  /** The kept results rank mappings by `cost`: at most k of them, in
      ascending cost, each with the cost of its mapping, no two equal. */
  ghost predicate Ranked(cost: Assignment -> int, k: int, best: seq<Entry>)
  {
    |best| <= k && SortedByCost(best) && DistinctMappings(best) &&
    forall i :: 0 <= i < |best| ==> best[i].0 == cost(best[i].1)
  }

  /** Every kept mapping maps all n1 vertices of G1 into the n2 of G2. */
  ghost predicate AllFull(n1: nat, n2: nat, best: seq<Entry>)
  {
    forall i :: 0 <= i < |best| ==> IsFullMapping(best[i].1) && best[i].1.sizeG1 == n1 && best[i].1.sizeG2 == n2
  }

  /** M is accounted for by the kept results: kept itself, or k results are
      kept and none costs more than M. */
  ghost predicate Dominated(cost: Assignment -> int, k: int, best: seq<Entry>, m: Assignment)
  {
    (exists i :: 0 <= i < |best| && best[i].1 == m) ||
    (|best| == k && |best| > 0 && cost(m) >= best[|best| - 1].0)
  }

  /** Every mapping accounted for by `before` is accounted for by `after`. */
  ghost predicate Improves(cost: Assignment -> int, k: int, before: seq<Entry>, after: seq<Entry>)
  {
    forall m :: Dominated(cost, k, before, m) ==> Dominated(cost, k, after, m)
  }

  /** A full mapping that extends a full mapping is that mapping. */
  lemma FullExtensionIsEqual(m: Assignment, a: Assignment)
    requires IsFullMapping(m) && IsFullMapping(a) && Extends(m, a)
    ensures m == a
  {
    FullMappingMapsAll(a);
    forall x | 0 <= x < a.sizeG1
      ensures m.forward[x] == a.forward[x]
    {
      assert a.IsMapped(x);
    }
    assert m.forward == a.forward;
    assert Same(m, a);
    SameIsEquality(m, a);
  }

  /** Inserting a full mapping, or dropping the last entry, keeps every
      kept mapping full. */
  lemma InsertKeepsFull(n1: nat, n2: nat, best: seq<Entry>, e: Entry)
    requires AllFull(n1, n2, best) && IsFullMapping(e.1) && e.1.sizeG1 == n1 && e.1.sizeG2 == n2
    ensures AllFull(n1, n2, InsertSorted(best, e))
    ensures |best| > 0 ==> AllFull(n1, n2, InsertSorted(best[..|best| - 1], e))
  {
    var r := InsertSorted(best, e);
    forall i | 0 <= i < |r|
      ensures IsFullMapping(r[i].1) && r[i].1.sizeG1 == n1 && r[i].1.sizeG2 == n2
    {
      assert r[i] in best || r[i] == e;
    }
    if |best| > 0 {
      var kept := best[..|best| - 1];
      var r' := InsertSorted(kept, e);
      forall i | 0 <= i < |r'|
        ensures IsFullMapping(r'[i].1) && r'[i].1.sizeG1 == n1 && r'[i].1.sizeG2 == n2
      {
        assert r'[i] in kept || r'[i] == e;
        assert r'[i] in kept ==> r'[i] in best;
      }
    }
  }

  /** Inserting a new mapping with its cost keeps the ranking, one longer. */
  lemma InsertKeepsRanked(cost: Assignment -> int, k: int, best: seq<Entry>, e: Entry)
    requires Ranked(cost, k - 1, best) && e.0 == cost(e.1)
    requires forall i :: 0 <= i < |best| ==> best[i].1 != e.1
    ensures Ranked(cost, k, InsertSorted(best, e))
  {
    var r := InsertSorted(best, e);
    InsertKeepsOrder(best, e);
    InsertKeepsDistinct(best, e);
    forall i | 0 <= i < |r|
      ensures r[i].0 == cost(r[i].1)
    {
      assert r[i] in best || r[i] == e;
    }
  }

  /** Keeping a new mapping while fewer than k are kept. */
  lemma InsertImproves(cost: Assignment -> int, k: int, best: seq<Entry>, e: Entry)
    requires Ranked(cost, k, best) && |best| < k && e.0 == cost(e.1)
    requires forall i :: 0 <= i < |best| ==> best[i].1 != e.1
    ensures Ranked(cost, k, InsertSorted(best, e)) && Improves(cost, k, best, InsertSorted(best, e))
    ensures Dominated(cost, k, InsertSorted(best, e), e.1)
  {
    var r := InsertSorted(best, e);
    InsertKeepsRanked(cost, k, best, e);
    forall m | Dominated(cost, k, best, m)
      ensures Dominated(cost, k, r, m)
    {
      var i :| 0 <= i < |best| && best[i].1 == m;
      assert best[i] in r;
    }
    assert e in r;
  }

  /** Replacing the costliest kept mapping by a strictly cheaper new one. */
  lemma ReplaceImproves(cost: Assignment -> int, k: int, best: seq<Entry>, e: Entry)
    requires Ranked(cost, k, best) && |best| == k && k >= 1 && e.0 < best[|best| - 1].0 && e.0 == cost(e.1)
    requires forall i :: 0 <= i < |best| ==> best[i].1 != e.1
    ensures Ranked(cost, k, InsertSorted(best[..|best| - 1], e))
    ensures Improves(cost, k, best, InsertSorted(best[..|best| - 1], e))
    ensures Dominated(cost, k, InsertSorted(best[..|best| - 1], e), e.1)
  {
    var kept := best[..|best| - 1];
    var r := InsertSorted(kept, e);
    assert Ranked(cost, k - 1, kept);
    InsertKeepsRanked(cost, k, kept, e);
    InsertKeepsOrder(kept, e);
    assert kept != [] ==> kept[|kept| - 1].0 <= best[|best| - 1].0;
    assert r[|r| - 1].0 <= best[|best| - 1].0;
    forall m | Dominated(cost, k, best, m)
      ensures Dominated(cost, k, r, m)
    {
      if exists i :: 0 <= i < |best| && best[i].1 == m {
        var i :| 0 <= i < |best| && best[i].1 == m;
        if i < |best| - 1 {
          assert kept[i] in r;
        }
      }
    }
    assert e in r;
  }

  /** A full mapping reached by the search is kept unless it is kept
      already: appended in cost order while fewer than k are kept, otherwise
      in place of the costliest kept one (the caller has checked that it is
      strictly cheaper). */
  method KeepMapping(ghost cost: Assignment -> int, k: int, m: Assignment, mCost: int, best: seq<Entry>)
    returns (best': seq<Entry>)
    requires k >= 1 && Ranked(cost, k, best) && AllFull(m.sizeG1, m.sizeG2, best)
    requires IsFullMapping(m) && mCost == cost(m)
    requires |best| == k ==> mCost < best[|best| - 1].0
    ensures Ranked(cost, k, best') && AllFull(m.sizeG1, m.sizeG2, best')
    ensures Improves(cost, k, best, best') && Dominated(cost, k, best', m)
  {
    best' := best;
    var present := IsMappingPresent(m, best);
    if present {
      ghost var i :| 0 <= i < |best| && Same(best[i].1, m);
      SameIsEquality(best[i].1, m);
      return;
    }
    InsertKeepsFull(m.sizeG1, m.sizeG2, best, (mCost, m));
    if |best| < k {
      InsertImproves(cost, k, best, (mCost, m));
      best' := InsertSorted(best, (mCost, m));
    } else if mCost < best[|best| - 1].0 {
      ReplaceImproves(cost, k, best, (mCost, m));
      best' := InsertSorted(best[..|best| - 1], (mCost, m));
    }
  }

  /** Mapping the next vertex in order to a free G2 vertex gives a valid
      mapping of one more vertex, with that G2 vertex now in use. */
  lemma DescendKeepsShape(a: Assignment, depth: nat, y: nat)
    requires a.Valid() && depth < a.sizeG1 && y < a.sizeG2 && !a.IsUsed(y)
    requires forall x :: 0 <= x < a.sizeG1 ==> (a.IsMapped(x) <==> x < depth)
    ensures Set(a, depth, y).Valid()
    ensures forall x :: 0 <= x < a.sizeG1 ==> (Set(a, depth, y).IsMapped(x) <==> x < depth + 1)
    ensures forall t :: 0 <= t < a.sizeG2 ==> (Set(a, depth, y).IsUsed(t) <==> a.IsUsed(t) || t == y)
  {
    SetKeepsValid(a, depth, y);
    forall x | 0 <= x < a.sizeG1
      ensures Set(a, depth, y).IsMapped(x) <==> x < depth + 1
    {
      if x != depth {
        assert Set(a, depth, y).forward[x] == a.forward[x];
        assert a.IsMapped(x) <==> x < depth;
      }
    }
  }

  /** After the subtree below "depth maps to y" is searched, every full
      extension of a that maps depth to y or below is accounted for. */
  lemma StepCovers(cost: Assignment -> int, k: int, a: Assignment, depth: nat, y: nat,
                   before: seq<Entry>, after: seq<Entry>)
    requires a.Consistent() && depth < a.sizeG1 && y < a.sizeG2 && !a.IsMapped(depth)
    requires forall m :: IsFullMapping(m) && Extends(m, a) && 0 <= m.forward[depth] < y ==> Dominated(cost, k, before, m)
    requires Improves(cost, k, before, after)
    requires forall m :: IsFullMapping(m) && Extends(m, Set(a, depth, y)) ==> Dominated(cost, k, after, m)
    ensures forall m :: IsFullMapping(m) && Extends(m, a) && 0 <= m.forward[depth] < y + 1 ==> Dominated(cost, k, after, m)
  {
    forall m | IsFullMapping(m) && Extends(m, a) && 0 <= m.forward[depth] < y + 1
      ensures Dominated(cost, k, after, m)
    {
      if m.forward[depth] == y {
        assert Extends(m, Set(a, depth, y));
      }
    }
  }

  /** No full extension of a maps the unmapped vertex depth to a G2 vertex
      a already uses. */
  lemma UsedSkips(cost: Assignment -> int, k: int, a: Assignment, depth: nat, y: nat, best: seq<Entry>)
    requires a.Consistent() && depth < a.sizeG1 && y < a.sizeG2 && !a.IsMapped(depth) && a.IsUsed(y)
    requires forall m :: IsFullMapping(m) && Extends(m, a) && 0 <= m.forward[depth] < y ==> Dominated(cost, k, best, m)
    ensures forall m :: IsFullMapping(m) && Extends(m, a) && 0 <= m.forward[depth] < y + 1 ==> Dominated(cost, k, best, m)
  {
    forall m | IsFullMapping(m) && Extends(m, a) && 0 <= m.forward[depth] < y + 1
      ensures Dominated(cost, k, best, m)
    {
      ExtensionUsesFreeVertices(m, a, depth);
    }
  }

  /** The recursive search. At depth d the vertices below d are mapped, in
      order; each free G2 vertex is tried for d, the subtree searched, and
      the choice undone. A subtree is skipped when k results are kept and
      the current cost already reaches the costliest of them. On return the
      mapping and the used mask are as they were, the kept results only
      improve, and every full mapping extending the current one is
      accounted for. */
  method BruteForceRecursive(g1: Graph, g2: Graph, k: int, current: Mapping, currentCost: int,
                             used: array<bool>, depth: nat, best: seq<Entry>)
    returns (best': seq<Entry>)
    requires g1.Valid() && g2.Valid() && k >= 1
    requires Fits(g1.View(), g2.View(), current.View()) && current.View().Valid()
    requires used.Length == g2.vertices && forall y :: 0 <= y < used.Length ==> (used[y] <==> current.View().IsUsed(y))
    requires depth <= g1.vertices && forall x :: 0 <= x < g1.vertices ==> (current.View().IsMapped(x) <==> x < depth)
    requires currentCost == MissingEdges(g1.View(), g2.View(), current.View())
    requires Ranked(CostOf(g1.View(), g2.View()), k, best) && AllFull(g1.vertices, g2.vertices, best)
    modifies current, used
    decreases g1.vertices - depth, 1
    ensures current.View() == old(current.View()) && used[..] == old(used[..])
    ensures Ranked(CostOf(g1.View(), g2.View()), k, best') && AllFull(g1.vertices, g2.vertices, best')
    ensures Improves(CostOf(g1.View(), g2.View()), k, best, best')
    ensures forall m :: IsFullMapping(m) && Extends(m, current.View()) ==> Dominated(CostOf(g1.View(), g2.View()), k, best', m)
  {
    ghost var G1, G2 := g1.View(), g2.View();
    ghost var cost := CostOf(G1, G2);
    ghost var a := current.View();
    best' := best;
    if |best'| > 0 && |best'| == k {
      if currentCost >= best'[|best'| - 1].0 {
        forall m | IsFullMapping(m) && Extends(m, a)
          ensures Dominated(cost, k, best', m)
        {
          MissingEdgesMonotone(G1, G2, a, m);
          assert cost(m) == MissingEdges(G1, G2, m);
        }
        return;
      }
    }
    if depth == g1.vertices {
      forall x | 0 <= x < |a.forward|
        ensures a.forward[x] != Unmapped
      {
        assert a.IsMapped(x);
      }
      CountMappedFull(a.forward);
      assert IsFullMapping(a);
      var snapshot := current.View();
      best' := KeepMapping(cost, k, snapshot, currentCost, best');
      forall m | IsFullMapping(m) && Extends(m, a)
        ensures Dominated(cost, k, best', m)
      {
        FullExtensionIsEqual(m, a);
      }
      return;
    }
    var candidate: nat := 0;
    while candidate < g2.vertices
      invariant candidate <= g2.vertices
      invariant current.View() == a && used[..] == old(used[..])
      invariant Ranked(cost, k, best') && AllFull(g1.vertices, g2.vertices, best') && Improves(cost, k, best, best')
      invariant forall m :: IsFullMapping(m) && Extends(m, a) && 0 <= m.forward[depth] < candidate ==>
                  Dominated(cost, k, best', m)
    {
      if used[candidate] {
        UsedSkips(cost, k, a, depth, candidate, best');
        candidate := candidate + 1;
        continue;
      }
      best' := TryCandidate(g1, g2, k, current, currentCost, used, depth, candidate, best, best');
      candidate := candidate + 1;
    }
    forall m | IsFullMapping(m) && Extends(m, a)
      ensures Dominated(cost, k, best', m)
    {
      ExtensionUsesFreeVertices(m, a, depth);
    }
  }

  /** One turn of the candidate loop: G1 vertex `depth` goes to the free
      G2 vertex `candidate`, the search descends, and both are undone; the
      full mappings that send `depth` below candidate + 1 are then all
      accounted for. */
  method TryCandidate(g1: Graph, g2: Graph, k: int, current: Mapping, currentCost: int,
                      used: array<bool>, depth: nat, candidate: nat, ghost start: seq<Entry>, best: seq<Entry>)
    returns (best': seq<Entry>)
    requires g1.Valid() && g2.Valid() && k >= 1
    requires Fits(g1.View(), g2.View(), current.View()) && current.View().Valid()
    requires used.Length == g2.vertices && forall y :: 0 <= y < used.Length ==> (used[y] <==> current.View().IsUsed(y))
    requires depth < g1.vertices && forall x :: 0 <= x < g1.vertices ==> (current.View().IsMapped(x) <==> x < depth)
    requires candidate < g2.vertices && !used[candidate]
    requires currentCost == MissingEdges(g1.View(), g2.View(), current.View())
    requires Ranked(CostOf(g1.View(), g2.View()), k, best) && AllFull(g1.vertices, g2.vertices, best)
    requires Improves(CostOf(g1.View(), g2.View()), k, start, best)
    requires forall m :: IsFullMapping(m) && Extends(m, current.View()) && 0 <= m.forward[depth] < candidate ==>
               Dominated(CostOf(g1.View(), g2.View()), k, best, m)
    modifies current, used
    decreases g1.vertices - depth, 0
    ensures current.View() == old(current.View()) && used[..] == old(used[..])
    ensures Ranked(CostOf(g1.View(), g2.View()), k, best') && AllFull(g1.vertices, g2.vertices, best')
    ensures Improves(CostOf(g1.View(), g2.View()), k, start, best')
    ensures forall m :: IsFullMapping(m) && Extends(m, current.View()) && 0 <= m.forward[depth] < candidate + 1 ==>
              Dominated(CostOf(g1.View(), g2.View()), k, best', m)
  {
    ghost var G1, G2 := g1.View(), g2.View();
    ghost var cost := CostOf(G1, G2);
    ghost var a := current.View();
    DescendKeepsShape(a, depth, candidate);
    IncrementalAdditivity(G1, G2, a, depth, candidate);
    current.SetMapping(depth, candidate);
    used[candidate] := true;
    var incrementalCost := CalculateIncrementalCost(g1, g2, current.View(), depth);
    best' := BruteForceRecursive(g1, g2, k, current, currentCost + incrementalCost, used, depth + 1, best);
    used[candidate] := false;
    var _ := current.RemoveMappingG1(depth);
    SetThenRemove(a, depth, candidate);
    StepCovers(cost, k, a, depth, candidate, best, best');
  }

  /** The mappings of a ranked list account for every mapping the list
      accounts for. */
  lemma DominatedByMappings(cost: Assignment -> int, k: int, best: seq<Entry>, result: seq<Assignment>, m: Assignment)
    requires Ranked(cost, k, best) && Dominated(cost, k, best, m)
    requires |result| == |best| && forall j :: 0 <= j < |best| ==> result[j] == best[j].1
    ensures m in result || (|result| == k && cost(m) >= cost(result[|result| - 1]))
  {
    if exists j :: 0 <= j < |best| && best[j].1 == m {
      var j :| 0 <= j < |best| && best[j].1 == m;
      assert result[j] == m;
    }
  }

  /** The mappings of the kept results, in their order. */
  method CollectMappings(best: seq<Entry>) returns (result: seq<Assignment>)
    ensures |result| == |best| && forall j :: 0 <= j < |best| ==> result[j] == best[j].1
  {
    result := [];
    var i: nat := 0;
    while i < |best|
      invariant i <= |best|
      invariant |result| == i && forall j :: 0 <= j < i ==> result[j] == best[j].1
    {
      result := result + [best[i].1];
      i := i + 1;
    }
  }

  /** The mappings of the final ranking, once it accounts for every full
      mapping: at least one and at most k of them, all full, distinct,
      cheapest first, and every full mapping is among them or costs no less
      than the last of k. */
  lemma FinalRanking(G1: Digraph, G2: Digraph, n1: nat, n2: nat, k: int, best: seq<Entry>, result: seq<Assignment>)
    requires k >= 1 && n1 <= n2
    requires Ranked(CostOf(G1, G2), k, best) && AllFull(n1, n2, best)
    requires forall m :: IsFullMapping(m) && Extends(m, Fresh(n1, n2)) ==> Dominated(CostOf(G1, G2), k, best, m)
    requires |result| == |best| && forall j :: 0 <= j < |best| ==> result[j] == best[j].1
    ensures 1 <= |result| <= k
    ensures forall i :: 0 <= i < |result| ==> IsFullMapping(result[i]) && result[i].sizeG1 == n1 && result[i].sizeG2 == n2
    ensures forall i, j :: 0 <= i < j < |result| ==> result[i] != result[j]
    ensures forall i, j :: 0 <= i < j < |result| ==> MissingEdges(G1, G2, result[i]) <= MissingEdges(G1, G2, result[j])
    ensures forall m :: IsFullMapping(m) && m.sizeG1 == n1 && m.sizeG2 == n2 ==>
              m in result || (|result| == k && MissingEdges(G1, G2, m) >= MissingEdges(G1, G2, result[|result| - 1]))
  {
    var empty := Fresh(n1, n2);
    forall x | 0 <= x < n1
      ensures empty.forward[x] == Unmapped
    {
      assert !empty.IsMapped(x);
    }
    var identity := Identity(n1, n2);
    assert Extends(identity, empty);
    assert Dominated(CostOf(G1, G2), k, best, identity);
    forall m | IsFullMapping(m) && m.sizeG1 == n1 && m.sizeG2 == n2
      ensures m in result || (|result| == k && MissingEdges(G1, G2, m) >= MissingEdges(G1, G2, result[|result| - 1]))
    {
      assert Dominated(CostOf(G1, G2), k, best, m);
      DominatedByMappings(CostOf(G1, G2), k, best, result, m);
    }
  }

  /** Up to k full mappings of least missing-edge count, cheapest first;
      none when G1 has more vertices than G2. */
  method AccurateBruteForce(g1: Graph, g2: Graph, k: int) returns (result: seq<Assignment>)
    requires g1.Valid() && g2.Valid() && k >= 1
    ensures g1.vertices > g2.vertices ==> result == []
    ensures g1.vertices <= g2.vertices ==> 1 <= |result| <= k
    ensures forall i :: 0 <= i < |result| ==>
              IsFullMapping(result[i]) && result[i].sizeG1 == g1.vertices && result[i].sizeG2 == g2.vertices
    ensures forall i, j :: 0 <= i < j < |result| ==> result[i] != result[j]
    ensures forall i, j :: 0 <= i < j < |result| ==>
              MissingEdges(g1.View(), g2.View(), result[i]) <= MissingEdges(g1.View(), g2.View(), result[j])
    ensures forall m :: IsFullMapping(m) && m.sizeG1 == g1.vertices && m.sizeG2 == g2.vertices ==>
              m in result ||
              (|result| == k && MissingEdges(g1.View(), g2.View(), m) >= MissingEdges(g1.View(), g2.View(), result[|result| - 1]))
  {
    if g1.vertices > g2.vertices {
      forall m | IsFullMapping(m) && m.sizeG1 == g1.vertices && m.sizeG2 == g2.vertices
        ensures false
      {
        FullMappingNeedsRoom(m);
      }
      return [];
    }
    var best := RankAll(g1, g2, k);
    result := CollectMappings(best);
    FinalRanking(g1.View(), g2.View(), g1.vertices, g2.vertices, k, best, result);
  }

  /** The search from the empty mapping with no results kept: its ranking
      accounts for every full mapping. */
  method RankAll(g1: Graph, g2: Graph, k: int) returns (best: seq<Entry>)
    requires g1.Valid() && g2.Valid() && k >= 1
    ensures Ranked(CostOf(g1.View(), g2.View()), k, best) && AllFull(g1.vertices, g2.vertices, best)
    ensures forall m :: IsFullMapping(m) && Extends(m, Fresh(g1.vertices, g2.vertices)) ==>
              Dominated(CostOf(g1.View(), g2.View()), k, best, m)
  {
    var current := new Mapping(g1.vertices, g2.vertices);
    var used := new bool[g2.vertices](_ => false);
    MissingEdgesFresh(g1.View(), g2.View(), g2.vertices);
    best := BruteForceRecursive(g1, g2, k, current, 0, used, 0, []);
  }

}

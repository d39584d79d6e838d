/** The independent checks applied to every mapping a search returns: the
    total number of missing edges and the validity of the mapping. */
module Oracle {
  import opened Sums
  import opened Graphs
  import opened Assignments
  import opened Costs

  /** The missing edges of the mapping, by a double loop over the ordered
      pairs of mapped G1 vertices. */
  method CalculateMissingEdges(g1: Graph, g2: Graph, m: Mapping) returns (missing: int)
    requires g1.Valid() && g2.Valid() && Fits(g1.View(), g2.View(), m.View())
    requires m.View().Shaped() && m.View().ImagesInRange()
    ensures missing == MissingEdges(g1.View(), g2.View(), m.View())
  {
    ghost var D := Deficit(g1.View(), g2.View(), m.View());
    var n1 := g1.vertices;
    missing := 0;
    var u: nat := 0;
    while u < n1
      invariant u <= n1
      invariant missing == Sum(u, RowSums(n1, D))
    {
      var mappedU := m.forward[u];
      if mappedU == -1 {
        SumZero(n1, Row(D, u));
      } else {
        var v: nat := 0;
        while v < n1
          invariant v <= n1
          invariant missing == Sum(u, RowSums(n1, D)) + Sum(v, Row(D, u))
        {
          var mappedV := m.forward[v];
          if mappedV != -1 {
            var edgesInG1 := g1.GetEdges(u, v);
            var edgesInG2 := g2.GetEdges(mappedU, mappedV);
            if edgesInG1 > edgesInG2 {
              missing := missing + (edgesInG1 - edgesInG2);
            }
          }
          v := v + 1;
        }
      }
      u := u + 1;
    }
  }

  /** Accepts exactly the valid mappings whose count is n1 when G1 is no
      larger than G2, and at most n2 otherwise. */
  method VerifyMapping(g1: Graph, g2: Graph, m: Mapping) returns (ok: bool)
    requires g1.Valid() && g2.Valid() && m.sizeG1 == g1.vertices && m.sizeG2 == g2.vertices
    requires m.View().Shaped() && m.count >= 0
    ensures ok <==> m.View().Valid() &&
                    (g1.vertices <= g2.vertices ==> m.count == g1.vertices) &&
                    (g1.vertices > g2.vertices ==> m.count <= g2.vertices)
  {
    var n1, n2 := g1.vertices, g2.vertices;
    var forwardOk := ForwardChecks(m);
    if !forwardOk {
      return false;
    }
    var reverseOk := ReverseChecks(m);
    if !reverseOk {
      return false;
    }
    var actualMappedCount := CountForward(m);
    if actualMappedCount != m.count {
      return false;
    }
    if n1 <= n2 {
      if m.count != n1 {
        return false;
      }
    } else {
      if m.count > n2 {
        return false;
      }
    }
    return true;
  }

  /** The first pass: every forward entry is the sentinel or a G2 vertex
      whose reverse entry points back. */
  method ForwardChecks(m: Mapping) returns (ok: bool)
    requires m.View().Shaped()
    ensures ok <==> forall x :: 0 <= x < m.sizeG1 ==>
                      m.forward[x] == Unmapped || (0 <= m.forward[x] < m.sizeG2 && m.reverse[m.forward[x]] == x)
  {
    var i: nat := 0;
    while i < m.sizeG1
      invariant i <= m.sizeG1
      invariant forall x :: 0 <= x < i ==>
                  m.forward[x] == Unmapped || (0 <= m.forward[x] < m.sizeG2 && m.reverse[m.forward[x]] == x)
    {
      var mappedG2 := m.forward[i];
      if mappedG2 != -1 {
        if mappedG2 < 0 || mappedG2 >= m.sizeG2 {
          return false;
        }
        if m.reverse[mappedG2] != i {
          return false;
        }
      }
      i := i + 1;
    }
    return true;
  }

  /** The second pass: every reverse entry is the sentinel or a G1 vertex
      whose forward entry points back. */
  method ReverseChecks(m: Mapping) returns (ok: bool)
    requires m.View().Shaped()
    ensures ok <==> forall y :: 0 <= y < m.sizeG2 ==>
                      m.reverse[y] == Unmapped || (0 <= m.reverse[y] < m.sizeG1 && m.forward[m.reverse[y]] == y)
  {
    var i: nat := 0;
    while i < m.sizeG2
      invariant i <= m.sizeG2
      invariant forall y :: 0 <= y < i ==>
                  m.reverse[y] == Unmapped || (0 <= m.reverse[y] < m.sizeG1 && m.forward[m.reverse[y]] == y)
    {
      var mappedG1 := m.reverse[i];
      if mappedG1 != -1 {
        if mappedG1 < 0 || mappedG1 >= m.sizeG1 {
          return false;
        }
        if m.forward[mappedG1] != i {
          return false;
        }
      }
      i := i + 1;
    }
    return true;
  }

  /** The third pass: the number of mapped G1 vertices. */
  method CountForward(m: Mapping) returns (count: nat)
    requires m.View().Shaped()
    ensures count == CountMapped(m.forward)
  {
    count := 0;
    var i: nat := 0;
    while i < m.sizeG1
      invariant i <= m.sizeG1
      invariant count == CountMapped(m.forward[..i])
    {
      assert m.forward[..i + 1][..i] == m.forward[..i];
      if m.forward[i] != -1 {
        count := count + 1;
      }
      i := i + 1;
    }
    assert m.forward[..m.sizeG1] == m.forward;
  }
}

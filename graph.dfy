/** The weighted directed multigraph: a dense n x n matrix of edge
    multiplicities stored row-major in one flat buffer, plus a running total of
    all multiplicities. */
module Graphs {
  import opened Sums

  /** The row-major cell of pair (u, v) in an n x n buffer, u * n + v,
      written by recursion on the row so that it needs no multiplication. */
  function Cell(n: nat, u: nat, v: nat): nat
  {
    if u == 0 then v else n + Cell(n, u - 1, v)
  }

  /** Cell(n, u, v) is the row-major offset u * n + v. */
  lemma {:induction false} CellIsRowMajor(n: nat, u: nat, v: nat)
    ensures Cell(n, u, v) == u * n + v
  {
    if u > 0 {
      CellIsRowMajor(n, u - 1, v);
      assert (u - 1) * n + n == u * n;
    }
  }

  /** Every pair of [0, n) x [0, n) has its cell inside the n * n buffer. */
  lemma CellBound(n: nat, u: nat, v: nat)
    requires u < n && v < n
    ensures Cell(n, u, v) < n * n
  {
    CellIsRowMajor(n, u, v);
    assert u * n + n == (u + 1) * n;
    ScaleMonotone(u + 1, n, n);
  }

  /** Multiplication by n is monotone in the left factor. */
  lemma {:induction false} ScaleMonotone(a: nat, b: nat, n: nat)
    requires a <= b
    ensures a * n <= b * n
  {
    if a < b {
      ScaleMonotone(a, b - 1, n);
      assert (b - 1) * n + n == b * n;
    }
  }

  /** Distinct pairs occupy distinct cells. */
  lemma {:induction false} CellInjective(n: nat, u: nat, v: nat, a: nat, b: nat)
    requires v < n && b < n
    requires Cell(n, u, v) == Cell(n, a, b)
    ensures u == a && v == b
  {
    if u > 0 && a > 0 {
      CellInjective(n, u - 1, v, a - 1, b);
    }
  }

  /** The sum of a sequence of multiplicities. */
  function SumSeq(s: seq<nat>): nat
  {
    if s == [] then 0 else SumSeq(s[..|s| - 1]) + s[|s| - 1]
  }

  /** Overwriting one cell changes the total by the difference. */
  lemma {:induction false} SumSeqUpdate(s: seq<nat>, i: nat, x: nat)
    requires i < |s|
    ensures SumSeq(s[i := x]) == SumSeq(s) - s[i] + x
  {
    var t := s[i := x];
    if i == |s| - 1 {
      assert t[..|t| - 1] == s[..|s| - 1];
    } else {
      assert t[..|t| - 1] == s[..|s| - 1][i := x];
      SumSeqUpdate(s[..|s| - 1], i, x);
    }
  }

  /** No single cell exceeds the total. */
  lemma {:induction false} SumSeqBoundsElement(s: seq<nat>, i: nat)
    requires i < |s|
    ensures s[i] <= SumSeq(s)
  {
    if i < |s| - 1 {
      SumSeqBoundsElement(s[..|s| - 1], i);
    }
  }

  /** A buffer of zeros sums to zero. */
  lemma {:induction false} SumSeqZero(s: seq<nat>)
    requires forall i :: 0 <= i < |s| ==> s[i] == 0
    ensures SumSeq(s) == 0
  {
    if s != [] {
      SumSeqZero(s[..|s| - 1]);
    }
  }

  /** The value of a graph: vertex count and the row-major matrix. */
  datatype Digraph = Digraph(n: nat, w: seq<nat>)
  {
    /** The buffer holds exactly n * n cells. */
    ghost predicate Valid()
    {
      |w| == n * n
    }

    /** Multiplicity of the directed pair (u, v); indices outside [0, n)
        read as 0. The diagonal is an ordinary readable cell. */
    function Weight(u: int, v: int): nat
    {
      if 0 <= u < n && 0 <= v < n && Cell(n, u, v) < |w| then w[Cell(n, u, v)] else 0
    }

    /** The total number of edges, counted with multiplicity. */
    function Total(): nat
    {
      SumSeq(w)
    }

    /** u is a neighbour of v when an edge joins them in either direction. */
    predicate Adjacent(v: int, u: int)
    {
      Weight(v, u) > 0 || Weight(u, v) > 0
    }

    /** Indicator of the neighbours of v over [0, n). */
    function NeighbourIndicator(v: nat): nat -> int
    {
      (u: nat) => if Adjacent(v, u) then 1 else 0
    }

    /** The number of neighbours of v, each counted once whatever the
        direction or multiplicity of the edges joining them. */
    function NeighbourCount(v: nat): nat
    {
      SumNonNegative(n, NeighbourIndicator(v));
      Sum(n, NeighbourIndicator(v))
    }

    /** The pairs (w(v, u), u) for the u below k with a nonzero w(v, u),
        in ascending u: what a scan of row v reports. */
    function OutScan(v: nat, k: nat): seq<(nat, nat)>
    {
      if k == 0 then []
      else OutScan(v, k - 1) + (if Weight(v, k - 1) != 0 then [(Weight(v, k - 1), k - 1)] else [])
    }

    /** The pairs (w(u, v), u) for the u below k with a nonzero w(u, v),
        in ascending u: what a scan of column v reports. */
    function InScan(v: nat, k: nat): seq<(nat, nat)>
    {
      if k == 0 then []
      else InScan(v, k - 1) + (if Weight(k - 1, v) != 0 then [(Weight(k - 1, v), k - 1)] else [])
    }

    /** The scan of row v below k reports each u below k with a nonzero
        w(v, u) exactly once, with its weight, in ascending order. */
    lemma {:induction false} OutScanContents(v: nat, k: nat)
      ensures forall i :: 0 <= i < |OutScan(v, k)| ==>
                OutScan(v, k)[i].1 < k && OutScan(v, k)[i].0 == Weight(v, OutScan(v, k)[i].1) && OutScan(v, k)[i].0 != 0
      ensures forall i, j :: 0 <= i < j < |OutScan(v, k)| ==> OutScan(v, k)[i].1 < OutScan(v, k)[j].1
      ensures forall u :: 0 <= u < k && Weight(v, u) != 0 ==> (Weight(v, u), u) in OutScan(v, k)
    {
      if k > 0 {
        OutScanContents(v, k - 1);
        ScanStep(OutScan(v, k - 1), k - 1, Weight(v, k - 1));
      }
    }

    /** The scan of column v below k reports each u below k with a nonzero
        w(u, v) exactly once, with its weight, in ascending order. */
    lemma {:induction false} InScanContents(v: nat, k: nat)
      ensures forall i :: 0 <= i < |InScan(v, k)| ==>
                InScan(v, k)[i].1 < k && InScan(v, k)[i].0 == Weight(InScan(v, k)[i].1, v) && InScan(v, k)[i].0 != 0
      ensures forall i, j :: 0 <= i < j < |InScan(v, k)| ==> InScan(v, k)[i].1 < InScan(v, k)[j].1
      ensures forall u :: 0 <= u < k && Weight(u, v) != 0 ==> (Weight(u, v), u) in InScan(v, k)
    {
      if k > 0 {
        InScanContents(v, k - 1);
        ScanStep(InScan(v, k - 1), k - 1, Weight(k - 1, v));
      }
    }

    /** The optional "no self-loops" condition. */
    ghost predicate Loopless()
    {
      forall v :: 0 <= v < n ==> Weight(v, v) == 0
    }

    /** The matrix with k more edges from u to v. */
    function Add(u: nat, v: nat, k: nat): (r: Digraph)
      requires Valid() && u < n && v < n
      ensures r.Valid() && r.n == n
      ensures r.Total() == Total() + k
      ensures forall a, b :: r.Weight(a, b) == Weight(a, b) + (if a == u && b == v then k else 0)
    {
      CellBound(n, u, v);
      var c := Cell(n, u, v);
      SumSeqUpdate(w, c, w[c] + k);
      var r := Digraph(n, w[c := w[c] + k]);
      forall a, b
        ensures r.Weight(a, b) == Weight(a, b) + (if a == u && b == v then k else 0)
      {
        if 0 <= a < n && 0 <= b < n {
          CellBound(n, a, b);
          if Cell(n, a, b) == c {
            CellInjective(n, a, b, u, v);
          }
        }
      }
      r
    }

    /** The matrix with k fewer edges from u to v. */
    function Remove(u: nat, v: nat, k: nat): (r: Digraph)
      requires Valid() && u < n && v < n && Weight(u, v) >= k
      ensures r.Valid() && r.n == n
      ensures r.Total() == Total() - k
      ensures forall a, b :: r.Weight(a, b) == Weight(a, b) - (if a == u && b == v then k else 0)
    {
      CellBound(n, u, v);
      var c := Cell(n, u, v);
      SumSeqUpdate(w, c, w[c] - k);
      var r := Digraph(n, w[c := w[c] - k]);
      forall a, b
        ensures r.Weight(a, b) == Weight(a, b) - (if a == u && b == v then k else 0)
      {
        if 0 <= a < n && 0 <= b < n {
          CellBound(n, a, b);
          if Cell(n, a, b) == c {
            CellInjective(n, a, b, u, v);
          }
        }
      }
      r
    }
  }

  /** Appending the entry (x, u) for a nonzero x to a scan whose vertices
      are below u keeps the vertices ascending and below u + 1. */
  lemma ScanStep(calls: seq<(nat, nat)>, u: nat, x: nat)
    requires forall i :: 0 <= i < |calls| ==> calls[i].1 < u
    requires forall i, j :: 0 <= i < j < |calls| ==> calls[i].1 < calls[j].1
    ensures var next := calls + (if x != 0 then [(x, u)] else []);
              (forall i :: 0 <= i < |next| ==> next[i].1 < u + 1 && (i < |calls| ==> next[i] == calls[i])) &&
              (forall i, j :: 0 <= i < j < |next| ==> next[i].1 < next[j].1) &&
              (x != 0 ==> next[|calls|] == (x, u))
  {
  }

  /** The out-edge scan of v tagged (w, v, u), then its in-edge scan tagged (w, u, v). */
  function Tagged(v: nat, outs: seq<(nat, nat)>, ins: seq<(nat, nat)>): (r: seq<(nat, nat, nat)>)
    ensures |r| == |outs| + |ins|
    ensures forall i :: 0 <= i < |outs| ==> r[i] == (outs[i].0, v, outs[i].1)
    ensures forall i :: 0 <= i < |ins| ==> r[|outs| + i] == (ins[i].0, ins[i].1, v)
  {
    seq(|outs|, i requires 0 <= i < |outs| => (outs[i].0, v, outs[i].1)) +
    seq(|ins|, i requires 0 <= i < |ins| => (ins[i].0, ins[i].1, v))
  }

  /** The empty graph on n vertices. */
  function EmptyDigraph(n: nat): (g: Digraph)
    ensures g.Valid() && g.n == n && g.Total() == 0
    ensures forall u, v :: g.Weight(u, v) == 0
  {
    var g := Digraph(n, seq(n * n, _ => 0));
    SumSeqZero(g.w);
    assert forall u, v :: g.Weight(u, v) == 0;
    g
  }

  /** ns lists the neighbours of v below u, ascending, each once: the
      state of the neighbour scan after u candidates. */
  ghost predicate NeighboursBelow(g: Digraph, v: nat, u: nat, ns: seq<nat>)
  {
    (forall i :: 0 <= i < |ns| ==> ns[i] < u && g.Adjacent(v, ns[i])) &&
    (forall i, j :: 0 <= i < j < |ns| ==> ns[i] < ns[j]) &&
    (forall x :: 0 <= x < u && g.Adjacent(v, x) ==> x in ns) &&
    |ns| == Sum(u, g.NeighbourIndicator(v))
  }

  /** Appending u exactly when it is a neighbour extends the scan by one
      candidate. */
  lemma NeighboursStep(g: Digraph, v: nat, u: nat, ns: seq<nat>)
    requires NeighboursBelow(g, v, u, ns)
    ensures NeighboursBelow(g, v, u + 1, if g.Adjacent(v, u) then ns + [u] else ns)
  {
    assert Sum(u + 1, g.NeighbourIndicator(v)) == Sum(u, g.NeighbourIndicator(v)) + g.NeighbourIndicator(v)(u);
    if g.Adjacent(v, u) {
      NeighboursAppend(g, v, u, ns);
    } else {
      forall x | 0 <= x < u + 1 && g.Adjacent(v, x)
        ensures x in ns
      {
        assert x < u;
      }
    }
  }

  /** Appending the neighbour u to the scan below u keeps it ascending and
      complete below u + 1. */
  lemma NeighboursAppend(g: Digraph, v: nat, u: nat, ns: seq<nat>)
    requires NeighboursBelow(g, v, u, ns) && g.Adjacent(v, u)
    ensures forall i :: 0 <= i < |ns + [u]| ==> (ns + [u])[i] < u + 1 && g.Adjacent(v, (ns + [u])[i])
    ensures forall i, j :: 0 <= i < j < |ns + [u]| ==> (ns + [u])[i] < (ns + [u])[j]
    ensures forall x :: 0 <= x < u + 1 && g.Adjacent(v, x) ==> x in ns + [u]
  {
    var ns' := ns + [u];
    forall i | 0 <= i < |ns'|
      ensures ns'[i] < u + 1 && g.Adjacent(v, ns'[i])
    {
      if i < |ns| {
        assert ns'[i] == ns[i];
      }
    }
    forall i, j | 0 <= i < j < |ns'|
      ensures ns'[i] < ns'[j]
    {
      assert ns'[i] == ns[i];
      if j < |ns| {
        assert ns'[j] == ns[j];
      }
    }
    forall x | 0 <= x < u + 1 && g.Adjacent(v, x)
      ensures x in ns'
    {
      if x < u {
        var k :| 0 <= k < |ns| && ns[k] == x;
        assert ns'[k] == x;
      } else {
        assert ns'[|ns|] == u;
      }
    }
  }

  /** Row-major order on (weight, source, target) triples. */
  predicate RowMajorBefore(a: (nat, nat, nat), b: (nat, nat, nat))
  {
    a.1 < b.1 || (a.1 == b.1 && a.2 < b.2)
  }

  /** The graph object. Its matrix is allocated once and only its cells and
      the running total change. */
  class Graph {
    const vertices: nat
    const matrix: array<nat>
    var numEdges: nat

    /** The running total always equals the sum of the matrix. */
    ghost predicate Valid()
      reads this, matrix
    {
      matrix.Length == vertices * vertices && numEdges == SumSeq(matrix[..])
    }

    /** The graph as a value. */
    function View(): Digraph
      reads this, matrix
    {
      Digraph(vertices, matrix[..])
    }

    /** A graph with n vertices and no edges. */
    constructor (n: nat)
      ensures Valid() && fresh(matrix)
      ensures vertices == n && numEdges == 0
      ensures View() == EmptyDigraph(n)
    {
      vertices := n;
      matrix := new nat[n * n](_ => 0);
      numEdges := 0;
      new;
      assert matrix[..] == EmptyDigraph(n).w;
    }

    /** Adds k edges from u to v. */
    method AddEdges(u: nat, v: nat, k: nat)
      requires Valid() && u < vertices && v < vertices
      modifies this, matrix
      ensures Valid()
      ensures numEdges == old(numEdges) + k
      ensures View() == old(View()).Add(u, v, k)
    {
      CellBound(vertices, u, v);
      var i := Cell(vertices, u, v);
      SumSeqUpdate(matrix[..], i, matrix[i] + k);
      matrix[i] := matrix[i] + k;
      numEdges := numEdges + k;
    }

    /** Removes k edges from u to v; there must be at least k of them. */
    method RemoveEdges(u: nat, v: nat, k: nat)
      requires Valid() && u < vertices && v < vertices
      requires View().Weight(u, v) >= k
      modifies this, matrix
      ensures Valid()
      ensures numEdges == old(numEdges) - k
      ensures View() == old(View()).Remove(u, v, k)
    {
      CellBound(vertices, u, v);
      var i := Cell(vertices, u, v);
      SumSeqUpdate(matrix[..], i, matrix[i] - k);
      matrix[i] := matrix[i] - k;
      numEdges := numEdges - k;
    }

    /** The multiplicity of (u, v); it never exceeds the total. */
    function GetEdges(u: nat, v: nat): (r: nat)
      reads this, matrix
      requires Valid() && u < vertices && v < vertices
      ensures r == View().Weight(u, v)
      ensures r <= numEdges
    {
      CellBound(vertices, u, v);
      SumSeqBoundsElement(matrix[..], Cell(vertices, u, v));
      matrix[Cell(vertices, u, v)]
    }

    /** The total number of edges is the sum of all matrix cells. */
    function EdgeTotal(): (r: nat)
      reads this, matrix
      requires Valid()
      ensures r == View().Total()
    {
      numEdges
    }

    /** The calls (weight, u) made for the out-edges of v: ascending u, each
        u with a nonzero w(v, u) exactly once. */
    method IterateOutEdges(v: nat) returns (calls: seq<(nat, nat)>)
      requires Valid() && v < vertices
      ensures forall i :: 0 <= i < |calls| ==>
                calls[i].1 < vertices && calls[i].0 == View().Weight(v, calls[i].1) && calls[i].0 != 0
      ensures forall i, j :: 0 <= i < j < |calls| ==> calls[i].1 < calls[j].1
      ensures forall u :: 0 <= u < vertices && View().Weight(v, u) != 0 ==> (View().Weight(v, u), u) in calls
      ensures calls == View().OutScan(v, vertices)
    {
      ghost var g := View();
      calls := [];
      var u: nat := 0;
      while u < vertices
        invariant u <= vertices
        invariant calls == g.OutScan(v, u)
      {
        var edges := GetEdges(v, u);
        if edges != 0 {
          calls := calls + [(edges, u)];
        }
        u := u + 1;
      }
      g.OutScanContents(v, vertices);
    }

    /** The calls (weight, u) made for the in-edges of v: ascending u, each
        u with a nonzero w(u, v) exactly once. */
    method IterateInEdges(v: nat) returns (calls: seq<(nat, nat)>)
      requires Valid() && v < vertices
      ensures forall i :: 0 <= i < |calls| ==>
                calls[i].1 < vertices && calls[i].0 == View().Weight(calls[i].1, v) && calls[i].0 != 0
      ensures forall i, j :: 0 <= i < j < |calls| ==> calls[i].1 < calls[j].1
      ensures forall u :: 0 <= u < vertices && View().Weight(u, v) != 0 ==> (View().Weight(u, v), u) in calls
      ensures calls == View().InScan(v, vertices)
    {
      ghost var g := View();
      calls := [];
      var u: nat := 0;
      while u < vertices
        invariant u <= vertices
        invariant calls == g.InScan(v, u)
      {
        var edges := GetEdges(u, v);
        if edges != 0 {
          calls := calls + [(edges, u)];
        }
        u := u + 1;
      }
      g.InScanContents(v, vertices);
    }

    /** The calls (weight, from, to) made for the edges at v: first its
        out-edges in ascending target, then its in-edges in ascending
        source, so that a self-loop is reported twice. */
    method IterateEdgesOf(v: nat) returns (calls: seq<(nat, nat, nat)>)
      requires Valid() && v < vertices
      ensures forall i :: 0 <= i < |calls| ==>
                calls[i].0 == View().Weight(calls[i].1, calls[i].2) && calls[i].0 != 0 &&
                (calls[i].1 == v || calls[i].2 == v)
      ensures forall u :: 0 <= u < vertices && View().Weight(v, u) != 0 ==> (View().Weight(v, u), v, u) in calls
      ensures forall u :: 0 <= u < vertices && View().Weight(u, v) != 0 ==> (View().Weight(u, v), u, v) in calls
      ensures var outs, ins := View().OutScan(v, vertices), View().InScan(v, vertices);
                |calls| == |outs| + |ins| &&
                (forall i :: 0 <= i < |outs| ==> calls[i] == (outs[i].0, v, outs[i].1)) &&
                (forall i :: 0 <= i < |ins| ==> calls[|outs| + i] == (ins[i].0, ins[i].1, v))
      ensures View().Weight(v, v) != 0 ==>
                exists i, j :: 0 <= i < j < |calls| && calls[i] == (View().Weight(v, v), v, v) && calls[j] == calls[i]
    {
      var outs := IterateOutEdges(v);
      var ins := IterateInEdges(v);
      calls := Tagged(v, outs, ins);
    }

    /** The neighbours of v, each visited once (in ascending order here;
        callers only count or sum over them). */
    method IterateNeighbours(v: nat) returns (neighbours: seq<nat>)
      requires Valid() && v < vertices
      ensures forall i :: 0 <= i < |neighbours| ==> neighbours[i] < vertices && View().Adjacent(v, neighbours[i])
      ensures forall i, j :: 0 <= i < j < |neighbours| ==> neighbours[i] < neighbours[j]
      ensures forall u :: 0 <= u < vertices && View().Adjacent(v, u) ==> u in neighbours
      ensures |neighbours| == View().NeighbourCount(v)
    {
      ghost var g := View();
      neighbours := [];
      var u: nat := 0;
      while u < vertices
        invariant u <= vertices
        invariant NeighboursBelow(g, v, u, neighbours)
      {
        var outgoing := GetEdges(v, u);
        var incoming := GetEdges(u, v);
        NeighboursStep(g, v, u, neighbours);
        if outgoing > 0 || incoming > 0 {
          neighbours := neighbours + [u];
        }
        u := u + 1;
      }
    }

    /** The number of neighbours of v. */
    method GetNumOfNeighbours(v: nat) returns (count: nat)
      requires Valid() && v < vertices
      ensures count == View().NeighbourCount(v)
      ensures count <= vertices
    {
      ghost var g := View();
      count := 0;
      var u: nat := 0;
      while u < vertices
        invariant u <= vertices
        invariant count == Sum(u, g.NeighbourIndicator(v)) && count <= u
      {
        var outgoing := GetEdges(v, u);
        var incoming := GetEdges(u, v);
        if outgoing > 0 || incoming > 0 {
          count := count + 1;
        }
        u := u + 1;
      }
    }

    /** The calls (weight, u, v) made for every nonzero pair, in row-major
        order, each pair exactly once. */
    method IterateEdges() returns (calls: seq<(nat, nat, nat)>)
      requires Valid()
      ensures forall i :: 0 <= i < |calls| ==>
                calls[i].1 < vertices && calls[i].2 < vertices &&
                calls[i].0 == View().Weight(calls[i].1, calls[i].2) && calls[i].0 != 0
      ensures forall i, j :: 0 <= i < j < |calls| ==> RowMajorBefore(calls[i], calls[j])
      ensures forall u, v :: 0 <= u < vertices && 0 <= v < vertices && View().Weight(u, v) != 0 ==>
                (View().Weight(u, v), u, v) in calls
    {
      calls := [];
      var u: nat := 0;
      while u < vertices
        invariant u <= vertices
        invariant forall i :: 0 <= i < |calls| ==>
                    calls[i].1 < u && calls[i].2 < vertices &&
                    calls[i].0 == View().Weight(calls[i].1, calls[i].2) && calls[i].0 != 0
        invariant forall i, j :: 0 <= i < j < |calls| ==> RowMajorBefore(calls[i], calls[j])
        invariant forall a, b :: 0 <= a < u && 0 <= b < vertices && View().Weight(a, b) != 0 ==>
                    (View().Weight(a, b), a, b) in calls
      {
        var v: nat := 0;
        while v < vertices
          invariant v <= vertices
          invariant forall i :: 0 <= i < |calls| ==>
                      RowMajorBefore(calls[i], (0, u, v)) && calls[i].2 < vertices &&
                      calls[i].0 == View().Weight(calls[i].1, calls[i].2) && calls[i].0 != 0
          invariant forall i, j :: 0 <= i < j < |calls| ==> RowMajorBefore(calls[i], calls[j])
          invariant forall a, b :: 0 <= a < u && 0 <= b < vertices && View().Weight(a, b) != 0 ==>
                      (View().Weight(a, b), a, b) in calls
          invariant forall b :: 0 <= b < v && View().Weight(u, b) != 0 ==> (View().Weight(u, b), u, b) in calls
        {
          var edges := GetEdges(u, v);
          if edges != 0 {
            calls := calls + [(edges, u, v)];
          }
          v := v + 1;
        }
        u := u + 1;
      }
    }
  }
}

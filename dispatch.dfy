/** The per-edge report of what a mapping misses, and the two entry points
    that choose the search algorithm. */
module Dispatch {
  import opened Sums
  import opened Graphs
  import opened Assignments
  import opened Costs
  import opened AStar
  import opened Beam

  /** One ordered G1 pair (u, v) whose weight the G2 pair it is mapped to
      does not reach: `weightNeeded` is the G1 weight, `weightFound` the G2
      weight. */
  datatype EdgeExtension = EdgeExtension(u: nat, v: nat, mappedU: nat, mappedV: nat,
                                         weightNeeded: nat, weightFound: nat)

  /** The number of edges G2 must gain for this record; callers add these
      up as the cost of the mapping. */
  function Shortfall(e: EdgeExtension): int
  {
    e.weightNeeded - e.weightFound
  }

  /** The sum of the shortfalls of a report. */
  function TotalShortfall(s: seq<EdgeExtension>): int
  {
    if |s| == 0 then 0 else TotalShortfall(s[..|s| - 1]) + Shortfall(s[|s| - 1])
  }

  /** The mapping can be read against both graphs: its tables have the
      graphs' sizes and every image is the sentinel or a G2 vertex. */
  ghost predicate Reportable(g1: Digraph, g2: Digraph, a: Assignment)
  {
    Fits(g1, g2, a) && a.Shaped() && a.ImagesInRange()
  }

  /** The record of the ordered pair (u, v) of mapped G1 vertices. */
  function Record(g1: Digraph, g2: Digraph, a: Assignment, u: nat, v: nat): EdgeExtension
    requires Reportable(g1, g2, a) && a.IsMapped(u) && a.IsMapped(v)
  {
    EdgeExtension(u, v, a.forward[u], a.forward[v], g1.Weight(u, v), g2.Weight(a.forward[u], a.forward[v]))
  }

  /** A record states a real deficit of the mapping: its pair is a pair of
      mapped G1 vertices, its images are their partners, and the G2 weight
      it found is below the G1 weight it needs. */
  ghost predicate Describes(g1: Digraph, g2: Digraph, a: Assignment, e: EdgeExtension)
  {
    e.u < g1.n && e.v < g1.n && a.IsMapped(e.u) && a.IsMapped(e.v) &&
    e.mappedU == a.forward[e.u] && e.mappedV == a.forward[e.v] &&
    e.weightNeeded == g1.Weight(e.u, e.v) && e.weightFound == g2.Weight(e.mappedU, e.mappedV) &&
    e.weightNeeded > e.weightFound
  }

  /** Record e comes before record f in row-major order of their G1 pairs. */
  predicate Before(e: EdgeExtension, f: EdgeExtension)
  {
    e.u < f.u || (e.u == f.u && e.v < f.v)
  }

  /** The records are in strictly increasing row-major order, so no pair
      is reported twice. */
  predicate Increasing(s: seq<EdgeExtension>)
  {
    forall i, j :: 0 <= i < j < |s| ==> Before(s[i], s[j])
  }

  /** Every record of the report states a real deficit of the mapping. */
  ghost predicate AllDescribe(g1: Digraph, g2: Digraph, a: Assignment, s: seq<EdgeExtension>)
  {
    forall e :: e in s ==> Describes(g1, g2, a, e)
  }

  /** Every record of the report is for a row below k. */
  predicate RowsBelow(s: seq<EdgeExtension>, k: nat)
  {
    forall e :: e in s ==> e.u < k
  }

  /** Every record of the report is for row u, left of column j. */
  predicate InRow(s: seq<EdgeExtension>, u: nat, j: nat)
  {
    forall e :: e in s ==> e.u == u && e.v < j
  }

  /** The pair (u, v) has a record in the report. */
  predicate Reported(s: seq<EdgeExtension>, u: nat, v: nat)
  {
    exists e :: e in s && e.u == u && e.v == v
  }

  /** The record of the pair (u, v) when it has a deficit, else nothing. */
  function Entry(g1: Digraph, g2: Digraph, a: Assignment, u: nat, v: nat): seq<EdgeExtension>
    requires Reportable(g1, g2, a)
  {
    if PairDeficit(g1, g2, a, u, v) > 0 then [Record(g1, g2, a, u, v)] else []
  }

  /** The records of row u for the columns below j, in column order. */
  function RowExtensions(g1: Digraph, g2: Digraph, a: Assignment, u: nat, j: nat): seq<EdgeExtension>
    requires Reportable(g1, g2, a)
  {
    if j == 0 then [] else RowExtensions(g1, g2, a, u, j - 1) + Entry(g1, g2, a, u, j - 1)
  }

  /** The records of the rows below i, row after row. */
  function Extensions(g1: Digraph, g2: Digraph, a: Assignment, i: nat): seq<EdgeExtension>
    requires Reportable(g1, g2, a)
  {
    if i == 0 then [] else Extensions(g1, g2, a, i - 1) + RowExtensions(g1, g2, a, i - 1, g1.n)
  }

  /** The edges G2 lacks under the mapping, one record per ordered pair of
      mapped G1 vertices (u == v included) whose G1 weight exceeds the G2
      weight of its image, in row-major order. Exactly the pairs with a
      deficit are reported, and the shortfalls add up to the mapping's
      missing-edge count. */
  function MinimalEdgeExtension(g1: Digraph, g2: Digraph, a: Assignment): (r: seq<EdgeExtension>)
    requires Reportable(g1, g2, a)
    ensures forall e :: e in r ==> Describes(g1, g2, a, e)
    ensures forall u: nat, v: nat :: u < g1.n && v < g1.n ==>
              (Reported(r, u, v) <==> PairDeficit(g1, g2, a, u, v) > 0)
    ensures Increasing(r)
    ensures TotalShortfall(r) == MissingEdges(g1, g2, a)
  {
    ExtensionsSound(g1, g2, a, g1.n);
    ReportedHasDeficit(g1, g2, a, Extensions(g1, g2, a, g1.n));
    ExtensionsComplete(g1, g2, a, g1.n);
    ExtensionsIncreasing(g1, g2, a, g1.n);
    ExtensionsTotal(g1, g2, a, g1.n);
    Extensions(g1, g2, a, g1.n)
  }

  /** Shortfalls add up over a concatenation. */
  lemma {:induction false} TotalShortfallAppend(s: seq<EdgeExtension>, t: seq<EdgeExtension>)
    ensures TotalShortfall(s + t) == TotalShortfall(s) + TotalShortfall(t)
  {
    if |t| > 0 {
      assert (s + t)[..|s + t| - 1] == s + t[..|t| - 1];
      TotalShortfallAppend(s, t[..|t| - 1]);
    } else {
      assert s + t == s;
    }
  }

  /** Every record of row u describes a deficit in that row left of j. */
  lemma {:induction false} RowSound(g1: Digraph, g2: Digraph, a: Assignment, u: nat, j: nat)
    requires Reportable(g1, g2, a) && u < g1.n && j <= g1.n
    ensures AllDescribe(g1, g2, a, RowExtensions(g1, g2, a, u, j))
  {
    if j > 0 {
      RowSound(g1, g2, a, u, j - 1);
      assert AllDescribe(g1, g2, a, Entry(g1, g2, a, u, j - 1));
      AllDescribeAppend(g1, g2, a, RowExtensions(g1, g2, a, u, j - 1), Entry(g1, g2, a, u, j - 1));
    }
  }

  /** Two reports of real deficits make one. */
  lemma AllDescribeAppend(g1: Digraph, g2: Digraph, a: Assignment, s: seq<EdgeExtension>, t: seq<EdgeExtension>)
    requires AllDescribe(g1, g2, a, s) && AllDescribe(g1, g2, a, t)
    ensures AllDescribe(g1, g2, a, s + t)
  {
  }

  /** Every record of the rows below i describes a deficit in those rows. */
  lemma {:induction false} ExtensionsSound(g1: Digraph, g2: Digraph, a: Assignment, i: nat)
    requires Reportable(g1, g2, a) && i <= g1.n
    ensures AllDescribe(g1, g2, a, Extensions(g1, g2, a, i))
  {
    if i > 0 {
      ExtensionsSound(g1, g2, a, i - 1);
      RowSound(g1, g2, a, i - 1, g1.n);
      AllDescribeAppend(g1, g2, a, Extensions(g1, g2, a, i - 1), RowExtensions(g1, g2, a, i - 1, g1.n));
    }
  }

  /** The records of row u are for columns left of j. */
  lemma {:induction false} RowPlaces(g1: Digraph, g2: Digraph, a: Assignment, u: nat, j: nat)
    requires Reportable(g1, g2, a)
    ensures InRow(RowExtensions(g1, g2, a, u, j), u, j)
  {
    if j > 0 {
      RowPlaces(g1, g2, a, u, j - 1);
    }
  }

  /** The records of the rows below i are in those rows. */
  lemma {:induction false} ExtensionsPlaces(g1: Digraph, g2: Digraph, a: Assignment, i: nat)
    requires Reportable(g1, g2, a)
    ensures RowsBelow(Extensions(g1, g2, a, i), i)
  {
    if i > 0 {
      ExtensionsPlaces(g1, g2, a, i - 1);
      RowPlaces(g1, g2, a, i - 1, g1.n);
    }
  }

  /** Every deficit of row u left of j has a record. */
  lemma {:induction false} RowComplete(g1: Digraph, g2: Digraph, a: Assignment, u: nat, j: nat)
    requires Reportable(g1, g2, a) && u < g1.n && j <= g1.n
    ensures forall v: nat :: v < j && PairDeficit(g1, g2, a, u, v) > 0 ==> Reported(RowExtensions(g1, g2, a, u, j), u, v)
  {
    if j > 0 {
      RowComplete(g1, g2, a, u, j - 1);
      var r := RowExtensions(g1, g2, a, u, j);
      ReportedAppend(RowExtensions(g1, g2, a, u, j - 1), Entry(g1, g2, a, u, j - 1));
      if PairDeficit(g1, g2, a, u, j - 1) > 0 {
        assert Record(g1, g2, a, u, j - 1) in Entry(g1, g2, a, u, j - 1);
      }
    }
  }

  /** Every deficit of the rows below i has a record. */
  lemma {:induction false} ExtensionsComplete(g1: Digraph, g2: Digraph, a: Assignment, i: nat)
    requires Reportable(g1, g2, a) && i <= g1.n
    ensures forall u: nat, v: nat :: u < i && v < g1.n && PairDeficit(g1, g2, a, u, v) > 0 ==>
              Reported(Extensions(g1, g2, a, i), u, v)
  {
    if i > 0 {
      ExtensionsComplete(g1, g2, a, i - 1);
      RowComplete(g1, g2, a, i - 1, g1.n);
      ExtensionsStep(g1, g2, a, i);
      ReportedAppend(Extensions(g1, g2, a, i - 1), RowExtensions(g1, g2, a, i - 1, g1.n));
    }
  }

  /** A pair reported in either part is reported in the concatenation. */
  lemma ReportedAppend(p: seq<EdgeExtension>, q: seq<EdgeExtension>)
    ensures forall u: nat, v: nat :: Reported(p, u, v) || Reported(q, u, v) ==> Reported(p + q, u, v)
  {
    forall u: nat, v: nat | Reported(p, u, v) || Reported(q, u, v)
      ensures Reported(p + q, u, v)
    {
      var e :| (e in p || e in q) && e.u == u && e.v == v;
      assert e in p + q;
    }
  }

  /** In a report of real deficits, every reported pair has a deficit. */
  lemma ReportedHasDeficit(g1: Digraph, g2: Digraph, a: Assignment, s: seq<EdgeExtension>)
    requires AllDescribe(g1, g2, a, s)
    ensures forall u: nat, v: nat :: Reported(s, u, v) ==> PairDeficit(g1, g2, a, u, v) > 0
  {
    forall u: nat, v: nat | Reported(s, u, v)
      ensures PairDeficit(g1, g2, a, u, v) > 0
    {
      var e :| e in s && e.u == u && e.v == v;
      assert Describes(g1, g2, a, e);
    }
  }

  /** Concatenating two increasing reports, all of the first before all of
      the second, gives an increasing report. */
  lemma IncreasingAppend(s: seq<EdgeExtension>, t: seq<EdgeExtension>)
    requires Increasing(s) && Increasing(t)
    requires forall e, f :: e in s && f in t ==> Before(e, f)
    ensures Increasing(s + t)
  {
    forall i, j | 0 <= i < j < |s + t|
      ensures Before((s + t)[i], (s + t)[j])
    {
      if j < |s| {
        assert (s + t)[i] == s[i] && (s + t)[j] == s[j];
      } else if i >= |s| {
        assert (s + t)[i] == t[i - |s|] && (s + t)[j] == t[j - |s|];
      } else {
        assert (s + t)[i] == s[i] && (s + t)[j] == t[j - |s|];
        assert s[i] in s && t[j - |s|] in t;
      }
    }
  }

  /** Records of rows below k followed by increasing records of row k are
      increasing. */
  lemma IncreasingRows(s: seq<EdgeExtension>, t: seq<EdgeExtension>, k: nat, j: nat)
    requires Increasing(s) && Increasing(t)
    requires RowsBelow(s, k) && InRow(t, k, j)
    ensures Increasing(s + t)
  {
    IncreasingAppend(s, t);
  }

  /** The records of row u are in increasing column order. */
  lemma {:induction false} RowIncreasing(g1: Digraph, g2: Digraph, a: Assignment, u: nat, j: nat)
    requires Reportable(g1, g2, a) && u < g1.n && j <= g1.n
    ensures Increasing(RowExtensions(g1, g2, a, u, j))
  {
    if j > 0 {
      RowIncreasing(g1, g2, a, u, j - 1);
      RowPlaces(g1, g2, a, u, j - 1);
      IncreasingAppend(RowExtensions(g1, g2, a, u, j - 1), Entry(g1, g2, a, u, j - 1));
    }
  }

  /** The records of the rows below i are in row-major order. */
  lemma {:induction false} ExtensionsIncreasing(g1: Digraph, g2: Digraph, a: Assignment, i: nat)
    requires Reportable(g1, g2, a) && i <= g1.n
    ensures Increasing(Extensions(g1, g2, a, i))
  {
    if i > 0 {
      ExtensionsIncreasing(g1, g2, a, i - 1);
      ExtensionsPlaces(g1, g2, a, i - 1);
      RowIncreasing(g1, g2, a, i - 1, g1.n);
      RowPlaces(g1, g2, a, i - 1, g1.n);
      IncreasingRows(Extensions(g1, g2, a, i - 1), RowExtensions(g1, g2, a, i - 1, g1.n), i - 1, g1.n);
    }
  }

  /** The shortfalls of row u add up to the row's deficits left of j. */
  lemma {:induction false} RowTotal(g1: Digraph, g2: Digraph, a: Assignment, u: nat, j: nat)
    requires Reportable(g1, g2, a) && u < g1.n && j <= g1.n
    ensures TotalShortfall(RowExtensions(g1, g2, a, u, j)) == Sum(j, Row(Deficit(g1, g2, a), u))
  {
    if j > 0 {
      var D := Deficit(g1, g2, a);
      RowTotal(g1, g2, a, u, j - 1);
      EntryShortfall(g1, g2, a, u, j - 1);
      ShortfallOfParts(RowExtensions(g1, g2, a, u, j - 1), Entry(g1, g2, a, u, j - 1),
                       Sum(j - 1, Row(D, u)), PairDeficit(g1, g2, a, u, j - 1));
      LastColumn(D, u, j);
    }
  }

  /** A row sum is the sum of the row's earlier columns and its last. */
  lemma LastColumn(f: (nat, nat) -> int, u: nat, j: nat)
    requires j > 0
    ensures Sum(j, Row(f, u)) == Sum(j - 1, Row(f, u)) + f(u, j - 1)
  {
  }

  /** The shortfall of a report made of two parts of known shortfall. */
  lemma ShortfallOfParts(p: seq<EdgeExtension>, q: seq<EdgeExtension>, x: int, y: int)
    requires TotalShortfall(p) == x && TotalShortfall(q) == y
    ensures TotalShortfall(p + q) == x + y
  {
    TotalShortfallAppend(p, q);
  }

  /** The record of a pair falls short by exactly the pair's deficit. */
  lemma EntryShortfall(g1: Digraph, g2: Digraph, a: Assignment, u: nat, v: nat)
    requires Reportable(g1, g2, a)
    ensures TotalShortfall(Entry(g1, g2, a, u, v)) == PairDeficit(g1, g2, a, u, v)
  {
    var s := Entry(g1, g2, a, u, v);
    if s != [] {
      assert s[..0] == [];
    }
  }

  /** The shortfall of each full row, as a function of the row. */
  function RowShortfalls(g1: Digraph, g2: Digraph, a: Assignment): nat -> int
    requires Reportable(g1, g2, a)
  {
    (u: nat) => TotalShortfall(RowExtensions(g1, g2, a, u, g1.n))
  }

  /** The report of the rows below i falls short by the rows' shortfalls. */
  lemma {:induction false} ExtensionsByRows(g1: Digraph, g2: Digraph, a: Assignment, i: nat)
    requires Reportable(g1, g2, a)
    ensures TotalShortfall(Extensions(g1, g2, a, i)) == Sum(i, RowShortfalls(g1, g2, a))
  {
    if i > 0 {
      ExtensionsByRows(g1, g2, a, i - 1);
      ExtensionsStep(g1, g2, a, i);
      AppendRow(g1, g2, a, i, Extensions(g1, g2, a, i - 1));
    }
  }

  /** The report of the rows below i is that of the rows below i - 1
      followed by row i - 1. */
  lemma ExtensionsStep(g1: Digraph, g2: Digraph, a: Assignment, i: nat)
    requires Reportable(g1, g2, a) && i > 0
    ensures Extensions(g1, g2, a, i) == Extensions(g1, g2, a, i - 1) + RowExtensions(g1, g2, a, i - 1, g1.n)
  {
  }

  /** Appending row i - 1 to a report of the rows below it adds that row's
      shortfall to the running sum. */
  lemma AppendRow(g1: Digraph, g2: Digraph, a: Assignment, i: nat, p: seq<EdgeExtension>)
    requires Reportable(g1, g2, a) && i > 0
    requires TotalShortfall(p) == Sum(i - 1, RowShortfalls(g1, g2, a))
    ensures TotalShortfall(p + RowExtensions(g1, g2, a, i - 1, g1.n)) == Sum(i, RowShortfalls(g1, g2, a))
  {
    var f, q := RowShortfalls(g1, g2, a), RowExtensions(g1, g2, a, i - 1, g1.n);
    TotalShortfallAppend(p, q);
    assert f(i - 1) == TotalShortfall(q);
    assert Sum(i, f) == Sum(i - 1, f) + f(i - 1);
  }

  /** The shortfalls of the rows below i add up to their deficits. */
  lemma ExtensionsTotal(g1: Digraph, g2: Digraph, a: Assignment, i: nat)
    requires Reportable(g1, g2, a) && i <= g1.n
    ensures TotalShortfall(Extensions(g1, g2, a, i)) == Sum(i, RowSums(g1.n, Deficit(g1, g2, a)))
  {
    ExtensionsByRows(g1, g2, a, i);
    forall u: nat | u < i
      ensures RowShortfalls(g1, g2, a)(u) == RowSums(g1.n, Deficit(g1, g2, a))(u)
    {
      RowTotal(g1, g2, a, u, g1.n);
    }
    SumEq(i, RowShortfalls(g1, g2, a), RowSums(g1.n, Deficit(g1, g2, a)));
  }

  /** The report is empty exactly when the mapping misses no edge. */
  lemma EmptyReportIffNothingMissing(g1: Digraph, g2: Digraph, a: Assignment)
    requires Reportable(g1, g2, a)
    ensures MinimalEdgeExtension(g1, g2, a) == [] <==> MissingEdges(g1, g2, a) == 0
  {
    var r := MinimalEdgeExtension(g1, g2, a);
    if r != [] {
      ShortfallsPositive(g1, g2, a, r);
    }
  }

  /** A report of real deficits has a positive total when it is not empty. */
  lemma {:induction false} ShortfallsPositive(g1: Digraph, g2: Digraph, a: Assignment, s: seq<EdgeExtension>)
    requires AllDescribe(g1, g2, a, s)
    ensures TotalShortfall(s) >= |s|
  {
    if |s| > 0 {
      assert s[|s| - 1] in s;
      assert forall e :: e in s[..|s| - 1] ==> e in s;
      ShortfallsPositive(g1, g2, a, s[..|s| - 1]);
    }
  }

  /** An increasing report in which every record is for the pair (u, v)
      has at most one record. */
  lemma AtMostOneRecord(s: seq<EdgeExtension>, u: nat, v: nat)
    requires Increasing(s)
    requires forall e :: e in s ==> e.u == u && e.v == v
    ensures |s| <= 1
  {
    FirstTwo(s);
    if |s| > 1 {
      assert false;
    }
  }

  /** The first two records of a report are in it. */
  lemma FirstTwo(s: seq<EdgeExtension>)
    ensures |s| > 1 ==> s[0] in s && s[1] in s
  {
  }

  /** The two-vertex graph with a single edge 0 -> 1 of weight k. */
  function SingleEdge(k: nat): (g: Digraph)
    ensures g.Valid() && g.n == 2
    ensures forall x, y :: g.Weight(x, y) == (if x == 0 && y == 1 then k else 0)
  {
    EmptyDigraph(2).Add(0, 1, k)
  }

  /** The identity mapping of two vertices, built by mapping 0 to 0 and
      then 1 to 1. */
  function IdentityOfTwo(): (a: Assignment)
    ensures a.sizeG1 == 2 && a.sizeG2 == 2 && a.Shaped() && a.ImagesInRange()
    ensures a.forward == [0, 1]
  {
    var a := Set(Set(Fresh(2, 2), 0, 0), 1, 1);
    assert a.forward[0] == 0;
    a
  }

  /** A two-vertex G2 whose pair (0, 1) has weight `found`. */
  ghost predicate Offers(g2: Digraph, found: nat)
  {
    g2.Valid() && g2.n == 2 && g2.Weight(0, 1) == found
  }

  /** Under the identity of two vertices, against a G1 whose only edge is
      0 -> 1, only the pair (0, 1) can fall short, by the excess of its G1
      weight over its G2 weight. */
  lemma SingleEdgeDeficits(need: nat, g2: Digraph, found: nat)
    requires Offers(g2, found)
    ensures var g1, a := SingleEdge(need), IdentityOfTwo();
            forall u: nat, v: nat :: u < 2 && v < 2 ==>
              PairDeficit(g1, g2, a, u, v) == (if u == 0 && v == 1 then Excess(need, found) else 0)
  {
  }

  /** Under the identity of two vertices the only record a report can hold
      is that of the pair (0, 1). */
  lemma SingleEdgeRecords(need: nat, g2: Digraph, found: nat)
    requires Offers(g2, found)
    ensures var g1, a := SingleEdge(need), IdentityOfTwo();
            forall e :: Describes(g1, g2, a, e) ==> e == EdgeExtension(0, 1, 0, 1, need, found)
  {
  }

  /** Under the identity of two vertices, against a G1 whose only edge is
      0 -> 1, the pair (0, 1) is reported exactly when G2 has less weight
      there than G1, and nothing else is. */
  lemma SingleEdgeReport(need: nat, g2: Digraph, found: nat)
    requires Offers(g2, found)
    ensures var r := MinimalEdgeExtension(SingleEdge(need), g2, IdentityOfTwo());
            (need > found ==> r == [EdgeExtension(0, 1, 0, 1, need, found)]) &&
            (need <= found ==> r == [])
  {
    var g1, a := SingleEdge(need), IdentityOfTwo();
    var r := MinimalEdgeExtension(g1, g2, a);
    SingleEdgeDeficits(need, g2, found);
    if need > found {
      SingleEdgeRecords(need, g2, found);
      AtMostOneRecord(r, 0, 1);
      assert Reported(r, 0, 1);
      assert r[0] in r;
    } else {
      NoDeficitNothingMissing(g1, g2, a);
      EmptyReportIffNothingMissing(g1, g2, a);
    }
  }

  /** A mapping with no deficit on any pair misses no edge. */
  lemma NoDeficitNothingMissing(g1: Digraph, g2: Digraph, a: Assignment)
    requires Reportable(g1, g2, a)
    requires forall u: nat, v: nat :: u < g1.n && v < g1.n ==> PairDeficit(g1, g2, a, u, v) == 0
    ensures MissingEdges(g1, g2, a) == 0
  {
    var D := Deficit(g1, g2, a);
    forall u: nat | u < g1.n
      ensures RowSums(g1.n, D)(u) == 0
    {
      SumZero(g1.n, Row(D, u));
    }
    SumZero(g1.n, RowSums(g1.n, D));
  }

  /** A G1 edge of weight 10 against a G2 edge of weight 2 is one record
      (0, 1) -> (0, 1), needed 10, found 2, short by 8. */
  lemma DeficitIsReported()
    ensures var r := MinimalEdgeExtension(SingleEdge(10), SingleEdge(2), IdentityOfTwo());
            r == [EdgeExtension(0, 1, 0, 1, 10, 2)] && Shortfall(r[0]) == 8
  {
    SingleEdgeReport(10, SingleEdge(2), 2);
  }

  /** Nothing is reported when G2 has more weight than G1 needs. */
  lemma SufficientWeightIsNotReported()
    ensures MinimalEdgeExtension(SingleEdge(5), SingleEdge(10), IdentityOfTwo()) == []
  {
    SingleEdgeReport(5, SingleEdge(10), 10);
  }

  /** An edge G2 lacks altogether is reported with found weight 0. */
  lemma AbsentEdgeIsReported()
    ensures var r := MinimalEdgeExtension(SingleEdge(5), EmptyDigraph(2), IdentityOfTwo());
            |r| == 1 && r[0].weightNeeded == 5 && r[0].weightFound == 0
  {
    SingleEdgeReport(5, EmptyDigraph(2), 0);
  }

  /** The exact entry point: the best-first search. */
  method Accurate(g1: Graph, g2: Graph, k: int) returns (result: seq<Assignment>)
    requires g1.Valid() && g2.Valid()
    ensures g1.vertices > g2.vertices ==> result == []
    ensures g1.vertices <= g2.vertices ==>
              |result| == 1 && IsFullMapping(result[0]) &&
              result[0].sizeG1 == g1.vertices && result[0].sizeG2 == g2.vertices &&
              forall m :: IsFullMapping(m) && m.sizeG1 == g1.vertices && m.sizeG2 == g2.vertices ==>
                MissingEdges(g1.View(), g2.View(), result[0]) <= MissingEdges(g1.View(), g2.View(), m)
  {
    result := AccurateAStar(g1, g2, k);
  }

  /** The beam width of the approximate entry point. */
  const ApproximateWidth: nat := 5

  /** The approximate entry point: the beam search keeping five nodes per
      level. */
  method Approximate(g1: Graph, g2: Graph, k: int) returns (result: seq<Assignment>)
    requires g1.Valid() && g2.Valid()
    requires g1.vertices == 0 ==> g2.vertices == 0
    ensures g1.vertices > g2.vertices || g1.vertices == 0 ==> result == []
    ensures 0 < g1.vertices <= g2.vertices ==>
              |result| == 1 && IsFullMapping(result[0]) &&
              result[0].sizeG1 == g1.vertices && result[0].sizeG2 == g2.vertices
  {
    result := ApproxAStar(g1, g2, k, ApproximateWidth);
  }
}

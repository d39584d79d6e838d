/** The beam variant of the best-first search: each level of the search
    tree keeps only its best few states, and a heap over the levels yields
    the best state overall. */
module Beam {
  import opened Graphs
  import opened Assignments
  import opened Costs
  import opened Ordering
  import opened AStar

  /** Priorities ascend. */
  predicate SortedByF(s: seq<Node>)
  {
    forall i, j :: 0 <= i < j < |s| ==> s[i].f <= s[j].f
  }

  /** Priorities ascend, stated entry by entry. */
  predicate Ascending(s: seq<Node>)
  {
    |s| < 2 || (s[0].f <= s[1].f && Ascending(s[1..]))
  }

  /** The entry-by-entry statement agrees with the pairwise one. */
  lemma {:induction false} AscendingIsSorted(s: seq<Node>)
    ensures Ascending(s) <==> SortedByF(s)
  {
    if |s| >= 2 {
      AscendingIsSorted(s[1..]);
      if Ascending(s) {
        forall i, j | 0 <= i < j < |s|
          ensures s[i].f <= s[j].f
        {
          if i > 0 {
            assert s[1..][i - 1] == s[i] && s[1..][j - 1] == s[j];
          } else if j > 1 {
            assert s[1..][0] == s[1] && s[1..][j - 1] == s[j];
          }
        }
      }
      if SortedByF(s) {
        forall i, j | 0 <= i < j < |s| - 1
          ensures s[1..][i].f <= s[1..][j].f
        {
          assert s[1..][i] == s[i + 1] && s[1..][j] == s[j + 1];
        }
      }
    }
  }

  /** Where a node of priority f goes in an ascending sequence: at the first
      entry of larger priority, so after every entry of equal priority. */
  function InsertPosition(s: seq<Node>, f: int): (p: nat)
    ensures p <= |s|
    ensures forall i :: 0 <= i < p ==> s[i].f <= f
    ensures p < |s| ==> f < s[p].f
  {
    if s == [] then 0
    else if f < s[0].f then 0
    else 1 + InsertPosition(s[1..], f)
  }

  /** s with e inserted at its position. */
  function SortedInsert(s: seq<Node>, e: Node): seq<Node>
  {
    var p := InsertPosition(s, e.f);
    s[..p] + [e] + s[p..]
  }

  /** Inserting at the position keeps the order and adds exactly e. */
  lemma SortedInsertProperties(s: seq<Node>, e: Node)
    requires SortedByF(s)
    ensures SortedByF(SortedInsert(s, e))
    ensures multiset(SortedInsert(s, e)) == multiset(s) + multiset{e}
    ensures |SortedInsert(s, e)| == |s| + 1
  {
    var p := InsertPosition(s, e.f);
    assert s == s[..p] + s[p..];
    SortedInsertSorted(s, e, p);
  }

  /** The entry-wise reading of the insert at position p is ordered. */
  lemma SortedInsertSorted(s: seq<Node>, e: Node, p: nat)
    requires SortedByF(s) && p == InsertPosition(s, e.f)
    ensures SortedByF(s[..p] + [e] + s[p..])
  {
    var t := s[..p] + [e] + s[p..];
    forall i, j | 0 <= i < j < |t|
      ensures t[i].f <= t[j].f
    {
      if j < p {
        assert t[i] == s[i] && t[j] == s[j];
      } else if j == p {
        assert t[i] == s[i] && t[j] == e;
      } else if i < p {
        assert t[i] == s[i] && t[j] == s[j - 1];
        assert s[i].f <= e.f < s[p].f <= s[j - 1].f;
      } else if i == p {
        assert t[i] == e && t[j] == s[j - 1];
        assert e.f < s[p].f <= s[j - 1].f;
      } else {
        assert t[i] == s[i - 1] && t[j] == s[j - 1];
      }
    }
  }



  /** The bounded insert of a table of capacity r holding s: a node no
      better than the last of a full table is dropped; otherwise it goes in
      at its position and, when the table is full, the last entry falls
      out. */
  function PrioInsert(s: seq<Node>, r: nat, e: Node): (t: seq<Node>)
    requires 1 <= r && |s| <= r
    ensures |t| == if |s| < r then |s| + 1 else r
    ensures e !in t ==> t == s
  {
    if |s| == r && e.f >= s[|s| - 1].f then s
    else if |s| < r then SortedInsert(s, e)
    else
      var p := InsertPosition(s, e.f);
      assert p < r && SortedInsert(s, e)[..r][p] == e;
      SortedInsert(s, e)[..r]
  }

  /** The bounded insert keeps the first min(|s| + 1, r) entries of the
      unbounded one. */
  lemma {:induction false} PrioInsertIsBoundedInsert(s: seq<Node>, r: nat, e: Node)
    requires 1 <= r && |s| <= r && SortedByF(s)
    ensures |SortedInsert(s, e)| == |s| + 1
    ensures PrioInsert(s, r, e) == SortedInsert(s, e)[..if |s| < r then |s| + 1 else r]
  {
    SortedInsertProperties(s, e);
    if |s| == r && e.f >= s[|s| - 1].f {
      var p := InsertPosition(s, e.f);
      assert p == |s|;
      assert SortedInsert(s, e)[..r] == s;
    }
  }

  /** The bounded insert keeps the table ascending. */
  lemma PrioInsertSorted(s: seq<Node>, r: nat, e: Node)
    requires 1 <= r && |s| <= r && SortedByF(s)
    ensures SortedByF(PrioInsert(s, r, e))
  {
    SortedInsertProperties(s, e);
    PrioInsertIsBoundedInsert(s, r, e);
  }

  /** The bounded insert never exceeds the capacity. */
  lemma PrioInsertWithin(s: seq<Node>, r: nat, e: Node)
    requires 1 <= r && |s| <= r && SortedByF(s)
    ensures |PrioInsert(s, r, e)| <= r
  {
    PrioInsertIsBoundedInsert(s, r, e);
  }

  /** The bounded insert keeps the table ascending and within capacity,
      grows it by one when it had room, holds only entries of s and e, and
      leaves out at most one of them, one no better than any kept entry. */
  lemma PrioInsertProperties(s: seq<Node>, r: nat, e: Node)
    requires 1 <= r && |s| <= r && SortedByF(s)
    ensures SortedByF(PrioInsert(s, r, e))
    ensures |PrioInsert(s, r, e)| == if |s| < r then |s| + 1 else r
    ensures |s| < r ==> multiset(PrioInsert(s, r, e)) == multiset(s) + multiset{e}
    ensures |s| == r ==> exists d :: multiset(PrioInsert(s, r, e)) + multiset{d} == multiset(s) + multiset{e} &&
                                     forall x :: x in PrioInsert(s, r, e) ==> x.f <= d.f
  {
    var t := SortedInsert(s, e);
    SortedInsertProperties(s, e);
    PrioInsertIsBoundedInsert(s, r, e);
    if |s| == r {
      var d := t[r];
      assert t == t[..r] + [d];
      forall x | x in t[..r]
        ensures x.f <= d.f
      {
        var i :| 0 <= i < r && t[..r][i] == x;
        assert t[i] == x;
      }
    }
  }

  /** The best entry after an insert is the better of the old best and e;
      an earlier entry wins a tie. */
  lemma PrioInsertBest(s: seq<Node>, r: nat, e: Node)
    requires 1 <= r && |s| <= r && SortedByF(s)
    ensures |PrioInsert(s, r, e)| > 0
    ensures s != [] ==> PrioInsert(s, r, e)[0] == (if e.f < s[0].f then e else s[0])
    ensures s == [] ==> PrioInsert(s, r, e)[0] == e
  {
    PrioInsertIsBoundedInsert(s, r, e);
  }

  /** Every entry after an insert was in the table or is the new node. */
  lemma PrioInsertFrom(s: seq<Node>, r: nat, e: Node)
    requires 1 <= r && |s| <= r && SortedByF(s)
    ensures forall x :: x in PrioInsert(s, r, e) ==> x in s || x == e
  {
    PrioInsertProperties(s, r, e);
    PrioInsertIsBoundedInsert(s, r, e);
    var t := SortedInsert(s, e);
    forall x | x in PrioInsert(s, r, e)
      ensures x in s || x == e
    {
      assert x in multiset(t);
    }
  }
  /** An entry of s or e that the bounded insert leaves out was dropped
      from a full table, and every kept entry is no worse than it. */
  lemma PrioInsertDrops(s: seq<Node>, r: nat, e: Node)
    requires 1 <= r && |s| <= r && SortedByF(s)
    ensures forall d :: (d in s || d == e) && d !in PrioInsert(s, r, e) ==>
              |s| == r && forall x :: x in PrioInsert(s, r, e) ==> x.f <= d.f
  {
    var u := SortedInsert(s, e);
    SortedInsertProperties(s, e);
    PrioInsertIsBoundedInsert(s, r, e);
    InsertHoldsAll(s, e);
    if |s| == r && e.f >= s[|s| - 1].f {
      forall x | x in s
        ensures x.f <= e.f
      {
        var i :| 0 <= i < |s| && s[i] == x;
      }
    } else if |s| == r {
      assert u == u[..r] + [u[r]];
      forall x | x in u[..r]
        ensures x.f <= u[r].f
      {
        var i :| 0 <= i < r && u[..r][i] == x;
        assert u[i] == x;
      }
    }
  }

  /** The unbounded insert holds every entry of s and e. */
  lemma InsertHoldsAll(s: seq<Node>, e: Node)
    requires SortedByF(s)
    ensures forall d :: d in s || d == e ==> d in SortedInsert(s, e)
  {
    SortedInsertProperties(s, e);
    forall d | d in s || d == e
      ensures d in SortedInsert(s, e)
    {
      assert d in multiset(SortedInsert(s, e));
    }
  }

  /** When every entry of a full table is no worse than d, so is every
      entry after a bounded insert. */
  lemma PrioInsertBelow(s: seq<Node>, r: nat, e: Node, d: Node)
    requires 1 <= r && |s| == r && SortedByF(s)
    requires forall x :: x in s ==> x.f <= d.f
    ensures forall x :: x in PrioInsert(s, r, e) ==> x.f <= d.f
  {
    PrioInsertFrom(s, r, e);
    assert s[|s| - 1] in s;
  }


  /** A table of at most `capacity` nodes kept ascending by priority. */
  class PrioArr {
    const capacity: nat
    const table: array<Node>
    var used: nat

    ghost predicate Valid()
      reads this, table
    {
      table.Length == capacity && 1 <= capacity && used <= capacity && Ascending(table[..used])
    }

    /** The nodes held, best first. */
    function Contents(): seq<Node>
      reads this, table
      requires used <= table.Length
    {
      table[..used]
    }

    /** An empty table of capacity r, its slots filled with `blank`. */
    constructor (r: nat, blank: Node)
      requires r >= 1
      ensures Valid() && Contents() == [] && capacity == r && fresh(table)
    {
      capacity := r;
      table := new Node[r](_ => blank);
      used := 0;
    }

    /** Nothing is held. */
    predicate IsEmpty()
      reads this, table
      requires Valid()
      ensures IsEmpty() <==> Contents() == []
    {
      used == 0
    }

    /** The first node, one of least priority. */
    function PeekBest(): (best: Node)
      reads this, table
      requires Valid() && used > 0
      ensures best in Contents() && forall x :: x in Contents() ==> best.f <= x.f
    {
      AscendingIsSorted(table[..used]);
      table[0]
    }

    /** Moves the entries at (from, to) one place left; every other entry
        stays where it was. */
    method ShiftLeft(from: nat, to: nat)
      requires from < to <= table.Length
      modifies table
      ensures forall j :: from <= j < to - 1 ==> table[j] == old(table[j + 1])
      ensures forall j :: 0 <= j < table.Length && (j < from || to - 1 <= j) ==> table[j] == old(table[j])
    {
      var k := from;
      while k < to - 1
        invariant from <= k <= to - 1
        invariant forall j :: from <= j < k ==> table[j] == old(table[j + 1])
        invariant forall j :: 0 <= j < table.Length && (j < from || k <= j) ==> table[j] == old(table[j])
      {
        table[k] := table[k + 1];
        k := k + 1;
      }
    }

    /** Removes and returns the first node, shifting the rest left. */
    method GetBest() returns (best: Node)
      requires Valid() && used > 0
      modifies this, table
      ensures Valid() && best == old(Contents())[0] && Contents() == old(Contents())[1..]
      ensures forall x :: x in old(Contents()) ==> best.f <= x.f
    {
      ghost var s := Contents();
      best := table[0];
      ShiftLeft(0, used);
      used := used - 1;
      assert Contents() == s[1..];
      AscendingIsSorted(s);
      forall x | x in s
        ensures best.f <= x.f
      {
        var i :| 0 <= i < |s| && s[i] == x;
        assert s[0] == best;
      }
    }

    /** The first index whose priority exceeds f, or the number of entries
        when there is none: the position the ordered insert uses. */
    method FindSlot(f: int) returns (pos: nat)
      requires Valid()
      ensures pos == InsertPosition(Contents(), f)
    {
      pos := used;
      var i: nat := 0;
      while i < used
        invariant i <= used && pos == used
        invariant forall j :: 0 <= j < i ==> table[j].f <= f
      {
        if f < table[i].f {
          pos := i;
          break;
        }
        i := i + 1;
      }
      InsertPositionUnique(Contents(), f, pos);
    }

    /** Moves the entries at [from, to) one place right; every other entry
        stays where it was. */
    method ShiftRight(from: nat, to: nat)
      requires from <= to < table.Length
      modifies table
      ensures forall j :: 0 <= j < table.Length && (j <= from || to < j) ==> table[j] == old(table[j])
      ensures forall j :: from < j <= to ==> table[j] == old(table[j - 1])
    {
      var k := to;
      while k > from
        invariant from <= k <= to
        invariant forall j :: 0 <= j < table.Length && (j <= k || to < j) ==> table[j] == old(table[j])
        invariant forall j :: k < j <= to ==> table[j] == old(table[j - 1])
      {
        table[k] := table[k - 1];
        k := k - 1;
      }
    }

    /** The bounded insert, shifting the entries after the node's position
      right by one; when the table is full the last entry falls out, and a
      node no better than that entry is not inserted at all. */
    method Insert(node: Node)
      requires Valid()
      modifies this, table
      ensures Valid() && Contents() == PrioInsert(old(Contents()), capacity, node)
    {
      if used == capacity && node.f >= table[used - 1].f {
        return;
      }
      Place(node);
    }

    /** The insert of a node that is not dropped: it goes in at its slot and
        the entries from there on move one place right. */
    method Place(node: Node)
      requires Valid() && !(used == capacity && node.f >= table[used - 1].f)
      modifies this, table
      ensures Valid() && Contents() == PrioInsert(old(Contents()), capacity, node)
    {
      ghost var s := Contents();
      var insertPos := FindSlot(node.f);
      if used < capacity {
        used := used + 1;
      }
      ShiftRight(insertPos, used - 1);
      ghost var before := table[..used];
      table[insertPos] := node;
      assert table[..used] == before[insertPos := node];
      ShiftedInsert(s, capacity, insertPos, node, before);
    }
  }

  /** The shifted table with node written at p is the bounded insert. */
  lemma ShiftedInsert(s: seq<Node>, r: nat, p: nat, node: Node, t: seq<Node>)
    requires 1 <= r && |s| <= r && Ascending(s)
    requires !(|s| == r && node.f >= s[|s| - 1].f)
    requires p == InsertPosition(s, node.f) && |t| == (if |s| < r then |s| + 1 else r) && p < |t|
    requires forall j :: 0 <= j < p ==> t[j] == s[j]
    requires forall j :: p < j < |t| ==> t[j] == s[j - 1]
    ensures t[p := node] == PrioInsert(s, r, node) && Ascending(t[p := node])
  {
    ShiftedIsSplice(s, p, node, t);
    BoundedInsertAt(s, r, node, p, |t|);
  }

  /** A table that agrees with s before p and with s shifted by one after p
      is, once node is written at p, s with node spliced in at p. */
  lemma ShiftedIsSplice(s: seq<Node>, p: nat, node: Node, t: seq<Node>)
    requires p < |t| <= |s| + 1
    requires forall j :: 0 <= j < p ==> t[j] == s[j]
    requires forall j :: p < j < |t| ==> t[j] == s[j - 1]
    ensures t[p := node] == s[..p] + [node] + s[p..|t| - 1]
  {
    var w := s[..p] + [node] + s[p..|t| - 1];
    forall j | 0 <= j < |t|
      ensures t[p := node][j] == w[j]
    {
      if j < p {
        assert w[j] == s[j];
      } else if j > p {
        assert w[j] == s[j - 1];
      }
    }
  }

  /** When the node is not dropped, the bounded insert is the splice of the
      node at its position, cut to the new length, and stays ascending. */
  lemma BoundedInsertAt(s: seq<Node>, r: nat, node: Node, p: nat, u: nat)
    requires 1 <= r && |s| <= r && Ascending(s)
    requires !(|s| == r && node.f >= s[|s| - 1].f)
    requires p == InsertPosition(s, node.f) && u == (if |s| < r then |s| + 1 else r) && p < u
    ensures PrioInsert(s, r, node) == s[..p] + [node] + s[p..u - 1]
    ensures Ascending(PrioInsert(s, r, node))
  {
    AscendingIsSorted(s);
    PrioInsertIsBoundedInsert(s, r, node);
    TakeOfInsert(s, p, node, u);
    PrioInsertSorted(s, r, node);
    AscendingIsSorted(PrioInsert(s, r, node));
  }



  /** The first u entries of s with node inserted at p. */
  lemma TakeOfInsert(s: seq<Node>, p: nat, node: Node, u: nat)
    requires p < u <= |s| + 1 && p <= |s|
    ensures (s[..p] + [node] + s[p..])[..u] == s[..p] + [node] + s[p..u - 1]
  {
    var t := (s[..p] + [node] + s[p..])[..u];
    var w := s[..p] + [node] + s[p..u - 1];
    forall j | 0 <= j < u
      ensures t[j] == w[j]
    {
      if j < p {
        assert t[j] == s[j] == w[j];
      } else if j > p {
        assert t[j] == s[j - 1] == w[j];
      }
    }
  }

  /** The position is the only index before which every entry is no larger
      and at which the entry is larger. */
  lemma InsertPositionUnique(s: seq<Node>, f: int, p: nat)
    requires p <= |s| && forall i :: 0 <= i < p ==> s[i].f <= f
    requires p < |s| ==> f < s[p].f
    ensures p == InsertPosition(s, f)
  {
  }

  /** Among the levels `keys` of the heap, one has the least key. */
  lemma MinKeyExists(heap: map<nat, int>, keys: set<nat>)
    requires keys != {} && keys <= heap.Keys
    ensures exists l :: l in keys && forall l' :: l' in keys ==> heap[l] <= heap[l']
    decreases keys
  {
    var x :| x in keys;
    var rest := keys - {x};
    if rest == {} {
      assert keys == rest + {x};
    } else {
      MinKeyExists(heap, rest);
      var m :| m in rest && forall l' :: l' in rest ==> heap[m] <= heap[l'];
      MinKeyStep(heap, keys, x, m);
    }
  }

  /** The better of x and the least key m of the other levels is least. */
  lemma MinKeyStep(heap: map<nat, int>, keys: set<nat>, x: nat, m: nat)
    requires keys <= heap.Keys && x in keys && m in keys - {x}
    requires forall l' :: l' in keys - {x} ==> heap[m] <= heap[l']
    ensures var best := if heap[x] < heap[m] then x else m;
            best in keys && forall l' :: l' in keys ==> heap[best] <= heap[l']
  {
    forall l' | l' in keys && l' != x
      ensures l' in keys - {x}
    {
    }
  }

  /** The per-level tables of the beam search and the heap over the levels
      that are not empty. A level holds the nodes its bounded table holds,
      as PrioInsert and the removal of the first entry update them; the
      heap is kept as the map from each level in it to its key. */
  class MasterQueue {
    const capacity: nat
    var levels: seq<seq<Node>>
    var heap: map<nat, int>

    /** Every level is a bounded ascending table; the heap holds exactly the
        non-empty levels, each keyed by the priority of its best node. */
    ghost predicate Valid()
      reads this
    {
      1 <= capacity &&
      (forall i :: 0 <= i < |levels| ==> |levels[i]| <= capacity && Ascending(levels[i])) &&
      (forall i :: i in heap <==> 0 <= i < |levels| && levels[i] != []) &&
      (forall i :: i in heap ==> heap[i] == levels[i][0].f)
    }

    /** `size` empty levels of capacity r each. */
    constructor (size: nat, r: nat)
      requires r >= 1
      ensures Valid() && capacity == r && levels == seq(size, _ => []) && heap == map[]
    {
      capacity := r;
      levels := seq(size, _ => []);
      heap := map[];
    }

    /** No level holds a node. */
    predicate IsEmpty()
      reads this
      requires Valid()
      ensures IsEmpty() <==> forall i :: 0 <= i < |levels| ==> levels[i] == []
    {
      assert heap == map[] <== forall i :: i !in heap;
      heap == map[]
    }

    /** Inserts a node into level idx; a level that was empty enters the
        heap, and a level whose best priority improves has its key
        lowered. */
    method Insert(idx: nat, node: Node)
      requires Valid() && idx < |levels|
      modifies this
      ensures Valid()
      ensures levels == old(levels)[idx := PrioInsert(old(levels)[idx], capacity, node)]
    {
      var level := levels[idx];
      var wasEmpty := level == [];
      var oldBest := if wasEmpty then IntMax else level[0].f;
      AscendingIsSorted(level);
      PrioInsertBest(level, capacity, node);
      PrioInsertSorted(level, capacity, node);
      PrioInsertWithin(level, capacity, node);
      AscendingIsSorted(PrioInsert(level, capacity, node));
      levels := levels[idx := PrioInsert(level, capacity, node)];
      var newBest := levels[idx][0].f;
      if wasEmpty {
        heap := heap[idx := newBest];
      } else if newBest < oldBest {
        heap := heap[idx := newBest];
      }
    }

    /** Removes and returns the best node of the level with the least key,
        and puts that level back into the heap when it still holds nodes:
        the node returned has the least priority of all queued nodes. */
    method PopMin() returns (idx: nat, best: Node)
      requires Valid() && !IsEmpty()
      modifies this
      ensures Valid()
      ensures idx < |old(levels)| && old(levels)[idx] != [] && best == old(levels)[idx][0]
      ensures levels == old(levels)[idx := old(levels)[idx][1..]]
      ensures forall i, j :: 0 <= i < |old(levels)| && 0 <= j < |old(levels)[i]| ==> best.f <= old(levels)[i][j].f
    {
      assert heap.Keys != {};
      MinKeyExists(heap, heap.Keys);
      idx :| idx in heap && forall l :: l in heap ==> heap[idx] <= heap[l];
      ghost var before: seq<seq<Node>> := levels;
      heap := heap - {idx};
      best := levels[idx][0];
      levels := levels[idx := levels[idx][1..]];
      if levels[idx] != [] {
        heap := heap[idx := levels[idx][0].f];
      }
      forall i, j | 0 <= i < |before| && 0 <= j < |before[i]|
        ensures best.f <= before[i][j].f
      {
        AscendingIsSorted(before[i]);
        assert i in old(heap);
      }
    }
  }

  /** A node that may sit in level i of the beam: a valid state over n1 and
      n2 vertices with exactly i + 1 G1 vertices mapped. */
  ghost predicate LevelNode(n1: nat, n2: nat, i: nat, node: Node)
  {
    node.state.Valid() && node.state.mapping.sizeG1 == n1 && node.state.mapping.sizeG2 == n2 &&
    node.state.mapping.count == i + 1
  }

  /** Every node sits in the level of its mapped count. */
  ghost predicate GoodLevels(n1: nat, n2: nat, levels: seq<seq<Node>>)
  {
    forall i, j :: 0 <= i < |levels| && 0 <= j < |levels[i]| ==> LevelNode(n1, n2, i, levels[i][j])
  }

  /** The queue of the beam: valid, one level per G1 vertex, each node in
      the level of its mapped count. */
  ghost predicate BeamQueue(queue: MasterQueue, n1: nat, n2: nat)
    reads queue
  {
    queue.Valid() && |queue.levels| == n1 && GoodLevels(n1, n2, queue.levels)
  }

  /** The termination measure of the beam: with L levels, a node in level i
      weighs base raised to L - 1 - i. */
  function LevelPotential(base: nat, levels: seq<seq<Node>>): nat
  {
    if levels == [] then 0 else Mul(|levels[0]|, Pow(base, |levels| - 1)) + LevelPotential(base, levels[1..])
  }

  /** Replacing level i moves the measure by the change in that level's
      size times the level's weight. */
  lemma {:induction false} LevelPotentialUpdate(base: nat, levels: seq<seq<Node>>, i: nat, level: seq<Node>)
    requires i < |levels|
    ensures LevelPotential(base, levels[i := level]) + Mul(|levels[i]|, Pow(base, |levels| - 1 - i)) ==
            LevelPotential(base, levels) + Mul(|level|, Pow(base, |levels| - 1 - i))
    decreases i
  {
    if i == 0 {
      assert levels[i := level][1..] == levels[1..];
    } else {
      assert levels[i := level][1..] == levels[1..][i - 1 := level];
      LevelPotentialUpdate(base, levels[1..], i - 1, level);
    }
  }

  /** Taking the best node of level i lowers the measure by the level's
      weight. */
  lemma PopLowersPotential(base: nat, levels: seq<seq<Node>>, i: nat, e: nat)
    requires i < |levels| && levels[i] != [] && e == |levels| - 1 - i
    ensures LevelPotential(base, levels[i := levels[i][1..]]) + Pow(base, e) == LevelPotential(base, levels)
  {
    LevelPotentialUpdate(base, levels, i, levels[i][1..]);
  }

  /** One more summand adds b. */
  lemma MulStep(a: nat, b: nat)
    ensures Mul(a + 1, b) == Mul(a, b) + b
  {
  }

  /** Taking the best node of level i and then adding at most n2 nodes,
      each of the next level's weight, lowers the measure. */
  lemma BeamStepLowers(n2: nat, levels: seq<seq<Node>>, i: nat, popped: seq<seq<Node>>, next: seq<seq<Node>>, e: nat)
    requires i < |levels| && levels[i] != [] && popped == levels[i := levels[i][1..]]
    requires e == |levels| - 2 - i
    requires LevelPotential(n2 + 1, next) <= LevelPotential(n2 + 1, popped) + Mul(n2, Pow(n2 + 1, e))
    ensures LevelPotential(n2 + 1, next) < LevelPotential(n2 + 1, levels)
  {
    PopLowersPotential(n2 + 1, levels, i, e + 1);
    ChildrenWeighLess(n2, n2, e + 1);
  }

  /** A bounded insert into level i raises the measure by at most the
      level's weight. */
  lemma InsertRaisesPotential(base: nat, levels: seq<seq<Node>>, i: nat, r: nat, node: Node, e: nat)
    requires i < |levels| && 1 <= r && |levels[i]| <= r && Ascending(levels[i]) && e == |levels| - 1 - i
    ensures LevelPotential(base, levels[i := PrioInsert(levels[i], r, node)]) <= LevelPotential(base, levels) + Pow(base, e)
  {
    AscendingIsSorted(levels[i]);
    PrioInsertIsBoundedInsert(levels[i], r, node);
    LevelPotentialUpdate(base, levels, i, PrioInsert(levels[i], r, node));
    MulMonotone(|PrioInsert(levels[i], r, node)|, |levels[i]| + 1, Pow(base, e));
  }

  /** Inserting a node of level i's mapped count keeps every node in its
      level. */
  lemma GoodLevelsInsert(n1: nat, n2: nat, levels: seq<seq<Node>>, i: nat, r: nat, node: Node)
    requires GoodLevels(n1, n2, levels) && i < |levels| && 1 <= r && |levels[i]| <= r && Ascending(levels[i])
    requires LevelNode(n1, n2, i, node)
    ensures GoodLevels(n1, n2, levels[i := PrioInsert(levels[i], r, node)])
  {
    AscendingIsSorted(levels[i]);
    PrioInsertFrom(levels[i], r, node);
    var next := levels[i := PrioInsert(levels[i], r, node)];
    forall l, j | 0 <= l < |next| && 0 <= j < |next[l]|
      ensures LevelNode(n1, n2, l, next[l][j])
    {
      if l == i {
        assert next[l][j] in PrioInsert(levels[i], r, node);
        if next[l][j] != node {
          var k :| 0 <= k < |levels[i]| && levels[i][k] == next[l][j];
        }
      }
    }
  }

  /** Dropping the best node of a level keeps every node in its level. */
  lemma GoodLevelsPop(n1: nat, n2: nat, levels: seq<seq<Node>>, i: nat)
    requires GoodLevels(n1, n2, levels) && i < |levels| && levels[i] != []
    ensures GoodLevels(n1, n2, levels[i := levels[i][1..]])
  {
    var next := levels[i := levels[i][1..]];
    forall l, j | 0 <= l < |next| && 0 <= j < |next[l]|
      ensures LevelNode(n1, n2, l, next[l][j])
    {
      if l == i {
        assert next[l][j] == levels[i][j + 1];
      }
    }
  }

  /** The child of parent with v1 mapped to y, as the expansion builds it:
      the state with that assignment, the parent's cost plus the cost of
      the assignment, and that cost plus the heuristic as priority. */
  ghost function Child(G1: Digraph, G2: Digraph, parent: Node, v1: nat, y: nat): Node
    requires parent.state.mapping.Consistent() && |parent.state.used| == parent.state.mapping.sizeG2
    requires v1 < parent.state.mapping.sizeG1 && y < parent.state.mapping.sizeG2
  {
    var s := SetState(parent.state, v1, y);
    var g := parent.g + AssignmentCost(G1, G2, parent.state.mapping, v1, y);
    Node(s, g, g + Heuristic(G1, G2, s))
  }

  /** node is the child of the valid node parent with v1 mapped to the
      free G2 vertex y. */
  ghost predicate ChildOf(G1: Digraph, G2: Digraph, parent: Node, v1: nat, y: nat, node: Node)
  {
    parent.state.Valid() && v1 < parent.state.mapping.sizeG1 && y < |parent.state.used| && !parent.state.used[y] &&
    node == Child(G1, G2, parent, v1, y)
  }

  /** node is a child of parent with v1 mapped to some free G2 vertex. */
  ghost predicate IsChild(G1: Digraph, G2: Digraph, parent: Node, v1: nat, node: Node)
  {
    exists y: nat :: ChildOf(G1, G2, parent, v1, y, node)
  }

  /** Every node of level was in before or is a child of parent for v1. */
  ghost predicate Spawned(G1: Digraph, G2: Digraph, parent: Node, v1: nat, before: seq<Node>, level: seq<Node>)
  {
    forall x :: x in level ==> x in before || IsChild(G1, G2, parent, v1, x)
  }

  /** The nodes f(u) of the vertices u below n that keep admits, in
      ascending order of u: what a loop over the G2 vertices offers. */
  ghost function Gather(n: nat, keep: nat -> bool, f: nat -> Node): seq<Node>
  {
    if n == 0 then [] else Gather(n - 1, keep, f) + (if keep(n - 1) then [f(n - 1)] else [])
  }

  /** The nodes gathered below n are those of admitted vertices below n,
      and the node of every admitted vertex below n is among them. */
  lemma {:induction false} GatherContents(n: nat, keep: nat -> bool, f: nat -> Node)
    ensures forall x :: x in Gather(n, keep, f) ==> exists u :: 0 <= u < n && keep(u) && x == f(u)
    ensures forall u :: 0 <= u < n && keep(u) ==> f(u) in Gather(n, keep, f)
  {
    if n > 0 {
      GatherContents(n - 1, keep, f);
    }
  }

  /** When every vertex below n is admitted, the node at index u is the
      one of vertex u. */
  lemma {:induction false} GatherEvery(n: nat, keep: nat -> bool, f: nat -> Node)
    requires forall u :: 0 <= u < n ==> keep(u)
    ensures |Gather(n, keep, f)| == n
    ensures forall u :: 0 <= u < n ==> Gather(n, keep, f)[u] == f(u)
  {
    if n > 0 {
      GatherEvery(n - 1, keep, f);
    }
  }

  /** The G2 vertices free in the mask used. */
  ghost function FreeIn(used: seq<bool>): nat -> bool
  {
    (u: nat) => u < |used| && !used[u]
  }

  /** The child of parent for each G2 vertex (parent itself past the last
      vertex, where no child exists and none is gathered). */
  ghost function ChildFor(G1: Digraph, G2: Digraph, parent: Node, v1: nat): nat -> Node
    requires parent.state.mapping.Consistent() && |parent.state.used| == parent.state.mapping.sizeG2
    requires v1 < parent.state.mapping.sizeG1
  {
    (y: nat) => if y < parent.state.mapping.sizeG2 then Child(G1, G2, parent, v1, y) else parent
  }

  /** The children the expansion offers for the G2 vertices below y: one
      per free vertex, in ascending order of the vertex. */
  ghost function Children(G1: Digraph, G2: Digraph, parent: Node, v1: nat, y: nat): seq<Node>
    requires parent.state.mapping.Consistent() && |parent.state.used| == parent.state.mapping.sizeG2
    requires v1 < parent.state.mapping.sizeG1 && y <= parent.state.mapping.sizeG2
  {
    Gather(y, FreeIn(parent.state.used), ChildFor(G1, G2, parent, v1))
  }

  /** A used vertex adds no child. */
  lemma ChildrenSkip(G1: Digraph, G2: Digraph, parent: Node, v1: nat, y: nat)
    requires parent.state.mapping.Consistent() && |parent.state.used| == parent.state.mapping.sizeG2
    requires v1 < parent.state.mapping.sizeG1 && y < parent.state.mapping.sizeG2 && parent.state.used[y]
    ensures Children(G1, G2, parent, v1, y + 1) == Children(G1, G2, parent, v1, y)
  {
    assert !FreeIn(parent.state.used)(y);
    assert Children(G1, G2, parent, v1, y) + [] == Children(G1, G2, parent, v1, y);
  }

  /** A free vertex adds its child after those of the vertices below it. */
  lemma ChildrenStep(G1: Digraph, G2: Digraph, parent: Node, v1: nat, y: nat)
    requires parent.state.mapping.Consistent() && |parent.state.used| == parent.state.mapping.sizeG2
    requires v1 < parent.state.mapping.sizeG1 && y < parent.state.mapping.sizeG2 && !parent.state.used[y]
    ensures Children(G1, G2, parent, v1, y + 1) == Children(G1, G2, parent, v1, y) + [Child(G1, G2, parent, v1, y)]
  {
    assert FreeIn(parent.state.used)(y);
    assert ChildFor(G1, G2, parent, v1)(y) == Child(G1, G2, parent, v1, y);
  }

  /** The children offered below y are children of parent, and the child
      of every free vertex below y is among them. */
  lemma ChildrenContents(G1: Digraph, G2: Digraph, parent: Node, v1: nat, y: nat)
    requires parent.state.Valid() && v1 < parent.state.mapping.sizeG1 && y <= parent.state.mapping.sizeG2
    ensures forall x :: x in Children(G1, G2, parent, v1, y) ==> IsChild(G1, G2, parent, v1, x)
    ensures forall u :: 0 <= u < y && !parent.state.used[u] ==>
              Child(G1, G2, parent, v1, u) in Children(G1, G2, parent, v1, y)
  {
    var keep, f := FreeIn(parent.state.used), ChildFor(G1, G2, parent, v1);
    GatherContents(y, keep, f);
    forall x | x in Children(G1, G2, parent, v1, y)
      ensures IsChild(G1, G2, parent, v1, x)
    {
      var u :| 0 <= u < y && keep(u) && x == f(u);
      assert ChildOf(G1, G2, parent, v1, u, x);
    }
    forall u | 0 <= u < y && !parent.state.used[u]
      ensures Child(G1, G2, parent, v1, u) in Children(G1, G2, parent, v1, y)
    {
      assert keep(u) && f(u) == Child(G1, G2, parent, v1, u);
    }
  }

  /** The levels of after other than level i are those of before. */
  ghost predicate OthersKept(before: seq<seq<Node>>, after: seq<seq<Node>>, i: nat)
  {
    |after| == |before| && forall l :: 0 <= l < |after| && l != i ==> after[l] == before[l]
  }

  /** Replacing level i keeps the other levels. */
  lemma OthersKeptUpdate(s: seq<seq<Node>>, i: nat, level: seq<Node>)
    requires i < |s|
    ensures OthersKept(s, s[i := level], i)
  {
  }

  /** Two rounds that keep the levels other than i are one. */
  lemma OthersKeptTrans(s: seq<seq<Node>>, t: seq<seq<Node>>, u: seq<seq<Node>>, i: nat)
    requires OthersKept(s, t, i) && OthersKept(t, u, i)
    ensures OthersKept(s, u, i)
  {
  }

  /** The seed of level 0 for the G2 vertex y: the fresh state with v
      mapped to y, cost 0 and the heuristic as priority. */
  ghost function Seed(G1: Digraph, G2: Digraph, v: nat, y: nat): Node
    requires v < G1.n && y < G2.n
  {
    var s := SetState(FreshState(G1.n, G2.n), v, y);
    Node(s, 0, Heuristic(G1, G2, s))
  }

  /** node is a seed of level 0 for v: the seed of some G2 vertex. */
  ghost predicate SeedOf(G1: Digraph, G2: Digraph, v: nat, node: Node)
  {
    v < G1.n && exists y: nat :: y < G2.n && node == Seed(G1, G2, v, y)
  }

  /** Every node of level was in before or is a seed for v. */
  ghost predicate Seeded(G1: Digraph, G2: Digraph, v: nat, before: seq<Node>, level: seq<Node>)
  {
    forall x :: x in level ==> x in before || SeedOf(G1, G2, v, x)
  }

  /** Every G2 vertex. */
  ghost function AllVertices(): nat -> bool
  {
    (_: nat) => true
  }

  /** The seed for v of each G2 vertex (a node of the fresh state past the
      last vertex, where no seed exists and none is gathered). */
  ghost function SeedFor(G1: Digraph, G2: Digraph, v: nat): nat -> Node
    requires v < G1.n
  {
    (y: nat) => if y < G2.n then Seed(G1, G2, v, y) else Node(FreshState(G1.n, G2.n), 0, 0)
  }

  /** The seeds offered to level 0 for the G2 vertices below n, in order. */
  ghost function Seeds(G1: Digraph, G2: Digraph, v: nat, n: nat): seq<Node>
    requires v < G1.n && n <= G2.n
  {
    Gather(n, AllVertices(), SeedFor(G1, G2, v))
  }

  /** The seed for vertex n follows those of the vertices below it. */
  lemma SeedsStep(G1: Digraph, G2: Digraph, v: nat, n: nat)
    requires v < G1.n && n < G2.n
    ensures Seeds(G1, G2, v, n + 1) == Seeds(G1, G2, v, n) + [Seed(G1, G2, v, n)]
  {
    assert AllVertices()(n);
    assert SeedFor(G1, G2, v)(n) == Seed(G1, G2, v, n);
  }

  /** The seeds below n are one per G2 vertex, in order. */
  lemma SeedsContents(G1: Digraph, G2: Digraph, v: nat, n: nat)
    requires v < G1.n && n <= G2.n
    ensures |Seeds(G1, G2, v, n)| == n
    ensures forall y :: 0 <= y < n ==> Seeds(G1, G2, v, n)[y] == Seed(G1, G2, v, y)
  {
    GatherEvery(n, AllVertices(), SeedFor(G1, G2, v));
    forall y | 0 <= y < n
      ensures Seeds(G1, G2, v, n)[y] == Seed(G1, G2, v, y)
    {
      assert SeedFor(G1, G2, v)(y) == Seed(G1, G2, v, y);
    }
  }

  /** The table that held level after the bounded inserts of the nodes of
      xs, one after another: it holds min(|level| + |xs|, r) entries. */
  function Offer(level: seq<Node>, r: nat, xs: seq<Node>): (t: seq<Node>)
    requires 1 <= r && |level| <= r
    ensures |t| == Min(|level| + |xs|, r)
  {
    if xs == [] then level else PrioInsert(Offer(level, r, xs[..|xs| - 1]), r, xs[|xs| - 1])
  }

  /** level is the table that held before after the offers of xs. */
  ghost predicate OfferedLevel(level: seq<Node>, before: seq<Node>, r: nat, xs: seq<Node>)
  {
    1 <= r && |before| <= r && level == Offer(before, r, xs)
  }

  /** Offering one more node is one more bounded insert. */
  lemma OfferStep(level: seq<Node>, r: nat, xs: seq<Node>, e: Node)
    requires 1 <= r && |level| <= r
    ensures Offer(level, r, xs + [e]) == PrioInsert(Offer(level, r, xs), r, e)
  {
    assert (xs + [e])[..|xs|] == xs;
  }

  /** The table after the offers is ascending and holds only nodes of
      level and of xs. */
  lemma {:induction false} OfferFrom(level: seq<Node>, r: nat, xs: seq<Node>)
    requires 1 <= r && |level| <= r && SortedByF(level)
    ensures SortedByF(Offer(level, r, xs))
    ensures forall x :: x in Offer(level, r, xs) ==> x in level || x in xs
  {
    if xs != [] {
      var init := xs[..|xs| - 1];
      OfferFrom(level, r, init);
      PrioInsertSorted(Offer(level, r, init), r, xs[|xs| - 1]);
      PrioInsertFrom(Offer(level, r, init), r, xs[|xs| - 1]);
      assert forall x :: x in init ==> x in xs;
    }
  }

  /** The offers keep the best nodes: a node of level or xs missing from
      the final table left it full of nodes no worse than itself. */
  lemma {:induction false} OfferKeepsBest(level: seq<Node>, r: nat, xs: seq<Node>)
    requires 1 <= r && |level| <= r && SortedByF(level)
    ensures forall d :: (d in level || d in xs) && d !in Offer(level, r, xs) ==>
              |Offer(level, r, xs)| == r && forall x :: x in Offer(level, r, xs) ==> x.f <= d.f
  {
    if xs != [] {
      var init, e := xs[..|xs| - 1], xs[|xs| - 1];
      var t := Offer(level, r, init);
      OfferKeepsBest(level, r, init);
      OfferFrom(level, r, init);
      PrioInsertDrops(t, r, e);
      forall d | (d in level || d in xs) && d !in PrioInsert(t, r, e)
        ensures |PrioInsert(t, r, e)| == r && forall x :: x in PrioInsert(t, r, e) ==> x.f <= d.f
      {
        if d != e && d !in t {
          assert d in level || d in init by {
            if d !in level {
              var i :| 0 <= i < |xs| && xs[i] == d;
              assert i < |xs| - 1 && init[i] == d;
            }
          }
          PrioInsertBelow(t, r, e, d);
        }
      }
    }
  }

  /** Builds the child of best with v1 mapped to the free G2 vertex y and
      inserts it into level idx + 1 as the bounded insert does, leaving the
      other levels as they were and keeping the beam invariants. */
  method InsertChild(g1: Graph, g2: Graph, queue: MasterQueue, idx: nat, best: Node, v1: nat, y: nat,
                     ghost n1: nat, ghost n2: nat, ghost e: nat) returns (child: Node)
    requires g1.Valid() && g2.Valid() && n1 == g1.vertices && n2 == g2.vertices
    requires BeamQueue(queue, n1, n2) && idx + 1 < n1 && e == n1 - 2 - idx
    requires LevelNode(n1, n2, idx, best)
    requires v1 < n1 && !best.state.mapping.IsMapped(v1) && y < n2 && !best.state.used[y]
    modifies queue
    ensures BeamQueue(queue, n1, n2)
    ensures LevelPotential(n2 + 1, queue.levels) <= old(LevelPotential(n2 + 1, queue.levels)) + Pow(n2 + 1, e)
    ensures queue.levels[idx + 1] != []
    ensures ChildOf(g1.View(), g2.View(), best, v1, y, child)
    ensures queue.levels == old(queue.levels)[idx + 1 := PrioInsert(old(queue.levels)[idx + 1], queue.capacity, child)]
  {
    child := MakeChild(g1, g2, best, v1, y, n1, n2, idx);
    InsertNode(queue, idx + 1, child, n1, n2, e);
  }

  /** A node built as the expansion builds children is the child of its
      parent for that vertex, and belongs one level below the parent. */
  lemma BuiltChild(G1: Digraph, G2: Digraph, parent: Node, v1: nat, y: nat, node: Node)
    requires parent.state.Valid() && v1 < parent.state.mapping.sizeG1 && y < parent.state.mapping.sizeG2
    requires !parent.state.used[y]
    requires node.state == SetState(parent.state, v1, y)
    requires node.g == parent.g + AssignmentCost(G1, G2, parent.state.mapping, v1, y)
    requires node.f == node.g + Heuristic(G1, G2, node.state)
    ensures ChildOf(G1, G2, parent, v1, y, node)
  {
  }

  /** The child of best for the free G2 vertex y, a node of the level
      below best's. */
  method MakeChild(g1: Graph, g2: Graph, best: Node, v1: nat, y: nat, ghost n1: nat, ghost n2: nat, ghost idx: nat)
    returns (child: Node)
    requires g1.Valid() && g2.Valid() && n1 == g1.vertices && n2 == g2.vertices
    requires LevelNode(n1, n2, idx, best)
    requires v1 < n1 && !best.state.mapping.IsMapped(v1) && y < n2 && !best.state.used[y]
    ensures ChildOf(g1.View(), g2.View(), best, v1, y, child) && LevelNode(n1, n2, idx + 1, child)
  {
    child := ChildNode(g1, g2, best, v1, y);
    BuiltChild(g1.View(), g2.View(), best, v1, y, child);
  }

  /** Inserts a node of level i's mapped count into level i, keeping the
      beam invariants: the measure grows by at most the level's weight. */
  method InsertNode(queue: MasterQueue, i: nat, node: Node, ghost n1: nat, ghost n2: nat, ghost e: nat)
    requires queue.Valid() && |queue.levels| == n1 && i < n1 && e == n1 - 1 - i
    requires GoodLevels(n1, n2, queue.levels) && LevelNode(n1, n2, i, node)
    modifies queue
    ensures queue.Valid() && |queue.levels| == n1 && GoodLevels(n1, n2, queue.levels)
    ensures LevelPotential(n2 + 1, queue.levels) <= old(LevelPotential(n2 + 1, queue.levels)) + Pow(n2 + 1, e)
    ensures queue.levels[i] != []
    ensures queue.levels == old(queue.levels)[i := PrioInsert(old(queue.levels)[i], queue.capacity, node)]
  {
    AscendingIsSorted(queue.levels[i]);
    PrioInsertBest(queue.levels[i], queue.capacity, node);
    GoodLevelsInsert(n1, n2, queue.levels, i, queue.capacity, node);
    ghost var levels := queue.levels;
    queue.Insert(i, node);
    InsertRaisesPotential(n2 + 1, levels, i, queue.capacity, node, e);
  }

  /** The state of the candidate loop after y candidates, from the levels
      before: the queue is still the beam's, only level idx + 1 has changed
      and it is the table that held its old nodes after the children for
      the G2 vertices below y were offered, its potential is within y
      weights w of p0, and it is nonempty once the known free vertex has
      been passed. */
  ghost predicate Expanded(G1: Digraph, G2: Digraph, queue: MasterQueue, n1: nat, n2: nat, idx: nat, best: Node, v1: nat,
                           before: seq<seq<Node>>, p0: nat, w: nat, y: nat, free: nat)
    reads queue
    requires LevelNode(n1, n2, idx, best) && v1 < n1 && y <= n2
  {
    BeamQueue(queue, n1, n2) && idx + 1 < n1 &&
    OthersKept(before, queue.levels, idx + 1) &&
    OfferedLevel(queue.levels[idx + 1], before[idx + 1], queue.capacity, Children(G1, G2, best, v1, y)) &&
    LevelPotential(n2 + 1, queue.levels) <= p0 + Mul(y, w) &&
    (free < y ==> queue.levels[idx + 1] != [])
  }

  /** One turn of the candidate loop: when candidate y is free its child
      is offered to the next level, which changes no other; either way the
      potential stays within y + 1 weights of the start, and the next level
      is nonempty once the known free vertex has been passed. */
  method ExpandCandidate(g1: Graph, g2: Graph, queue: MasterQueue, idx: nat, best: Node, v1: nat, y: nat,
                         ghost n1: nat, ghost n2: nat, ghost e: nat, ghost before: seq<seq<Node>>,
                         ghost p0: nat, ghost w: nat, ghost free: nat)
    requires g1.Valid() && g2.Valid() && n1 == g1.vertices && n2 == g2.vertices
    requires LevelNode(n1, n2, idx, best) && v1 < n1 && y < n2
    requires Expanded(g1.View(), g2.View(), queue, n1, n2, idx, best, v1, before, p0, w, y, free)
    requires e == n1 - 2 - idx && w == Pow(n2 + 1, e)
    requires !best.state.mapping.IsMapped(v1)
    requires free < n2 && !best.state.used[free]
    modifies queue
    ensures Expanded(g1.View(), g2.View(), queue, n1, n2, idx, best, v1, before, p0, w, y + 1, free)
  {
    if !best.state.used[y] {
      OfferChild(g1, g2, queue, idx, best, v1, y, n1, n2, e, before, p0, w, free);
    } else {
      ChildrenSkip(g1.View(), g2.View(), best, v1, y);
      MulStep(y, w);
    }
  }

  /** The turn of the candidate loop for a free candidate y: its child is
      offered to the next level. */
  method OfferChild(g1: Graph, g2: Graph, queue: MasterQueue, idx: nat, best: Node, v1: nat, y: nat,
                    ghost n1: nat, ghost n2: nat, ghost e: nat, ghost before: seq<seq<Node>>,
                    ghost p0: nat, ghost w: nat, ghost free: nat)
    requires g1.Valid() && g2.Valid() && n1 == g1.vertices && n2 == g2.vertices
    requires LevelNode(n1, n2, idx, best) && v1 < n1 && y < n2
    requires Expanded(g1.View(), g2.View(), queue, n1, n2, idx, best, v1, before, p0, w, y, free)
    requires e == n1 - 2 - idx && w == Pow(n2 + 1, e)
    requires !best.state.mapping.IsMapped(v1) && !best.state.used[y]
    modifies queue
    ensures Expanded(g1.View(), g2.View(), queue, n1, n2, idx, best, v1, before, p0, w, y + 1, free)
  {
    ghost var levels := queue.levels;
    var child := InsertChild(g1, g2, queue, idx, best, v1, y, n1, n2, e);
    OfferStep(before[idx + 1], queue.capacity, Children(g1.View(), g2.View(), best, v1, y), child);
    ChildrenStep(g1.View(), g2.View(), best, v1, y);
    OthersKeptUpdate(levels, idx + 1, queue.levels[idx + 1]);
    OthersKeptTrans(before, levels, queue.levels, idx + 1);
    MulStep(y, w);
  }

  /** The level the expansion leaves holds only its old nodes and children
      of parent. */
  lemma ChildrenSpawned(G1: Digraph, G2: Digraph, parent: Node, v1: nat, y: nat, before: seq<Node>, r: nat)
    requires parent.state.Valid() && v1 < parent.state.mapping.sizeG1 && y <= parent.state.mapping.sizeG2
    requires 1 <= r && |before| <= r && Ascending(before)
    ensures Spawned(G1, G2, parent, v1, before, Offer(before, r, Children(G1, G2, parent, v1, y)))
  {
    AscendingIsSorted(before);
    OfferFrom(before, r, Children(G1, G2, parent, v1, y));
    ChildrenContents(G1, G2, parent, v1, y);
  }

  /** Offers to level idx + 1 one child of best for each free G2 vertex, in
      ascending order, with v1 mapped to it: the level becomes the table
      that held its old nodes after those offers, the other levels are
      untouched, level idx + 1 ends non-empty holding only its old nodes
      and children of best, and the measure grows by at most n2 times that
      level's weight. */
  method ExpandBest(g1: Graph, g2: Graph, queue: MasterQueue, idx: nat, best: Node, v1: nat,
                    ghost n1: nat, ghost n2: nat, ghost e: nat)
    requires g1.Valid() && g2.Valid() && n1 == g1.vertices && n2 == g2.vertices && n1 <= n2
    requires BeamQueue(queue, n1, n2) && idx + 1 < n1
    requires LevelNode(n1, n2, idx, best)
    requires v1 < n1 && !best.state.mapping.IsMapped(v1)
    requires e == n1 - 2 - idx
    modifies queue
    ensures BeamQueue(queue, n1, n2)
    ensures LevelPotential(n2 + 1, queue.levels) <= old(LevelPotential(n2 + 1, queue.levels)) + Mul(n2, Pow(n2 + 1, e))
    ensures queue.levels[idx + 1] != []
    ensures forall l :: 0 <= l < |queue.levels| && l != idx + 1 ==> queue.levels[l] == old(queue.levels)[l]
    ensures queue.levels[idx + 1] == Offer(old(queue.levels)[idx + 1], queue.capacity, Children(g1.View(), g2.View(), best, v1, n2))
    ensures Spawned(g1.View(), g2.View(), best, v1, old(queue.levels)[idx + 1], queue.levels[idx + 1])
  {
    ghost var before := queue.levels;
    ghost var p0 := LevelPotential(n2 + 1, queue.levels);
    ghost var w := Pow(n2 + 1, e);
    FreeVertexExists(best.state.mapping, v1);
    ghost var free :| 0 <= free < n2 && !best.state.mapping.IsUsed(free);
    assert !best.state.used[free];
    ExpandAll(g1, g2, queue, idx, best, v1, n1, n2, e, before, p0, w, free);
    MulMonotone(n2, n2, w);
    ChildrenSpawned(g1.View(), g2.View(), best, v1, n2, before[idx + 1], queue.capacity);
  }

  /** The candidate loop: the child of best for every free G2 vertex is
      offered to the level below, in the order of the G2 vertices. */
  method ExpandAll(g1: Graph, g2: Graph, queue: MasterQueue, idx: nat, best: Node, v1: nat,
                   ghost n1: nat, ghost n2: nat, ghost e: nat,
                   ghost before: seq<seq<Node>>, ghost p0: nat, ghost w: nat, ghost free: nat)
    requires g1.Valid() && g2.Valid() && n1 == g1.vertices && n2 == g2.vertices
    requires LevelNode(n1, n2, idx, best) && v1 < n1
    requires Expanded(g1.View(), g2.View(), queue, n1, n2, idx, best, v1, before, p0, w, 0, free)
    requires e == n1 - 2 - idx && w == Pow(n2 + 1, e)
    requires !best.state.mapping.IsMapped(v1)
    requires free < n2 && !best.state.used[free]
    modifies queue
    ensures Expanded(g1.View(), g2.View(), queue, n1, n2, idx, best, v1, before, p0, w, n2, free)
  {
    for y := 0 to g2.vertices
      invariant Expanded(g1.View(), g2.View(), queue, n1, n2, idx, best, v1, before, p0, w, y, free)
    {
      ExpandCandidate(g1, g2, queue, idx, best, v1, y, n1, n2, e, before, p0, w, free);
    }
  }

  /** The seed for the G2 vertex v: the fresh state with vStart mapped to
      v, cost 0 and the heuristic as priority. */
  method SeedNode(g1: Graph, g2: Graph, start: SearchState, vStart: nat, v: nat) returns (node: Node)
    requires g1.Valid() && g2.Valid() && start == FreshState(g1.vertices, g2.vertices)
    requires vStart < g1.vertices && v < g2.vertices
    ensures node == Seed(g1.View(), g2.View(), vStart, v)
    ensures SeedOf(g1.View(), g2.View(), vStart, node) && LevelNode(g1.vertices, g2.vertices, 0, node)
  {
    SetStateKeepsValid(start, vStart, v);
    var state := SetState(start, vStart, v);
    var h := CalculateHeuristic(g1, g2, state);
    node := Node(state, 0, h);
  }

  /** The state of the seeding loop after v candidates: the queue is still
      the beam's, level 0 is non-empty once a seed went in and is the table
      that held its old nodes after the seeds for the G2 vertices below v
      were offered, and the other levels are those of before. */
  ghost predicate Seeding(G1: Digraph, G2: Digraph, queue: MasterQueue, vStart: nat, before: seq<seq<Node>>, v: nat)
    reads queue
    requires vStart < G1.n && v <= G2.n
  {
    queue.Valid() && |queue.levels| == G1.n && GoodLevels(G1.n, G2.n, queue.levels) &&
    (v > 0 ==> queue.levels[0] != []) &&
    OthersKept(before, queue.levels, 0) && |before[0]| <= queue.capacity &&
    queue.levels[0] == Offer(before[0], queue.capacity, Seeds(G1, G2, vStart, v))
  }

  /** One turn of the seeding loop: the seed for v is offered to level 0. */
  method SeedCandidate(g1: Graph, g2: Graph, queue: MasterQueue, start: SearchState, vStart: nat, v: nat,
                       ghost before: seq<seq<Node>>)
    requires g1.Valid() && g2.Valid() && start == FreshState(g1.vertices, g2.vertices)
    requires vStart < g1.vertices && v < g2.vertices
    requires Seeding(g1.View(), g2.View(), queue, vStart, before, v)
    modifies queue
    ensures Seeding(g1.View(), g2.View(), queue, vStart, before, v + 1)
  {
    var node := SeedNode(g1, g2, start, vStart, v);
    InsertNode(queue, 0, node, g1.vertices, g2.vertices, g1.vertices - 1);
    OfferStep(before[0], queue.capacity, Seeds(g1.View(), g2.View(), vStart, v), node);
    SeedsStep(g1.View(), g2.View(), vStart, v);
  }

  /** The level seeding leaves holds only its old nodes and seeds, as many
      as the capacity allows. */
  lemma SeedsSeeded(G1: Digraph, G2: Digraph, v: nat, n: nat, before: seq<Node>, r: nat)
    requires v < G1.n && n <= G2.n && 1 <= r && |before| <= r && Ascending(before)
    ensures Seeded(G1, G2, v, before, Offer(before, r, Seeds(G1, G2, v, n)))
    ensures |Offer(before, r, Seeds(G1, G2, v, n))| == Min(|before| + n, r)
  {
    AscendingIsSorted(before);
    OfferFrom(before, r, Seeds(G1, G2, v, n));
    SeedsContents(G1, G2, v, n);
    forall x | x in Seeds(G1, G2, v, n)
      ensures SeedOf(G1, G2, v, x)
    {
      var y :| 0 <= y < n && Seeds(G1, G2, v, n)[y] == x;
    }
  }

  /** The seeding loop: the seed for every G2 vertex is offered to level
      0, in the order of the G2 vertices. */
  method SeedAll(g1: Graph, g2: Graph, queue: MasterQueue, start: SearchState, vStart: nat,
                 ghost before: seq<seq<Node>>)
    requires g1.Valid() && g2.Valid() && start == FreshState(g1.vertices, g2.vertices)
    requires vStart < g1.vertices
    requires Seeding(g1.View(), g2.View(), queue, vStart, before, 0)
    modifies queue
    ensures Seeding(g1.View(), g2.View(), queue, vStart, before, g2.vertices)
  {
    for v := 0 to g2.vertices
      invariant Seeding(g1.View(), g2.View(), queue, vStart, before, v)
    {
      SeedCandidate(g1, g2, queue, start, vStart, v, before);
    }
  }

  /** Seeds level 0 with one state per G2 vertex v, mapping the first G1
      vertex vStart (the most connected one) to v, with cost 0 and the
      heuristic as priority, through the bounded insert: level 0 becomes
      the table that held its old nodes after the seeds were offered in the
      order of the G2 vertices, so it ends non-empty, holding its old nodes
      and seeds only, as many as the capacity allows, and the other levels
      are untouched. */
  method SeedFirstLevel(g1: Graph, g2: Graph, queue: MasterQueue) returns (vStart: nat)
    requires g1.Valid() && g2.Valid() && 0 < g1.vertices <= g2.vertices
    requires queue.Valid() && |queue.levels| == g1.vertices && GoodLevels(g1.vertices, g2.vertices, queue.levels)
    modifies queue
    ensures queue.Valid() && |queue.levels| == g1.vertices && GoodLevels(g1.vertices, g2.vertices, queue.levels)
    ensures queue.levels[0] != []
    ensures vStart < g1.vertices && IsLastMostConnected(g1.View(), vStart)
    ensures forall l :: 1 <= l < |queue.levels| ==> queue.levels[l] == old(queue.levels)[l]
    ensures queue.levels[0] == Offer(old(queue.levels)[0], queue.capacity, Seeds(g1.View(), g2.View(), vStart, g2.vertices))
    ensures Seeded(g1.View(), g2.View(), vStart, old(queue.levels)[0], queue.levels[0])
    ensures |queue.levels[0]| == Min(|old(queue.levels)[0]| + g2.vertices, queue.capacity)
  {
    var n1, n2 := g1.vertices, g2.vertices;
    var start := FreshState(n1, n2);
    vStart := PickNextVertex(g1, start);
    assert vStart < n1;
    ghost var before := queue.levels;
    SeedAll(g1, g2, queue, start, vStart, before);
    SeedsSeeded(g1.View(), g2.View(), vStart, n2, before[0], queue.capacity);
  }

  /** The beam search: seed level 0 with the most connected G1 vertex
      mapped to each G2 vertex, then repeatedly take the best node of the
      level of least key; a node in the last level is returned, any other
      has one child per free G2 vertex of its next G1 vertex inserted into
      the level below, where only the best `width` nodes are kept. It
      always ends, and when 0 < |G1| <= |G2| it returns one full mapping;
      it returns none when G1 is larger, or empty. */
  method ApproxAStar(g1: Graph, g2: Graph, k: int, width: nat) returns (result: seq<Assignment>)
    requires g1.Valid() && g2.Valid() && width >= 1
    requires g1.vertices == 0 ==> g2.vertices == 0
    ensures g1.vertices > g2.vertices || g1.vertices == 0 ==> result == []
    ensures 0 < g1.vertices <= g2.vertices ==>
              |result| == 1 && IsFullMapping(result[0]) &&
              result[0].sizeG1 == g1.vertices && result[0].sizeG2 == g2.vertices
  {
    if g1.vertices > g2.vertices || g1.vertices == 0 {
      return [];
    }
    var n1, n2 := g1.vertices, g2.vertices;
    var queue := new MasterQueue(n1, width);
    assert GoodLevels(n1, n2, queue.levels);
    var vStart := SeedFirstLevel(g1, g2, queue);
    while !queue.IsEmpty()
      invariant queue.Valid() && |queue.levels| == n1 && queue.capacity == width
      invariant GoodLevels(n1, n2, queue.levels)
      invariant !queue.IsEmpty()
      decreases LevelPotential(n2 + 1, queue.levels)
    {
      ghost var levels := queue.levels;
      var idx, best := queue.PopMin();
      GoodLevelsPop(n1, n2, levels, idx);
      assert LevelNode(n1, n2, idx, best);
      if idx == n1 - 1 {
        return [best.state.mapping];
      }
      ghost var a := best.state.mapping;
      UnmappedVertexExists(a);
      var v1 := PickNextVertex(g1, best.state);
      assert v1 < n1 && !a.IsMapped(v1);
      FreeVertexExists(a, v1);
      ghost var popped := queue.levels;
      ghost var e: nat := n1 - 2 - idx;
      ExpandBest(g1, g2, queue, idx, best, v1, n1, n2, e);
      BeamStepLowers(n2, levels, idx, popped, queue.levels, e);
    }
    return [];
  }
}

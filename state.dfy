/** The partial injection G1 -> G2 the searches build: a forward table, a
    reverse table (both using -1 for "unmapped"), a mapped-count, and, in a
    search state, a used-vertex mask over G2. */
module Assignments {

  /** The sentinel stored for a vertex without a partner. */
  const Unmapped: int := -1

  /** The number of entries of s that hold a partner. */
  function CountMapped(s: seq<int>): nat
  {
    if s == [] then 0 else CountMapped(s[..|s| - 1]) + (if s[|s| - 1] != Unmapped then 1 else 0)
  }

  /** Overwriting one entry moves the count by the change in that entry. */
  lemma {:induction false} CountMappedUpdate(s: seq<int>, i: nat, v: int)
    requires i < |s|
    ensures CountMapped(s[i := v]) ==
            CountMapped(s) - (if s[i] != Unmapped then 1 else 0) + (if v != Unmapped then 1 else 0)
  {
    var t := s[i := v];
    if i == |s| - 1 {
      assert t[..|t| - 1] == s[..|s| - 1];
    } else {
      assert t[..|t| - 1] == s[..|s| - 1][i := v];
      CountMappedUpdate(s[..|s| - 1], i, v);
    }
  }

  /** A table with no partners counts zero, and only such a table does. */
  lemma {:induction false} CountMappedZero(s: seq<int>)
    ensures CountMapped(s) == 0 <==> forall i :: 0 <= i < |s| ==> s[i] == Unmapped
  {
    if s != [] {
      CountMappedZero(s[..|s| - 1]);
      assert forall i :: 0 <= i < |s| - 1 ==> s[..|s| - 1][i] == s[i];
    }
  }

  /** The count reaches the table length exactly when every entry holds a
      partner; below it, some entry is unmapped. */
  lemma {:induction false} CountMappedFull(s: seq<int>)
    ensures CountMapped(s) <= |s|
    ensures CountMapped(s) == |s| <==> forall i :: 0 <= i < |s| ==> s[i] != Unmapped
    ensures CountMapped(s) < |s| <==> exists i :: 0 <= i < |s| && s[i] == Unmapped
  {
    if s != [] {
      CountMappedFull(s[..|s| - 1]);
      assert forall i :: 0 <= i < |s| - 1 ==> s[..|s| - 1][i] == s[i];
    }
  }

  /** The mapping as a value. */
  datatype Assignment = Assignment(sizeG1: nat, sizeG2: nat, forward: seq<int>, reverse: seq<int>, count: int)
  {
    /** The tables have one entry per vertex of their graph. */
    predicate Shaped()
    {
      |forward| == sizeG1 && |reverse| == sizeG2
    }

    /** Every partner is in range and the two tables are mutual inverses. */
    predicate Consistent()
    {
      Shaped() &&
      (forall x :: 0 <= x < sizeG1 ==>
         forward[x] == Unmapped || (0 <= forward[x] < sizeG2 && reverse[forward[x]] == x)) &&
      (forall y :: 0 <= y < sizeG2 ==>
         reverse[y] == Unmapped || (0 <= reverse[y] < sizeG1 && forward[reverse[y]] == y))
    }

    /** Every forward entry is the sentinel or a G2 vertex. */
    predicate ImagesInRange()
    {
      forall x :: 0 <= x < |forward| ==> forward[x] == Unmapped || 0 <= forward[x] < sizeG2
    }

    /** A consistent mapping whose count is the number of mapped G1 vertices. */
    ghost predicate Valid()
    {
      Consistent() && count == CountMapped(forward)
    }

    /** G1 vertex x has a partner. */
    predicate IsMapped(x: int)
    {
      0 <= x < |forward| && forward[x] != Unmapped
    }

    /** G2 vertex y is the partner of some G1 vertex. */
    predicate IsUsed(y: int)
    {
      0 <= y < |reverse| && reverse[y] != Unmapped
    }

    /** The search is finished: the count has reached the size of G1. */
    predicate IsComplete()
    {
      count == sizeG1
    }
  }

  /** The empty mapping between graphs of n1 and n2 vertices. */
  function Fresh(n1: nat, n2: nat): (a: Assignment)
    ensures a.Valid() && a.sizeG1 == n1 && a.sizeG2 == n2 && a.count == 0
    ensures forall x :: !a.IsMapped(x)
    ensures forall y :: !a.IsUsed(y)
  {
    var a := Assignment(n1, n2, seq(n1, _ => Unmapped), seq(n2, _ => Unmapped), 0);
    CountMappedZero(a.forward);
    a
  }

  /** Maps G1 vertex x to G2 vertex y, first clearing x's old image and y's
      old preimage. The count rises only when neither endpoint was mapped. */
  function Set(a: Assignment, x: nat, y: nat): (r: Assignment)
    requires a.Consistent() && x < a.sizeG1 && y < a.sizeG2
    ensures r.Consistent() && r.sizeG1 == a.sizeG1 && r.sizeG2 == a.sizeG2
    ensures r.forward[x] == y && r.reverse[y] == x
    ensures forall z :: 0 <= z < a.sizeG1 && z != x ==>
              r.forward[z] == (if a.forward[z] == y then Unmapped else a.forward[z])
    ensures forall t :: 0 <= t < a.sizeG2 && t != y ==>
              r.reverse[t] == (if a.reverse[t] == x then Unmapped else a.reverse[t])
    ensures r.count == if !a.IsMapped(x) && !a.IsUsed(y) then a.count + 1 else a.count
  {
    var wasG1 := a.forward[x] != Unmapped;
    var reverse1 := if wasG1 && a.forward[x] != y then a.reverse[a.forward[x] := Unmapped] else a.reverse;
    var wasG2 := reverse1[y] != Unmapped;
    var forward1 := if wasG2 && reverse1[y] != x then a.forward[reverse1[y] := Unmapped] else a.forward;
    Assignment(a.sizeG1, a.sizeG2, forward1[x := y], reverse1[y := x],
               if !wasG1 && !wasG2 then a.count + 1 else a.count)
  }

  /** Neither endpoint is mapped to a different partner. */
  predicate NoDrift(a: Assignment, x: nat, y: nat)
    requires a.Shaped() && x < a.sizeG1 && y < a.sizeG2
  {
    !(a.forward[x] != Unmapped && a.reverse[y] != Unmapped && a.forward[x] != y)
  }

  /** Setting a pair keeps the count exact unless both endpoints already had
      other partners. */
  lemma SetKeepsValid(a: Assignment, x: nat, y: nat)
    requires a.Valid() && x < a.sizeG1 && y < a.sizeG2 && NoDrift(a, x, y)
    ensures Set(a, x, y).Valid()
  {
    var r := Set(a, x, y);
    if a.forward[x] == Unmapped && a.reverse[y] == Unmapped {
      assert r.forward == a.forward[x := y];
      CountMappedUpdate(a.forward, x, y);
    } else if a.forward[x] == y {
      assert r.forward == a.forward;
    } else if a.forward[x] != Unmapped {
      assert r.forward == a.forward[x := y];
      CountMappedUpdate(a.forward, x, y);
    } else {
      var p := a.reverse[y];
      assert r.forward == a.forward[p := Unmapped][x := y];
      CountMappedUpdate(a.forward, p, Unmapped);
      CountMappedUpdate(a.forward[p := Unmapped], x, y);
    }
  }

  /** When x and y both had other partners, the stored count ends one above
      the number of mapped vertices. */
  lemma SetCountDrift(a: Assignment, x: nat, y: nat)
    requires a.Valid() && x < a.sizeG1 && y < a.sizeG2 && !NoDrift(a, x, y)
    ensures Set(a, x, y).count == CountMapped(Set(a, x, y).forward) + 1
  {
    var r := Set(a, x, y);
    var p := a.reverse[y];
    assert r.forward == a.forward[p := Unmapped][x := y];
    CountMappedUpdate(a.forward, p, Unmapped);
    CountMappedUpdate(a.forward[p := Unmapped], x, y);
  }

  /** Removes the pair of G1 vertex x; reports whether there was one. */
  function RemoveG1(a: Assignment, x: nat): (res: (bool, Assignment))
    requires a.Consistent() && x < a.sizeG1
    ensures res.0 <==> a.IsMapped(x)
    ensures !res.0 ==> res.1 == a
    ensures res.0 ==> res.1.Consistent() && !res.1.IsMapped(x) && !res.1.IsUsed(a.forward[x]) &&
                      res.1.count == a.count - 1
    ensures res.1.sizeG1 == a.sizeG1 && res.1.sizeG2 == a.sizeG2
    ensures forall z :: 0 <= z < a.sizeG1 && z != x ==> res.1.forward[z] == a.forward[z]
    ensures forall t :: 0 <= t < a.sizeG2 && t != a.forward[x] ==> res.1.reverse[t] == a.reverse[t]
  {
    if a.forward[x] == Unmapped then
      (false, a)
    else
      var y := a.forward[x];
      (true, Assignment(a.sizeG1, a.sizeG2, a.forward[x := Unmapped], a.reverse[y := Unmapped], a.count - 1))
  }

  /** Removing a mapped vertex keeps the mapping valid. */
  lemma RemoveKeepsValid(a: Assignment, x: nat)
    requires a.Valid() && x < a.sizeG1
    ensures RemoveG1(a, x).1.Valid()
  {
    if a.forward[x] != Unmapped {
      CountMappedUpdate(a.forward, x, Unmapped);
    }
  }

  /** Mapping an unmapped x to a free y and removing x again restores the
      mapping exactly: the backtracking step of the exhaustive search. */
  lemma SetThenRemove(a: Assignment, x: nat, y: nat)
    requires a.Consistent() && x < a.sizeG1 && y < a.sizeG2
    requires !a.IsMapped(x) && !a.IsUsed(y)
    ensures RemoveG1(Set(a, x, y), x) == (true, a)
  {
    var r := RemoveG1(Set(a, x, y), x).1;
    assert r.forward == a.forward;
    assert r.reverse == a.reverse;
  }

  /** The equality of mappings: sizes, counts and forward tables agree (the
      reverse tables are not compared). */
  predicate Same(a: Assignment, b: Assignment)
  {
    a.sizeG1 == b.sizeG1 && a.sizeG2 == b.sizeG2 && a.count == b.count && a.forward == b.forward
  }

  /** On consistent mappings the reverse table is determined by the forward
      one, so the equality above is equality of values. */
  lemma SameIsEquality(a: Assignment, b: Assignment)
    requires a.Consistent() && b.Consistent()
    ensures Same(a, b) <==> a == b
  {
    if Same(a, b) {
      forall y | 0 <= y < a.sizeG2
        ensures a.reverse[y] == b.reverse[y]
      {
        if a.reverse[y] != Unmapped {
          assert b.forward[a.reverse[y]] == y;
        }
      }
    }
  }

  /** In a consistent mapping as many G2 vertices are in use as G1 vertices
      are mapped. */
  lemma {:induction false} BalancedCounts(a: Assignment)
    requires a.Consistent()
    ensures CountMapped(a.reverse) == CountMapped(a.forward)
    decreases CountMapped(a.forward)
  {
    CountMappedZero(a.forward);
    CountMappedZero(a.reverse);
    if CountMapped(a.forward) > 0 {
      var x :| 0 <= x < |a.forward| && a.forward[x] != Unmapped;
      var y := a.forward[x];
      var r := RemoveG1(a, x).1;
      assert r.forward == a.forward[x := Unmapped];
      assert r.reverse == a.reverse[y := Unmapped];
      CountMappedUpdate(a.forward, x, Unmapped);
      CountMappedUpdate(a.reverse, y, Unmapped);
      BalancedCounts(r);
    }
  }

  /** When G1 is no larger than G2 and some G1 vertex is unmapped, some G2
      vertex is free. */
  lemma FreeVertexExists(a: Assignment, x: nat)
    requires a.Consistent() && x < a.sizeG1 && !a.IsMapped(x) && a.sizeG1 <= a.sizeG2
    ensures exists y :: 0 <= y < a.sizeG2 && !a.IsUsed(y)
  {
    BalancedCounts(a);
    CountMappedFull(a.forward);
    assert a.forward[x] == Unmapped;
    CountMappedFull(a.reverse);
    var y :| 0 <= y < |a.reverse| && a.reverse[y] == Unmapped;
    assert !a.IsUsed(y);
  }

  /** M agrees with a on every G1 vertex that a maps. */
  ghost predicate Extends(m: Assignment, a: Assignment)
  {
    m.sizeG1 == a.sizeG1 && m.sizeG2 == a.sizeG2 && m.Shaped() && a.Shaped() &&
    forall x :: 0 <= x < a.sizeG1 && a.forward[x] != Unmapped ==> m.forward[x] == a.forward[x]
  }

  /** A valid mapping that maps every G1 vertex. */
  ghost predicate IsFullMapping(m: Assignment)
  {
    m.Valid() && m.count == m.sizeG1
  }

  /** In a full mapping every G1 vertex has a partner. */
  lemma FullMappingMapsAll(m: Assignment)
    requires IsFullMapping(m)
    ensures forall x :: 0 <= x < m.sizeG1 ==> m.IsMapped(x)
  {
    CountMappedFull(m.forward);
  }

  /** A full mapping needs at least as many G2 vertices as G1 vertices. */
  lemma FullMappingNeedsRoom(m: Assignment)
    requires IsFullMapping(m)
    ensures m.sizeG1 <= m.sizeG2
  {
    BalancedCounts(m);
    CountMappedFull(m.reverse);
  }

  /** A full mapping that extends a maps a's unmapped vertices to vertices a
      leaves free. */
  lemma ExtensionUsesFreeVertices(m: Assignment, a: Assignment, x: nat)
    requires IsFullMapping(m) && a.Consistent() && Extends(m, a)
    requires x < a.sizeG1 && !a.IsMapped(x)
    ensures 0 <= m.forward[x] < a.sizeG2 && !a.IsUsed(m.forward[x])
  {
    FullMappingMapsAll(m);
    assert m.IsMapped(x);
    var y := m.forward[x];
    assert 0 <= y < m.sizeG2 && m.reverse[y] == x;
  }

  /** The identity mapping of [0, n1) into [0, n2). */
  function Identity(n1: nat, n2: nat): (m: Assignment)
    requires n1 <= n2
    ensures IsFullMapping(m) && m.sizeG1 == n1 && m.sizeG2 == n2
  {
    var m := Assignment(n1, n2, seq(n1, x => x), seq(n2, y => if y < n1 then y else Unmapped), n1);
    CountMappedFull(m.forward);
    m
  }

  /** A search state: a mapping and the mask of G2 vertices in use. */
  datatype SearchState = SearchState(mapping: Assignment, used: seq<bool>)
  {
    /** The mask records exactly the G2 vertices that have a preimage. */
    ghost predicate Valid()
    {
      mapping.Valid() && |used| == mapping.sizeG2 &&
      forall y :: 0 <= y < |used| ==> (used[y] <==> mapping.IsUsed(y))
    }
  }

  /** The empty search state. */
  function FreshState(n1: nat, n2: nat): (s: SearchState)
    ensures s.Valid() && s.mapping == Fresh(n1, n2)
  {
    SearchState(Fresh(n1, n2), seq(n2, _ => false))
  }

  /** Maps x to y in a search state: clears the mask bit of x's old image,
      updates the mapping, and sets y's bit. */
  function SetState(s: SearchState, x: nat, y: nat): (r: SearchState)
    requires s.mapping.Consistent() && |s.used| == s.mapping.sizeG2
    requires x < s.mapping.sizeG1 && y < s.mapping.sizeG2
    ensures r.mapping == Set(s.mapping, x, y) && |r.used| == |s.used|
    ensures (forall t :: 0 <= t < |s.used| ==> (s.used[t] <==> s.mapping.IsUsed(t))) ==>
            (forall t :: 0 <= t < |r.used| ==> (r.used[t] <==> r.mapping.IsUsed(t)))
  {
    var old2 := s.mapping.forward[x];
    var cleared := if old2 != Unmapped then s.used[old2 := false] else s.used;
    SearchState(Set(s.mapping, x, y), cleared[y := true])
  }

  /** Mapping an unmapped vertex to a free one keeps a search state valid
      and adds exactly that pair. */
  lemma SetStateKeepsValid(s: SearchState, x: nat, y: nat)
    requires s.Valid() && x < s.mapping.sizeG1 && y < s.mapping.sizeG2
    requires !s.mapping.IsMapped(x) && !s.mapping.IsUsed(y)
    ensures SetState(s, x, y).Valid()
    ensures SetState(s, x, y).mapping.count == s.mapping.count + 1
    ensures Extends(SetState(s, x, y).mapping, s.mapping)
  {
    SetKeepsValid(s.mapping, x, y);
  }

  /** The mapping object: the forward and reverse tables are replaced as a
      whole on each update, sizes are fixed at construction. */
  class Mapping {
    const sizeG1: nat
    const sizeG2: nat
    var forward: seq<int>
    var reverse: seq<int>
    var count: int

    /** The object as a value. */
    function View(): Assignment
      reads this
    {
      Assignment(sizeG1, sizeG2, forward, reverse, count)
    }

    /** The empty mapping: every entry of both tables unmapped, count 0. */
    constructor (n1: nat, n2: nat)
      ensures View() == Fresh(n1, n2)
    {
      sizeG1 := n1;
      sizeG2 := n2;
      forward := seq(n1, _ => Unmapped);
      reverse := seq(n2, _ => Unmapped);
      count := 0;
    }

    /** Maps G1 vertex x to G2 vertex y. */
    method SetMapping(x: nat, y: nat)
      requires View().Consistent() && x < sizeG1 && y < sizeG2
      modifies this
      ensures View() == Set(old(View()), x, y)
    {
      var wasG1 := forward[x] != Unmapped;
      if wasG1 {
        if forward[x] != y {
          reverse := reverse[forward[x] := Unmapped];
        }
      }
      var wasG2 := reverse[y] != Unmapped;
      if wasG2 {
        if reverse[y] != x {
          forward := forward[reverse[y] := Unmapped];
        }
      }
      forward := forward[x := y];
      reverse := reverse[y := x];
      if !wasG1 && !wasG2 {
        count := count + 1;
      }
    }

    /** Unmaps G1 vertex x; false when it had no partner. */
    method RemoveMappingG1(x: nat) returns (removed: bool)
      requires View().Consistent() && x < sizeG1
      modifies this
      ensures (removed, View()) == RemoveG1(old(View()), x)
    {
      if forward[x] == Unmapped {
        return false;
      }
      var y := forward[x];
      forward := forward[x := Unmapped];
      reverse := reverse[y := Unmapped];
      count := count - 1;
      return true;
    }

    /** The partner of G1 vertex x: unmapped, or a G2 vertex pointing back. */
    function GetMappingG1ToG2(x: nat): (r: int)
      reads this
      requires View().Consistent() && x < sizeG1
      ensures r == Unmapped || (0 <= r < sizeG2 && reverse[r] == x)
      ensures r == Unmapped <==> !View().IsMapped(x)
    {
      forward[x]
    }

    /** The preimage of G2 vertex y: unmapped, or a G1 vertex pointing back. */
    function GetMappingG2ToG1(y: nat): (r: int)
      reads this
      requires View().Consistent() && y < sizeG2
      ensures r == Unmapped || (0 <= r < sizeG1 && forward[r] == y)
      ensures r == Unmapped <==> !View().IsUsed(y)
    {
      reverse[y]
    }

    /** x is mapped exactly when some G2 vertex names it as preimage. */
    predicate IsG1Mapped(x: nat)
      reads this
      requires View().Consistent() && x < sizeG1
      ensures IsG1Mapped(x) <==> exists y :: 0 <= y < sizeG2 && reverse[y] == x
    {
      forward[x] != Unmapped
    }

    /** y is in use exactly when some G1 vertex names it as image. */
    predicate IsG2Mapped(y: nat)
      reads this
      requires View().Consistent() && y < sizeG2
      ensures IsG2Mapped(y) <==> exists x :: 0 <= x < sizeG1 && forward[x] == y
    {
      reverse[y] != Unmapped
    }

    /** The stored count, which in a valid mapping is the number of mapped
        G1 vertices and so at most the size of G1. */
    function GetMappedCount(): (r: nat)
      reads this
      requires View().Valid()
      ensures r == CountMapped(forward) && r <= sizeG1
    {
      CountMappedFull(forward);
      count
    }

    /** Equality with another mapping object; on valid mappings it is
        equality of their values. */
    predicate Equals(other: Mapping)
      reads this, other
      ensures View().Consistent() && other.View().Consistent() ==>
                (Equals(other) <==> View() == other.View())
    {
      if View().Consistent() && other.View().Consistent() then
        SameIsEquality(View(), other.View());
        this == other || Same(View(), other.View())
      else
        this == other || Same(View(), other.View())
    }
  }

  /** The search state object: a mapping plus the used-vertex bit mask. */
  class State {
    const mapping: Mapping
    var usedMask: seq<bool>

    /** The object as a value. */
    function View(): SearchState
      reads this, mapping
    {
      SearchState(mapping.View(), usedMask)
    }

    /** The empty state: nothing mapped, no G2 vertex in use. */
    constructor (n1: nat, n2: nat)
      ensures fresh(mapping) && View() == FreshState(n1, n2)
    {
      mapping := new Mapping(n1, n2);
      usedMask := seq(n2, _ => false);
    }

    /** Maps x to y, keeping the mask in step with the reverse table. */
    method SetMapping(x: nat, y: nat)
      requires mapping.View().Consistent() && |usedMask| == mapping.sizeG2
      requires x < mapping.sizeG1 && y < mapping.sizeG2
      modifies this, mapping
      ensures View() == SetState(old(View()), x, y)
    {
      var oldG2 := mapping.GetMappingG1ToG2(x);
      if oldG2 != -1 {
        usedMask := usedMask[oldG2 := false];
      }
      mapping.SetMapping(x, y);
      usedMask := usedMask[y := true];
    }
  }
}

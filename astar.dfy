/** The exact best-first search for one mapping of least missing-edge count. */
module AStar {
  import opened Graphs
  import opened Assignments
  import opened Costs
  import opened Ordering

  /** A search node: a state, the cost g of its mapping so far and its
      priority f. */
  datatype Node = Node(state: SearchState, g: int, f: int)

  /** The index of a node of least priority (the first such; the order a
      binary heap gives among equal priorities is left open). */
  function MinIndex(queue: seq<Node>): (i: nat)
    requires |queue| > 0
    ensures i < |queue| && forall j :: 0 <= j < |queue| ==> queue[i].f <= queue[j].f
  {
    if |queue| == 1 then 0
    else
      var i := MinIndex(queue[..|queue| - 1]);
      if queue[|queue| - 1].f < queue[i].f then |queue| - 1 else i
  }

  /** A queued node, for a cost and a heuristic: a valid state between
      graphs of n1 and n2 vertices, g the cost of its mapping, and f either
      g plus the heuristic or, for the root, zero. */
  ghost predicate GoodNode(cost: Assignment -> int, h: SearchState -> int, n1: nat, n2: nat, node: Node)
  {
    node.state.Valid() && node.state.mapping.sizeG1 == n1 && node.state.mapping.sizeG2 == n2 &&
    node.g == cost(node.state.mapping) &&
    (node.f == node.g + h(node.state) || node.f == node.g == 0)
  }

  /** Some queued node's mapping is extended by m. */
  ghost predicate Covers(queue: seq<Node>, m: Assignment)
  {
    exists i :: 0 <= i < |queue| && Extends(m, queue[i].state.mapping)
  }

  /** Every queued node is good. */
  ghost predicate AllGood(cost: Assignment -> int, h: SearchState -> int, n1: nat, n2: nat, queue: seq<Node>)
  {
    forall i :: 0 <= i < |queue| ==> GoodNode(cost, h, n1, n2, queue[i])
  }

  /** Appending a good node keeps every node good. */
  lemma AllGoodAppend(cost: Assignment -> int, h: SearchState -> int, n1: nat, n2: nat, queue: seq<Node>, node: Node)
    requires AllGood(cost, h, n1, n2, queue) && GoodNode(cost, h, n1, n2, node)
    ensures AllGood(cost, h, n1, n2, queue + [node])
  {
    forall j | 0 <= j < |queue| + 1
      ensures GoodNode(cost, h, n1, n2, (queue + [node])[j])
    {
      if j < |queue| {
        assert (queue + [node])[j] == queue[j];
      }
    }
  }

  /** The loop invariant of the search: every queued node is good, and
      every full mapping extends some queued node. */
  ghost predicate QueueInv(cost: Assignment -> int, h: SearchState -> int, n1: nat, n2: nat, queue: seq<Node>)
  {
    AllGood(cost, h, n1, n2, queue) &&
    (forall m :: IsFullMapping(m) && m.sizeG1 == n1 && m.sizeG2 == n2 ==> Covers(queue, m))
  }

  /** The priority of a queued node never exceeds the missing-edge count of
      a full mapping extending it. */
  lemma PriorityIsLowerBound(g1: Digraph, g2: Digraph, node: Node, m: Assignment)
    requires g1.Valid() && g2.Valid() && GoodNode(CostOf(g1, g2), HeuristicOf(g1, g2), g1.n, g2.n, node)
    requires IsFullMapping(m) && Extends(m, node.state.mapping)
    ensures node.f <= MissingEdges(g1, g2, m)
  {
    HeuristicAdmissible(g1, g2, node.state, m);
  }

  /** A full node's priority is its missing-edge count. */
  lemma FullNodePriority(g1: Digraph, g2: Digraph, node: Node)
    requires GoodNode(CostOf(g1, g2), HeuristicOf(g1, g2), g1.n, g2.n, node) && node.state.mapping.count == g1.n
    ensures node.f == node.g == MissingEdges(g1, g2, node.state.mapping)
  {
    HeuristicOfFullMapping(g1, g2, node.state);
  }

  /** A full node of least priority in a queue covering every full mapping
      is a mapping of least missing-edge count. */
  lemma FullMinimumIsOptimal(g1: Digraph, g2: Digraph, queue: seq<Node>, i: nat)
    requires g1.Valid() && g2.Valid() && QueueInv(CostOf(g1, g2), HeuristicOf(g1, g2), g1.n, g2.n, queue)
    requires i < |queue| && forall j :: 0 <= j < |queue| ==> queue[i].f <= queue[j].f
    requires queue[i].state.mapping.count == g1.n
    ensures IsFullMapping(queue[i].state.mapping)
    ensures forall m :: IsFullMapping(m) && m.sizeG1 == g1.n && m.sizeG2 == g2.n ==>
              MissingEdges(g1, g2, queue[i].state.mapping) <= MissingEdges(g1, g2, m)
  {
    FullNodePriority(g1, g2, queue[i]);
    forall m | IsFullMapping(m) && m.sizeG1 == g1.n && m.sizeG2 == g2.n
      ensures MissingEdges(g1, g2, queue[i].state.mapping) <= MissingEdges(g1, g2, m)
    {
      var j :| 0 <= j < |queue| && Extends(m, queue[j].state.mapping);
      PriorityIsLowerBound(g1, g2, queue[j], m);
    }
  }

  /** A full mapping extending a maps x somewhere free, and extends a with
      that pair added. */
  lemma ExtendsChild(m: Assignment, a: Assignment, x: nat)
    requires IsFullMapping(m) && a.Consistent() && Extends(m, a) && x < a.sizeG1 && !a.IsMapped(x)
    ensures 0 <= m.forward[x] < a.sizeG2 && !a.IsUsed(m.forward[x])
    ensures Extends(m, Set(a, x, m.forward[x]))
  {
    ExtensionUsesFreeVertices(m, a, x);
  }

  /** a times b, by repeated addition. */
  function Mul(a: nat, b: nat): nat
  {
    if a == 0 then 0 else b + Mul(a - 1, b)
  }

  lemma {:induction false} MulMonotone(a: nat, c: nat, b: nat)
    requires a <= c
    ensures Mul(a, b) <= Mul(c, b)
    decreases c
  {
    if a < c {
      MulMonotone(a, c - 1, b);
    }
  }

  /** b to the power e. */
  function Pow(b: nat, e: nat): (r: nat)
    ensures b >= 1 ==> r >= 1
  {
    if e == 0 then 1 else Mul(b, Pow(b, e - 1))
  }

  /** The termination measure of one node: (n2 + 1) raised to the number of
      G1 vertices it still has to map. */
  ghost function NodeWeight(n1: nat, base: nat, node: Node): nat
  {
    var c := node.state.mapping.count;
    if 0 <= c <= n1 then Pow(base, n1 - c) else 0
  }

  /** The termination measure of the queue. */
  ghost function Potential(n1: nat, base: nat, queue: seq<Node>): nat
  {
    if queue == [] then 0 else Potential(n1, base, queue[..|queue| - 1]) + NodeWeight(n1, base, queue[|queue| - 1])
  }

  /** A queue of one node weighs what the node weighs. */
  lemma SingletonPotential(n1: nat, base: nat, node: Node)
    ensures Potential(n1, base, [node]) == NodeWeight(n1, base, node)
  {
    assert [node][..0] == [];
  }

  lemma {:induction false} PotentialAppend(n1: nat, base: nat, p: seq<Node>, q: seq<Node>)
    ensures Potential(n1, base, p + q) == Potential(n1, base, p) + Potential(n1, base, q)
    decreases |q|
  {
    if q == [] {
      assert p + q == p;
    } else {
      assert (p + q)[..|p + q| - 1] == p + q[..|q| - 1];
      PotentialAppend(n1, base, p, q[..|q| - 1]);
    }
  }

  /** Taking node i out of the queue lowers the measure by its weight. */
  lemma PotentialRemove(n1: nat, base: nat, queue: seq<Node>, i: nat)
    requires i < |queue|
    ensures Potential(n1, base, queue) ==
              Potential(n1, base, queue[..i] + queue[i + 1..]) + NodeWeight(n1, base, queue[i])
  {
    assert queue == queue[..i] + [queue[i]] + queue[i + 1..];
    PotentialAppend(n1, base, queue[..i] + [queue[i]], queue[i + 1..]);
    PotentialAppend(n1, base, queue[..i], [queue[i]]);
    PotentialAppend(n1, base, queue[..i], queue[i + 1..]);
    SingletonPotential(n1, base, queue[i]);
  }

  /** At most n2 children, each with one vertex fewer left to map, weigh
      less than their parent. */
  lemma ChildrenWeighLess(pushed: nat, n2: nat, e: nat)
    requires pushed <= n2 && e >= 1
    ensures Mul(pushed, Pow(n2 + 1, e - 1)) < Pow(n2 + 1, e)
  {
    MulMonotone(pushed, n2, Pow(n2 + 1, e - 1));
  }

  /** The child of a node with v1 mapped to the free G2 vertex v2: its cost
      is the parent's plus the assignment cost of the pair, its priority
      that plus the heuristic of the new state; a parent cost that is the
      parent's missing-edge count gives a child cost that is the child's. */
  method ChildNode(g1: Graph, g2: Graph, current: Node, v1: nat, v2: nat) returns (node: Node)
    requires g1.Valid() && g2.Valid() && current.state.Valid()
    requires current.state.mapping.sizeG1 == g1.vertices && current.state.mapping.sizeG2 == g2.vertices
    requires v1 < g1.vertices && !current.state.mapping.IsMapped(v1)
    requires v2 < g2.vertices && !current.state.used[v2]
    ensures node.state == SetState(current.state, v1, v2) && node.state.Valid()
    ensures node.state.mapping == Set(current.state.mapping, v1, v2)
    ensures node.state.mapping.count == current.state.mapping.count + 1
    ensures node.g == current.g + AssignmentCost(g1.View(), g2.View(), current.state.mapping, v1, v2)
    ensures node.f == node.g + Heuristic(g1.View(), g2.View(), node.state)
    ensures current.g == MissingEdges(g1.View(), g2.View(), current.state.mapping) ==>
              node.g == MissingEdges(g1.View(), g2.View(), node.state.mapping)
  {
    ghost var a := current.state.mapping;
    var next := SetState(current.state, v1, v2);
    SetStateKeepsValid(current.state, v1, v2);
    AssignmentCostAdditivity(g1.View(), g2.View(), a, v1, v2);
    var costIncrement := CalculateAssignmentCost(g1, g2, current.state.mapping, v1, v2);
    var g := current.g + costIncrement;
    var h := CalculateHeuristic(g1, g2, next);
    node := Node(next, g, g + h);
  }

  /** The children built for the free G2 vertices below `bound`: each a
      queued node whose mapping is the parent's with v1 mapped to its image
      and whose priority is its cost plus the heuristic, the images being
      exactly the free vertices below `bound` in ascending order, and each
      child weighing one step less than the parent. */
  ghost predicate Expansion(cost: Assignment -> int, h: SearchState -> int, n1: nat, n2: nat,
                            parent: Node, v1: nat, bound: nat, children: seq<Node>, images: seq<nat>)
  {
    var a := parent.state.mapping;
    a.Consistent() && v1 < a.sizeG1 && 0 <= a.count < n1 &&
    |children| <= bound &&
    AllGood(cost, h, n1, n2, children) &&
    Weighs(n1, n2, children, a.count) &&
    ImagesOf(a, v1, children, images) && Prioritised(h, children) &&
    FreeImages(parent.state, bound, images) && FreeCovered(parent.state, bound, images)
  }

  /** Each node's priority is its cost plus the heuristic of its state. */
  ghost predicate Prioritised(h: SearchState -> int, children: seq<Node>)
  {
    forall j :: 0 <= j < |children| ==> children[j].f == children[j].g + h(children[j].state)
  }

  /** The images are free G2 vertices below bound, strictly ascending. */
  ghost predicate FreeImages(s: SearchState, bound: nat, images: seq<nat>)
  {
    (forall j :: 0 <= j < |images| ==> images[j] < bound && IsFree(s, images[j])) &&
    (forall i, j :: 0 <= i < j < |images| ==> images[i] < images[j])
  }

  /** Each of the children, one mapping past a parent with c mappings,
      weighs n2 + 1 to the n1 - c - 1. */
  ghost predicate Weighs(n1: nat, n2: nat, children: seq<Node>, c: int)
    requires 0 <= c < n1
  {
    Potential(n1, n2 + 1, children) == Mul(|children|, Pow(n2 + 1, n1 - c - 1))
  }

  /** Appending a child one mapping past the parent keeps the weights. */
  lemma WeighsStep(n1: nat, n2: nat, children: seq<Node>, node: Node, c: int)
    requires 0 <= c < n1 && Weighs(n1, n2, children, c) && node.state.mapping.count == c + 1
    ensures Weighs(n1, n2, children + [node], c)
  {
    var e: nat := n1 - c - 1;
    ChildWeight(n1, n2 + 1, node, e);
    PotentialStep(n1, n2 + 1, children, node, Pow(n2 + 1, e));
  }

  /** Child j maps v1 to images[j] on top of a. */
  ghost predicate ImagesOf(a: Assignment, v1: nat, children: seq<Node>, images: seq<nat>)
    requires a.Consistent() && v1 < a.sizeG1
  {
    |images| == |children| &&
    forall j :: 0 <= j < |children| ==> images[j] < a.sizeG2 && children[j].state.mapping == Set(a, v1, images[j])
  }

  /** Every G2 vertex below bound that is free in s is among the images. */
  ghost predicate FreeCovered(s: SearchState, bound: nat, images: seq<nat>)
  {
    forall y :: 0 <= y < bound && IsFree(s, y) ==> y in images
  }

  /** A node e mappings short of full weighs base to the e. */
  lemma ChildWeight(n1: nat, base: nat, node: Node, e: nat)
    requires 0 <= node.state.mapping.count && node.state.mapping.count + e == n1
    ensures NodeWeight(n1, base, node) == Pow(base, e)
  {
  }

  /** Appending a node of weight x to children weighing x each. */
  lemma PotentialStep(n1: nat, base: nat, children: seq<Node>, node: Node, x: nat)
    requires Potential(n1, base, children) == Mul(|children|, x) && NodeWeight(n1, base, node) == x
    ensures Potential(n1, base, children + [node]) == Mul(|children + [node]|, x)
  {
    PotentialAppend(n1, base, children, [node]);
    SingletonPotential(n1, base, node);
    assert Mul(|children| + 1, x) == x + Mul(|children|, x);
  }

  /** Recording the free image `bound` keeps every free vertex up to it
      recorded, and the images free and ascending. */
  lemma ImagesStep(s: SearchState, bound: nat, images: seq<nat>)
    requires FreeImages(s, bound, images) && FreeCovered(s, bound, images) && IsFree(s, bound)
    ensures FreeImages(s, bound + 1, images + [bound]) && FreeCovered(s, bound + 1, images + [bound])
  {
    var images' := images + [bound];
    forall j | 0 <= j < |images'|
      ensures images'[j] < bound + 1 && IsFree(s, images'[j])
    {
      if j < |images| {
        assert images'[j] == images[j];
      }
    }
    forall i, j | 0 <= i < j < |images'|
      ensures images'[i] < images'[j]
    {
      assert images'[i] == images[i];
      if j < |images| {
        assert images'[j] == images[j];
      }
    }
    forall y | 0 <= y < bound + 1 && IsFree(s, y)
      ensures y in images'
    {
      if y < bound {
        assert y in images;
      } else {
        assert images'[|images|] == y;
      }
    }
  }

  /** Appending the child for the free vertex `bound`. */
  lemma ExpansionStep(cost: Assignment -> int, h: SearchState -> int, n1: nat, n2: nat,
                      parent: Node, v1: nat, bound: nat, children: seq<Node>, images: seq<nat>, node: Node)
    requires Expansion(cost, h, n1, n2, parent, v1, bound, children, images)
    requires IsFree(parent.state, bound) && bound < parent.state.mapping.sizeG2 && GoodNode(cost, h, n1, n2, node)
    requires node.f == node.g + h(node.state)
    requires node.state.mapping == Set(parent.state.mapping, v1, bound)
    requires node.state.mapping.count == parent.state.mapping.count + 1
    ensures Expansion(cost, h, n1, n2, parent, v1, bound + 1, children + [node], images + [bound])
  {
    var a := parent.state.mapping;
    AllGoodAppend(cost, h, n1, n2, children, node);
    PrioritisedAppend(h, children, node);
    WeighsStep(n1, n2, children, node, a.count);
    ImagesStep(parent.state, bound, images);
    ImagesOfStep(a, v1, children, images, node, bound);
  }

  /** Appending a node whose priority is its cost plus the heuristic. */
  lemma PrioritisedAppend(h: SearchState -> int, children: seq<Node>, node: Node)
    requires Prioritised(h, children) && node.f == node.g + h(node.state)
    ensures Prioritised(h, children + [node])
  {
    forall j | 0 <= j < |children| + 1
      ensures (children + [node])[j].f == (children + [node])[j].g + h((children + [node])[j].state)
    {
      if j < |children| {
        assert (children + [node])[j] == children[j];
      }
    }
  }

  /** Appending a child that maps v1 to y, with image y. */
  lemma ImagesOfStep(a: Assignment, v1: nat, children: seq<Node>, images: seq<nat>, node: Node, y: nat)
    requires a.Consistent() && v1 < a.sizeG1 && y < a.sizeG2
    requires ImagesOf(a, v1, children, images) && node.state.mapping == Set(a, v1, y)
    ensures ImagesOf(a, v1, children + [node], images + [y])
  {
    var children', images' := children + [node], images + [y];
    forall j | 0 <= j < |children'|
      ensures images'[j] < a.sizeG2 && children'[j].state.mapping == Set(a, v1, images'[j])
    {
      if j < |children| {
        assert children'[j] == children[j] && images'[j] == images[j];
      }
    }
  }

  /** Passing over a G2 vertex that is in use. */
  lemma ExpansionSkip(cost: Assignment -> int, h: SearchState -> int, n1: nat, n2: nat,
                      parent: Node, v1: nat, bound: nat, children: seq<Node>, images: seq<nat>)
    requires Expansion(cost, h, n1, n2, parent, v1, bound, children, images)
    requires !IsFree(parent.state, bound)
    ensures Expansion(cost, h, n1, n2, parent, v1, bound + 1, children, images)
  {
  }

  /** The children of a node: for each free G2 vertex y in ascending
      order, the state with v1 mapped to y, its cost g and priority g + h. */
  method ExpandNode(g1: Graph, g2: Graph, current: Node, v1: nat)
    returns (children: seq<Node>, ghost images: seq<nat>)
    requires g1.Valid() && g2.Valid()
    requires GoodNode(CostOf(g1.View(), g2.View()), HeuristicOf(g1.View(), g2.View()), g1.vertices, g2.vertices, current)
    requires v1 < g1.vertices && !current.state.mapping.IsMapped(v1)
    requires 0 <= current.state.mapping.count < g1.vertices
    ensures Expansion(CostOf(g1.View(), g2.View()), HeuristicOf(g1.View(), g2.View()), g1.vertices, g2.vertices,
                      current, v1, g2.vertices, children, images)
  {
    ghost var cost, h := CostOf(g1.View(), g2.View()), HeuristicOf(g1.View(), g2.View());
    children, images := [], [];
    var v2: nat := 0;
    while v2 < g2.vertices
      invariant v2 <= g2.vertices
      invariant Expansion(cost, h, g1.vertices, g2.vertices, current, v1, v2, children, images)
    {
      if !current.state.used[v2] {
        var node := ChildNode(g1, g2, current, v1, v2);
        assert GoodNode(cost, h, g1.vertices, g2.vertices, node);
        ExpansionStep(cost, h, g1.vertices, g2.vertices, current, v1, v2, children, images, node);
        children, images := children + [node], images + [v2];
      } else {
        ExpansionSkip(cost, h, g1.vertices, g2.vertices, current, v1, v2, children, images);
      }
      v2 := v2 + 1;
    }
  }

  /** A full mapping extending the parent extends one of its children. */
  lemma ChildCovers(cost: Assignment -> int, h: SearchState -> int, n1: nat, n2: nat,
                    parent: Node, v1: nat, children: seq<Node>, images: seq<nat>, m: Assignment)
    requires Expansion(cost, h, n1, n2, parent, v1, n2, children, images)
    requires parent.state.Valid() && parent.state.mapping.sizeG2 == n2 && !parent.state.mapping.IsMapped(v1)
    requires IsFullMapping(m) && Extends(m, parent.state.mapping)
    ensures Covers(children, m)
  {
    ExtendsChild(m, parent.state.mapping, v1);
    var y := m.forward[v1];
    assert IsFree(parent.state, y);
    var c :| 0 <= c < |images| && images[c] == y;
    assert Extends(m, children[c].state.mapping);
  }

  /** A mapping covered by a queue stays covered with nodes put before it. */
  lemma CoversAfterPrefix(rest: seq<Node>, children: seq<Node>, m: Assignment)
    requires Covers(children, m)
    ensures Covers(rest + children, m)
  {
    var c :| 0 <= c < |children| && Extends(m, children[c].state.mapping);
    assert (rest + children)[|rest| + c] == children[c];
  }

  /** A mapping covered by a node other than the i-th stays covered when
      the i-th is replaced by other nodes. */
  lemma CoversKept(queue: seq<Node>, i: nat, j: nat, children: seq<Node>, m: Assignment)
    requires i < |queue| && j < |queue| && j != i && Extends(m, queue[j].state.mapping)
    ensures Covers(queue[..i] + queue[i + 1..] + children, m)
  {
    var c := if j < i then j else j - 1;
    assert (queue[..i] + queue[i + 1..] + children)[c] == queue[j];
  }

  /** Replacing a queued node by its children keeps every full mapping
      covered. */
  lemma ExpansionCovers(cost: Assignment -> int, h: SearchState -> int, n1: nat, n2: nat,
                        queue: seq<Node>, i: nat, v1: nat, children: seq<Node>, images: seq<nat>)
    requires QueueInv(cost, h, n1, n2, queue) && i < |queue| && !queue[i].state.mapping.IsMapped(v1)
    requires Expansion(cost, h, n1, n2, queue[i], v1, n2, children, images)
    ensures forall m :: IsFullMapping(m) && m.sizeG1 == n1 && m.sizeG2 == n2 ==>
              Covers(queue[..i] + queue[i + 1..] + children, m)
  {
    assert GoodNode(cost, h, n1, n2, queue[i]);
    forall m | IsFullMapping(m) && m.sizeG1 == n1 && m.sizeG2 == n2
      ensures Covers(queue[..i] + queue[i + 1..] + children, m)
    {
      assert Covers(queue, m);
      var j :| 0 <= j < |queue| && Extends(m, queue[j].state.mapping);
      if j == i {
        ChildCovers(cost, h, n1, n2, queue[i], v1, children, images, m);
        CoversAfterPrefix(queue[..i] + queue[i + 1..], children, m);
      } else {
        CoversKept(queue, i, j, children, m);
      }
    }
  }

  /** Replacing the expanded node by good children leaves only good nodes. */
  lemma ExpansionKeepsGood(cost: Assignment -> int, h: SearchState -> int, n1: nat, n2: nat,
                           queue: seq<Node>, i: nat, children: seq<Node>)
    requires i < |queue| && AllGood(cost, h, n1, n2, queue) && AllGood(cost, h, n1, n2, children)
    ensures AllGood(cost, h, n1, n2, queue[..i] + queue[i + 1..] + children)
  {
    var rest := queue[..i] + queue[i + 1..];
    var next := rest + children;
    forall j | 0 <= j < |next|
      ensures GoodNode(cost, h, n1, n2, next[j])
    {
      if j < |rest| {
        assert rest[j] == queue[if j < i then j else j + 1];
      } else {
        assert next[j] == children[j - |rest|];
      }
    }
  }

  /** Replacing the expanded node by its children lowers the termination
      measure. */
  lemma ExpansionLowersPotential(n1: nat, n2: nat, queue: seq<Node>, i: nat, children: seq<Node>)
    requires i < |queue| && 0 <= queue[i].state.mapping.count < n1 && |children| <= n2
    requires Potential(n1, n2 + 1, children) == Mul(|children|, Pow(n2 + 1, n1 - queue[i].state.mapping.count - 1))
    ensures Potential(n1, n2 + 1, queue[..i] + queue[i + 1..] + children) < Potential(n1, n2 + 1, queue)
  {
    PotentialRemove(n1, n2 + 1, queue, i);
    PotentialAppend(n1, n2 + 1, queue[..i] + queue[i + 1..], children);
    ChildrenWeighLess(|children|, n2, n1 - queue[i].state.mapping.count);
  }

  /** Replacing the expanded node by its children keeps the invariant,
      leaves the queue non-empty when a full mapping exists, and lowers the
      termination measure. */
  lemma QueueStep(cost: Assignment -> int, h: SearchState -> int, n1: nat, n2: nat,
                  queue: seq<Node>, i: nat, v1: nat, children: seq<Node>, images: seq<nat>)
    requires QueueInv(cost, h, n1, n2, queue) && i < |queue| && n1 <= n2
    requires !queue[i].state.mapping.IsMapped(v1)
    requires Expansion(cost, h, n1, n2, queue[i], v1, n2, children, images)
    ensures QueueInv(cost, h, n1, n2, queue[..i] + queue[i + 1..] + children)
    ensures |queue[..i] + queue[i + 1..] + children| > 0
    ensures Potential(n1, n2 + 1, queue[..i] + queue[i + 1..] + children) < Potential(n1, n2 + 1, queue)
  {
    ExpansionKeepsGood(cost, h, n1, n2, queue, i, children);
    ExpansionCovers(cost, h, n1, n2, queue, i, v1, children, images);
    assert Covers(queue[..i] + queue[i + 1..] + children, Identity(n1, n2));
    ExpansionLowersPotential(n1, n2, queue, i, children);
  }

  /** A valid mapping that is not full leaves some G1 vertex unmapped; an
      empty one leaves every G1 vertex unmapped. */
  lemma UnmappedVertexExists(a: Assignment)
    requires a.Valid() && a.count < a.sizeG1
    ensures exists v :: 0 <= v < a.sizeG1 && !a.IsMapped(v)
    ensures a.count == 0 ==> forall v :: 0 <= v < a.sizeG1 ==> !a.IsMapped(v)
  {
    CountMappedFull(a.forward);
    CountMappedZero(a.forward);
    var v :| 0 <= v < |a.forward| && a.forward[v] == Unmapped;
    assert !a.IsMapped(v);
  }

  /** The mapping of least missing-edge count, found best first from the
      empty mapping: repeatedly take a node of least priority; return its
      mapping when it is full, otherwise queue one child for each free G2
      vertex of the next G1 vertex. None when G1 has more vertices than
      G2. */
  method AccurateAStar(g1: Graph, g2: Graph, k: int) returns (result: seq<Assignment>)
    requires g1.Valid() && g2.Valid()
    ensures g1.vertices > g2.vertices ==> result == []
    ensures g1.vertices <= g2.vertices ==>
              |result| == 1 && IsFullMapping(result[0]) &&
              result[0].sizeG1 == g1.vertices && result[0].sizeG2 == g2.vertices &&
              forall m :: IsFullMapping(m) && m.sizeG1 == g1.vertices && m.sizeG2 == g2.vertices ==>
                MissingEdges(g1.View(), g2.View(), result[0]) <= MissingEdges(g1.View(), g2.View(), m)
  {
    if g1.vertices > g2.vertices {
      return [];
    }
    ghost var G1, G2 := g1.View(), g2.View();
    ghost var cost, h := CostOf(G1, G2), HeuristicOf(G1, G2);
    ghost var n1, n2 := g1.vertices, g2.vertices;
    var queue := [Node(FreshState(g1.vertices, g2.vertices), 0, 0)];
    MissingEdgesFresh(G1, G2, g2.vertices);
    assert GoodNode(cost, h, n1, n2, queue[0]);
    assert QueueInv(cost, h, n1, n2, queue);
    while |queue| > 0
      invariant |queue| > 0 && QueueInv(cost, h, n1, n2, queue)
      decreases Potential(n1, n2 + 1, queue)
    {
      var i := MinIndex(queue);
      var current := queue[i];
      ghost var a := current.state.mapping;
      CountMappedFull(a.forward);
      if current.state.mapping.count == g1.vertices {
        FullMinimumIsOptimal(G1, G2, queue, i);
        return [current.state.mapping];
      }
      UnmappedVertexExists(a);
      var v1 := PickNextVertex(g1, current.state);
      assert v1 < g1.vertices && !a.IsMapped(v1);
      var children, images := ExpandNode(g1, g2, current, v1);
      QueueStep(cost, h, n1, n2, queue, i, v1, children, images);
      queue := queue[..i] + queue[i + 1..] + children;
    }
    return [];
  }
}

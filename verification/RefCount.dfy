/** Retain counts of the glue: JSBase::Retain and Release, the destructors that cascade
    through what an object holds, and the invariant that ties counts to owners. */
module RefCount {

  /** A JavaScript value: a UserObjectImp, or anything else. */
  datatype Value = Other | ImpValue(imp: nat)

  /** What JSObjectKJSValue makes of a user object: a value that there is already, for CF
      data with a primitive counterpart and for data tagged as a JSValueWrapper; or a new
      UserObjectImp. */
  datatype Script = Is(value: Value) | NewCell

  /** User objects of JSObject.cpp; CF values, which may hold user objects through the CF
      array callbacks; and the UserObjectImp cells of the JavaScript heap. */
  datatype Kind = UserObject(script: Script) | CFValue | Imp

  /** A node with count zero has been deleted. `holds` are the references it owns. */
  datatype Node = Node(count: nat, holds: seq<nat>, kind: Kind)

  type Nodes = seq<Node>

  /** How many references to x are owned by nodes. */
  ghost function Refs(nodes: Nodes, x: nat): nat {
    if nodes == [] then 0 else multiset(nodes[0].holds)[x] + Refs(nodes[1..], x)
  }

  ghost function Live(nodes: Nodes): nat {
    if nodes == [] then 0 else (if nodes[0].count > 0 then 1 else 0) + Live(nodes[1..])
  }

  lemma {:induction false} RefsUpdate(nodes: Nodes, i: nat, n: Node, x: nat)
    requires i < |nodes|
    ensures Refs(nodes[i := n], x) + multiset(nodes[i].holds)[x] == Refs(nodes, x) + multiset(n.holds)[x]
  {
    if i == 0 {
      assert nodes[0 := n][1..] == nodes[1..];
    } else {
      assert nodes[i := n][1..] == nodes[1..][i - 1 := n];
      RefsUpdate(nodes[1..], i - 1, n, x);
    }
  }

  lemma {:induction false} RefsAppend(nodes: Nodes, n: Node, x: nat)
    ensures Refs(nodes + [n], x) == Refs(nodes, x) + multiset(n.holds)[x]
  {
    if nodes == [] {
      assert [n][1..] == [] && nodes + [n] == [n];
    } else {
      assert (nodes + [n])[1..] == nodes[1..] + [n];
      RefsAppend(nodes[1..], n, x);
    }
  }

  lemma {:induction false} LiveUpdate(nodes: Nodes, i: nat, n: Node)
    requires i < |nodes|
    ensures n.count > 0 && nodes[i].count > 0 ==> Live(nodes[i := n]) == Live(nodes)
    ensures n.count == 0 && nodes[i].count > 0 ==> Live(nodes[i := n]) == Live(nodes) - 1
  {
    if i == 0 {
      assert nodes[0 := n][1..] == nodes[1..];
    } else {
      assert nodes[i := n][1..] == nodes[1..][i - 1 := n];
      LiveUpdate(nodes[1..], i - 1, n);
    }
  }

  /** A counted reference has a holder, and a holder is counted. */
  lemma {:induction false} RefHasHolder(nodes: Nodes, x: nat) returns (j: nat)
    requires Refs(nodes, x) > 0
    ensures j < |nodes| && x in nodes[j].holds
  {
    if x in nodes[0].holds {
      j := 0;
    } else {
      assert multiset(nodes[0].holds)[x] == 0;
      j := RefHasHolder(nodes[1..], x);
      j := j + 1;
    }
  }

  lemma {:induction false} HolderCounts(nodes: Nodes, i: nat, x: nat)
    requires i < |nodes| && x in nodes[i].holds
    ensures Refs(nodes, x) >= multiset(nodes[i].holds)[x] > 0
  {
    if i > 0 {
      HolderCounts(nodes[1..], i - 1, x);
    } else {
      assert multiset(nodes[0].holds)[x] > 0;
    }
  }

  // ----- The invariant -----

  /** Every count is the number of owners: roots and holding nodes. */
  ghost predicate Counted(nodes: Nodes, roots: multiset<nat>) {
    && (forall x: nat {:trigger RootInRange(nodes, roots, x)} :: RootInRange(nodes, roots, x))
    && (forall i: nat {:trigger CountIsOwners(nodes, roots, i)} :: i < |nodes| ==> CountIsOwners(nodes, roots, i))
  }

  ghost predicate RootInRange(nodes: Nodes, roots: multiset<nat>, x: nat) { x in roots ==> x < |nodes| }

  ghost predicate CountIsOwners(nodes: Nodes, roots: multiset<nat>, i: nat)
    requires i < |nodes|
  {
    nodes[i].count == roots[i] + Refs(nodes, i)
  }

  /** A deleted node holds nothing; a UserObjectImp holds its user object throughout. */
  ghost predicate Shaped(nodes: Nodes) {
    forall i {:trigger NodeShaped(nodes, nodes[i])} :: 0 <= i < |nodes| ==> NodeShaped(nodes, nodes[i])
  }

  ghost predicate NodeShaped(nodes: Nodes, n: Node) {
    && (n.count == 0 ==> n.holds == [])
    && (forall x :: x in n.holds ==> x < |nodes|)
    && (n.kind == Imp && n.count > 0 ==>
          |n.holds| == 1 && n.holds[0] < |nodes| && nodes[n.holds[0]].kind.UserObject?)
  }

  /** The deleted nodes are exactly those that were disposed of, each of them once. */
  ghost predicate Logged(nodes: Nodes, disposed: seq<nat>) {
    && (forall i {:trigger LoggedAt(nodes, disposed, i)} :: 0 <= i < |nodes| ==> LoggedAt(nodes, disposed, i))
    && (forall i :: 0 <= i < |disposed| ==> disposed[i] < |nodes|)
    && (forall i, j :: 0 <= i < j < |disposed| ==> disposed[i] != disposed[j])
  }

  ghost predicate LoggedAt(nodes: Nodes, disposed: seq<nat>, i: nat)
    requires i < |nodes|
  {
    nodes[i].count == 0 <==> i in disposed
  }

  ghost predicate Consistent(nodes: Nodes, roots: multiset<nat>, disposed: seq<nat>) {
    Counted(nodes, roots) && Shaped(nodes) && Logged(nodes, disposed)
  }

  /** What a node holds has not been disposed of. */
  lemma HeldIsLive(nodes: Nodes, roots: multiset<nat>, disposed: seq<nat>, i: nat, x: nat)
    requires Consistent(nodes, roots, disposed) && i < |nodes| && x in nodes[i].holds
    ensures x < |nodes| && nodes[x].count > 0 && x !in disposed
  {
    assert NodeShaped(nodes, nodes[i]);
    assert CountIsOwners(nodes, roots, x) && LoggedAt(nodes, disposed, x);
    HolderCounts(nodes, i, x);
  }

  /** With no roots left and no cycle of references, everything has been disposed of.
      `rank` witnesses that there is no cycle. */
  lemma NothingLeaks(nodes: Nodes, disposed: seq<nat>, rank: seq<nat>)
    requires Consistent(nodes, multiset{}, disposed) && |rank| == |nodes|
    requires forall i, x :: 0 <= i < |nodes| && x in nodes[i].holds && x < |nodes| ==> rank[x] < rank[i]
    ensures forall i :: 0 <= i < |nodes| ==> nodes[i].count == 0 && i in disposed
  {
    forall i | 0 <= i < |nodes|
      ensures nodes[i].count == 0 && i in disposed
    {
      assert LoggedAt(nodes, disposed, i);
      if nodes[i].count > 0 {
        HigherHolder(nodes, disposed, rank, i, Bound(rank));
      }
    }
  }

  ghost function Bound(rank: seq<nat>): (b: nat)
    ensures forall i :: 0 <= i < |rank| ==> rank[i] <= b
  {
    if rank == [] then 0 else
    var b := Bound(rank[1..]);
    assert forall i :: 0 < i < |rank| ==> rank[i] == rank[1..][i - 1];
    if b < rank[0] then rank[0] else b
  }

  lemma HolderIsLive(nodes: Nodes, j: nat, x: nat)
    requires Shaped(nodes) && j < |nodes| && x in nodes[j].holds
    ensures nodes[j].count > 0
  {
    assert NodeShaped(nodes, nodes[j]);
  }

  lemma {:induction false} HigherHolder(nodes: Nodes, disposed: seq<nat>, rank: seq<nat>, i: nat, bound: nat)
    requires Consistent(nodes, multiset{}, disposed) && |rank| == |nodes|
    requires forall i, x :: 0 <= i < |nodes| && x in nodes[i].holds && x < |nodes| ==> rank[x] < rank[i]
    requires forall i :: 0 <= i < |rank| ==> rank[i] <= bound
    requires i < |nodes| && nodes[i].count > 0
    ensures false
    decreases bound - rank[i]
  {
    assert CountIsOwners(nodes, multiset{}, i);
    var j := RefHasHolder(nodes, i);
    HolderIsLive(nodes, j, i);
    HigherHolder(nodes, disposed, rank, j, bound);
  }

  // ----- Steps on nodes -----

  ghost predicate InStep(n: Node, roots: multiset<nat>, o: nat, n': Node, roots': multiset<nat>, x: nat) {
    roots'[x] + multiset(n'.holds)[x] + (if x == o then n.count else 0)
    == roots[x] + multiset(n.holds)[x] + (if x == o then n'.count else 0)
  }

  /** Changing the count and the holds of one node in step with the roots. */
  lemma CountedUpdate(nodes: Nodes, roots: multiset<nat>, o: nat, n: Node, roots': multiset<nat>)
    requires Counted(nodes, roots) && o < |nodes|
    requires forall x: nat :: RootInRange(nodes, roots', x)
    requires forall x: nat :: x < |nodes| ==> InStep(nodes[o], roots, o, n, roots', x)
    ensures Counted(nodes[o := n], roots')
  {
    var nodes' := nodes[o := n];
    forall x: nat
      ensures RootInRange(nodes', roots', x)
    {
      assert RootInRange(nodes, roots', x);
    }
    forall i: nat | i < |nodes'|
      ensures CountIsOwners(nodes', roots', i)
    {
      assert CountIsOwners(nodes, roots, i);
      RefsUpdate(nodes, o, n, i);
      assert InStep(nodes[o], roots, o, n, roots', i);
    }
  }

  lemma ShapedUpdate(nodes: Nodes, o: nat, n: Node)
    requires Shaped(nodes) && o < |nodes| && n.kind == nodes[o].kind && NodeShaped(nodes, n)
    ensures Shaped(nodes[o := n])
  {
    var nodes' := nodes[o := n];
    forall i | 0 <= i < |nodes'|
      ensures NodeShaped(nodes', nodes'[i])
    {
      assert NodeShaped(nodes, if i == o then n else nodes[i]);
    }
  }

  /** New roots come from the old ones and from nodes that are there. */
  lemma RootsFrom(nodes: Nodes, roots: multiset<nat>, roots': multiset<nat>, added: set<nat>)
    requires Counted(nodes, roots) && (forall x :: x in added ==> x < |nodes|)
    requires forall x :: x in roots' ==> x in roots || x in added
    ensures forall x: nat :: RootInRange(nodes, roots', x)
  {
    forall x: nat
      ensures RootInRange(nodes, roots', x)
    {
      assert RootInRange(nodes, roots, x);
    }
  }

  lemma LoggedUpdate(nodes: Nodes, disposed: seq<nat>, o: nat, n: Node)
    requires Logged(nodes, disposed) && o < |nodes| && (n.count == 0 <==> nodes[o].count == 0)
    ensures Logged(nodes[o := n], disposed)
  {
    var nodes' := nodes[o := n];
    forall i | 0 <= i < |nodes'|
      ensures LoggedAt(nodes', disposed, i)
    {
      assert LoggedAt(nodes, disposed, i);
    }
  }

  lemma LoggedDelete(nodes: Nodes, disposed: seq<nat>, o: nat, n: Node)
    requires Logged(nodes, disposed) && o < |nodes| && nodes[o].count > 0 && n.count == 0
    ensures Logged(nodes[o := n], disposed + [o])
  {
    var nodes', disposed' := nodes[o := n], disposed + [o];
    assert LoggedAt(nodes, disposed, o);
    forall i | 0 <= i < |nodes'|
      ensures LoggedAt(nodes', disposed', i)
    {
      assert LoggedAt(nodes, disposed, i);
    }
  }

  lemma LoggedCreate(nodes: Nodes, disposed: seq<nat>, n: Node)
    requires Logged(nodes, disposed) && n.count > 0
    ensures Logged(nodes + [n], disposed)
  {
    var nodes' := nodes + [n];
    forall i | 0 <= i < |nodes'|
      ensures LoggedAt(nodes', disposed, i)
    {
      assert i < |nodes| ==> LoggedAt(nodes, disposed, i);
    }
  }

  lemma RetainKeeps(nodes: Nodes, roots: multiset<nat>, disposed: seq<nat>, o: nat)
    requires Consistent(nodes, roots, disposed) && o < |nodes| && nodes[o].count > 0
    ensures Consistent(nodes[o := nodes[o].(count := nodes[o].count + 1)], roots + multiset{o}, disposed)
  {
    var n := nodes[o].(count := nodes[o].count + 1);
    assert NodeShaped(nodes, nodes[o]);
    RootsFrom(nodes, roots, roots + multiset{o}, {o});
    CountedUpdate(nodes, roots, o, n, roots + multiset{o});
    ShapedUpdate(nodes, o, n);
    LoggedUpdate(nodes, disposed, o, n);
  }

  lemma NoRefsBeyond(nodes: Nodes, x: nat)
    requires Shaped(nodes) && x >= |nodes|
    ensures Refs(nodes, x) == 0
  {
    if Refs(nodes, x) > 0 {
      var j := RefHasHolder(nodes, x);
      HolderInRange(nodes, j, x);
    }
  }

  lemma HolderInRange(nodes: Nodes, j: nat, x: nat)
    requires Shaped(nodes) && j < |nodes| && x in nodes[j].holds
    ensures x < |nodes|
  {
    assert NodeShaped(nodes, nodes[j]);
  }

  lemma CreateCounted(nodes: Nodes, roots: multiset<nat>, n: Node, o: nat)
    requires Counted(nodes, roots) && Shaped(nodes) && multiset(n.holds) <= roots && o == |nodes| && n.count == 1
    ensures Counted(nodes + [n], roots - multiset(n.holds) + multiset{o})
  {
    var nodes', roots' := nodes + [n], roots - multiset(n.holds) + multiset{o};
    assert RootInRange(nodes, roots, o);
    assert o !in roots && multiset(n.holds)[o] == 0;
    NoRefsBeyond(nodes, o);
    forall x: nat
      ensures RootInRange(nodes', roots', x)
    {
      assert RootInRange(nodes, roots, x);
    }
    forall i: nat | i < |nodes'|
      ensures CountIsOwners(nodes', roots', i)
    {
      assert i < |nodes| ==> CountIsOwners(nodes, roots, i);
      RefsAppend(nodes, n, i);
    }
  }

  lemma CreateKeeps(nodes: Nodes, roots: multiset<nat>, disposed: seq<nat>, kind: Kind, held: seq<nat>, o: nat)
    requires Consistent(nodes, roots, disposed) && multiset(held) <= roots && o == |nodes|
    requires NodeShaped(nodes, Node(1, held, kind))
    ensures Consistent(nodes + [Node(1, held, kind)], roots - multiset(held) + multiset{o}, disposed)
  {
    var n := Node(1, held, kind);
    var nodes' := nodes + [n];
    CreateCounted(nodes, roots, n, o);
    forall i | 0 <= i < |nodes'|
      ensures NodeShaped(nodes', nodes'[i])
    {
      assert NodeShaped(nodes, if i < |nodes| then nodes[i] else n);
    }
    LoggedCreate(nodes, disposed, n);
  }

  /** CFArrayAppendValue: a root becomes a reference held by the array. */
  lemma HoldKeeps(nodes: Nodes, roots: multiset<nat>, disposed: seq<nat>, a: nat, x: nat)
    requires Consistent(nodes, roots, disposed) && a < |nodes| && nodes[a].count > 0 && nodes[a].kind == CFValue
    requires x in roots
    ensures Consistent(nodes[a := nodes[a].(holds := nodes[a].holds + [x])], roots - multiset{x}, disposed)
  {
    var n := nodes[a].(holds := nodes[a].holds + [x]);
    assert NodeShaped(nodes, nodes[a]);
    assert RootInRange(nodes, roots, x);
    RootsFrom(nodes, roots, roots - multiset{x}, {});
    CountedUpdate(nodes, roots, a, n, roots - multiset{x});
    ShapedUpdate(nodes, a, n);
    LoggedUpdate(nodes, disposed, a, n);
  }

  lemma DropKeeps(nodes: Nodes, roots: multiset<nat>, disposed: seq<nat>, o: nat)
    requires Consistent(nodes, roots, disposed) && o in roots && o < |nodes| && nodes[o].count > 1
    ensures Consistent(nodes[o := nodes[o].(count := nodes[o].count - 1)], roots - multiset{o}, disposed)
  {
    var n := nodes[o].(count := nodes[o].count - 1);
    assert NodeShaped(nodes, nodes[o]);
    RootsFrom(nodes, roots, roots - multiset{o}, {});
    CountedUpdate(nodes, roots, o, n, roots - multiset{o});
    ShapedUpdate(nodes, o, n);
    LoggedUpdate(nodes, disposed, o, n);
  }

  /** Deleting the object turns what it held into roots of the running destructor. */
  lemma DeleteKeeps(nodes: Nodes, roots: multiset<nat>, disposed: seq<nat>, o: nat)
    requires Consistent(nodes, roots, disposed) && o in roots && o < |nodes| && nodes[o].count == 1
    ensures Consistent(nodes[o := Node(0, [], nodes[o].kind)], roots - multiset{o} + multiset(nodes[o].holds), disposed + [o])
  {
    var n := Node(0, [], nodes[o].kind);
    assert NodeShaped(nodes, nodes[o]);
    assert forall x :: x in multiset(nodes[o].holds) ==> x in nodes[o].holds;
    RootsFrom(nodes, roots, roots - multiset{o} + multiset(nodes[o].holds), set x | x in nodes[o].holds);
    CountedUpdate(nodes, roots, o, n, roots - multiset{o} + multiset(nodes[o].holds));
    ShapedUpdate(nodes, o, n);
    LoggedDelete(nodes, disposed, o, n);
  }
}

/** The two heaps that the bridge of Source/JavaScriptGlue ties together, who owns what in
    them, and what each step of native code or of JavaScript does to them. */
module GlueState {
  import opened RefCount

  /** What native code and JavaScript may do. A step on objects that do not exist is no
      step. `body` is what the client's callback does; `answer` is the reference that the
      callback gives away to its caller, if the client has it to give. */
  datatype Step =
    | JSRetain(o: nat)
    | JSRelease(o: nat)
    | CreateObject
    | CreateWithCFType(cf: nat, primitive: bool)
    | CopyScriptProperty(value: Value)
    | SetScriptProperty(o: nat)
    | CreateArray
    | ArrayAppend(a: nat, x: nat)
    | Collect(imp: nat)
    | CallAsFunction(imp: nat, thisValue: Value, args: seq<Value>, body: seq<Step>, answer: nat)
    | GetOwnPropertySlot(imp: nat, body: seq<Step>, answer: nat, body2: seq<Step>, answer2: nat)
    | UserObjectGetter(imp: nat, body: seq<Step>, answer: nat)
    | PutProperty(imp: nat, value: Value, body: seq<Step>)
    | ToPrimitive(imp: nat, body: seq<Step>, answer: nat)

  predicate CallsBack(step: Step) {
    step.CallAsFunction? || step.GetOwnPropertySlot? || step.UserObjectGetter? || step.PutProperty? || step.ToPrimitive?
  }

  // ----- What the client sees -----

  /** The callbacks of the client, and the reference that each of them gave away, if any. A
      property is copied to see whether it is there, and again to read its value. */
  datatype Event =
    | FunctionCalled(target: nat, thisObject: nat, args: seq<nat>)
    | PropertyLookedUp(target: nat)
    | PropertyRead(target: nat)
    | PropertySet(target: nat, value: nat)
    | ValueCopied(target: nat)
    | Answered(answer: nat)
    | Unanswered(call: Event)

  /** userObjectGetter uses the answer without a test: none is a null dereference. */
  predicate Fatal(e: Event) { e.Unanswered? && e.call.PropertyRead? }

  ghost predicate Clean(trace: seq<Event>) {
    forall i {:trigger Fatal(trace[i])} :: 0 <= i < |trace| ==> !Fatal(trace[i])
  }

  /** The process died at the last event, and not before. */
  ghost predicate Died(trace: seq<Event>) {
    trace != [] && Fatal(trace[|trace| - 1]) && Clean(trace[..|trace| - 1])
  }

  ghost predicate Outcome(alive: bool, trace: seq<Event>) {
    if alive then Clean(trace) else Died(trace)
  }

  /** Whether the process lives can be told from the events. */
  lemma AliveIffClean(alive: bool, trace: seq<Event>)
    requires Outcome(alive, trace)
    ensures alive <==> Clean(trace)
  {
    assert !alive ==> Fatal(trace[|trace| - 1]);
  }

  lemma LogOutcome(trace: seq<Event>, e: Event)
    requires Clean(trace)
    ensures Outcome(!Fatal(e), trace + [e])
  {
    var more := trace + [e];
    assert more[..|more| - 1] == trace;
    forall i | 0 <= i < |more| && !Fatal(e)
      ensures !Fatal(more[i])
    {
      assert i < |trace| ==> !Fatal(trace[i]);
    }
  }

  // ----- The state -----

  /** `client`: references that the client owns. `gc`: the UserObjectImp cells that the
      garbage collector has not finalised. `active`: cells on the stack of a running call,
      which the collector keeps. `temps`: references owned by the running calls. `trace`:
      the callbacks so far. */
  datatype State = State(nodes: Nodes, disposed: seq<nat>, client: multiset<nat>, gc: multiset<nat>,
                         active: multiset<nat>, temps: multiset<nat>, trace: seq<Event>)
  {
    ghost function Roots(): multiset<nat> { client + gc + temps }

    ghost predicate Valid() {
      Consistent(nodes, Roots(), disposed) && Cells(nodes, gc) && Pinned(gc, active) && Rooted(nodes, gc)
    }

    predicate Exists(o: nat) { o < |nodes| && nodes[o].count > 0 }
    predicate IsUserObject(o: nat) { Exists(o) && nodes[o].kind.UserObject? }
    predicate IsCFValue(o: nat) { Exists(o) && nodes[o].kind == CFValue }

    /** The client can give away a reference of the kind that is asked for. */
    predicate Gives(answer: nat, wantCF: bool) {
      answer in client && if wantCF then IsCFValue(answer) else IsUserObject(answer)
    }
  }

  const EMPTY: State := State([], [], multiset{}, multiset{}, multiset{}, multiset{}, [])

  ghost predicate Cells(nodes: Nodes, gc: multiset<nat>) {
    forall x: nat {:trigger CellAt(nodes, gc, x)} :: CellAt(nodes, gc, x)
  }

  ghost predicate CellAt(nodes: Nodes, gc: multiset<nat>, x: nat) { x in gc ==> x < |nodes| && nodes[x].kind == Imp }

  ghost predicate Pinned(gc: multiset<nat>, active: multiset<nat>) {
    forall x: nat {:trigger PinnedAt(gc, active, x)} :: PinnedAt(gc, active, x)
  }

  ghost predicate PinnedAt(gc: multiset<nat>, active: multiset<nat>, x: nat) { x in active ==> x in gc }

  /** The handle of a JSValueWrapper keeps the cell that it refers to from collection. */
  ghost predicate Rooted(nodes: Nodes, gc: multiset<nat>) {
    forall i {:trigger HandleIn(nodes[i], gc)} :: 0 <= i < |nodes| ==> HandleIn(nodes[i], gc)
  }

  predicate HasHandle(n: Node, imp: nat) { n.count > 0 && n.kind == UserObject(Is(ImpValue(imp))) }

  ghost predicate HandleIn(n: Node, gc: multiset<nat>) { forall imp :: HasHandle(n, imp) ==> imp in gc }

  /** No handle refers to the cell. */
  predicate Unhandled(nodes: Nodes, imp: nat) {
    forall i :: 0 <= i < |nodes| ==> !HasHandle(nodes[i], imp)
  }

  predicate Known(s: State, v: Value) { v.ImpValue? ==> v.imp in s.gc }

  // ----- How nodes evolve -----

  /** Objects keep their kind, and new ones get new addresses. */
  ghost predicate Extends(before: Nodes, after: Nodes) {
    |before| <= |after| && forall i {:trigger SameKind(before, after, i)} :: 0 <= i < |before| ==> SameKind(before, after, i)
  }

  ghost predicate SameKind(before: Nodes, after: Nodes, i: nat)
    requires i < |before| && i < |after|
  {
    after[i].kind == before[i].kind
  }

  /** No deleted object comes back, and all but one hold what they held. */
  ghost predicate KeepsHoldsBut(before: Nodes, after: Nodes, a: nat) {
    |before| <= |after| &&
    forall i {:trigger SameHolds(before, after, i)} :: 0 <= i < |before| && i != a ==> SameHolds(before, after, i)
  }

  ghost predicate SameHolds(before: Nodes, after: Nodes, i: nat)
    requires i < |before| && i < |after|
  {
    after[i].count > 0 ==> before[i].count > 0 && after[i].holds == before[i].holds
  }

  ghost predicate KeepsHolds(before: Nodes, after: Nodes) { KeepsHoldsBut(before, after, |before|) }

  lemma ExtendsTwice(x: Nodes, y: Nodes, z: Nodes)
    requires Extends(x, y) && Extends(y, z)
    ensures Extends(x, z)
  {
    forall i | 0 <= i < |x|
      ensures SameKind(x, z, i)
    {
      assert SameKind(x, y, i) && SameKind(y, z, i);
    }
  }

  lemma KeepsTwice(x: Nodes, y: Nodes, z: Nodes, a: nat)
    requires KeepsHoldsBut(x, y, a) && KeepsHoldsBut(y, z, a) && a <= |x|
    ensures KeepsHoldsBut(x, z, a)
  {
    forall i | 0 <= i < |x| && i != a
      ensures SameHolds(x, z, i)
    {
      assert SameHolds(x, y, i) && SameHolds(y, z, i);
    }
  }

  /** What changes a new object only changes nothing of before. */
  lemma KeepsThenBut(x: Nodes, y: Nodes, z: Nodes, a: nat)
    requires KeepsHolds(x, y) && KeepsHoldsBut(y, z, a) && |x| <= a
    ensures KeepsHolds(x, z)
  {
    forall i | 0 <= i < |x|
      ensures SameHolds(x, z, i)
    {
      assert SameHolds(x, y, i) && SameHolds(y, z, i);
    }
  }

  /** All but `a` hold what they held, from when `a` was not there. */
  lemma KeepsButMore(x: Nodes, y: Nodes, a: nat)
    requires KeepsHolds(x, y) && a < |x|
    ensures KeepsHoldsBut(x, y, a)
  {
    forall i | 0 <= i < |x| && i != a
      ensures SameHolds(x, y, i)
    {
      assert SameHolds(x, y, i);
    }
  }

  // ----- Owners are alive -----

  lemma TempIsLive(s: State, o: nat)
    requires s.Valid() && (o in s.temps || o in s.client || o in s.gc)
    ensures s.Exists(o)
  {
    assert o in s.Roots();
    assert RootInRange(s.nodes, s.Roots(), o);
    assert CountIsOwners(s.nodes, s.Roots(), o);
  }

  lemma ImpIsLive(s: State, imp: nat)
    requires s.Valid() && imp in s.gc
    ensures s.Exists(imp) && |s.nodes[imp].holds| == 1 && s.IsUserObject(s.nodes[imp].holds[0])
  {
    TempIsLive(s, imp);
    assert CellAt(s.nodes, s.gc, imp) && NodeShaped(s.nodes, s.nodes[imp]);
    HeldIsLive(s.nodes, s.Roots(), s.disposed, imp, s.nodes[imp].holds[0]);
  }

  // ----- Sums of owners -----

  lemma SumAdd(c: multiset<nat>, g: multiset<nat>, t: multiset<nat>, m: multiset<nat>)
    ensures c + g + (t + m) == c + g + t + m
  {
  }

  lemma SumSub(c: multiset<nat>, g: multiset<nat>, t: multiset<nat>, m: multiset<nat>)
    requires m <= t
    ensures c + g + (t - m) == c + g + t - m
  {
  }

  lemma SumReplace(c: multiset<nat>, g: multiset<nat>, t: multiset<nat>, m: multiset<nat>, m': multiset<nat>)
    requires m <= t
    ensures c + g + (t - m + m') == c + g + t - m + m'
  {
  }

  /** A reference that moves from one owner to another. */
  lemma SumMove(c: multiset<nat>, g: multiset<nat>, t: multiset<nat>, o: nat)
    ensures o in t ==> (c + multiset{o}) + g + (t - multiset{o}) == c + g + t
    ensures o in t ==> c + (g + multiset{o}) + (t - multiset{o}) == c + g + t
    ensures o in c ==> (c - multiset{o}) + g + (t + multiset{o}) == c + g + t
    ensures o in g ==> c + (g - multiset{o}) + (t + multiset{o}) == c + g + t
  {
  }

  lemma AddSub(t: multiset<nat>, a: nat)
    ensures t + multiset{a} - multiset{a} == t && a in t + multiset{a}
  {
  }

  lemma HeldOnce(t: multiset<nat>, o: nat)
    ensures multiset([o]) <= t + multiset{o} && t + multiset{o} - multiset([o]) == t
  {
  }

  lemma SplitFirst(rest: multiset<nat>, held: seq<nat>, i: nat)
    requires i < |held|
    ensures held[i] in rest + multiset(held[i..])
    ensures rest + multiset(held[i..]) - multiset{held[i]} == rest + multiset(held[i + 1..])
  {
    assert held[i..] == [held[i]] + held[i + 1..];
  }

  // ----- Single steps -----

  lemma CellsExtend(before: Nodes, after: Nodes, gc: multiset<nat>)
    requires Cells(before, gc) && Extends(before, after)
    ensures Cells(after, gc)
  {
    forall x: nat
      ensures CellAt(after, gc, x)
    {
      assert CellAt(before, gc, x);
      assert x < |before| ==> SameKind(before, after, x);
    }
  }

  lemma RootedUpdate(nodes: Nodes, gc: multiset<nat>, o: nat, n: Node)
    requires Rooted(nodes, gc) && o < |nodes| && nodes[o].count > 0 && n.kind == nodes[o].kind
    ensures Rooted(nodes[o := n], gc)
  {
    var after := nodes[o := n];
    forall i | 0 <= i < |after|
      ensures HandleIn(after[i], gc)
    {
      assert HandleIn(nodes[i], gc);
      assert forall imp :: HasHandle(after[i], imp) ==> HasHandle(nodes[i], imp);
    }
  }

  lemma RootedCreate(nodes: Nodes, gc: multiset<nat>, n: Node)
    requires Rooted(nodes, gc) && HandleIn(n, gc)
    ensures Rooted(nodes + [n], gc)
  {
    var after := nodes + [n];
    forall i | 0 <= i < |after|
      ensures HandleIn(after[i], gc)
    {
      assert i < |nodes| ==> HandleIn(nodes[i], gc);
    }
  }

  /** A change of one live node, in step with the owners, that a call makes on its own. */
  lemma UpdateValid(s: State, o: nat, n: Node, s': State)
    requires s.Valid() && s.Exists(o) && n.kind == s.nodes[o].kind && s'.nodes == s.nodes[o := n]
    requires Consistent(s'.nodes, s'.Roots(), s'.disposed) && s'.gc == s.gc && s'.active == s.active
    ensures s'.Valid() && Extends(s.nodes, s'.nodes)
  {
    RootedUpdate(s.nodes, s.gc, o, n);
    CellsExtend(s.nodes, s'.nodes, s.gc);
  }

  lemma UpdateKeeps(nodes: Nodes, o: nat, n: Node)
    requires o < |nodes| && nodes[o].count > 0 && (n.count > 0 ==> n.holds == nodes[o].holds)
    ensures KeepsHolds(nodes, nodes[o := n])
  {
  }

  /** What a call that runs no client code leaves alone. */
  ghost predicate Frame(before: State, after: State) {
    && Extends(before.nodes, after.nodes) && after.trace == before.trace
    && after.client == before.client && after.gc == before.gc && after.active == before.active
  }

  lemma FrameTwice(x: State, y: State, z: State)
    requires Frame(x, y) && Frame(y, z)
    ensures Frame(x, z)
  {
    ExtendsTwice(x.nodes, y.nodes, z.nodes);
  }

  function RetainStep(s: State, o: nat): State
    requires s.Exists(o)
  {
    s.(nodes := s.nodes[o := s.nodes[o].(count := s.nodes[o].count + 1)], temps := s.temps + multiset{o})
  }

  lemma RetainValid(s: State, o: nat)
    requires s.Valid() && s.Exists(o)
    ensures var s' := RetainStep(s, o); s'.Valid() && Frame(s, s') && KeepsHolds(s.nodes, s'.nodes)
  {
    SumAdd(s.client, s.gc, s.temps, multiset{o});
    RetainKeeps(s.nodes, s.Roots(), s.disposed, o);
    UpdateValid(s, o, RetainStep(s, o).nodes[o], RetainStep(s, o));
    UpdateKeeps(s.nodes, o, RetainStep(s, o).nodes[o]);
  }

  function DropStep(s: State, o: nat): State
    requires s.Exists(o)
  {
    s.(nodes := s.nodes[o := s.nodes[o].(count := s.nodes[o].count - 1)], temps := s.temps - multiset{o})
  }

  lemma DropValid(s: State, o: nat)
    requires s.Valid() && s.Exists(o) && o in s.temps && s.nodes[o].count > 1
    ensures var s' := DropStep(s, o); s'.Valid() && Frame(s, s') && KeepsHolds(s.nodes, s'.nodes)
    ensures Live(DropStep(s, o).nodes) == Live(s.nodes) && o !in s.disposed
  {
    SumSub(s.client, s.gc, s.temps, multiset{o});
    DropKeeps(s.nodes, s.Roots(), s.disposed, o);
    UpdateValid(s, o, DropStep(s, o).nodes[o], DropStep(s, o));
    UpdateKeeps(s.nodes, o, DropStep(s, o).nodes[o]);
    LiveUpdate(s.nodes, o, DropStep(s, o).nodes[o]);
    assert LoggedAt(s.nodes, s.disposed, o);
  }

  function DeleteStep(s: State, o: nat): State
    requires s.Exists(o)
  {
    s.(nodes := s.nodes[o := Node(0, [], s.nodes[o].kind)], disposed := s.disposed + [o],
       temps := s.temps - multiset{o} + multiset(s.nodes[o].holds))
  }

  lemma DeleteValid(s: State, o: nat)
    requires s.Valid() && s.Exists(o) && o in s.temps && s.nodes[o].count == 1
    ensures var s' := DeleteStep(s, o); s'.Valid() && Frame(s, s') && KeepsHolds(s.nodes, s'.nodes)
    ensures Live(DeleteStep(s, o).nodes) == Live(s.nodes) - 1 && s.disposed <= DeleteStep(s, o).disposed
  {
    SumReplace(s.client, s.gc, s.temps, multiset{o}, multiset(s.nodes[o].holds));
    DeleteKeeps(s.nodes, s.Roots(), s.disposed, o);
    UpdateValid(s, o, DeleteStep(s, o).nodes[o], DeleteStep(s, o));
    UpdateKeeps(s.nodes, o, DeleteStep(s, o).nodes[o]);
    LiveUpdate(s.nodes, o, DeleteStep(s, o).nodes[o]);
  }

  /** A new object with count one, which takes over the references `held`. */
  function CreateStep(s: State, kind: Kind, held: seq<nat>): State {
    var o: nat := |s.nodes|;
    s.(nodes := s.nodes + [Node(1, held, kind)], temps := s.temps - multiset(held) + multiset{o})
  }

  lemma CreateValid(s: State, kind: Kind, held: seq<nat>)
    requires s.Valid() && multiset(held) <= s.temps && HandleIn(Node(1, held, kind), s.gc)
    requires kind == Imp ==> |held| == 1 && s.IsUserObject(held[0])
    ensures var s' := CreateStep(s, kind, held); s'.Valid() && Frame(s, s') && KeepsHolds(s.nodes, s'.nodes)
  {
    forall x | x in held
      ensures x < |s.nodes|
    {
      assert x in multiset(held);
      TempIsLive(s, x);
    }
    var o: nat := |s.nodes|;
    var s' := CreateStep(s, kind, held);
    SumReplace(s.client, s.gc, s.temps, multiset(held), multiset{o});
    CreateKeeps(s.nodes, s.Roots(), s.disposed, kind, held, o);
    RootedCreate(s.nodes, s.gc, Node(1, held, kind));
    assert Extends(s.nodes, s'.nodes);
    CellsExtend(s.nodes, s'.nodes, s.gc);
  }

  /** CFArrayAppendValue with the retain callback, the retain done before. */
  function HoldStep(s: State, a: nat, x: nat): State
    requires s.Exists(a)
  {
    s.(nodes := s.nodes[a := s.nodes[a].(holds := s.nodes[a].holds + [x])], temps := s.temps - multiset{x})
  }

  lemma HoldValid(s: State, a: nat, x: nat)
    requires s.Valid() && s.IsCFValue(a) && x in s.temps
    ensures var s' := HoldStep(s, a, x); s'.Valid() && Frame(s, s') && KeepsHoldsBut(s.nodes, s'.nodes, a)
  {
    SumSub(s.client, s.gc, s.temps, multiset{x});
    HoldKeeps(s.nodes, s.Roots(), s.disposed, a, x);
    UpdateValid(s, a, HoldStep(s, a, x).nodes[a], HoldStep(s, a, x));
  }

  // ----- Changes of owner -----

  function Give(s: State, o: nat): State {
    s.(temps := s.temps - multiset{o}, client := s.client + multiset{o})
  }

  function Take(s: State, o: nat): State {
    s.(client := s.client - multiset{o}, temps := s.temps + multiset{o})
  }

  function Adopt(s: State, imp: nat): State {
    s.(temps := s.temps - multiset{imp}, gc := s.gc + multiset{imp})
  }

  function Finalise(s: State, imp: nat): State {
    s.(gc := s.gc - multiset{imp}, temps := s.temps + multiset{imp})
  }

  lemma GiveValid(s: State, o: nat)
    requires s.Valid() && o in s.temps
    ensures Give(s, o).Valid()
  {
    SumMove(s.client, s.gc, s.temps, o);
  }

  lemma TakeValid(s: State, o: nat)
    requires s.Valid() && o in s.client
    ensures Take(s, o).Valid()
  {
    SumMove(s.client, s.gc, s.temps, o);
  }

  lemma AdoptValid(s: State, imp: nat)
    requires s.Valid() && imp in s.temps && imp < |s.nodes| && s.nodes[imp].kind == Imp
    ensures Adopt(s, imp).Valid()
  {
    SumMove(s.client, s.gc, s.temps, imp);
    var more := s.gc + multiset{imp};
    forall x: nat
      ensures CellAt(s.nodes, more, x) && PinnedAt(more, s.active, x)
    {
      assert CellAt(s.nodes, s.gc, x) && PinnedAt(s.gc, s.active, x);
    }
    forall i | 0 <= i < |s.nodes|
      ensures HandleIn(s.nodes[i], more)
    {
      assert HandleIn(s.nodes[i], s.gc);
    }
  }

  lemma FinaliseValid(s: State, imp: nat)
    requires s.Valid() && imp in s.gc && imp !in s.active && Unhandled(s.nodes, imp)
    ensures Finalise(s, imp).Valid()
  {
    SumMove(s.client, s.gc, s.temps, imp);
    var less := s.gc - multiset{imp};
    forall x: nat
      ensures CellAt(s.nodes, less, x) && PinnedAt(less, s.active, x)
    {
      assert CellAt(s.nodes, s.gc, x) && PinnedAt(s.gc, s.active, x);
    }
    forall i | 0 <= i < |s.nodes|
      ensures HandleIn(s.nodes[i], less)
    {
      assert HandleIn(s.nodes[i], s.gc);
    }
  }

  function Pin(s: State, imp: nat): State { s.(active := s.active + multiset{imp}) }
  function Unpin(s: State, imp: nat): State { s.(active := s.active - multiset{imp}) }

  lemma PinValid(s: State, imp: nat)
    requires s.Valid() && imp in s.gc
    ensures Pin(s, imp).Valid()
  {
    forall x: nat
      ensures PinnedAt(s.gc, s.active + multiset{imp}, x)
    {
      assert PinnedAt(s.gc, s.active, x);
    }
  }

  lemma UnpinValid(s: State, imp: nat)
    requires s.Valid()
    ensures Unpin(s, imp).Valid()
  {
    forall x: nat
      ensures PinnedAt(s.gc, s.active - multiset{imp}, x)
    {
      assert PinnedAt(s.gc, s.active, x);
    }
  }

  function Log(s: State, e: Event): State { s.(trace := s.trace + [e]) }

  // ----- What every completed call restores -----

  /** Its temporaries and the pinned cells, which hold what they held. */
  ghost predicate Balanced(before: State, after: State) {
    && after.active == before.active && after.temps == before.temps && before.trace <= after.trace
    && Kept(before.active, before.nodes, after.nodes)
  }

  /** The cells in `cells` hold the objects that they held. */
  ghost predicate Kept(cells: multiset<nat>, before: Nodes, after: Nodes) {
    forall x: nat {:trigger KeptAt(cells, before, after, x)} :: KeptAt(cells, before, after, x)
  }

  ghost predicate KeptAt(cells: multiset<nat>, before: Nodes, after: Nodes, x: nat) {
    x in cells ==> x < |before| && x < |after| && after[x].holds == before[x].holds
  }

  lemma LiveKeptBut(s: State, s': State, a: nat)
    requires s.Valid() && s'.Valid() && KeepsHoldsBut(s.nodes, s'.nodes, a) && a !in s.gc && Pinned(s'.gc, s.active)
    ensures Kept(s.active, s.nodes, s'.nodes)
  {
    forall x: nat
      ensures KeptAt(s.active, s.nodes, s'.nodes, x)
    {
      if x in s.active {
        assert PinnedAt(s.gc, s.active, x) && PinnedAt(s'.gc, s.active, x);
        ImpIsLive(s, x);
        ImpIsLive(s', x);
        assert SameHolds(s.nodes, s'.nodes, x);
      }
    }
  }

  lemma LiveKept(s: State, s': State)
    requires s.Valid() && s'.Valid() && KeepsHolds(s.nodes, s'.nodes) && Pinned(s'.gc, s.active)
    ensures Kept(s.active, s.nodes, s'.nodes)
  {
    assert CellAt(s.nodes, s.gc, |s.nodes|);
    LiveKeptBut(s, s', |s.nodes|);
  }

  lemma SameKept(s: State)
    requires s.Valid()
    ensures Kept(s.active, s.nodes, s.nodes)
  {
    assert KeepsHolds(s.nodes, s.nodes);
    LiveKept(s, s);
  }

  lemma KeptTwice(cells: multiset<nat>, x: Nodes, y: Nodes, z: Nodes)
    requires Kept(cells, x, y) && Kept(cells, y, z)
    ensures Kept(cells, x, z)
  {
    forall i: nat
      ensures KeptAt(cells, x, z, i)
    {
      assert KeptAt(cells, x, y, i) && KeptAt(cells, y, z, i);
    }
  }

  lemma KeptFewer(cells: multiset<nat>, more: multiset<nat>, x: Nodes, y: Nodes)
    requires Kept(more, x, y) && cells <= more
    ensures Kept(cells, x, y)
  {
    forall i: nat
      ensures KeptAt(cells, x, y, i)
    {
      assert KeptAt(more, x, y, i);
    }
  }

  // ----- What stands for what -----

  /** The object behind a cell. */
  ghost predicate Target(s: State, imp: nat, target: nat) {
    imp < |s.nodes| && s.nodes[imp].holds == [target]
  }

  /** The user object that stands for a value: the one behind a UserObjectImp, or a new one. */
  ghost predicate Behind(s: State, v: Value, o: nat) {
    if v.ImpValue? then Target(s, v.imp, o) else o >= |s.nodes|
  }

  lemma BehindBefore(s: State, s': State, v: Value, o: nat)
    requires s.Valid() && s'.Valid() && Known(s, v) && s'.gc == s.gc
    requires Behind(s', v, o) && KeepsHolds(s.nodes, s'.nodes)
    ensures Behind(s, v, o)
  {
    if v.ImpValue? {
      ImpIsLive(s, v.imp);
      ImpIsLive(s', v.imp);
      assert SameHolds(s.nodes, s'.nodes, v.imp);
    }
  }

  /** The first arguments and what stands for them in the array. */
  ghost predicate Stand(s: State, args: seq<Value>, objects: seq<nat>) {
    |objects| <= |args| &&
    forall i {:trigger StandAt(s, args, objects, i)} :: 0 <= i < |objects| ==> StandAt(s, args, objects, i)
  }

  ghost predicate StandAt(s: State, args: seq<Value>, objects: seq<nat>, i: nat)
    requires i < |objects| <= |args|
  {
    Behind(s, args[i], objects[i])
  }

  lemma StandMore(s: State, args: seq<Value>, objects: seq<nat>, more: seq<nat>)
    requires Stand(s, args, objects) && |objects| < |args|
    requires more != [] && more[..|more| - 1] == objects && Behind(s, args[|objects|], more[|more| - 1])
    ensures Stand(s, args, more) && |more| == |objects| + 1
  {
    forall i | 0 <= i < |more|
      ensures StandAt(s, args, more, i)
    {
      if i < |objects| {
        assert StandAt(s, args, objects, i) && more[i] == objects[i];
      }
    }
  }

  ghost predicate AllKnown(s: State, args: seq<Value>) {
    forall i {:trigger KnownAt(s, args, i)} :: 0 <= i < |args| ==> KnownAt(s, args, i)
  }

  ghost predicate KnownAt(s: State, args: seq<Value>, i: nat)
    requires i < |args|
  {
    Known(s, args[i])
  }

  lemma AllKnownOf(s: State, args: seq<Value>)
    requires forall i :: 0 <= i < |args| ==> Known(s, args[i])
    ensures AllKnown(s, args)
  {
  }

  lemma KnownStill(s: State, s': State, args: seq<Value>)
    requires AllKnown(s, args) && s'.gc == s.gc
    ensures AllKnown(s', args)
  {
    forall i | 0 <= i < |args|
      ensures KnownAt(s', args, i)
    {
      assert KnownAt(s, args, i);
    }
  }

  lemma StandBefore(s: State, s': State, args: seq<Value>, objects: seq<nat>)
    requires s.Valid() && s'.Valid() && s'.gc == s.gc && KeepsHolds(s.nodes, s'.nodes)
    requires AllKnown(s, args) && Stand(s', args, objects)
    ensures Stand(s, args, objects)
  {
    forall i | 0 <= i < |objects|
      ensures StandAt(s, args, objects, i)
    {
      assert KnownAt(s, args, i) && StandAt(s', args, objects, i);
      BehindBefore(s, s', args[i], objects[i]);
    }
  }

  /** The JavaScript value for a user object: the one that there is, or a live UserObjectImp
      that holds the object. */
  ghost predicate Converted(s: State, o: nat, v: Value) {
    && o < |s.nodes| && s.nodes[o].kind.UserObject? && Known(s, v)
    && match s.nodes[o].kind.script
       case Is(value) => v == value
       case NewCell => v.ImpValue? && Target(s, v.imp, o)
  }

  lemma ConvertedStays(s: State, s': State, o: nat, v: Value)
    requires Converted(s, o, v) && s'.Valid() && s'.gc == s.gc
    requires Extends(s.nodes, s'.nodes) && KeepsHolds(s.nodes, s'.nodes)
    ensures Converted(s', o, v)
  {
    assert SameKind(s.nodes, s'.nodes, o);
    if s.nodes[o].kind.script.NewCell? {
      ImpIsLive(s', v.imp);
      assert SameHolds(s.nodes, s'.nodes, v.imp);
    }
  }

  /** The value that a call returns: that of the callback's answer, or undefined. */
  ghost predicate Returned(s: State, answer: nat, v: Value) {
    && s.trace != []
    && if s.trace[|s.trace| - 1] == Answered(answer) then Converted(s, answer, v) else v == Other
  }

  lemma ReturnedStays(s: State, s': State, answer: nat, v: Value)
    requires Returned(s, answer, v) && s'.Valid() && s'.gc == s.gc && s'.trace == s.trace
    requires Extends(s.nodes, s'.nodes) && KeepsHolds(s.nodes, s'.nodes)
    ensures Returned(s', answer, v)
  {
    if s.trace[|s.trace| - 1] == Answered(answer) {
      ConvertedStays(s, s', answer, v);
    }
  }

  // ----- What each step achieves -----

  predicate Enabled(s: State, step: Step) {
    match step
    case JSRetain(o) => s.Exists(o) && s.nodes[o].kind != Imp
    case JSRelease(o) => o in s.client
    case CreateWithCFType(cf, _) => s.IsCFValue(cf)
    case CopyScriptProperty(value) => Known(s, value)
    case SetScriptProperty(o) => s.IsUserObject(o)
    case ArrayAppend(a, x) => s.IsCFValue(a) && s.Exists(x) && s.nodes[x].kind != Imp
    case Collect(imp) => imp in s.gc && imp !in s.active && Unhandled(s.nodes, imp)
    case CallAsFunction(imp, thisValue, args, _, _) =>
      imp in s.gc && Known(s, thisValue) && forall i :: 0 <= i < |args| ==> Known(s, args[i])
    case GetOwnPropertySlot(imp, _, _, _, _) => imp in s.gc
    case UserObjectGetter(imp, _, _) => imp in s.gc
    case PutProperty(imp, value, _) => imp in s.gc && Known(s, value)
    case ToPrimitive(imp, _, _) => imp in s.gc
    case _ => true
  }

  /** No step is refused whose cells and objects are there. */
  lemma NotRefused(s: State, imp: nat, v: Value, args: seq<Value>, body: seq<Step>, body2: seq<Step>, answer: nat, answer2: nat)
    requires imp in s.gc && Known(s, v) && forall i :: 0 <= i < |args| ==> Known(s, args[i])
    ensures Enabled(s, CallAsFunction(imp, v, args, body, answer)) && Enabled(s, PutProperty(imp, v, body))
    ensures Enabled(s, GetOwnPropertySlot(imp, body, answer, body2, answer2)) && Enabled(s, UserObjectGetter(imp, body, answer))
    ensures Enabled(s, ToPrimitive(imp, body, answer)) && Enabled(s, CopyScriptProperty(v))
    ensures imp !in s.active && (forall i :: 0 <= i < |s.nodes| ==> !HasHandle(s.nodes[i], imp)) ==> Enabled(s, Collect(imp))
    ensures forall o :: o in s.client ==> Enabled(s, JSRelease(o))
    ensures forall o :: s.IsUserObject(o) ==> Enabled(s, JSRetain(o)) && Enabled(s, SetScriptProperty(o))
    ensures forall a, x :: s.IsCFValue(a) && s.IsUserObject(x) ==> Enabled(s, ArrayAppend(a, x))
    ensures forall a, primitive :: s.IsCFValue(a) ==> Enabled(s, CreateWithCFType(a, primitive))
    ensures Enabled(s, CreateObject) && Enabled(s, CreateArray)
  {
  }

  /** A new object at the next address, owned by the client; `nodes` are the others. */
  ghost predicate Created(before: State, nodes: Nodes, node: Node, after: State) {
    && after.client == before.client + multiset{|before.nodes| as nat} && after.gc == before.gc
    && after.nodes == nodes + [node]
  }

  function OneMore(nodes: Nodes, o: nat): Nodes
    requires o < |nodes|
  {
    nodes[o := nodes[o].(count := nodes[o].count + 1)]
  }

  ghost predicate RetainEffect(before: State, o: nat, after: State) {
    && after.client == before.client + multiset{o} && after.gc == before.gc
    && o < |before.nodes| && after.nodes == OneMore(before.nodes, o)
  }

  ghost predicate ReleaseEffect(before: State, o: nat, after: State) {
    && after.client == before.client - multiset{o} && after.gc == before.gc
    && o < |before.nodes| && (o in after.disposed <==> before.nodes[o].count == 1)
  }

  /** The new user object owns one reference to the CF value. */
  ghost predicate WrapEffect(before: State, cf: nat, primitive: bool, after: State) {
    && cf < |before.nodes|
    && Created(before, OneMore(before.nodes, cf), Node(1, [cf], UserObject(if primitive then Is(Other) else NewCell)), after)
  }

  /** Script sees the object: as the value that there is, or as a new cell. */
  ghost predicate ExposeEffect(before: State, o: nat, after: State) {
    && o < |before.nodes| && before.nodes[o].kind.UserObject? && after.client == before.client
    && if before.nodes[o].kind.script.Is? then after == before
       else after.gc == before.gc + multiset{|before.nodes| as nat}
            && after.nodes == OneMore(before.nodes, o) + [Node(1, [o], Imp)]
  }

  ghost predicate AppendEffect(before: State, a: nat, x: nat, after: State) {
    && after.client == before.client && after.gc == before.gc && a < |before.nodes| <= |after.nodes|
    && after.nodes[a].holds == before.nodes[a].holds + [x]
  }

  ghost predicate CollectEffect(before: State, imp: nat, after: State) {
    && after.gc == before.gc - multiset{imp} && after.client == before.client
    && imp < |before.nodes| && (imp in after.disposed <==> before.nodes[imp].count == 1)
  }

  ghost predicate LastIs(trace: seq<Event>, e: Event) { trace != [] && trace[|trace| - 1] == e }

  /** The callback's answer, or that there was none, is the last event. */
  ghost predicate Ended(trace: seq<Event>, answer: nat) {
    trace != [] && var e := trace[|trace| - 1]; e == Answered(answer) || e.Unanswered?
  }

  ghost predicate Begins(before: State, after: State, e: Event) {
    before.trace + [e] <= after.trace
  }

  ghost predicate FunctionEffect(before: State, step: Step, after: State)
    requires step.CallAsFunction?
  {
    Ended(after.trace, step.answer) &&
    exists target: nat, thisObject: nat, args: seq<nat> ::
      && Begins(before, after, FunctionCalled(target, thisObject, args))
      && Target(before, step.imp, target) && Behind(before, step.thisValue, thisObject)
      && |args| == |step.args| && Stand(before, step.args, args)
  }

  /** The lookup found a property, or else asked for the primitive value. */
  ghost predicate SlotEffect(before: State, step: Step, after: State)
    requires step.GetOwnPropertySlot?
  {
    && (exists target: nat :: Begins(before, after, PropertyLookedUp(target)) && Target(before, step.imp, target))
    && (LastIs(after.trace, Answered(step.answer)) || SlotMissing(before, step, after))
  }

  ghost predicate SlotMissing(before: State, step: Step, after: State)
    requires step.GetOwnPropertySlot?
  {
    exists k: nat, target: nat ::
      && |before.trace| < k < |after.trace| - 1 && Target(before, step.imp, target)
      && after.trace[k] == Unanswered(PropertyLookedUp(target)) && after.trace[k + 1] == ValueCopied(target)
  }

  ghost predicate GetterEffect(before: State, imp: nat, answer: nat, after: State) {
    && (exists target: nat :: Begins(before, after, PropertyRead(target)) && Target(before, imp, target))
    && LastIs(after.trace, Answered(answer))
  }

  ghost predicate PutEffect(before: State, imp: nat, value: Value, after: State) {
    exists target: nat, o: nat ::
      Begins(before, after, PropertySet(target, o)) && Target(before, imp, target) && Behind(before, value, o)
  }

  ghost predicate PrimitiveEffect(before: State, imp: nat, answer: nat, after: State) {
    && (exists target: nat :: Begins(before, after, ValueCopied(target)) && Target(before, imp, target))
    && Ended(after.trace, answer)
  }

  /** What a step that is enabled does, apart from the client's part in its callbacks. */
  ghost predicate Effect(before: State, step: Step, after: State) {
    match step
    case JSRetain(o) => RetainEffect(before, o, after)
    case JSRelease(o) => ReleaseEffect(before, o, after)
    case CreateObject => Created(before, before.nodes, Node(1, [], UserObject(NewCell)), after)
    case CreateArray => Created(before, before.nodes, Node(1, [], CFValue), after)
    case CreateWithCFType(cf, primitive) => WrapEffect(before, cf, primitive, after)
    case CopyScriptProperty(value) => Created(before, before.nodes, Node(1, [], UserObject(Is(value))), after)
    case SetScriptProperty(o) => ExposeEffect(before, o, after)
    case ArrayAppend(a, x) => AppendEffect(before, a, x, after)
    case Collect(imp) => CollectEffect(before, imp, after)
    case CallAsFunction(_, _, _, _, _) => FunctionEffect(before, step, after)
    case GetOwnPropertySlot(_, _, _, _, _) => SlotEffect(before, step, after)
    case UserObjectGetter(imp, _, answer) => GetterEffect(before, imp, answer, after)
    case PutProperty(imp, value, _) => PutEffect(before, imp, value, after)
    case ToPrimitive(imp, _, answer) => PrimitiveEffect(before, imp, answer, after)
  }

  lemma FunctionShows(before: State, called: State, step: Step, target: nat, thisObject: nat, args: seq<nat>, after: State)
    requires step.CallAsFunction? && called.trace == before.trace
    requires Begins(called, after, FunctionCalled(target, thisObject, args))
    requires Target(before, step.imp, target) && Behind(before, step.thisValue, thisObject)
    requires |args| == |step.args| && Stand(before, step.args, args) && Ended(after.trace, step.answer)
    ensures FunctionEffect(before, step, after)
  {
    assert Begins(before, after, FunctionCalled(target, thisObject, args));
  }

  lemma GetterShows(before: State, called: State, step: Step, target: nat, after: State)
    requires step.UserObjectGetter? && called.trace == before.trace && Begins(called, after, PropertyRead(target))
    requires Target(before, step.imp, target) && LastIs(after.trace, Answered(step.answer))
    ensures GetterEffect(before, step.imp, step.answer, after)
  {
    assert Begins(before, after, PropertyRead(target));
  }

  lemma PutShows(before: State, called: State, step: Step, target: nat, o: nat, after: State)
    requires step.PutProperty? && called.trace == before.trace && Begins(called, after, PropertySet(target, o))
    requires Target(before, step.imp, target) && Behind(before, step.value, o)
    ensures PutEffect(before, step.imp, step.value, after)
  {
    assert Begins(before, after, PropertySet(target, o));
  }

  lemma PrimitiveShows(before: State, called: State, imp: nat, target: nat, answer: nat, after: State)
    requires called.trace == before.trace && Begins(called, after, ValueCopied(target))
    requires Target(before, imp, target) && Ended(after.trace, answer)
    ensures PrimitiveEffect(before, imp, answer, after)
  {
    assert Begins(before, after, ValueCopied(target));
  }

  lemma SlotShows(before: State, called: State, step: Step, target: nat, after: State)
    requires step.GetOwnPropertySlot? && called == Pin(before, step.imp)
    requires Begins(called, after, PropertyLookedUp(target)) && Target(before, step.imp, target)
    requires LastIs(after.trace, Answered(step.answer)) || SlotMissing(called, step, after)
    ensures SlotEffect(before, step, after)
    ensures SlotMissing(called, step, after) ==> SlotMissing(before, step, after)
  {
    assert Begins(before, after, PropertyLookedUp(target));
    if SlotMissing(called, step, after) {
      var k: nat, t: nat :|
        && |called.trace| < k < |after.trace| - 1 && Target(called, step.imp, t)
        && after.trace[k] == Unanswered(PropertyLookedUp(t)) && after.trace[k + 1] == ValueCopied(t);
      assert Target(before, step.imp, t);
    }
  }

  lemma MissingShows(before: State, step: Step, target: nat, unanswered: State, after: State)
    requires step.GetOwnPropertySlot? && Begins(before, unanswered, PropertyLookedUp(target))
    requires Target(before, step.imp, target) && |before.trace| + 1 < |unanswered.trace|
    requires LastIs(unanswered.trace, Unanswered(PropertyLookedUp(target)))
    requires PrimitiveEffect(unanswered, step.imp, step.answer2, after) && Target(unanswered, step.imp, target)
    ensures SlotMissing(before, step, after) && Begins(before, after, PropertyLookedUp(target))
  {
    assert Begins(unanswered, after, ValueCopied(target));
    var k := |unanswered.trace| - 1;
    assert (unanswered.trace + [ValueCopied(target)])[k] == Unanswered(PropertyLookedUp(target));
    assert (unanswered.trace + [ValueCopied(target)])[k + 1] == ValueCopied(target);
  }

  // ----- Runs -----

  /** Every step of a run took effect, or was none. */
  ghost predicate Runs(before: State, steps: seq<Step>, after: State) {
    exists path: seq<State> :: Path(path, steps) && path[0] == before && path[|steps|] == after
  }

  ghost predicate Path(path: seq<State>, steps: seq<Step>) {
    |path| == |steps| + 1 && forall i {:trigger TakesAt(path, steps, i)} :: 0 <= i < |steps| ==> TakesAt(path, steps, i)
  }

  ghost predicate TakesAt(path: seq<State>, steps: seq<Step>, i: nat)
    requires i < |steps| && |path| == |steps| + 1
  {
    Takes(path[i], steps[i], path[i + 1])
  }

  ghost predicate Takes(before: State, step: Step, after: State) {
    if Enabled(before, step) then Effect(before, step, after) else after == before
  }

  lemma RunsNone(s: State)
    ensures Runs(s, [], s)
  {
    assert Path([s], []);
  }

  lemma RunsMore(before: State, steps: seq<Step>, i: nat, mid: State, after: State)
    requires i < |steps| && Runs(before, steps[..i], mid) && Takes(mid, steps[i], after)
    ensures Runs(before, steps[..i + 1], after)
  {
    var path :| Path(path, steps[..i]) && path[0] == before && path[i] == mid;
    var more, run := path + [after], steps[..i + 1];
    forall j | 0 <= j < |run|
      ensures TakesAt(more, run, j)
    {
      if j < i {
        assert TakesAt(path, steps[..i], j);
      }
    }
    assert Path(more, run);
  }

  /** A callback saw the event, ran its body, and gave away its answer, if it had one. */
  ghost predicate Ran(before: State, e: Event, body: seq<Step>, after: State, given: bool, answer: nat, wantCF: bool) {
    exists ran: State ::
      && Runs(Log(before, e), body, ran) && (given <==> ran.Gives(answer, wantCF))
      && after == Log(if given then Take(ran, answer) else ran, if given then Answered(answer) else Unanswered(e))
  }

  /** A callback that does nothing but answer. */
  ghost predicate Quiet(before: State, after: State, given: bool, answer: nat, wantCF: bool) {
    && (given <==> before.Gives(answer, wantCF)) && after.gc == before.gc
    && after.client == if given then before.client - multiset{answer} else before.client
  }

  /** A lookup that such a callback answers. */
  ghost predicate QuietLookup(before: State, step: Step, alive: bool, custom: bool, after: State)
    requires step.GetOwnPropertySlot?
  {
    step.body == [] && before.Gives(step.answer, false) ==>
      alive && custom && Quiet(before, after, true, step.answer, false)
  }

  /** Between calls, every count is the number of live owners, an object is disposed of
      exactly when it has none, once, and never while a UserObjectImp holds it. */
  lemma BetweenCalls(s: State)
    requires s.Valid() && s.temps == multiset{}
    ensures forall o: nat :: o < |s.nodes| ==>
              s.nodes[o].count == s.client[o] + s.gc[o] + Refs(s.nodes, o) && (o in s.disposed <==> s.nodes[o].count == 0)
    ensures forall i, j :: 0 <= i < j < |s.disposed| ==> s.disposed[i] != s.disposed[j]
    ensures forall imp :: imp in s.gc ==> s.Exists(imp) && |s.nodes[imp].holds| == 1 && s.nodes[imp].holds[0] !in s.disposed
  {
    forall o: nat | o < |s.nodes|
      ensures s.nodes[o].count == s.client[o] + s.gc[o] + Refs(s.nodes, o) && (o in s.disposed <==> s.nodes[o].count == 0)
    {
      assert CountIsOwners(s.nodes, s.Roots(), o) && LoggedAt(s.nodes, s.disposed, o);
    }
    forall imp | imp in s.gc
      ensures s.Exists(imp) && |s.nodes[imp].holds| == 1 && s.nodes[imp].holds[0] !in s.disposed
    {
      ImpIsLive(s, imp);
      assert LoggedAt(s.nodes, s.disposed, s.nodes[imp].holds[0]);
    }
  }
}

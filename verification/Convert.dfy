/** KJSValueToCFTypeInternal of Source/JavaScriptGlue/JSUtils.cpp: the unfolding of a
    possibly cyclic object graph, cut where an object meets itself among its ancestors. */
module Convert {
  import opened JsHeap

  // ----- The recursion -----

  /** How a call ends within a given recursion depth: the depth is not enough, the code
      hands a null pointer to CFArrayAppendValue and crashes, or it returns. */
  datatype Outcome<+T> = Unfinished | Crashed | Returned(value: T)

  /** What the code computes within recursion depth `fuel`. The ancestor list grows through
      plain objects only: CopyCFValue of a wrapped value starts over with an empty list. */
  function Conv(w: World, v: Value, ancestors: seq<nat>, fuel: nat): Outcome<CF>
    decreases fuel, 0
  {
    if fuel == 0 then Unfinished
    else if !v.Obj? then Returned(Leaf(w, v))
    else if v.id !in w.cells then Returned(NoValue)
    else match w.cells[v.id]
      case User(Nothing, _) => Returned(NoValue)
      case User(Data(ref), _) => Returned(Existing(ref))
      case User(Wrapped(inner), _) => Conv(w, inner, [], fuel - 1)
      case Plain(_, _, _, _) =>
        if v.id in ancestors then Returned(NullRef) else
        var cell := w.cells[v.id];
        match ConvKids(w, Kids(w, cell), [v.id] + ancestors, fuel - 1)
        case Unfinished => Unfinished
        case Crashed => Crashed
        case Returned(kids) => Returned(Build(AsArray(w, cell), kids))
  }

  /** The components one after the other; a null pointer cannot be appended to an array. */
  function ConvKids(w: World, kids: seq<(Key, Value)>, ancestors: seq<nat>, fuel: nat): Outcome<seq<(Key, CF)>>
    decreases fuel, 1 + |kids|
  {
    if kids == [] then Returned([]) else
    match Conv(w, kids[0].1, ancestors, fuel)
    case Unfinished => Unfinished
    case Crashed => Crashed
    case Returned(t) =>
      if kids[0].0.Index? && t == NoValue then Crashed else
      match ConvKids(w, kids[1..], ancestors, fuel)
      case Unfinished => Unfinished
      case Crashed => Crashed
      case Returned(more) => Returned([(kids[0].0, t)] + more)
  }

  function Second(kids: seq<(Key, CF)>): seq<CF> {
    if kids == [] then [] else [kids[0].1] + Second(kids[1..])
  }

  function AddAll(m: map<string, CF>, kids: seq<(Key, CF)>): map<string, CF>
    decreases |kids|
  {
    if kids == [] then m
    else AddAll(if kids[0].0.Name? then AddValue(m, kids[0].0.s, kids[0].1) else m, kids[1..])
  }

  function Build(asArray: bool, kids: seq<(Key, CF)>): CF {
    if asArray then Array(Second(kids)) else Dictionary(AddAll(map[], kids))
  }

  // ----- The components of an object -----

  ghost predicate KidReturns(w: World, kid: (Key, Value), ancestors: seq<nat>, fuel: nat) {
    var t := Conv(w, kid.1, ancestors, fuel);
    t.Returned? && !(kid.0.Index? && t.value == NoValue)
  }

  /** All components convert, or the object does not. */
  lemma {:induction false} ConvKidsAll(w: World, kids: seq<(Key, Value)>, ancestors: seq<nat>, fuel: nat)
    ensures ConvKids(w, kids, ancestors, fuel).Returned? <==>
              forall i :: 0 <= i < |kids| ==> KidReturns(w, kids[i], ancestors, fuel)
    ensures var r := ConvKids(w, kids, ancestors, fuel);
            r.Returned? ==> |r.value| == |kids| && forall i :: 0 <= i < |kids| ==>
              r.value[i] == (kids[i].0, Conv(w, kids[i].1, ancestors, fuel).value)
    decreases |kids|
  {
    if kids != [] {
      var more := kids[1..];
      ConvKidsAll(w, more, ancestors, fuel);
      assert forall i :: 0 <= i < |more| ==> more[i] == kids[i + 1];
      assert KidReturns(w, kids[0], ancestors, fuel) && ConvKids(w, more, ancestors, fuel).Returned?
        <==> ConvKids(w, kids, ancestors, fuel).Returned?;
      if ConvKids(w, more, ancestors, fuel).Returned? {
        forall i | 0 < i < |kids|
          ensures KidReturns(w, kids[i], ancestors, fuel)
        {
          assert KidReturns(w, more[i - 1], ancestors, fuel);
        }
      } else {
        var i :| 0 <= i < |more| && !KidReturns(w, more[i], ancestors, fuel);
        assert kids[i + 1] == more[i];
      }
    }
  }

  lemma {:induction false} ConvKidsEnd(w: World, kids: seq<(Key, Value)>, ancestors: seq<nat>, fuel: nat)
    requires forall i :: 0 <= i < |kids| ==> Conv(w, kids[i].1, ancestors, fuel) != Unfinished
    ensures ConvKids(w, kids, ancestors, fuel) != Unfinished
    decreases |kids|
  {
    if kids != [] {
      forall i | 0 <= i < |kids[1..]|
        ensures Conv(w, kids[1..][i].1, ancestors, fuel) != Unfinished
      {
        assert kids[1..][i] == kids[i + 1];
      }
      ConvKidsEnd(w, kids[1..], ancestors, fuel);
    }
  }

  /** The level below an object that is not cut. */
  lemma Converted(w: World, a: nat, ancestors: seq<nat>, fuel: nat) returns (kids: seq<(Key, CF)>)
    requires a in w.cells && w.cells[a].Plain? && a !in ancestors && Conv(w, Obj(a), ancestors, fuel).Returned?
    ensures fuel > 0 && Conv(w, Obj(a), ancestors, fuel).value == Build(AsArray(w, w.cells[a]), kids)
    ensures |kids| == |Kids(w, w.cells[a])|
    ensures forall i {:trigger kids[i]} {:trigger Kids(w, w.cells[a])[i]} :: 0 <= i < |kids| ==>
              && kids[i].0 == Kids(w, w.cells[a])[i].0
              && Conv(w, Kids(w, w.cells[a])[i].1, [a] + ancestors, fuel - 1) == Returned(kids[i].1)
              && (kids[i].0.Index? ==> kids[i].1 != NoValue)
  {
    var all := Kids(w, w.cells[a]);
    ConvKidsAll(w, all, [a] + ancestors, fuel - 1);
    kids := ConvKids(w, all, [a] + ancestors, fuel - 1).value;
    forall i | 0 <= i < |kids|
      ensures KidReturns(w, all[i], [a] + ancestors, fuel - 1)
    {
    }
  }

  /** More depth never changes how a call ends. */
  lemma {:induction false} MoreFuel(w: World, v: Value, ancestors: seq<nat>, fuel: nat, more: nat)
    requires fuel <= more && Conv(w, v, ancestors, fuel) != Unfinished
    ensures Conv(w, v, ancestors, more) == Conv(w, v, ancestors, fuel)
    decreases fuel, 0
  {
    if v.Obj? && v.id in w.cells {
      var cell := w.cells[v.id];
      if cell.Plain? {
        if v.id !in ancestors {
          MoreFuelKids(w, Kids(w, cell), [v.id] + ancestors, fuel - 1, more - 1);
        }
      } else if cell.backing.Wrapped? {
        MoreFuel(w, cell.backing.value, [], fuel - 1, more - 1);
      }
    }
  }

  lemma {:induction false} MoreFuelKids(w: World, kids: seq<(Key, Value)>, ancestors: seq<nat>, fuel: nat, more: nat)
    requires fuel <= more && ConvKids(w, kids, ancestors, fuel) != Unfinished
    ensures ConvKids(w, kids, ancestors, more) == ConvKids(w, kids, ancestors, fuel)
    decreases fuel, 1 + |kids|
  {
    if kids != [] {
      MoreFuel(w, kids[0].1, ancestors, fuel, more);
      if ConvKids(w, kids[1..], ancestors, fuel) != Unfinished {
        MoreFuelKids(w, kids[1..], ancestors, fuel, more);
      }
    }
  }

  // ----- The object graph -----

  ghost predicate IsWrapper(w: World, a: nat) {
    a in w.cells && w.cells[a].User? && w.cells[a].backing.Wrapped?
  }

  ghost predicate Edge(w: World, a: nat, b: nat) {
    a in w.cells &&
    match w.cells[a]
    case User(Wrapped(v), _) => v == Obj(b)
    case User(_, _) => false
    case Plain(_, _, _, _) => exists i :: 0 <= i < |Kids(w, w.cells[a])| && Kids(w, w.cells[a])[i].1 == Obj(b)
  }

  ghost predicate IsPath(w: World, p: seq<nat>) {
    p != [] && forall i :: 0 <= i < |p| - 1 ==> Edge(w, p[i], p[i + 1])
  }

  ghost predicate PathFromTo(w: World, p: seq<nat>, a: nat, b: nat) {
    IsPath(w, p) && p[0] == a && p[|p| - 1] == b
  }

  ghost predicate Reaches(w: World, a: nat, b: nat) { exists p :: PathFromTo(w, p, a, b) }

  ghost predicate OnCycle(w: World, a: nat) { exists b :: Edge(w, a, b) && Reaches(w, b, a) }

  /** The condition under which the recursion ends: no cycle that can be reached from
      the value runs through a wrapped value. */
  ghost predicate NoWrapperCycle(w: World, v: Value) {
    v.Obj? ==> forall a :: IsWrapper(w, a) && Reaches(w, v.id, a) ==> !OnCycle(w, a)
  }

  /** The value that stands behind any number of wrappers has no CF counterpart. */
  ghost predicate Valueless(w: World, v: Value) { exists n: nat :: ValuelessWithin(w, v, n) }

  ghost predicate ValuelessWithin(w: World, v: Value, n: nat)
    decreases n
  {
    if !v.Obj? then v.Empty?
    else if v.id !in w.cells then true
    else match w.cells[v.id]
      case User(Nothing, _) => true
      case User(Data(_), _) => false
      case User(Wrapped(inner), _) => n > 0 && ValuelessWithin(w, inner, n - 1)
      case Plain(_, _, _, _) => false
  }

  ghost predicate HasGap(w: World, a: nat) {
    a in w.cells && w.cells[a].Plain? && AsArray(w, w.cells[a]) &&
    exists i :: 0 <= i < |w.cells[a].elements| && Valueless(w, w.cells[a].elements[i])
  }

  /** The condition under which nothing is appended that is no CF value: no array that can
      be reached has an element without one. */
  ghost predicate NoGap(w: World, v: Value) {
    v.Obj? ==> forall a :: Reaches(w, v.id, a) ==> !HasGap(w, a)
  }

  ghost predicate Simple(p: seq<nat>) {
    forall i, j :: 0 <= i < j < |p| ==> p[i] != p[j]
  }

  /** Cutting out loops makes a path simple. */
  lemma {:induction false} SimplePath(w: World, p: seq<nat>, a: nat, b: nat) returns (q: seq<nat>)
    requires PathFromTo(w, p, a, b)
    ensures PathFromTo(w, q, a, b) && Simple(q)
    decreases |p|
  {
    if Simple(p) {
      q := p;
    } else {
      var i, j :| 0 <= i < j < |p| && p[i] == p[j];
      var r := p[..i] + p[j..];
      forall k | 0 <= k < |r| - 1
        ensures Edge(w, r[k], r[k + 1])
      {
        if k < i {
          assert Edge(w, p[k], p[k + 1]);
        } else {
          assert Edge(w, p[k - i + j], p[k - i + j + 1]);
        }
      }
      q := SimplePath(w, r, a, b);
    }
  }

  // ----- Divergence -----

  lemma PathTail(w: World, p: seq<nat>, a: nat)
    requires |p| > 1 && PathFromTo(w, p, p[0], a)
    ensures Edge(w, p[0], p[1]) && PathFromTo(w, p[1..], p[1], a)
  {
    var q := p[1..];
    forall i | 0 <= i < |q| - 1
      ensures Edge(w, q[i], q[i + 1])
    {
      assert Edge(w, p[i + 1], p[i + 1 + 1]);
    }
  }

  lemma FailsAbove(w: World, a: nat, b: nat, ancestors: seq<nat>, fuel: nat)
    requires Edge(w, a, b) && fuel > 0
    requires w.cells[a].Plain? ==> a !in ancestors && !Conv(w, Obj(b), [a] + ancestors, fuel - 1).Returned?
    requires IsWrapper(w, a) ==> !Conv(w, Obj(b), [], fuel - 1).Returned?
    ensures !Conv(w, Obj(a), ancestors, fuel).Returned?
  {
    if w.cells[a].Plain? && Conv(w, Obj(a), ancestors, fuel).Returned? {
      var kids := Converted(w, a, ancestors, fuel);
    }
  }

  /** A value without a CF counterpart converts to the null pointer, and no other does. */
  lemma {:induction false} NoValueIff(w: World, v: Value, ancestors: seq<nat>, fuel: nat)
    requires Conv(w, v, ancestors, fuel).Returned?
    ensures Conv(w, v, ancestors, fuel).value == NoValue <==> Valueless(w, v)
    decreases fuel
  {
    if v.Obj? && v.id in w.cells && IsWrapper(w, v.id) {
      var inner := w.cells[v.id].backing.value;
      NoValueIff(w, inner, [], fuel - 1);
      if Valueless(w, inner) {
        var n: nat :| ValuelessWithin(w, inner, n);
        assert ValuelessWithin(w, v, n + 1);
      } else {
        assert forall n: nat :: ValuelessWithin(w, v, n) ==> n > 0 && ValuelessWithin(w, inner, n - 1);
      }
    } else {
      assert ValuelessWithin(w, v, 0) <==> Conv(w, v, ancestors, fuel).value == NoValue;
    }
  }

  lemma GapFails(w: World, a: nat, ancestors: seq<nat>, fuel: nat)
    requires HasGap(w, a) && a !in ancestors
    ensures !Conv(w, Obj(a), ancestors, fuel).Returned?
  {
    if fuel > 0 {
      var kids, below := Kids(w, w.cells[a]), [a] + ancestors;
      var i :| 0 <= i < |w.cells[a].elements| && Valueless(w, w.cells[a].elements[i]);
      assert kids[i] == (Index(i), w.cells[a].elements[i]);
      if Conv(w, kids[i].1, below, fuel - 1).Returned? {
        NoValueIff(w, kids[i].1, below, fuel - 1);
      }
      assert !KidReturns(w, kids[i], below, fuel - 1);
      ConvKidsAll(w, kids, below, fuel - 1);
    }
  }

  /** Objects on which the call does not return, unless they are cut. */
  ghost predicate Bad(w: World, a: nat) { (IsWrapper(w, a) && OnCycle(w, a)) || HasGap(w, a) }

  /** Along a simple path that avoids the ancestors, not returning at the end is not
      returning at the start. */
  lemma {:induction false} FailsAlong(w: World, p: seq<nat>, a: nat, ancestors: seq<nat>, fuel: nat)
    requires p != [] && PathFromTo(w, p, p[0], a) && Simple(p) && Bad(w, a)
    requires forall i :: 0 <= i < |p| ==> p[i] !in ancestors
    ensures !Conv(w, Obj(p[0]), ancestors, fuel).Returned?
    decreases fuel
  {
    if fuel > 0 {
      if |p| == 1 {
        if HasGap(w, a) {
          GapFails(w, a, ancestors, fuel);
        } else {
          var b :| Edge(w, a, b) && Reaches(w, b, a);
          var r :| PathFromTo(w, r, b, a);
          var q := SimplePath(w, r, b, a);
          FailsAlong(w, q, a, [], fuel - 1);
          FailsAbove(w, a, b, ancestors, fuel);
        }
      } else {
        PathTail(w, p, a);
        FailsAlong(w, p[1..], a, if w.cells[p[0]].Plain? then [p[0]] + ancestors else [], fuel - 1);
        FailsAbove(w, p[0], p[1], ancestors, fuel);
      }
    }
  }

  // ----- Convergence -----

  lemma ReachStep(w: World, a: nat, b: nat, c: nat)
    requires Edge(w, a, b) && Reaches(w, b, c)
    ensures Reaches(w, a, c)
  {
    var p :| PathFromTo(w, p, b, c);
    var q := [a] + p;
    forall i | 0 <= i < |q| - 1
      ensures Edge(w, q[i], q[i + 1])
    {
      if i > 0 {
        assert Edge(w, p[i - 1], p[i]);
      }
    }
    assert PathFromTo(w, q, a, c);
  }

  lemma SelfReach(w: World, a: nat)
    ensures Reaches(w, a, a)
  {
    assert PathFromTo(w, [a], a, a);
  }

  lemma ReachTwice(w: World, a: nat, b: nat, c: nat)
    requires Reaches(w, a, b) && Reaches(w, b, c)
    ensures Reaches(w, a, c)
  {
    var p :| PathFromTo(w, p, a, b);
    ReachAlong(w, p, a, b, c);
  }

  lemma {:induction false} ReachAlong(w: World, p: seq<nat>, a: nat, b: nat, c: nat)
    requires PathFromTo(w, p, a, b) && Reaches(w, b, c)
    ensures Reaches(w, a, c)
    decreases |p|
  {
    if |p| > 1 {
      PathTail(w, p, b);
      ReachAlong(w, p[1..], p[1], b, c);
      ReachStep(w, a, p[1], c);
    }
  }

  lemma StepInherits(w: World, a: nat, v: Value)
    requires v.Obj? ==> Edge(w, a, v.id)
    ensures NoWrapperCycle(w, Obj(a)) ==> NoWrapperCycle(w, v)
    ensures NoGap(w, Obj(a)) ==> NoGap(w, v)
  {
    if v.Obj? {
      forall c | Reaches(w, v.id, c)
        ensures Reaches(w, a, c)
      {
        ReachStep(w, a, v.id, c);
      }
    }
  }

  /** How the recursion has come to a value: `seen` are all cells passed on the way. The
      ancestors are plain objects that lead to the value; the cells before the last wrapped
      value cannot be met again, since it would then lie on a cycle. */
  ghost predicate OnTheWay(w: World, v: Value, ancestors: seq<nat>, seen: set<nat>) {
    && seen <= w.cells.Keys
    && (forall x {:trigger LeadsTo(w, x, v)} :: x in ancestors ==> x in seen && LeadsTo(w, x, v))
    && (forall x {:trigger OutOfReach(w, v, x)} :: x in seen && x !in ancestors ==> OutOfReach(w, v, x))
  }

  ghost predicate LeadsTo(w: World, x: nat, v: Value) {
    x in w.cells && w.cells[x].Plain? && (v.Obj? ==> Reaches(w, x, v.id))
  }

  ghost predicate OutOfReach(w: World, v: Value, x: nat) { v.Obj? ==> !Reaches(w, v.id, x) }

  lemma KidOnTheWay(w: World, a: nat, ancestors: seq<nat>, seen: set<nat>, kid: Value)
    requires OnTheWay(w, Obj(a), ancestors, seen) && a in w.cells && w.cells[a].Plain? && a !in ancestors
    requires kid.Obj? ==> Edge(w, a, kid.id)
    ensures a !in seen && OnTheWay(w, kid, [a] + ancestors, seen + {a})
  {
    SelfReach(w, a);
    assert a in seen ==> OutOfReach(w, Obj(a), a);
    if kid.Obj? {
      SelfReach(w, kid.id);
      ReachStep(w, a, kid.id, kid.id);
    }
    forall x | x in [a] + ancestors
      ensures x in seen + {a} && LeadsTo(w, x, kid)
    {
      if x != a {
        assert LeadsTo(w, x, Obj(a));
        if kid.Obj? {
          ReachTwice(w, x, a, kid.id);
        }
      }
    }
    forall x | x in seen + {a} && x !in [a] + ancestors
      ensures OutOfReach(w, kid, x)
    {
      assert ([a] + ancestors)[0] == a;
      assert OutOfReach(w, Obj(a), x);
      if kid.Obj? && Reaches(w, kid.id, x) {
        ReachStep(w, a, kid.id, x);
      }
    }
  }

  lemma InnerOnTheWay(w: World, a: nat, ancestors: seq<nat>, seen: set<nat>)
    requires OnTheWay(w, Obj(a), ancestors, seen) && IsWrapper(w, a) && NoWrapperCycle(w, Obj(a))
    ensures a !in seen && OnTheWay(w, w.cells[a].backing.value, [], seen + {a})
  {
    SelfReach(w, a);
    assert a in ancestors ==> LeadsTo(w, a, Obj(a));
    assert a in seen ==> OutOfReach(w, Obj(a), a);
    var inner := w.cells[a].backing.value;
    forall x | x in seen + {a}
      ensures OutOfReach(w, inner, x)
    {
      assert x in ancestors ==> LeadsTo(w, x, Obj(a));
      assert x in seen && x !in ancestors ==> OutOfReach(w, Obj(a), x);
      if inner.Obj? && Reaches(w, inner.id, x) {
        ReachStep(w, a, inner.id, x);
        if x in ancestors {
          ReachTwice(w, inner.id, x, a);
        }
      }
    }
  }

  lemma UnseenShrinks(w: World, a: nat, seen: set<nat>)
    requires a in w.cells && a !in seen
    ensures |w.cells.Keys - (seen + {a})| == |w.cells.Keys - seen| - 1
  {
    assert w.cells.Keys - (seen + {a}) == (w.cells.Keys - seen) - {a};
  }

  /** One level for each cell that was not passed yet is enough. */
  lemma {:induction false} Converges(w: World, v: Value, ancestors: seq<nat>, seen: set<nat>, fuel: nat)
    requires NoWrapperCycle(w, v) && OnTheWay(w, v, ancestors, seen) && fuel >= |w.cells.Keys - seen| + 1
    ensures Conv(w, v, ancestors, fuel) != Unfinished
    decreases fuel, 2
  {
    if v.Obj? && v.id in w.cells {
      var cell := w.cells[v.id];
      if cell.Plain? {
        if v.id !in ancestors {
          KidsConverge(w, v.id, ancestors, seen, fuel);
        }
      } else if cell.backing.Wrapped? {
        InnerOnTheWay(w, v.id, ancestors, seen);
        UnseenShrinks(w, v.id, seen);
        StepInherits(w, v.id, cell.backing.value);
        Converges(w, cell.backing.value, [], seen + {v.id}, fuel - 1);
      }
    }
  }

  lemma KidPrepared(w: World, a: nat, ancestors: seq<nat>, seen: set<nat>, kid: Value)
    requires NoWrapperCycle(w, Obj(a)) && OnTheWay(w, Obj(a), ancestors, seen)
    requires a in w.cells && w.cells[a].Plain? && a !in ancestors && (kid.Obj? ==> Edge(w, a, kid.id))
    ensures NoWrapperCycle(w, kid) && OnTheWay(w, kid, [a] + ancestors, seen + {a})
    ensures |w.cells.Keys - (seen + {a})| == |w.cells.Keys - seen| - 1
  {
    KidOnTheWay(w, a, ancestors, seen, kid);
    UnseenShrinks(w, a, seen);
    StepInherits(w, a, kid);
  }

  lemma {:induction false} KidConverges(w: World, a: nat, ancestors: seq<nat>, seen: set<nat>, fuel: nat, kid: Value)
    requires NoWrapperCycle(w, Obj(a)) && OnTheWay(w, Obj(a), ancestors, seen) && fuel >= |w.cells.Keys - seen| + 1
    requires a in w.cells && w.cells[a].Plain? && a !in ancestors && (kid.Obj? ==> Edge(w, a, kid.id))
    ensures fuel > 0 && Conv(w, kid, [a] + ancestors, fuel - 1) != Unfinished
    decreases fuel, 0
  {
    KidPrepared(w, a, ancestors, seen, kid);
    Converges(w, kid, [a] + ancestors, seen + {a}, fuel - 1);
  }

  lemma {:induction false} KidsConverge(w: World, a: nat, ancestors: seq<nat>, seen: set<nat>, fuel: nat)
    requires NoWrapperCycle(w, Obj(a)) && OnTheWay(w, Obj(a), ancestors, seen) && fuel >= |w.cells.Keys - seen| + 1
    requires a in w.cells && w.cells[a].Plain? && a !in ancestors
    ensures ConvKids(w, Kids(w, w.cells[a]), [a] + ancestors, fuel - 1) != Unfinished
    decreases fuel, 1
  {
    var kids := Kids(w, w.cells[a]);
    forall i | 0 <= i < |kids|
      ensures Conv(w, kids[i].1, [a] + ancestors, fuel - 1) != Unfinished
    {
      KidConverges(w, a, ancestors, seen, fuel, kids[i].1);
    }
    ConvKidsEnd(w, kids, [a] + ancestors, fuel - 1);
  }

  lemma ConvergesFromTop(w: World, v: Value)
    requires NoWrapperCycle(w, v)
    ensures Conv(w, v, [], |w.cells| + 1) != Unfinished
  {
    assert w.cells.Keys - {} == w.cells.Keys;
    Converges(w, v, [], {}, |w.cells| + 1);
  }

  /** Without a gap below the value, a call that ends returns. */
  lemma {:induction false} NoGapNoCrash(w: World, v: Value, ancestors: seq<nat>, fuel: nat)
    requires NoGap(w, v)
    ensures Conv(w, v, ancestors, fuel) != Crashed
    decreases fuel, 0
  {
    if fuel > 0 && v.Obj? && v.id in w.cells {
      var cell := w.cells[v.id];
      if cell.Plain? {
        SelfReach(w, v.id);
        var kids := Kids(w, cell);
        forall i | 0 <= i < |kids|
          ensures NoGap(w, kids[i].1) && (kids[i].0.Index? ==> !Valueless(w, kids[i].1))
        {
          StepInherits(w, v.id, kids[i].1);
          IndexedKid(w, cell, i);
        }
        NoGapNoCrashKids(w, kids, [v.id] + ancestors, fuel - 1);
      } else if cell.backing.Wrapped? {
        StepInherits(w, v.id, cell.backing.value);
        NoGapNoCrash(w, cell.backing.value, [], fuel - 1);
      }
    }
  }

  lemma {:induction false} NoGapNoCrashKids(w: World, kids: seq<(Key, Value)>, ancestors: seq<nat>, fuel: nat)
    requires forall i :: 0 <= i < |kids| ==> NoGap(w, kids[i].1) && (kids[i].0.Index? ==> !Valueless(w, kids[i].1))
    ensures ConvKids(w, kids, ancestors, fuel) != Crashed
    decreases fuel, 1 + |kids|
  {
    if kids != [] {
      NoGapNoCrash(w, kids[0].1, ancestors, fuel);
      if Conv(w, kids[0].1, ancestors, fuel).Returned? {
        NoValueIff(w, kids[0].1, ancestors, fuel);
      }
      NoGapNoCrashKids(w, kids[1..], ancestors, fuel);
    }
  }

  /** Only the elements of an array go by position. */
  lemma IndexedKid(w: World, c: Cell, i: nat)
    requires c.Plain? && i < |Kids(w, c)|
    ensures Kids(w, c)[i].0.Index? ==> AsArray(w, c) && i < |c.elements| && Kids(w, c)[i].1 == c.elements[i]
  {
    if !AsArray(w, c) {
      NamesOnly(c.names, c.props);
    }
  }

  lemma {:induction false} NamesOnly(names: seq<string>, props: map<string, Value>)
    ensures forall i :: 0 <= i < |NamedKids(names, props)| ==> NamedKids(names, props)[i].0.Name?
  {
    if names != [] {
      NamesOnly(names[1..], props);
    }
  }

  // ----- When the call returns -----

  lemma FailsFromTop(w: World, v: Value, a: nat, fuel: nat)
    requires v.Obj? && Reaches(w, v.id, a) && Bad(w, a)
    ensures !Conv(w, v, [], fuel).Returned?
  {
    var r :| PathFromTo(w, r, v.id, a);
    var p := SimplePath(w, r, v.id, a);
    FailsAlong(w, p, a, [], fuel);
  }

  /** The call returns on exactly the values from which neither a cycle through a wrapped
      value nor an array with a gap can be reached, however cyclic the graph is otherwise. */
  lemma ReturnsIff(w: World, v: Value)
    ensures (exists fuel: nat :: Conv(w, v, [], fuel).Returned?) <==> NoWrapperCycle(w, v) && NoGap(w, v)
  {
    if NoWrapperCycle(w, v) && NoGap(w, v) {
      ConvergesFromTop(w, v);
      NoGapNoCrash(w, v, [], |w.cells| + 1);
    } else {
      var a :| Reaches(w, v.id, a) && Bad(w, a);
      forall fuel: nat
        ensures !Conv(w, v, [], fuel).Returned?
      {
        FailsFromTop(w, v, a, fuel);
      }
    }
  }

  /** Where the recursion ends, it crashes exactly if there is a gap; a call that crashes
      has met one. */
  lemma CrashesIff(w: World, v: Value)
    ensures NoWrapperCycle(w, v) ==> ((exists fuel: nat :: Conv(w, v, [], fuel) == Crashed) <==> !NoGap(w, v))
    ensures (exists fuel: nat :: Conv(w, v, [], fuel) == Crashed) ==> !NoGap(w, v)
  {
    forall fuel: nat | Conv(w, v, [], fuel) == Crashed
      ensures !NoGap(w, v)
    {
      if NoGap(w, v) {
        NoGapNoCrash(w, v, [], fuel);
      }
    }
    if NoWrapperCycle(w, v) && !NoGap(w, v) {
      ConvergesFromTop(w, v);
      var a :| Reaches(w, v.id, a) && HasGap(w, a);
      FailsFromTop(w, v, a, |w.cells| + 1);
    }
  }

  /** A plain object whose property leads back to it through a wrapped value: no depth
      is enough. */
  lemma {:induction false} WrapperCycleDiverges(w: World, fuel: nat)
    requires w.cells == map[0 := Plain("Object", [], ["self"], map["self" := Obj(1)]), 1 := User(Wrapped(Obj(0)), Unknown)]
    ensures Conv(w, Obj(0), [], fuel) == Unfinished
    decreases fuel
  {
    if fuel >= 2 {
      WrapperCycleDiverges(w, fuel - 2);
      assert Kids(w, w.cells[0]) == [(Name("self"), Obj(1))];
      assert Conv(w, Obj(1), [0] + [], fuel - 1) == Unfinished;
    }
  }

  /** An array whose one element is a UserObjectImp without a CF value: the call crashes. */
  lemma GapCrashes(w: World, fuel: nat)
    requires w.cells == map[0 := Plain("Array", [Obj(1)], ["0"], map["0" := Obj(1)]), 1 := User(Nothing, Unknown)]
    requires fuel >= 2
    ensures NoWrapperCycle(w, Obj(0)) && Conv(w, Obj(0), [], fuel) == Crashed
  {
    forall a | IsWrapper(w, a)
      ensures false
    {
    }
    assert AllDigits("0");
    var kids := Kids(w, w.cells[0]);
    assert kids[0] == (Index(0), Obj(1));
    assert Conv(w, kids[0].1, [0] + [], fuel - 1) == Returned(NoValue);
    assert ConvKids(w, kids, [0] + [], fuel - 1) == Crashed;
  }

  // ----- Nesting depth -----

  lemma {:induction false} DepthWithinFuel(w: World, v: Value, ancestors: seq<nat>, fuel: nat)
    requires Conv(w, v, ancestors, fuel).Returned?
    ensures DepthAtMost(Conv(w, v, ancestors, fuel).value, fuel)
    decreases fuel
  {
    if v.Obj? && v.id in w.cells {
      var cell := w.cells[v.id];
      if cell.Plain? {
        if v.id !in ancestors {
          var kids := Converted(w, v.id, ancestors, fuel);
          forall i | 0 <= i < |kids|
            ensures DepthAtMost(kids[i].1, fuel - 1)
          {
            DepthWithinFuel(w, Kids(w, cell)[i].1, [v.id] + ancestors, fuel - 1);
          }
          BuildDepth(AsArray(w, cell), kids, fuel - 1);
        }
      } else if cell.backing.Wrapped? {
        DepthWithinFuel(w, cell.backing.value, [], fuel - 1);
        DepthGrows(Conv(w, v, ancestors, fuel).value, fuel - 1, fuel);
      }
    }
  }

  lemma {:induction false} DepthGrows(t: CF, n: nat, m: nat)
    requires DepthAtMost(t, n) && n <= m
    ensures DepthAtMost(t, m)
    decreases n
  {
    match t
    case Array(ts) =>
      forall i | 0 <= i < |ts| ensures DepthAtMost(ts[i], m - 1) { DepthGrows(ts[i], n - 1, m - 1); }
    case Dictionary(es) =>
      forall k | k in es ensures DepthAtMost(es[k], m - 1) { DepthGrows(es[k], n - 1, m - 1); }
    case _ =>
  }

  lemma {:induction false} SecondAt(kids: seq<(Key, CF)>)
    ensures |Second(kids)| == |kids| && forall i :: 0 <= i < |kids| ==> Second(kids)[i] == kids[i].1
  {
    if kids != [] {
      SecondAt(kids[1..]);
    }
  }

  /** Every entry of a built dictionary was there or came from a kid. */
  lemma {:induction false} AddAllFrom(m: map<string, CF>, kids: seq<(Key, CF)>)
    ensures forall k :: k in AddAll(m, kids) ==>
              (k in m && AddAll(m, kids)[k] == m[k]) ||
              (k !in m && AddAll(m, kids)[k] != NoValue && (Name(k), AddAll(m, kids)[k]) in kids)
    ensures forall k :: k in m ==> k in AddAll(m, kids)
    ensures forall i :: 0 <= i < |kids| && kids[i].0.Name? && kids[i].1 != NoValue ==> kids[i].0.s in AddAll(m, kids)
    decreases |kids|
  {
    if kids != [] {
      var m' := if kids[0].0.Name? then AddValue(m, kids[0].0.s, kids[0].1) else m;
      AddAllFrom(m', kids[1..]);
      assert kids == [kids[0]] + kids[1..];
    }
  }

  lemma BuildDepth(asArray: bool, kids: seq<(Key, CF)>, n: nat)
    requires forall i :: 0 <= i < |kids| ==> DepthAtMost(kids[i].1, n)
    ensures DepthAtMost(Build(asArray, kids), n + 1)
  {
    SecondAt(kids);
    AddAllFrom(map[], kids);
  }

  /** Every result is nested at most one deeper than there are objects, and that depth of
      recursion is enough. */
  lemma DepthBound(w: World, v: Value, fuel: nat)
    requires Conv(w, v, [], fuel).Returned?
    ensures Conv(w, v, [], |w.cells| + 1) == Conv(w, v, [], fuel)
    ensures DepthAtMost(Conv(w, v, [], fuel).value, |w.cells| + 1)
  {
    ReturnsIff(w, v);
    ConvergesFromTop(w, v);
    EitherFuel(w, v, fuel, |w.cells| + 1);
    DepthWithinFuel(w, v, [], |w.cells| + 1);
  }

  lemma EitherFuel(w: World, v: Value, fuel: nat, other: nat)
    requires Conv(w, v, [], fuel) != Unfinished && Conv(w, v, [], other) != Unfinished
    ensures Conv(w, v, [], fuel) == Conv(w, v, [], other)
  {
    if fuel <= other {
      MoreFuel(w, v, [], fuel, other);
    } else {
      MoreFuel(w, v, [], other, fuel);
    }
  }
}

/** What KJSValueToCFTypeInternal puts where: a result is compared, path by path, with
    the walks that the object graph allows. */
module Unfolding {
  import opened Basics
  import opened JsHeap
  import opened Convert

  // ----- What is where in the result -----

  /** One step of a walk in the graph: to a component, or through a wrapped value. */
  datatype Move = Down(key: Key) | Through

  ghost predicate Moves(w: World, a: Value, m: Move, b: Value) {
    a.Obj? && a.id in w.cells &&
    match m
    case Through => IsWrapper(w, a.id) && w.cells[a.id].backing.value == b
    case Down(key) => w.cells[a.id].Plain? && (key, b) in Kids(w, w.cells[a.id])
  }

  /** A walk in the object graph. */
  datatype Walk = Start(value: Value) | Go(before: Walk, move: Move, value: Value)

  ghost predicate IsPlain(w: World, v: Value) {
    v.Obj? && v.id in w.cells && w.cells[v.id].Plain?
  }

  /** The plain objects passed before the end of the walk, since the last wrapped value. */
  ghost function Passed(w: World, k: Walk): seq<nat> {
    match k
    case Start(_) => []
    case Go(before, _, _) => if IsPlain(w, before.value) then [before.value.id] + Passed(w, before) else []
  }

  /** The walk ends at an object that it has passed since the last wrapped value. */
  ghost predicate MeetsItself(w: World, k: Walk) {
    IsPlain(w, k.value) && k.value.id in Passed(w, k)
  }

  /** Walks go no further once they meet themselves. */
  ghost predicate IsWalk(w: World, k: Walk) {
    match k
    case Start(_) => true
    case Go(before, move, v) => IsWalk(w, before) && !MeetsItself(w, before) && Moves(w, before.value, move, v)
  }

  ghost function Origin(k: Walk): Value {
    match k
    case Start(v) => v
    case Go(before, _, _) => Origin(before)
  }

  ghost function Length(k: Walk): nat {
    match k
    case Start(_) => 0
    case Go(before, _, _) => Length(before) + 1
  }

  /** The place in the result: steps through wrapped values leave no trace. */
  ghost function Place(k: Walk): seq<Key> {
    match k
    case Start(_) => []
    case Go(before, Through, _) => Place(before)
    case Go(before, Down(key), _) => Place(before) + [key]
  }

  function Child(t: CF, key: Key): Option<CF> {
    match key
    case Index(i) => if t.Array? && i < |t.elements| then Some(t.elements[i]) else None
    case Name(s) => if t.Dictionary? && s in t.entries then Some(t.entries[s]) else None
  }

  ghost function Look(t: CF, path: seq<Key>): Option<CF> {
    if path == [] then Some(t) else
    var up := Look(t, path[..|path| - 1]);
    if up.None? then None else Child(up.value, path[|path| - 1])
  }

  lemma LookDown(t: CF, path: seq<Key>, key: Key)
    ensures Look(t, path + [key]) == var up := Look(t, path); if up.None? then None else Child(up.value, key)
  {
    assert (path + [key])[..|path|] == path;
  }

  lemma {:induction false} NamedKidsAre(names: seq<string>, props: map<string, Value>)
    ensures forall kv :: kv in NamedKids(names, props) ==>
              kv.0.Name? && kv.0.s in names && kv.0.s in props && kv.1 == props[kv.0.s]
  {
    if names != [] {
      NamedKidsAre(names[1..], props);
      assert names == [names[0]] + names[1..];
    }
  }

  lemma KidsAre(w: World, c: Cell)
    requires c.Plain?
    ensures AsArray(w, c) ==> |Kids(w, c)| == |c.elements|
    ensures AsArray(w, c) ==> forall i :: 0 <= i < |c.elements| ==> Kids(w, c)[i] == (Index(i), c.elements[i])
    ensures !AsArray(w, c) ==> forall kv :: kv in Kids(w, c) ==>
              kv.0.Name? && kv.0.s in c.props && kv.1 == c.props[kv.0.s]
  {
    NamedKidsAre(c.names, c.props);
  }

  /** The keys that a container is built from: positions, or names with one value each. */
  ghost predicate KeysFit(asArray: bool, kids: seq<(Key, CF)>) {
    if asArray then forall i :: 0 <= i < |kids| ==> kids[i].0 == Index(i)
    else && (forall i :: 0 <= i < |kids| ==> kids[i].0.Name?)
         && (forall i, j :: 0 <= i < j < |kids| && kids[i].0 == kids[j].0 ==> kids[i].1 == kids[j].1)
  }

  lemma BuiltChild(asArray: bool, kids: seq<(Key, CF)>, j: nat)
    requires KeysFit(asArray, kids) && j < |kids|
    ensures kids[j].1 != NoValue ==> Child(Build(asArray, kids), kids[j].0) == Some(kids[j].1)
  {
    SecondAt(kids);
    AddAllFrom(map[], kids);
  }

  lemma ChildBuilt(asArray: bool, kids: seq<(Key, CF)>, key: Key) returns (j: nat)
    requires KeysFit(asArray, kids) && Child(Build(asArray, kids), key).Some?
    ensures j < |kids| && kids[j] == (key, Child(Build(asArray, kids), key).value)
  {
    SecondAt(kids);
    AddAllFrom(map[], kids);
    if asArray {
      j := key.i;
    } else {
      j :| 0 <= j < |kids| && kids[j] == (key, Child(Build(asArray, kids), key).value);
    }
  }

  lemma ConvertedKeysFit(w: World, a: nat, ancestors: seq<nat>, fuel: nat) returns (kids: seq<(Key, CF)>)
    requires a in w.cells && w.cells[a].Plain? && a !in ancestors && Conv(w, Obj(a), ancestors, fuel).Returned?
    ensures fuel > 0 && Conv(w, Obj(a), ancestors, fuel).value == Build(AsArray(w, w.cells[a]), kids)
    ensures KeysFit(AsArray(w, w.cells[a]), kids) && |kids| == |Kids(w, w.cells[a])|
    ensures forall i {:trigger kids[i]} {:trigger Kids(w, w.cells[a])[i]} :: 0 <= i < |kids| ==>
              && kids[i].0 == Kids(w, w.cells[a])[i].0
              && Conv(w, Kids(w, w.cells[a])[i].1, [a] + ancestors, fuel - 1) == Returned(kids[i].1)
  {
    kids := Converted(w, a, ancestors, fuel);
    var all := Kids(w, w.cells[a]);
    KidsAre(w, w.cells[a]);
    forall i | 0 <= i < |kids|
      ensures all[i] in all
    {
    }
  }

  /** The component of a converted object under a key is the converted component. */
  lemma ConvertedChild(w: World, a: nat, ancestors: seq<nat>, fuel: nat, key: Key, kid: Value)
    requires a in w.cells && w.cells[a].Plain? && a !in ancestors && fuel > 0
    requires Conv(w, Obj(a), ancestors, fuel).Returned? && (key, kid) in Kids(w, w.cells[a])
    ensures Conv(w, kid, [a] + ancestors, fuel - 1).Returned?
    ensures var t := Conv(w, kid, [a] + ancestors, fuel - 1).value;
            t != NoValue ==> Child(Conv(w, Obj(a), ancestors, fuel).value, key) == Some(t)
  {
    var kids := ConvertedKeysFit(w, a, ancestors, fuel);
    var j :| 0 <= j < |kids| && Kids(w, w.cells[a])[j] == (key, kid);
    BuiltChild(AsArray(w, w.cells[a]), kids, j);
  }

  /** And nothing else is there. */
  lemma ChildConverted(w: World, a: nat, ancestors: seq<nat>, fuel: nat, key: Key) returns (kid: Value)
    requires a in w.cells && w.cells[a].Plain? && a !in ancestors && fuel > 0
    requires Conv(w, Obj(a), ancestors, fuel).Returned? && Child(Conv(w, Obj(a), ancestors, fuel).value, key).Some?
    ensures (key, kid) in Kids(w, w.cells[a])
    ensures Conv(w, kid, [a] + ancestors, fuel - 1) == Returned(Child(Conv(w, Obj(a), ancestors, fuel).value, key).value)
  {
    var kids := ConvertedKeysFit(w, a, ancestors, fuel);
    var j := ChildBuilt(AsArray(w, w.cells[a]), kids, key);
    kid := Kids(w, w.cells[a])[j].1;
    assert Kids(w, w.cells[a])[j] == (key, kid);
  }

  /** What the recursion makes of the value where a walk ends, on its way from the origin. */
  ghost function ConvAt(w: World, k: Walk, fuel: nat): Outcome<CF> {
    if Length(k) <= fuel then Conv(w, k.value, Passed(w, k), fuel - Length(k)) else Unfinished
  }

  lemma GoThrough(w: World, k: Walk, v: Value, fuel: nat)
    requires ConvAt(w, k, fuel).Returned? && Moves(w, k.value, Through, v)
    ensures ConvAt(w, Go(k, Through, v), fuel) == ConvAt(w, k, fuel)
  {
    assert Passed(w, Go(k, Through, v)) == [];
  }

  lemma GoDown(w: World, k: Walk, key: Key, v: Value, fuel: nat)
    requires ConvAt(w, k, fuel).Returned? && Moves(w, k.value, Down(key), v) && !MeetsItself(w, k)
    ensures ConvAt(w, Go(k, Down(key), v), fuel).Returned?
    ensures var t := ConvAt(w, Go(k, Down(key), v), fuel).value;
            t != NoValue ==> Child(ConvAt(w, k, fuel).value, key) == Some(t)
  {
    var a, ancestors := k.value.id, Passed(w, k);
    assert Passed(w, Go(k, Down(key), v)) == [a] + ancestors;
    ConvertedChild(w, a, ancestors, fuel - Length(k), key, v);
  }

  /** Every walk of the graph shows up: at its place in the result stands the conversion
      of the value where the walk ends, under the ancestors that the walk has passed. A
      null pointer is not entered in a dictionary. */
  lemma {:induction false} WalkShowsUp(w: World, k: Walk, fuel: nat)
    requires IsWalk(w, k) && Conv(w, Origin(k), [], fuel).Returned?
    ensures ConvAt(w, k, fuel).Returned?
    ensures var t := ConvAt(w, k, fuel).value;
            t != NoValue ==> Look(Conv(w, Origin(k), [], fuel).value, Place(k)) == Some(t)
    decreases k
  {
    if k.Go? {
      WalkShowsUp(w, k.before, fuel);
      if k.move.Down? {
        GoDown(w, k.before, k.move.key, k.value, fuel);
        LookDown(Conv(w, Origin(k), [], fuel).value, Place(k.before), k.move.key);
      } else {
        GoThrough(w, k.before, k.value, fuel);
      }
    }
  }

  /** The container that an object converts to. */
  ghost predicate IsContainerOf(w: World, c: Cell, t: CF)
    requires c.Plain?
  {
    if AsArray(w, c) then t.Array? && |t.elements| == |c.elements|
    else t.Dictionary? && forall n :: n in t.entries ==> n in c.names && n in c.props
  }

  lemma PlainConverted(w: World, a: nat, ancestors: seq<nat>, fuel: nat)
    requires a in w.cells && w.cells[a].Plain? && Conv(w, Obj(a), ancestors, fuel).Returned?
    ensures var t := Conv(w, Obj(a), ancestors, fuel).value;
            if a in ancestors then t == NullRef else IsContainerOf(w, w.cells[a], t)
  {
    if a !in ancestors {
      var kids := ConvertedKeysFit(w, a, ancestors, fuel);
      BuiltFrom(w, w.cells[a], kids);
    }
  }

  /** What stands at the end of a walk: null exactly in place of an object that the walk
      has passed since the last wrapped value, and a container in place of any other. */
  lemma {:induction false} EndOfWalk(w: World, k: Walk, fuel: nat)
    requires IsWalk(w, k) && Conv(w, Origin(k), [], fuel).Returned? && IsPlain(w, k.value)
    ensures var t := Look(Conv(w, Origin(k), [], fuel).value, Place(k));
            && t.Some?
            && (MeetsItself(w, k) <==> t.value == NullRef)
            && (!MeetsItself(w, k) ==> IsContainerOf(w, w.cells[k.value.id], t.value))
  {
    WalkShowsUp(w, k, fuel);
    PlainConverted(w, k.value.id, Passed(w, k), fuel - Length(k));
  }

  lemma BuiltFrom(w: World, c: Cell, kids: seq<(Key, CF)>)
    requires c.Plain? && KeysFit(AsArray(w, c), kids) && |kids| == |Kids(w, c)|
    requires forall i :: 0 <= i < |kids| ==> kids[i].0 == Kids(w, c)[i].0
    ensures var t := Build(AsArray(w, c), kids);
            IsContainerOf(w, c, t)
  {
    KidsAre(w, c);
    SecondAt(kids);
    if !AsArray(w, c) {
      NamedKidsAre(c.names, c.props);
      forall n | n in Build(false, kids).entries
        ensures n in c.names && n in c.props
      {
        var j := ChildBuilt(false, kids, Name(n));
        assert Kids(w, c)[j] in Kids(w, c);
      }
    }
  }

  ghost predicate AtWrapper(w: World, k: Walk) { k.value.Obj? && IsWrapper(w, k.value.id) }

  /** Steps through wrapped values until the walk stands at something else. */
  lemma {:induction false} Unwrap(w: World, k: Walk, fuel: nat) returns (k': Walk)
    requires IsWalk(w, k) && ConvAt(w, k, fuel).Returned?
    ensures IsWalk(w, k') && Origin(k') == Origin(k) && Place(k') == Place(k) && !AtWrapper(w, k')
    ensures ConvAt(w, k', fuel) == ConvAt(w, k, fuel)
    decreases fuel - Length(k)
  {
    if AtWrapper(w, k) {
      GoThrough(w, k, w.cells[k.value.id].backing.value, fuel);
      k' := Unwrap(w, Go(k, Through, w.cells[k.value.id].backing.value), fuel);
    } else {
      k' := k;
    }
  }

  lemma ContainerIsPlain(w: World, v: Value, ancestors: seq<nat>, fuel: nat, key: Key)
    requires !(v.Obj? && IsWrapper(w, v.id))
    requires Conv(w, v, ancestors, fuel).Returned? && Child(Conv(w, v, ancestors, fuel).value, key).Some?
    ensures IsPlain(w, v) && v.id !in ancestors
  {
  }

  lemma {:induction false} StepDown(w: World, k: Walk, fuel: nat, key: Key) returns (k': Walk)
    requires IsWalk(w, k) && !AtWrapper(w, k)
    requires ConvAt(w, k, fuel).Returned? && Child(ConvAt(w, k, fuel).value, key).Some?
    ensures IsWalk(w, k') && Origin(k') == Origin(k) && Place(k') == Place(k) + [key]
    ensures ConvAt(w, k', fuel) == Returned(Child(ConvAt(w, k, fuel).value, key).value)
  {
    var left := fuel - Length(k);
    ContainerIsPlain(w, k.value, Passed(w, k), left, key);
    var kid := ChildConverted(w, k.value.id, Passed(w, k), left, key);
    k' := Go(k, Down(key), kid);
    assert Passed(w, k') == [k.value.id] + Passed(w, k);
  }

  /** Nothing else is in the result: each of its nodes stands at the end of a walk. */
  lemma {:induction false} NodeHasWalk(w: World, v: Value, fuel: nat, path: seq<Key>) returns (k: Walk)
    requires Conv(w, v, [], fuel).Returned? && Look(Conv(w, v, [], fuel).value, path).Some?
    ensures IsWalk(w, k) && Origin(k) == v && Place(k) == path
    ensures ConvAt(w, k, fuel) == Returned(Look(Conv(w, v, [], fuel).value, path).value)
    decreases |path|
  {
    if path == [] {
      k := Start(v);
    } else {
      var front, key := path[..|path| - 1], path[|path| - 1];
      assert path == front + [key];
      k := NodeHasWalk(w, v, fuel, front);
      k := Unwrap(w, k, fuel);
      k := StepDown(w, k, fuel, key);
    }
  }

  // ----- What the leaves and the containers are -----

  /** What stands at the end of a walk that is not at a wrapped value: null exactly for
      undefined and null and where the walk meets itself; booleans, strings and numbers
      exactly for those of JavaScript. */
  lemma LeafOfWalk(w: World, k: Walk, fuel: nat)
    requires IsWalk(w, k) && Conv(w, Origin(k), [], fuel).Returned? && !AtWrapper(w, k)
    ensures ConvAt(w, k, fuel).Returned?
    ensures var t, v := ConvAt(w, k, fuel).value, k.value;
            && (t == NullRef <==> v.Undefined? || v.Null? || MeetsItself(w, k))
            && (t.Boolean? <==> v.Bool?) && (v.Bool? ==> t.b == v.b)
            && (t.String? <==> v.Str?) && (v.Str? ==> t.s == v.s)
            && (t.Number? <==> v.Num?)
  {
    WalkShowsUp(w, k, fuel);
    if IsPlain(w, k.value) {
      PlainConverted(w, k.value.id, Passed(w, k), fuel - Length(k));
    }
  }

  /** A walk to this place ends at undefined or null, or meets itself. */
  ghost predicate EndsInNull(w: World, v: Value, path: seq<Key>, k: Walk) {
    && IsWalk(w, k) && Origin(k) == v && Place(k) == path
    && (k.value.Undefined? || k.value.Null? || MeetsItself(w, k))
  }

  /** Null stands in the result exactly where such a walk leads. */
  lemma NullStandsIff(w: World, v: Value, fuel: nat, path: seq<Key>)
    requires Conv(w, v, [], fuel).Returned?
    ensures Look(Conv(w, v, [], fuel).value, path) == Some(NullRef) <==> exists k: Walk :: EndsInNull(w, v, path, k)
  {
    if Look(Conv(w, v, [], fuel).value, path) == Some(NullRef) {
      var k := NodeHasWalk(w, v, fuel, path);
      k := Unwrap(w, k, fuel);
      LeafOfWalk(w, k, fuel);
      assert EndsInNull(w, v, path, k);
    }
    forall k: Walk | EndsInNull(w, v, path, k)
      ensures Look(Conv(w, v, [], fuel).value, path) == Some(NullRef)
    {
      WalkShowsUp(w, k, fuel);
      LeafOfWalk(w, k, fuel);
    }
  }

  lemma {:induction false} NamedKidsHave(names: seq<string>, props: map<string, Value>, n: string)
    requires n in names && n in props
    ensures (Name(n), props[n]) in NamedKids(names, props)
  {
    if n != names[0] {
      assert n in names[1..];
      NamedKidsHave(names[1..], props, n);
    }
  }

  /** What an object that is not cut becomes, told from the object alone: an array if its
      class is Array and, should associative arrays be converted, all its property names
      consist of digits; a dictionary otherwise. An array holds the conversion of every
      element, a dictionary that of exactly the properties that are there and have a CF value. */
  lemma ContainerHolds(w: World, a: nat, ancestors: seq<nat>, fuel: nat)
    requires a in w.cells && w.cells[a].Plain? && a !in ancestors && Conv(w, Obj(a), ancestors, fuel).Returned?
    ensures var t, c := Conv(w, Obj(a), ancestors, fuel).value, w.cells[a];
            && fuel > 0 && (t.Array? || t.Dictionary?)
            && (t.Array? <==>
                 (&& c.className == "Array"
                  && (w.assoc ==> forall i, j :: 0 <= i < |c.names| && 0 <= j < |c.names[i]| ==> '0' <= c.names[i][j] <= '9')))
    ensures var t, c := Conv(w, Obj(a), ancestors, fuel).value, w.cells[a];
            t.Array? ==>
              && |t.elements| == |c.elements|
              && forall i :: 0 <= i < |c.elements| ==> Conv(w, c.elements[i], [a] + ancestors, fuel - 1) == Returned(t.elements[i])
    ensures var t, c := Conv(w, Obj(a), ancestors, fuel).value, w.cells[a];
            t.Dictionary? ==>
              && (forall n :: n in t.entries <==> n in c.names && n in c.props && !Valueless(w, c.props[n]))
              && (forall n :: n in t.entries && n in c.props ==>
                    Conv(w, c.props[n], [a] + ancestors, fuel - 1) == Returned(t.entries[n]))
  {
    PlainConverted(w, a, ancestors, fuel);
    FormIs(w, w.cells[a]);
    if AsArray(w, w.cells[a]) {
      ElementsHeld(w, a, ancestors, fuel);
    } else {
      EntriesHeld(w, a, ancestors, fuel);
    }
  }

  lemma FormIs(w: World, c: Cell)
    requires c.Plain?
    ensures AsArray(w, c) <==>
              (&& c.className == "Array"
               && (w.assoc ==> forall i, j :: 0 <= i < |c.names| && 0 <= j < |c.names[i]| ==> '0' <= c.names[i][j] <= '9'))
  {
    if AsArray(w, c) && w.assoc {
      forall i, j | 0 <= i < |c.names| && 0 <= j < |c.names[i]|
        ensures '0' <= c.names[i][j] <= '9'
      {
        assert AllDigits(c.names[i]);
      }
    }
  }

  lemma ElementsHeld(w: World, a: nat, ancestors: seq<nat>, fuel: nat)
    requires a in w.cells && w.cells[a].Plain? && a !in ancestors && Conv(w, Obj(a), ancestors, fuel).Returned?
    requires AsArray(w, w.cells[a])
    ensures var t, c := Conv(w, Obj(a), ancestors, fuel).value, w.cells[a];
            t.Array? && |t.elements| == |c.elements| && fuel > 0 &&
            forall i :: 0 <= i < |c.elements| ==> Conv(w, c.elements[i], [a] + ancestors, fuel - 1) == Returned(t.elements[i])
  {
    var kids := ConvertedKeysFit(w, a, ancestors, fuel);
    KidsAre(w, w.cells[a]);
    SecondAt(kids);
    forall i | 0 <= i < |w.cells[a].elements|
      ensures Conv(w, w.cells[a].elements[i], [a] + ancestors, fuel - 1) == Returned(kids[i].1)
    {
      assert Kids(w, w.cells[a])[i].1 == w.cells[a].elements[i];
    }
  }

  lemma EntriesHeld(w: World, a: nat, ancestors: seq<nat>, fuel: nat)
    requires a in w.cells && w.cells[a].Plain? && a !in ancestors && Conv(w, Obj(a), ancestors, fuel).Returned?
    requires !AsArray(w, w.cells[a])
    ensures var t, c := Conv(w, Obj(a), ancestors, fuel).value, w.cells[a];
            && t.Dictionary? && fuel > 0
            && (forall n :: n in t.entries <==> n in c.names && n in c.props && !Valueless(w, c.props[n]))
            && (forall n :: n in t.entries && n in c.props ==>
                  Conv(w, c.props[n], [a] + ancestors, fuel - 1) == Returned(t.entries[n]))
  {
    var t, c := Conv(w, Obj(a), ancestors, fuel).value, w.cells[a];
    PlainConverted(w, a, ancestors, fuel);
    var kids := ConvertedKeysFit(w, a, ancestors, fuel);
    forall n
      ensures n in t.entries <==> n in c.names && n in c.props && !Valueless(w, c.props[n])
      ensures n in t.entries && n in c.props ==> Conv(w, c.props[n], [a] + ancestors, fuel - 1) == Returned(t.entries[n])
    {
      if n in t.entries || (n in c.names && n in c.props) {
        EntryHeld(w, a, ancestors, fuel, n);
      }
    }
  }

  lemma EntryHeld(w: World, a: nat, ancestors: seq<nat>, fuel: nat, n: string)
    requires a in w.cells && w.cells[a].Plain? && a !in ancestors && Conv(w, Obj(a), ancestors, fuel).Returned?
    requires !AsArray(w, w.cells[a]) && Conv(w, Obj(a), ancestors, fuel).value.Dictionary? && fuel > 0
    requires n in Conv(w, Obj(a), ancestors, fuel).value.entries || (n in w.cells[a].names && n in w.cells[a].props)
    ensures var t, c := Conv(w, Obj(a), ancestors, fuel).value, w.cells[a];
            && n in c.names && n in c.props && (n in t.entries <==> !Valueless(w, c.props[n]))
            && (n in t.entries ==> Conv(w, c.props[n], [a] + ancestors, fuel - 1) == Returned(t.entries[n]))
  {
    var t, c := Conv(w, Obj(a), ancestors, fuel).value, w.cells[a];
    PlainConverted(w, a, ancestors, fuel);
    NamedKidsHave(c.names, c.props, n);
    ConvertedChild(w, a, ancestors, fuel, Name(n), c.props[n]);
    NoValueIff(w, c.props[n], [a] + ancestors, fuel - 1);
    if n in t.entries {
      var kid := ChildConverted(w, a, ancestors, fuel, Name(n));
      NamedKidsAre(c.names, c.props);
      StoredIsValue(w, a, ancestors, fuel, n);
    }
  }

  /** A null pointer is not entered in a dictionary. */
  lemma StoredIsValue(w: World, a: nat, ancestors: seq<nat>, fuel: nat, n: string)
    requires a in w.cells && w.cells[a].Plain? && a !in ancestors && Conv(w, Obj(a), ancestors, fuel).Returned?
    requires Conv(w, Obj(a), ancestors, fuel).value.Dictionary? && n in Conv(w, Obj(a), ancestors, fuel).value.entries
    ensures Conv(w, Obj(a), ancestors, fuel).value.entries[n] != NoValue
  {
    var kids := Converted(w, a, ancestors, fuel);
    AddAllFrom(map[], kids);
  }

  // ----- Acyclic graphs -----

  /** The plain unfolding, which looks at no ancestors. */
  function Plainly(w: World, v: Value, fuel: nat): Outcome<CF>
    decreases fuel, 0
  {
    if fuel == 0 then Unfinished
    else if !v.Obj? then Returned(Leaf(w, v))
    else if v.id !in w.cells then Returned(NoValue)
    else match w.cells[v.id]
      case User(Nothing, _) => Returned(NoValue)
      case User(Data(ref), _) => Returned(Existing(ref))
      case User(Wrapped(inner), _) => Plainly(w, inner, fuel - 1)
      case Plain(_, _, _, _) =>
        match PlainKids(w, Kids(w, w.cells[v.id]), fuel - 1)
        case Unfinished => Unfinished
        case Crashed => Crashed
        case Returned(kids) => Returned(Build(AsArray(w, w.cells[v.id]), kids))
  }

  function PlainKids(w: World, kids: seq<(Key, Value)>, fuel: nat): Outcome<seq<(Key, CF)>>
    decreases fuel, 1 + |kids|
  {
    if kids == [] then Returned([]) else
    match Plainly(w, kids[0].1, fuel)
    case Unfinished => Unfinished
    case Crashed => Crashed
    case Returned(t) =>
      if kids[0].0.Index? && t == NoValue then Crashed else
      match PlainKids(w, kids[1..], fuel)
      case Unfinished => Unfinished
      case Crashed => Crashed
      case Returned(more) => Returned([(kids[0].0, t)] + more)
  }

  ghost predicate Acyclic(w: World, v: Value) {
    v.Obj? ==> forall a :: Reaches(w, v.id, a) ==> !OnCycle(w, a)
  }

  /** No ancestor can be met again. */
  ghost predicate Above(w: World, ancestors: seq<nat>, v: Value) {
    v.Obj? ==> forall a :: a in ancestors ==> !Reaches(w, v.id, a)
  }

  lemma AcyclicStep(w: World, a: nat, ancestors: seq<nat>, v: Value)
    requires Acyclic(w, Obj(a)) && Above(w, ancestors, Obj(a)) && (v.Obj? ==> Edge(w, a, v.id))
    ensures Acyclic(w, v) && Above(w, [a] + ancestors, v) && Above(w, [], v)
  {
    if v.Obj? {
      forall c | Reaches(w, v.id, c)
        ensures Reaches(w, a, c)
      {
        ReachStep(w, a, v.id, c);
      }
      SelfReach(w, a);
      assert OnCycle(w, a) <==> exists b :: Edge(w, a, b) && Reaches(w, b, a);
    }
  }

  /** On an acyclic graph nothing is cut, and shared objects are copied in full. */
  lemma {:induction false} AcyclicUnfolds(w: World, v: Value, ancestors: seq<nat>, fuel: nat)
    requires Acyclic(w, v) && Above(w, ancestors, v)
    ensures Conv(w, v, ancestors, fuel) == Plainly(w, v, fuel)
    decreases fuel, 0
  {
    if fuel > 0 && v.Obj? && v.id in w.cells {
      var cell := w.cells[v.id];
      if cell.Plain? {
        SelfReach(w, v.id);
        var kids := Kids(w, cell);
        forall i | 0 <= i < |kids|
          ensures Acyclic(w, kids[i].1) && Above(w, [v.id] + ancestors, kids[i].1)
        {
          AcyclicStep(w, v.id, ancestors, kids[i].1);
        }
        AcyclicKids(w, kids, [v.id] + ancestors, fuel - 1);
      } else if cell.backing.Wrapped? {
        AcyclicStep(w, v.id, ancestors, cell.backing.value);
        AcyclicUnfolds(w, cell.backing.value, [], fuel - 1);
      }
    }
  }

  lemma {:induction false} AcyclicKids(w: World, kids: seq<(Key, Value)>, ancestors: seq<nat>, fuel: nat)
    requires forall i :: 0 <= i < |kids| ==> Acyclic(w, kids[i].1) && Above(w, ancestors, kids[i].1)
    ensures ConvKids(w, kids, ancestors, fuel) == PlainKids(w, kids, fuel)
    decreases fuel, 1 + |kids|
  {
    if kids != [] {
      AcyclicUnfolds(w, kids[0].1, ancestors, fuel);
      AcyclicKids(w, kids[1..], ancestors, fuel);
    }
  }
}

/** The two-way value bridge of Source/JavaScriptGlue: CF objects seen from JavaScript
    and back, JavaScript values seen through the glue and back. */
module CfBridge {
  import opened Basics
  import opened JsHeap
  import opened Convert

  /** The CF objects that the bridge tells apart; `Other` stands for arrays,
      dictionaries and every type without a JavaScript counterpart. */
  datatype CFObject = CFString(s: string) | CFNumber(n: CFNumber) | CFBoolean(b: bool) | CFNull | Other

  /** `nullRef` is the object that GetCFNull returns; `round` is the conversion of integers
      beyond 2^53 to double. */
  datatype Store = Store(objects: map<nat, CFObject>, nullRef: nat, round: int -> real)

  function AsDouble(s: Store, n: CFNumber): Double {
    match n
    case DoubleNumber(d) => d
    case IntNumber(i) => Finite(if -0x20_0000_0000_0000 <= i <= 0x20_0000_0000_0000 then i as real else s.round(i))
  }

  // ----- The two directions -----

  /** JSObjectKJSValue: the JavaScript value of a user object. Data without a
      counterpart gets a new UserObjectImp at the unused address `next`. */
  function ToJs(w: World, s: Store, user: Option<Cell>, next: nat): (World, Value)
    requires user.Some? ==> user.value.User?
  {
    if user.None? then (w, Undefined) else
    var imp := (w.(cells := w.cells[next := user.value]), Obj(next));
    match user.value
    case User(Wrapped(v), JSValueWrapper) => (w, v)
    case User(Data(ref), CFType) =>
      if ref !in s.objects then imp else
      (match s.objects[ref]
       case CFString(str) => (w, Str(str))
       case CFNumber(n) => (w, Num(AsDouble(s, n)))
       case CFBoolean(b) => (w, Bool(b))
       case CFNull => (w, Null)
       case Other => imp)
    case _ => imp
  }

  /** JSObjectCreateWithCFType. */
  function FromCF(ref: nat): Cell { User(Data(ref), CFType) }

  /** KJSValueToJSObject: the user object behind a UserObjectImp, or a new wrapper,
      which JSObjectCreate tags as unknown. */
  function FromJs(w: World, v: Value): Cell {
    if v.Obj? && v.id in w.cells && w.cells[v.id].User? then w.cells[v.id] else User(Wrapped(v), Unknown)
  }

  // ----- CF to JavaScript to CF -----

  function NumberValue(n: CFNumber): Double {
    match n
    case IntNumber(i) => Finite(i as real)
    case DoubleNumber(d) => d
  }

  /** The result denotes the object itself or one of equal value. */
  predicate Denotes(s: Store, t: CF, ref: nat)
    requires ref in s.objects
  {
    match t
    case Existing(r) => r == ref
    case NullRef => s.nullRef in s.objects && s.objects[s.nullRef] == s.objects[ref]
    case String(str) => s.objects[ref] == CFString(str)
    case Boolean(b) => s.objects[ref] == CFBoolean(b)
    case Number(n) => s.objects[ref].CFNumber? && NumberValue(n) == NumberValue(s.objects[ref].n)
    case _ => false
  }

  predicate Integral(d: Double) { d.Finite? && d.value == Truncate(d.value) as real }

  predicate InIntRange(d: Double) { d.Finite? && -2147483648.0 <= d.value < 2147483648.0 }

  /** Which objects survive the trip: of the numbers, those that are neither infinite nor
      an integer outside the range of int; of the null objects, those that equal the
      registered one; everything else. */
  predicate Survives(s: Store, ref: nat)
    requires ref in s.objects
  {
    match s.objects[ref]
    case CFNumber(n) =>
      var d := NumberValue(n);
      d.NaN? || (d.Finite? && (Integral(d) ==> InIntRange(d)))
    case CFNull => s.nullRef in s.objects && s.objects[s.nullRef] == CFNull
    case _ => true
  }

  lemma TruncateInt(i: int)
    ensures Truncate(i as real) == i
  {
    if i < 0 {
      assert -(i as real) == (-i) as real;
    }
  }

  lemma NumberTrip(w: World, s: Store, n: CFNumber)
    ensures NumberValue(NumberToCF(w, AsDouble(s, n))) == NumberValue(n)
       <==> (NumberValue(n).NaN? ||
             (NumberValue(n).Finite? && (Integral(NumberValue(n)) ==> InIntRange(NumberValue(n)))))
  {
    var d := AsDouble(s, n);
    match n
    case IntNumber(i) =>
      TruncateInt(i);
      assert Integral(NumberValue(n));
    case DoubleNumber(x) =>
  }

  /** From CF to JavaScript and back the value of an object is preserved exactly when
      Survives says so, at every depth. */
  lemma CFRoundTrip(w: World, s: Store, ref: nat, next: nat, fuel: nat)
    requires ref in s.objects && fuel > 0
    ensures var (w', v) := ToJs(w, s, Some(FromCF(ref)), next);
            Conv(w', v, [], fuel).Returned? && (Denotes(s, Conv(w', v, [], fuel).value, ref) <==> Survives(s, ref))
    ensures var (w', v) := ToJs(w, s, Some(FromCF(ref)), next);
            s.objects[ref].Other? ==> Conv(w', v, [], fuel) == Returned(Existing(ref))
  {
    if s.objects[ref].CFNumber? {
      NumberTrip(w, s, s.objects[ref].n);
    }
  }

  /** Undefined is what there is without a user object, and nothing else: a CF null comes out
      as null. */
  lemma UndefinedIff(w: World, s: Store, user: Option<Cell>, next: nat)
    requires user.Some? ==> user.value.User?
    ensures ToJs(w, s, user, next).1 == Undefined <==>
              user.None? || (user.value.dataType.JSValueWrapper? && user.value.backing == Wrapped(Undefined))
    ensures forall ref :: user == Some(FromCF(ref)) && ref in s.objects ==>
              (ToJs(w, s, user, next).1 == Null <==> s.objects[ref] == CFNull)
  {
  }

  /** An integer comes out as the same number if and only if it has at most 53 bits or the
      conversion to double happens to be exact; a double always does. */
  lemma NumbersComeOut(w: World, s: Store, ref: nat, next: nat)
    requires ref in s.objects && s.objects[ref].CFNumber?
    ensures var n, v := s.objects[ref].n, ToJs(w, s, Some(FromCF(ref)), next).1;
            v.Num? && (v.d == NumberValue(n) <==>
              (n.IntNumber? && !(-0x20_0000_0000_0000 <= n.n <= 0x20_0000_0000_0000) ==> s.round(n.n) == n.n as real))
  {
  }

  // ----- JavaScript to the glue and back -----

  ghost predicate Mentions(v: Value, id: nat) { v == Obj(id) }

  /** Nothing in the heap refers to the address. */
  ghost predicate Unused(w: World, id: nat) {
    id !in w.cells &&
    forall a :: a in w.cells ==>
      match w.cells[a]
      case User(Wrapped(v), _) => !Mentions(v, id)
      case User(_, _) => true
      case Plain(_, _, _, _) => forall i :: 0 <= i < |Kids(w, w.cells[a])| ==> !Mentions(Kids(w, w.cells[a])[i].1, id)
  }

  lemma {:induction false} NewCellIrrelevant(w: World, id: nat, cell: Cell, v: Value, ancestors: seq<nat>, fuel: nat)
    requires Unused(w, id) && !Mentions(v, id)
    ensures Conv(w.(cells := w.cells[id := cell]), v, ancestors, fuel) == Conv(w, v, ancestors, fuel)
    decreases fuel, 0
  {
    if fuel > 0 && v.Obj? && v.id in w.cells {
      var w' := w.(cells := w.cells[id := cell]);
      var c := w.cells[v.id];
      if c.Plain? {
        assert Kids(w', c) == Kids(w, c);
        NewCellIrrelevantKids(w, id, cell, Kids(w, c), [v.id] + ancestors, fuel - 1);
      } else if c.backing.Wrapped? {
        NewCellIrrelevant(w, id, cell, c.backing.value, [], fuel - 1);
      }
    }
  }

  lemma {:induction false} NewCellIrrelevantKids(w: World, id: nat, cell: Cell, kids: seq<(Key, Value)>,
                                               ancestors: seq<nat>, fuel: nat)
    requires Unused(w, id) && forall i :: 0 <= i < |kids| ==> !Mentions(kids[i].1, id)
    ensures ConvKids(w.(cells := w.cells[id := cell]), kids, ancestors, fuel) == ConvKids(w, kids, ancestors, fuel)
    decreases fuel, 1 + |kids|
  {
    if kids != [] {
      NewCellIrrelevant(w, id, cell, kids[0].1, ancestors, fuel);
      NewCellIrrelevantKids(w, id, cell, kids[1..], ancestors, fuel);
    }
  }

  /** How the conversion of a value ends, at whatever depth. */
  ghost predicate EndsAs(w: World, v: Value, t: Outcome<CF>) {
    t != Unfinished && exists fuel: nat :: Conv(w, v, [], fuel) == t
  }

  /** The CF object behind a value that has a primitive JavaScript counterpart. */
  predicate HasCounterpart(w: World, s: Store, v: Value, ref: nat) {
    && v.Obj? && v.id in w.cells && w.cells[v.id] == User(Data(ref), CFType)
    && ref in s.objects && !s.objects[ref].Other?
  }

  /** The conversion ends in a value that denotes the object. */
  ghost predicate ComesBackEqual(s: Store, w: World, v: Value, ref: nat)
    requires ref in s.objects
  {
    exists t :: EndsAs(w, v, Returned(t)) && Denotes(s, t, ref)
  }

  lemma CounterpartBack(w: World, s: Store, v: Value, ref: nat, next: nat)
    requires HasCounterpart(w, s, v, ref)
    ensures EndsAs(w, v, Returned(Existing(ref)))
    ensures var (w', v') := ToJs(w, s, Some(FromJs(w, v)), next); ComesBackEqual(s, w', v', ref) <==> Survives(s, ref)
  {
    assert Conv(w, v, [], 1) == Returned(Existing(ref));
    var (w', v') := ToJs(w, s, Some(FromJs(w, v)), next);
    var t := Conv(w', v', [], 1);
    CFRoundTrip(w, s, ref, next, 1);
    assert EndsAs(w', v', t);
    forall t' | EndsAs(w', v', Returned(t'))
      ensures Returned(t') == t
    {
      var fuel: nat :| Conv(w', v', [], fuel) == Returned(t');
      EitherFuel(w', v', fuel, 1);
    }
  }

  /** One more level around a value does not change how its conversion ends. */
  lemma OneDeeper(w: World, v: Value, w': World, v': Value)
    requires forall fuel: nat :: Conv(w', v', [], fuel + 1) == Conv(w, v, [], fuel)
    ensures forall t :: EndsAs(w', v', t) <==> EndsAs(w, v, t)
  {
    forall t | EndsAs(w, v, t)
      ensures EndsAs(w', v', t)
    {
      var fuel: nat :| Conv(w, v, [], fuel) == t;
      assert Conv(w', v', [], fuel + 1) == t;
    }
    forall t | EndsAs(w', v', t)
      ensures EndsAs(w, v, t)
    {
      var fuel: nat :| Conv(w', v', [], fuel) == t;
      var less: nat := fuel - 1;
      assert Conv(w', v', [], less + 1) == Conv(w, v, [], less);
    }
  }

  /** A UserObjectImp that is made anew for a user object converts as the old one. */
  lemma CopiedCell(w: World, id: nat, next: nat, fuel: nat)
    requires Unused(w, next) && id != next && id in w.cells && w.cells[id].User?
    ensures Conv(w.(cells := w.cells[next := w.cells[id]]), Obj(next), [], fuel) == Conv(w, Obj(id), [], fuel)
  {
    if fuel > 0 && w.cells[id].backing.Wrapped? {
      NewCellIrrelevant(w, next, w.cells[id], w.cells[id].backing.value, [], fuel - 1);
    }
  }

  /** A value that goes from JavaScript into the glue and back is the same value only if it
      is an object tagged JSValueWrapper that wraps itself. Otherwise it comes back as
      another one, most often as a new object around it. Its CF value is kept all the same,
      down to not ending or crashing; a CF object with a primitive counterpart comes back as
      that, of equal value exactly when Survives says so. */
  lemma JsRoundTrip(w: World, s: Store, v: Value, next: nat)
    requires Unused(w, next) && !Mentions(v, next)
    ensures var (w', v') := ToJs(w, s, Some(FromJs(w, v)), next);
            v' == v <==> v.Obj? && v.id in w.cells && w.cells[v.id] == User(Wrapped(v), JSValueWrapper)
    ensures var (w', v') := ToJs(w, s, Some(FromJs(w, v)), next);
            (forall ref :: !HasCounterpart(w, s, v, ref)) ==> forall t :: EndsAs(w', v', t) <==> EndsAs(w, v, t)
    ensures var (w', v') := ToJs(w, s, Some(FromJs(w, v)), next);
            forall ref :: HasCounterpart(w, s, v, ref) ==>
              EndsAs(w, v, Returned(Existing(ref))) && (ComesBackEqual(s, w', v', ref) <==> Survives(s, ref))
  {
    var c := FromJs(w, v);
    var (w', v') := ToJs(w, s, Some(c), next);
    forall ref | HasCounterpart(w, s, v, ref)
      ensures EndsAs(w, v, Returned(Existing(ref))) && (ComesBackEqual(s, w', v', ref) <==> Survives(s, ref))
    {
      CounterpartBack(w, s, v, ref, next);
    }
    if c.backing.Data? && HasCounterpart(w, s, v, c.backing.ref) {
    } else if c.backing.Wrapped? && c.dataType.JSValueWrapper? {
      OneDeeper(w, v', w, v);
    } else if v.Obj? && v.id in w.cells && w.cells[v.id].User? {
      CopiedBack(w, s, v.id, next);
    } else {
      forall fuel: nat
        ensures Conv(w', v', [], fuel + 1) == Conv(w, v, [], fuel)
      {
        JsComesBackWrapped(w, s, v, next, fuel);
      }
      OneDeeper(w, v, w', v');
    }
  }

  lemma CopiedBack(w: World, s: Store, id: nat, next: nat)
    requires Unused(w, next) && id != next && id in w.cells && w.cells[id].User?
    ensures var w' := w.(cells := w.cells[next := w.cells[id]]);
            forall t :: EndsAs(w', Obj(next), t) <==> EndsAs(w, Obj(id), t)
  {
    var w' := w.(cells := w.cells[next := w.cells[id]]);
    forall fuel: nat
      ensures Conv(w', Obj(next), [], fuel) == Conv(w, Obj(id), [], fuel)
    {
      CopiedCell(w, id, next, fuel);
    }
  }

  /** A value that is no UserObjectImp comes back as a new object around it. */
  lemma JsComesBackWrapped(w: World, s: Store, v: Value, next: nat, fuel: nat)
    requires Unused(w, next) && !Mentions(v, next)
    requires !(v.Obj? && v.id in w.cells && w.cells[v.id].User?)
    ensures var (w', v') := ToJs(w, s, Some(FromJs(w, v)), next);
            && v' == Obj(next) && v' != v
            && Conv(w', v', [], fuel + 1) == Conv(w, v, [], fuel)
            && Conv(w', v, [], fuel) == Conv(w, v, [], fuel)
  {
    NewCellIrrelevant(w, next, FromJs(w, v), v, [], fuel);
  }

  /** Storing the value that comes back in a property of the object that went in makes
      the cycle on which the conversion never ends. */
  lemma RoundTripMakesEndlessCycle(w: World, s: Store, fuel: nat)
    requires w.cells == map[0 := Plain("Object", [], ["self"], map[])]
    ensures var (w', v') := ToJs(w, s, Some(FromJs(w, Obj(0))), 1);
            var w'' := w'.(cells := w'.cells[0 := Plain("Object", [], ["self"], map["self" := v'])]);
            Conv(w'', Obj(0), [], fuel) == Unfinished
  {
    var (w', v') := ToJs(w, s, Some(FromJs(w, Obj(0))), 1);
    var w'' := w'.(cells := w'.cells[0 := Plain("Object", [], ["self"], map["self" := v'])]);
    assert w''.cells == map[0 := Plain("Object", [], ["self"], map["self" := Obj(1)]), 1 := User(Wrapped(Obj(0)), Unknown)];
    WrapperCycleDiverges(w'', fuel);
  }
}

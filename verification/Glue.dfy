/** The calls that cross the bridge of Source/JavaScriptGlue, with every retain and release
    in its place, run against clients that answer callbacks with anything they may do,
    further calls across the bridge included. */
module Glue {
  import opened RefCount
  import opened GlueState

  class Bridge {
    var s: State

    constructor ()
      ensures s == EMPTY && s.Valid() && Clean(s.trace)
    {
      s := EMPTY;
    }

    // ----- Retain and release -----

    /** JSBase::Retain on behalf of a running call. */
    method Retain(o: nat)
      requires s.Valid() && s.Exists(o)
      modifies this
      ensures s == RetainStep(old(s), o) && s.Valid() && Frame(old(s), s) && KeepsHolds(old(s).nodes, s.nodes)
    {
      RetainValid(s, o);
      s := RetainStep(s, o);
    }

    /** JSBase::Release on behalf of a running call. The object is deleted, and disposed of
        now, exactly when this was its last owner; then what it held is released. */
    method Release(o: nat)
      requires s.Valid() && o in s.temps
      modifies this
      ensures s.Valid() && Frame(old(s), s) && s.temps == old(s).temps - multiset{o}
      ensures KeepsHolds(old(s).nodes, s.nodes)
      ensures Live(s.nodes) <= Live(old(s).nodes)
      ensures old(s).disposed <= s.disposed
      ensures old(s).Exists(o) && (o in s.disposed <==> old(s).nodes[o].count == 1)
      decreases Live(s.nodes), 0
    {
      TempIsLive(s, o);
      if s.nodes[o].count > 1 {
        DropValid(s, o);
        s := DropStep(s, o);
      } else {
        var held := s.nodes[o].holds;
        ghost var rest := s.temps - multiset{o};
        DeleteValid(s, o);
        s := DeleteStep(s, o);
        ghost var deleted := s;
        ReleaseHeld(held, rest);
        FrameTwice(old(s), deleted, s);
        KeepsTwice(old(s).nodes, deleted.nodes, s.nodes, |old(s).nodes|);
        assert s.disposed[|deleted.disposed| - 1] == o;
      }
    }

    /** The destructor's releases, one for each reference that the object held. */
    method ReleaseHeld(held: seq<nat>, ghost rest: multiset<nat>)
      requires s.Valid() && s.temps == rest + multiset(held)
      modifies this
      ensures s.Valid() && Frame(old(s), s) && s.temps == rest
      ensures KeepsHolds(old(s).nodes, s.nodes)
      ensures Live(s.nodes) <= Live(old(s).nodes) && old(s).disposed <= s.disposed
      decreases Live(s.nodes), 1
    {
      assert held[0..] == held;
      for i := 0 to |held|
        invariant s.Valid() && Frame(old(s), s) && s.temps == rest + multiset(held[i..])
        invariant KeepsHolds(old(s).nodes, s.nodes)
        invariant Live(s.nodes) <= Live(old(s).nodes) && old(s).disposed <= s.disposed
      {
        SplitFirst(rest, held, i);
        ghost var before := s;
        Release(held[i]);
        FrameTwice(old(s), before, s);
        KeepsTwice(old(s).nodes, before.nodes, s.nodes, |old(s).nodes|);
      }
      assert multiset(held[|held|..]) == multiset{};
    }

    method Create(kind: Kind, held: seq<nat>) returns (o: nat)
      requires s.Valid() && multiset(held) <= s.temps && HandleIn(Node(1, held, kind), s.gc)
      requires kind == Imp ==> |held| == 1 && s.IsUserObject(held[0])
      modifies this
      ensures s == CreateStep(old(s), kind, held) && s.Valid() && Frame(old(s), s)
      ensures KeepsHolds(old(s).nodes, s.nodes)
      ensures o == |old(s).nodes| && s.Exists(o) && s.nodes[o].kind == kind
      ensures s.temps == old(s).temps - multiset(held) + multiset{o}
    {
      CreateValid(s, kind, held);
      o := |s.nodes|;
      s := CreateStep(s, kind, held);
    }

    /** A new object without references, owned by the running call. */
    method CreateTemp(kind: Kind) returns (o: nat)
      requires s.Valid() && kind != Imp && HandleIn(Node(1, [], kind), s.gc)
      modifies this
      ensures s.Valid() && Frame(old(s), s) && s.Exists(o) && s.nodes == old(s).nodes + [Node(1, [], kind)]
      ensures s.temps == old(s).temps + multiset{o} && o == |old(s).nodes| && KeepsHolds(old(s).nodes, s.nodes)
    {
      assert s.temps - multiset([]) == s.temps;
      o := Create(kind, []);
    }

    /** CFArrayAppendValue into an array with the callbacks of JSTypeGetCFArrayCallBacks. */
    method Append(a: nat, x: nat)
      requires s.Valid() && s.IsCFValue(a) && s.Exists(x)
      modifies this
      ensures s.Valid() && Frame(old(s), s) && s.temps == old(s).temps && s.IsCFValue(a)
      ensures s.nodes[a].holds == old(s).nodes[a].holds + [x] && KeepsHoldsBut(old(s).nodes, s.nodes, a)
    {
      Retain(x);
      ghost var retained := s;
      AddSub(old(s).temps, x);
      HoldValid(s, a, x);
      s := HoldStep(s, a, x);
      FrameTwice(old(s), retained, s);
      KeepsButMore(old(s).nodes, retained.nodes, a);
      KeepsTwice(old(s).nodes, retained.nodes, s.nodes, a);
    }

    /** Releases a temporary; `t` are the others. */
    method Done(o: nat, ghost t: multiset<nat>)
      requires s.Valid() && s.temps == t + multiset{o}
      modifies this
      ensures s.Valid() && Frame(old(s), s) && s.temps == t && KeepsHolds(old(s).nodes, s.nodes)
      ensures Kept(s.active, old(s).nodes, s.nodes)
    {
      AddSub(t, o);
      Release(o);
      LiveKept(old(s), s);
    }

    // ----- Values across the bridge -----

    /** The caller owns one reference to the result. */
    method KjsValueToJSObject(v: Value) returns (o: nat)
      requires s.Valid() && Known(s, v)
      modifies this
      ensures s.Valid() && Frame(old(s), s) && s.IsUserObject(o) && s.temps == old(s).temps + multiset{o}
      ensures KeepsHolds(old(s).nodes, s.nodes) && Behind(old(s), v, o)
      ensures v.ImpValue? ==> o < |old(s).nodes| && s.nodes == OneMore(old(s).nodes, o)
      ensures v.Other? ==> s.nodes == old(s).nodes + [Node(1, [], UserObject(NewCell))]
    {
      if v.ImpValue? {
        ImpIsLive(s, v.imp);
        o := s.nodes[v.imp].holds[0];
        Retain(o);
      } else {
        o := CreateTemp(UserObject(NewCell));
      }
    }

    /** Data without a counterpart gets a new UserObjectImp, which retains it. */
    method JSObjectKjsValue(o: nat) returns (v: Value)
      requires s.Valid() && s.IsUserObject(o)
      modifies this
      ensures s.Valid() && Balanced(old(s), s) && s.trace == old(s).trace && Converted(s, o, v)
      ensures ExposeEffect(old(s), o, s)
    {
      if s.nodes[o].kind.script.Is? {
        assert HandleIn(s.nodes[o], s.gc);
        v := s.nodes[o].kind.script.value;
        assert v.ImpValue? ==> HasHandle(s.nodes[o], v.imp);
        SameKept(s);
      } else {
        var imp := NewImp(o);
        v := ImpValue(imp);
      }
    }

    /** The constructor of UserObjectImp. */
    method NewImp(o: nat) returns (imp: nat)
      requires s.Valid() && s.IsUserObject(o)
      modifies this
      ensures s.Valid() && Balanced(old(s), s) && s.trace == old(s).trace && s.client == old(s).client
      ensures imp == |old(s).nodes| && s.nodes == OneMore(old(s).nodes, o) + [Node(1, [o], Imp)]
      ensures s.gc == old(s).gc + multiset{imp}
    {
      Retain(o);
      ghost var retained := s;
      HeldOnce(old(s).temps, o);
      imp := Create(Imp, [o]);
      AddSub(old(s).temps, imp);
      AdoptValid(s, imp);
      s := Adopt(s, imp);
      KeepsTwice(old(s).nodes, retained.nodes, s.nodes, |old(s).nodes|);
      LiveKept(old(s), s);
    }

    // ----- Callbacks -----

    /** A callback of the client: it does what `body` says and gives its caller a reference,
        if it has one of the kind that is asked for. `ran` is false if the process died
        while the callback ran. */
    method Callback(e: Event, body: seq<Step>, answer: nat, wantCF: bool) returns (ran: bool, given: bool)
      requires s.Valid() && Clean(s.trace) && !Fatal(e)
      modifies this
      ensures Outcome(ran && !Fatal(if given then Answered(answer) else Unanswered(e)), s.trace)
      ensures ran ==> s.Valid() && s.active == old(s).active && Begins(old(s), s, e) && |old(s).trace| + 1 < |s.trace|
      ensures ran ==> Kept(s.active, old(s).nodes, s.nodes)
      ensures ran ==> s.temps == if given then old(s).temps + multiset{answer} else old(s).temps
      ensures ran && given ==> if wantCF then s.IsCFValue(answer) else s.IsUserObject(answer)
      ensures ran ==> LastIs(s.trace, if given then Answered(answer) else Unanswered(e))
      ensures ran ==> Ran(old(s), e, body, s, given, answer, wantCF)
      ensures body == [] ==> ran && Quiet(old(s), s, given, answer, wantCF)
      decreases body, 1
    {
      LogOutcome(s.trace, e);
      s := Log(s, e);
      ghost var logged := s;
      ran := Run(body);
      given := ran && s.Gives(answer, wantCF);
      if ran {
        ghost var after := s;
        if given {
          TakeValid(s, answer);
          s := Take(s, answer);
        }
        var end := if given then Answered(answer) else Unanswered(e);
        LogOutcome(s.trace, end);
        s := Log(s, end);
        assert Runs(logged, body, after);
      }
    }

    /** A callback of the client that has no answer. */
    method SetProperty(e: Event, body: seq<Step>) returns (alive: bool)
      requires s.Valid() && Clean(s.trace) && !Fatal(e)
      modifies this
      ensures Outcome(alive, s.trace)
      ensures alive ==> s.Valid() && Balanced(old(s), s) && Begins(old(s), s, e) && Runs(Log(old(s), e), body, s)
      decreases body, 1
    {
      LogOutcome(s.trace, e);
      s := Log(s, e);
      alive := Run(body);
    }

    /** Turns an answer into a JavaScript value and releases it. */
    method ReturnAnswer(o: nat, ghost t: multiset<nat>) returns (v: Value)
      requires s.Valid() && s.IsUserObject(o) && s.temps == t + multiset{o}
      modifies this
      ensures s.Valid() && s.active == old(s).active && s.temps == t && s.trace == old(s).trace && Converted(s, o, v)
      ensures Kept(s.active, old(s).nodes, s.nodes)
    {
      v := JSObjectKjsValue(o);
      ghost var converted := s;
      Done(o, t);
      ConvertedStays(converted, s, o, v);
      KeptTwice(s.active, old(s).nodes, converted.nodes, s.nodes);
    }

    /** A callback whose answer, if there is one, becomes a JavaScript value. */
    method CallbackForValue(e: Event, body: seq<Step>, answer: nat) returns (alive: bool, v: Value)
      requires s.Valid() && Clean(s.trace) && !Fatal(e) && !e.PropertyRead?
      modifies this
      ensures Outcome(alive, s.trace)
      ensures alive ==> s.Valid() && s.active == old(s).active && s.temps == old(s).temps && Begins(old(s), s, e)
      ensures alive ==> Kept(s.active, old(s).nodes, s.nodes) && Ended(s.trace, answer) && Returned(s, answer, v)
      decreases body, 2
    {
      v := Other;
      var given;
      alive, given := Callback(e, body, answer, false);
      if alive && given {
        ghost var answered := s;
        v := ReturnAnswer(answer, old(s).temps);
        KeptTwice(s.active, old(s).nodes, answered.nodes, s.nodes);
      }
    }

    /** A callback whose answer becomes a JavaScript value without a test that there is one. */
    method CallbackForRead(e: Event, body: seq<Step>, answer: nat) returns (alive: bool, v: Value)
      requires s.Valid() && Clean(s.trace) && e.PropertyRead?
      modifies this
      ensures Outcome(alive, s.trace)
      ensures alive ==> s.Valid() && s.active == old(s).active && s.temps == old(s).temps && Begins(old(s), s, e)
      ensures alive ==> Kept(s.active, old(s).nodes, s.nodes) && LastIs(s.trace, Answered(answer)) && Converted(s, answer, v)
      ensures body == [] ==> (alive <==> old(s).Gives(answer, false))
      decreases body, 2
    {
      v := Other;
      var given;
      alive, given := Callback(e, body, answer, false);
      if !alive || !given {
        return false, Other;
      }
      ghost var answered := s;
      v := ReturnAnswer(answer, old(s).temps);
      KeptTwice(s.active, old(s).nodes, answered.nodes, s.nodes);
    }

    /** A callback whose answer, if there is one, is looked at and released. */
    method CallbackForLook(e: Event, body: seq<Step>, answer: nat, wantCF: bool) returns (alive: bool, given: bool)
      requires s.Valid() && Clean(s.trace) && !Fatal(e) && !e.PropertyRead?
      modifies this
      ensures Outcome(alive, s.trace)
      ensures alive ==> s.Valid() && s.active == old(s).active && s.temps == old(s).temps && Begins(old(s), s, e)
      ensures alive ==> Kept(s.active, old(s).nodes, s.nodes) && |old(s).trace| + 1 < |s.trace|
      ensures alive ==> LastIs(s.trace, if given then Answered(answer) else Unanswered(e))
      ensures body == [] ==> alive && Quiet(old(s), s, given, answer, wantCF)
      decreases body, 2
    {
      alive, given := Callback(e, body, answer, wantCF);
      if alive && given {
        ghost var answered := s;
        Done(answer, old(s).temps);
        KeptTwice(s.active, old(s).nodes, answered.nodes, s.nodes);
      }
    }

    // ----- Entering and leaving a call -----

    /** Enters a call on `imp`; `target` is the object behind it. */
    method Enter(imp: nat) returns (target: nat)
      requires s.Valid() && imp in s.gc
      modifies this
      ensures s.Valid() && s == Pin(old(s), imp) && Target(old(s), imp, target)
      ensures Kept(s.active, old(s).nodes, s.nodes)
    {
      ImpIsLive(s, imp);
      target := s.nodes[imp].holds[0];
      PinValid(s, imp);
      s := Pin(s, imp);
      SameKept(s);
    }

    method Leave(imp: nat, ghost before: State)
      requires s.Valid() && s.active == before.active + multiset{imp} && s.temps == before.temps && before.trace <= s.trace
      requires Kept(s.active, before.nodes, s.nodes)
      modifies this
      ensures s.Valid() && Balanced(before, s) && s.nodes == old(s).nodes && s.trace == old(s).trace
      ensures s.gc == old(s).gc && s.client == old(s).client
    {
      UnpinValid(s, imp);
      AddSub(before.active, imp);
      s := Unpin(s, imp);
      KeptFewer(before.active, old(s).active, before.nodes, s.nodes);
    }

    /** Enters a call that needs an object for `v`. */
    method EnterWith(imp: nat, v: Value) returns (target: nat, o: nat)
      requires s.Valid() && imp in s.gc && Known(s, v)
      modifies this
      ensures s.Valid() && s.active == old(s).active + multiset{imp} && s.trace == old(s).trace
      ensures s.temps == old(s).temps + multiset{o} && Target(old(s), imp, target) && Behind(old(s), v, o)
      ensures Kept(s.active, old(s).nodes, s.nodes)
      ensures s.gc == old(s).gc && KeepsHolds(old(s).nodes, s.nodes)
    {
      target := Enter(imp);
      ghost var entered := s;
      o := KjsValueToJSObject(v);
      LiveKept(entered, s);
    }

    /** Releases the last temporary and leaves the call. */
    method LeaveWith(imp: nat, o: nat, ghost before: State)
      requires s.Valid() && s.active == before.active + multiset{imp} && s.temps == before.temps + multiset{o}
      requires before.trace <= s.trace && Kept(s.active, before.nodes, s.nodes)
      modifies this
      ensures s.Valid() && Balanced(before, s) && s.trace == old(s).trace
      ensures s.gc == old(s).gc && Extends(old(s).nodes, s.nodes) && KeepsHolds(old(s).nodes, s.nodes)
    {
      Done(o, before.temps);
      KeptTwice(s.active, before.nodes, old(s).nodes, s.nodes);
      Leave(imp, before);
    }

    // ----- Function calls -----

    /** The argument array of a call. */
    method MakeArgs(args: seq<Value>) returns (jsArgs: nat)
      requires s.Valid() && AllKnown(s, args)
      modifies this
      ensures s.Valid() && Frame(old(s), s) && s.temps == old(s).temps + multiset{jsArgs}
      ensures KeepsHolds(old(s).nodes, s.nodes)
      ensures s.IsCFValue(jsArgs) && |s.nodes[jsArgs].holds| == |args| && Stand(old(s), args, s.nodes[jsArgs].holds)
    {
      jsArgs := CreateTemp(CFValue);
      for i := 0 to |args|
        invariant s.Valid() && Frame(old(s), s) && s.temps == old(s).temps + multiset{jsArgs} && s.IsCFValue(jsArgs)
        invariant jsArgs == |old(s).nodes| && KeepsHolds(old(s).nodes, s.nodes)
        invariant |s.nodes[jsArgs].holds| == i && Stand(old(s), args, s.nodes[jsArgs].holds)
      {
        assert KnownAt(old(s), args, i);
        ghost var before := s;
        AddArg(jsArgs, args[i], old(s).temps);
        ghost var h := s.nodes[jsArgs].holds;
        BehindBefore(old(s), before, args[i], h[|h| - 1]);
        StandMore(old(s), args, before.nodes[jsArgs].holds, h);
        FrameTwice(old(s), before, s);
        KeepsThenBut(old(s).nodes, before.nodes, s.nodes, jsArgs);
      }
    }

    method AddArg(jsArgs: nat, arg: Value, ghost t: multiset<nat>)
      requires s.Valid() && Known(s, arg) && s.IsCFValue(jsArgs) && s.temps == t + multiset{jsArgs}
      modifies this
      ensures s.Valid() && Frame(old(s), s) && s.temps == old(s).temps && s.IsCFValue(jsArgs)
      ensures var h := s.nodes[jsArgs].holds;
              h != [] && h[..|h| - 1] == old(s).nodes[jsArgs].holds && Behind(old(s), arg, h[|h| - 1])
      ensures KeepsHoldsBut(old(s).nodes, s.nodes, jsArgs)
    {
      var jsArg := KjsValueToJSObject(arg);
      ghost var one := s;
      AddSub(t, jsArgs);
      StillCFValue(old(s), one, jsArgs);
      Append(jsArgs, jsArg);
      ghost var two := s;
      Done(jsArg, t + multiset{jsArgs});
      StillCFValue(two, s, jsArgs);
      AppendedBetween(old(s), one, two, s, jsArgs);
    }

    /** Enters a function call: objects for `this` and for the arguments. */
    method EnterCall(step: Step) returns (target: nat, jsThisObj: nat, jsArgs: nat, args: seq<nat>)
      requires s.Valid() && step.CallAsFunction? && step.imp in s.gc && Known(s, step.thisValue) && AllKnown(s, step.args)
      modifies this
      ensures s.Valid() && s.active == old(s).active + multiset{step.imp} && s.trace == old(s).trace
      ensures s.temps == old(s).temps + multiset{jsThisObj} + multiset{jsArgs}
      ensures Target(old(s), step.imp, target) && Behind(old(s), step.thisValue, jsThisObj)
      ensures |args| == |step.args| && Stand(old(s), step.args, args)
      ensures jsArgs < |s.nodes| && s.nodes[jsArgs].holds == args
      ensures Kept(s.active, old(s).nodes, s.nodes)
    {
      target, jsThisObj := EnterWith(step.imp, step.thisValue);
      ghost var entered := s;
      KnownStill(old(s), s, step.args);
      jsArgs := MakeArgs(step.args);
      args := s.nodes[jsArgs].holds;
      StandBefore(old(s), entered, step.args, args);
      LiveKept(entered, s);
      KeptTwice(s.active, old(s).nodes, entered.nodes, s.nodes);
    }

    /** Leaves a function call; the value that it returns stays what it is. */
    method LeaveCall(imp: nat, jsArgs: nat, jsThisObj: nat, ghost before: State, ghost answer: nat, ghost result: Value)
      requires s.Valid() && s.active == before.active + multiset{imp}
      requires s.temps == before.temps + multiset{jsThisObj} + multiset{jsArgs}
      requires before.trace <= s.trace && Kept(s.active, before.nodes, s.nodes) && Returned(s, answer, result)
      modifies this
      ensures s.Valid() && Balanced(before, s) && s.trace == old(s).trace && Returned(s, answer, result)
    {
      Done(jsArgs, before.temps + multiset{jsThisObj});
      ghost var one := s;
      KeptTwice(s.active, before.nodes, old(s).nodes, one.nodes);
      ReturnedStays(old(s), one, answer, result);
      LeaveWith(imp, jsThisObj, before);
      ReturnedStays(one, s, answer, result);
    }

    /** Calls the object behind `imp` with objects for `this` and for the arguments. The result
        is the value of the answer, if there was one. */
    method CallAsFunctionCode(step: Step) returns (alive: bool, result: Value)
      requires s.Valid() && Clean(s.trace)
      requires step.CallAsFunction? && step.imp in s.gc && Known(s, step.thisValue) && AllKnown(s, step.args)
      modifies this
      ensures Outcome(alive, s.trace)
      ensures alive ==> s.Valid() && Balanced(old(s), s) && FunctionEffect(old(s), step, s)
      ensures alive ==> Returned(s, step.answer, result)
      decreases step, 0
    {
      var target, jsThisObj, jsArgs, args := EnterCall(step);
      ghost var called := s;
      alive, result := CallbackForValue(FunctionCalled(target, jsThisObj, args), step.body, step.answer);
      if alive {
        KeptTwice(s.active, old(s).nodes, called.nodes, s.nodes);
        LeaveCall(step.imp, jsArgs, jsThisObj, old(s), step.answer, result);
        FunctionShows(old(s), called, step, target, jsThisObj, args, s);
      }
    }

    // ----- Properties -----

    method GetOwnPropertySlotCode(step: Step) returns (alive: bool, custom: bool)
      requires s.Valid() && Clean(s.trace) && step.GetOwnPropertySlot? && step.imp in s.gc
      modifies this
      ensures Outcome(alive, s.trace)
      ensures alive ==> s.Valid() && Balanced(old(s), s) && SlotEffect(old(s), step, s)
      ensures alive ==> if custom then LastIs(s.trace, Answered(step.answer)) else SlotMissing(old(s), step, s)
      ensures QuietLookup(old(s), step, alive, custom, s)
      decreases step, 2
    {
      var target := Enter(step.imp);
      ghost var called := s;
      alive, custom := Lookup(step, target);
      if alive {
        SlotShows(old(s), called, step, target, s);
        Leave(step.imp, old(s));
      }
    }

    /** CopyProperty, and if it finds nothing, toPrimitive. */
    method Lookup(step: Step, target: nat) returns (alive: bool, custom: bool)
      requires s.Valid() && Clean(s.trace)
      requires step.GetOwnPropertySlot? && step.imp in s.active && Target(s, step.imp, target)
      modifies this
      ensures Outcome(alive, s.trace)
      ensures alive ==> s.Valid() && Balanced(old(s), s) && Begins(old(s), s, PropertyLookedUp(target))
      ensures alive ==> if custom then LastIs(s.trace, Answered(step.answer)) else SlotMissing(old(s), step, s)
      ensures QuietLookup(old(s), step, alive, custom, s)
      decreases step, 1
    {
      alive, custom := CallbackForLook(PropertyLookedUp(target), step.body, step.answer, false);
      if alive && !custom {
        ghost var answered := s;
        assert PinnedAt(s.gc, s.active, step.imp) && KeptAt(s.active, old(s).nodes, s.nodes, step.imp);
        alive := ToPrimitiveCode(step, step.imp, step.body2, step.answer2);
        if alive {
          MissingShows(old(s), step, target, answered, s);
          KeptTwice(s.active, old(s).nodes, answered.nodes, s.nodes);
        }
      }
    }

    /** The result is the value of the answer, which is used without a test: without one the
        process dies. */
    method UserObjectGetterCode(step: Step) returns (alive: bool, result: Value)
      requires s.Valid() && Clean(s.trace) && step.UserObjectGetter? && step.imp in s.gc
      modifies this
      ensures Outcome(alive, s.trace)
      ensures alive ==> s.Valid() && Balanced(old(s), s) && GetterEffect(old(s), step.imp, step.answer, s)
      ensures alive ==> Converted(s, step.answer, result)
      ensures step.body == [] ==> (alive <==> old(s).Gives(step.answer, false))
      decreases step, 0
    {
      var target := Enter(step.imp);
      ghost var called := s;
      alive, result := CallbackForRead(PropertyRead(target), step.body, step.answer);
      if alive {
        GetterShows(old(s), called, step, target, s);
        Leave(step.imp, old(s));
      }
    }

    method PutCode(step: Step) returns (alive: bool)
      requires s.Valid() && Clean(s.trace) && step.PutProperty? && step.imp in s.gc && Known(s, step.value)
      modifies this
      ensures Outcome(alive, s.trace)
      ensures alive ==> s.Valid() && Balanced(old(s), s) && PutEffect(old(s), step.imp, step.value, s)
      decreases step, 0
    {
      var target, jsValueObj := EnterWith(step.imp, step.value);
      ghost var called := s;
      alive := SetProperty(PropertySet(target, jsValueObj), step.body);
      if alive {
        KeptTwice(s.active, old(s).nodes, called.nodes, s.nodes);
        LeaveWith(step.imp, jsValueObj, old(s));
        PutShows(old(s), called, step, target, jsValueObj, s);
      }
    }

    /** Also the retains and releases of toBoolean, toNumber and toString. */
    method ToPrimitiveCode(ghost step: Step, imp: nat, body: seq<Step>, answer: nat) returns (alive: bool)
      requires s.Valid() && Clean(s.trace) && imp in s.gc
      requires (step.ToPrimitive? && body == step.body) || (step.GetOwnPropertySlot? && body == step.body2)
      modifies this
      ensures Outcome(alive, s.trace)
      ensures alive ==> s.Valid() && Balanced(old(s), s) && PrimitiveEffect(old(s), imp, answer, s)
      decreases step, 0
    {
      var target, jsObjPtr := EnterWith(imp, ImpValue(imp));
      ghost var called := s;
      var given;
      alive, given := CallbackForLook(ValueCopied(jsObjPtr), body, answer, true);
      if alive {
        KeptTwice(s.active, old(s).nodes, called.nodes, s.nodes);
        LeaveWith(imp, jsObjPtr, old(s));
        PrimitiveShows(old(s), called, imp, jsObjPtr, answer, s);
      }
    }

    // ----- Runs -----

    /** Stops where the process dies. */
    method Run(steps: seq<Step>) returns (alive: bool)
      requires s.Valid() && Clean(s.trace)
      modifies this
      ensures Outcome(alive, s.trace)
      ensures alive ==> s.Valid() && Balanced(old(s), s) && Runs(old(s), steps, s)
      ensures steps == [] ==> alive && s == old(s)
      decreases steps, 0
    {
      RunsNone(s);
      SameKept(s);
      for i := 0 to |steps|
        invariant s.Valid() && Clean(s.trace) && Balanced(old(s), s) && Runs(old(s), steps[..i], s)
        invariant i == 0 ==> s == old(s)
      {
        ghost var mid := s;
        alive := Do(steps[i]);
        if !alive {
          return;
        }
        RunsMore(old(s), steps, i, mid, s);
        KeptTwice(s.active, old(s).nodes, mid.nodes, s.nodes);
      }
      assert steps[..|steps|] == steps;
      alive := true;
    }

    method Do(step: Step) returns (alive: bool)
      requires s.Valid() && Clean(s.trace)
      modifies this
      ensures Outcome(alive, s.trace)
      ensures alive ==> s.Valid() && Balanced(old(s), s) && Takes(old(s), step, s)
      decreases step, 3
    {
      alive := true;
      if !Enabled(s, step) {
        SameKept(s);
        return;
      }
      match step {
        case CallAsFunction(_, _, args, _, _) =>
          AllKnownOf(s, args);
          var result;
          alive, result := CallAsFunctionCode(step);
        case GetOwnPropertySlot(_, _, _, _, _) =>
          var custom;
          alive, custom := GetOwnPropertySlotCode(step);
        case UserObjectGetter(_, _, _) =>
          var result;
          alive, result := UserObjectGetterCode(step);
        case PutProperty(_, _, _) =>
          alive := PutCode(step);
        case ToPrimitive(imp, body, answer) =>
          alive := ToPrimitiveCode(step, imp, body, answer);
        case _ =>
          DoQuietly(step);
      }
    }

    /** The steps that call no one. */
    method DoQuietly(step: Step)
      requires s.Valid() && Enabled(s, step) && !CallsBack(step)
      modifies this
      ensures s.Valid() && Balanced(old(s), s) && Effect(old(s), step, s) && s.trace == old(s).trace
    {
      match step {
        case Collect(imp) =>
          CollectCell(imp);
        case JSRetain(o) =>
          ClientRetain(o);
        case JSRelease(o) =>
          ClientRelease(o);
        case CreateObject =>
          ClientCreate(UserObject(NewCell));
        case CreateArray =>
          ClientCreate(CFValue);
        case CreateWithCFType(cf, primitive) =>
          ClientWrap(cf, primitive);
        case CopyScriptProperty(value) =>
          ClientCreate(UserObject(Is(value)));
        case SetScriptProperty(o) =>
          var v := JSObjectKjsValue(o);
        case ArrayAppend(a, x) =>
          ClientAppend(a, x);
      }
    }

    /** The garbage collector runs the destructor of a UserObjectImp that neither a running
        call nor a handle uses. */
    method CollectCell(imp: nat)
      requires s.Valid() && imp in s.gc && imp !in s.active && Unhandled(s.nodes, imp)
      modifies this
      ensures s.Valid() && Balanced(old(s), s) && CollectEffect(old(s), imp, s) && s.trace == old(s).trace
    {
      FinaliseValid(s, imp);
      s := Finalise(s, imp);
      AddSub(old(s).temps, imp);
      Release(imp);
      LiveKept(old(s), s);
    }

    // ----- The calls of the public interface that a client makes on its own behalf -----

    method ClientRetain(o: nat)
      requires s.Valid() && s.Exists(o)
      modifies this
      ensures s.Valid() && Balanced(old(s), s) && RetainEffect(old(s), o, s) && s.trace == old(s).trace
    {
      Retain(o);
      AddSub(old(s).temps, o);
      GiveValid(s, o);
      s := Give(s, o);
      LiveKept(old(s), s);
    }

    method ClientRelease(o: nat)
      requires s.Valid() && o in s.client
      modifies this
      ensures s.Valid() && Balanced(old(s), s) && ReleaseEffect(old(s), o, s) && s.trace == old(s).trace
    {
      TakeValid(s, o);
      s := Take(s, o);
      AddSub(old(s).temps, o);
      Release(o);
      LiveKept(old(s), s);
    }

    method ClientCreate(kind: Kind)
      requires s.Valid() && kind != Imp && HandleIn(Node(1, [], kind), s.gc)
      modifies this
      ensures s.Valid() && Balanced(old(s), s) && s.trace == old(s).trace
      ensures Created(old(s), old(s).nodes, Node(1, [], kind), s)
    {
      var o := CreateTemp(kind);
      AddSub(old(s).temps, o);
      GiveValid(s, o);
      s := Give(s, o);
      LiveKept(old(s), s);
    }

    /** The object owns its CF value. */
    method ClientWrap(cf: nat, primitive: bool)
      requires s.Valid() && s.IsCFValue(cf)
      modifies this
      ensures s.Valid() && Balanced(old(s), s) && WrapEffect(old(s), cf, primitive, s) && s.trace == old(s).trace
    {
      Retain(cf);
      ghost var retained := s;
      HeldOnce(old(s).temps, cf);
      var o := Create(UserObject(if primitive then Is(Other) else NewCell), [cf]);
      AddSub(old(s).temps, o);
      GiveValid(s, o);
      s := Give(s, o);
      KeepsTwice(old(s).nodes, retained.nodes, s.nodes, |old(s).nodes|);
      LiveKept(old(s), s);
    }

    method ClientAppend(a: nat, x: nat)
      requires s.Valid() && s.IsCFValue(a) && s.Exists(x)
      modifies this
      ensures s.Valid() && Balanced(old(s), s) && AppendEffect(old(s), a, x, s) && s.trace == old(s).trace
    {
      assert CellAt(s.nodes, s.gc, a);
      Append(a, x);
      LiveKeptBut(old(s), s, a);
    }
  }

  /** Any sequence of calls, from a bridge without objects. It completes exactly if every
      property that was read was there. */
  method Session(steps: seq<Step>) returns (b: Bridge, alive: bool)
    ensures fresh(b) && (alive <==> Clean(b.s.trace))
    ensures alive ==> b.s.Valid() && b.s.temps == multiset{} && Runs(EMPTY, steps, b.s)
    ensures !alive ==> Died(b.s.trace)
  {
    b := new Bridge();
    alive := b.Run(steps);
    AliveIffClean(alive, b.s.trace);
  }

  /** A session that does not complete: the client answers the lookup of a property with the
      only reference that it has, so that it has none when the value is read. */
  method PropertyVanishes() returns (b: Bridge, found: bool, alive: bool)
    ensures fresh(b) && found && !alive && !Clean(b.s.trace)
  {
    b := new Bridge();
    b.ClientCreate(UserObject(NewCell));
    b.ClientCreate(UserObject(NewCell));
    ghost var two := b.s;
    assert two.nodes == [Node(1, [], UserObject(NewCell)), Node(1, [], UserObject(NewCell))];
    assert two.client[1] == 1;
    var v := b.JSObjectKjsValue(0);
    assert b.s.Gives(1, false) && 2 in b.s.gc;
    alive, found := b.GetOwnPropertySlotCode(GetOwnPropertySlot(2, [], 1, [], 1));
    assert !b.s.Gives(1, false) && 2 in b.s.gc;
    var result;
    alive, result := b.UserObjectGetterCode(UserObjectGetter(2, [], 1));
    AliveIffClean(alive, b.s.trace);
  }

  /** An array that a call owns stays as it is. */
  lemma StillCFValue(s: State, s': State, a: nat)
    requires s.IsCFValue(a) && s'.Valid() && Frame(s, s') && KeepsHolds(s.nodes, s'.nodes) && a in s'.temps
    ensures s'.IsCFValue(a) && s'.nodes[a].holds == s.nodes[a].holds
  {
    TempIsLive(s', a);
    assert SameKind(s.nodes, s'.nodes, a) && SameHolds(s.nodes, s'.nodes, a);
  }

  lemma AppendedBetween(x: State, y: State, z: State, w: State, a: nat)
    requires Frame(x, y) && Frame(y, z) && Frame(z, w) && a < |x.nodes|
    requires KeepsHolds(x.nodes, y.nodes) && KeepsHoldsBut(y.nodes, z.nodes, a) && KeepsHolds(z.nodes, w.nodes)
    ensures Frame(x, w) && KeepsHoldsBut(x.nodes, w.nodes, a)
  {
    FrameTwice(x, y, z);
    FrameTwice(x, z, w);
    KeepsButMore(x.nodes, y.nodes, a);
    KeepsTwice(x.nodes, y.nodes, z.nodes, a);
    KeepsButMore(z.nodes, w.nodes, a);
    KeepsTwice(x.nodes, z.nodes, w.nodes, a);
  }
}

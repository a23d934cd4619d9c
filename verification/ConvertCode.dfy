/** The loops of KJSValueToCFTypeInternal, proved to compute the recursion of Convert. */
module ConvertCode {
  import opened JsHeap
  import opened Convert

  /** The walk down the ancestor list. */
  method OnList(imp: nat, imps: seq<nat>) returns (found: bool)
    ensures found == (imp in imps)
  {
    var temp := imps;
    while temp != []
      invariant imp in imps <==> imp in temp
    {
      if imp == temp[0] {
        return true;
      }
      temp := temp[1..];
    }
    return false;
  }

  /** The test of one property name, from its last character to its first. */
  method NameIsDigits(name: string) returns (digits: bool)
    ensures digits == AllDigits(name)
  {
    var size := |name|;
    while size > 0
      invariant 0 <= size <= |name|
      invariant forall i :: size <= i < |name| ==> '0' <= name[i] <= '9'
    {
      size := size - 1;
      if name[size] < '0' || name[size] > '9' {
        return false;
      }
    }
    return true;
  }

  method IsArray(w: World, cell: Cell) returns (isArray: bool)
    requires cell.Plain?
    ensures isArray == AsArray(w, cell)
  {
    isArray := cell.className == "Array";
    if isArray && w.assoc {
      var i := 0;
      while i < |cell.names| && isArray
        invariant 0 <= i <= |cell.names|
        invariant isArray ==> forall j :: 0 <= j < i ==> AllDigits(cell.names[j])
        invariant !isArray ==> exists j :: 0 <= j < |cell.names| && !AllDigits(cell.names[j])
      {
        isArray := NameIsDigits(cell.names[i]);
        i := i + 1;
      }
    }
  }

  /** `fuel` is a bound on the recursion depth; by Convert.ReturnsIff and
      Convert.ConvergesFromTop there is one unless a cycle through a wrapped value can be
      reached. The result is `Crashed` if the code hands CoreFoundation a null pointer. */
  method KjsValueToCFTypeInternal(w: World, v: Value, imps: seq<nat>, ghost fuel: nat) returns (result: Outcome<CF>)
    requires Conv(w, v, imps, fuel) != Unfinished
    ensures result == Conv(w, v, imps, fuel)
    decreases fuel, 2
  {
    match v {
      case Empty => return Returned(NoValue);
      case Bool(b) => return Returned(Boolean(b));
      case Str(s) => return Returned(String(s));
      case Num(number1) =>
        var number2 := ToInteger(number1);
        if number1 == number2 {
          return Returned(Number(IntNumber(CastToInt(w, number2))));
        } else {
          return Returned(Number(DoubleNumber(number1)));
        }
      case Undefined => return Returned(NullRef);
      case Null => return Returned(NullRef);
      case Obj(id) =>
        if id !in w.cells {
          return Returned(NoValue);
        }
        match w.cells[id] {
          case User(Nothing, _) => return Returned(NoValue);
          case User(Data(ref), _) => return Returned(Existing(ref));
          case User(Wrapped(inner), _) => result := KjsValueToCFTypeInternal(w, inner, [], fuel - 1);
          case Plain(_, _, _, _) =>
            var found := OnList(id, imps);
            if found {
              return Returned(NullRef);
            }
            var isArray := IsArray(w, w.cells[id]);
            if isArray {
              result := ConvertArray(w, id, imps, fuel);
            } else {
              result := ConvertObject(w, id, imps, fuel);
            }
        }
    }
  }

  /** CFArrayAppendValue crashes on a null pointer, which it retains. */
  method ConvertArray(w: World, id: nat, imps: seq<nat>, ghost fuel: nat) returns (result: Outcome<CF>)
    requires id in w.cells && w.cells[id].Plain? && id !in imps && AsArray(w, w.cells[id])
    requires Conv(w, Obj(id), imps, fuel) != Unfinished
    ensures result == Conv(w, Obj(id), imps, fuel)
    decreases fuel, 0
  {
    var cell := w.cells[id];
    var below := [id] + imps;
    ghost var kids, done := Kids(w, cell), [];
    assert kids[0..] == kids;
    PrependEnds(done, ConvKids(w, kids, below, fuel - 1));
    var elements := [];
    for i := 0 to |cell.elements|
      invariant Prepend(done, ConvKids(w, kids[i..], below, fuel - 1)) == ConvKids(w, kids, below, fuel - 1)
      invariant elements == Second(done)
    {
      assert kids[i..][0] == (Index(i), cell.elements[i]) && kids[i..][1..] == kids[i + 1..];
      KidTurn(w, kids[i..], below, fuel - 1, done);
      var cfValue := KjsValueToCFTypeInternal(w, cell.elements[i], below, fuel - 1);
      if cfValue.Crashed? || cfValue.value == NoValue {
        return Crashed;
      }
      SecondSnoc(done, (Index(i), cfValue.value));
      done := done + [(Index(i), cfValue.value)];
      elements := elements + [cfValue.value];
    }
    PrependEnds(done, Returned([]));
    result := Returned(Array(elements));
  }

  method ConvertObject(w: World, id: nat, imps: seq<nat>, ghost fuel: nat) returns (result: Outcome<CF>)
    requires id in w.cells && w.cells[id].Plain? && id !in imps && !AsArray(w, w.cells[id])
    requires Conv(w, Obj(id), imps, fuel) != Unfinished
    ensures result == Conv(w, Obj(id), imps, fuel)
    decreases fuel, 1
  {
    result := ConvertProperties(w, w.cells[id].names, w.cells[id].props, [id] + imps, fuel - 1);
  }

  method ConvertProperties(w: World, names: seq<string>, props: map<string, Value>, below: seq<nat>, ghost fuel: nat)
    returns (result: Outcome<CF>)
    requires ConvKids(w, NamedKids(names, props), below, fuel) != Unfinished
    ensures result == match ConvKids(w, NamedKids(names, props), below, fuel)
                      case Unfinished => Unfinished
                      case Crashed => Crashed
                      case Returned(kids) => Returned(Build(false, kids))
    decreases fuel, 3
  {
    ghost var whole, done := ConvKids(w, NamedKids(names, props), below, fuel), [];
    assert names[0..] == names;
    PrependEnds(done, whole);
    var entries := map[];
    for i := 0 to |names|
      invariant Prepend(done, ConvKids(w, NamedKids(names[i..], props), below, fuel)) == whole
      invariant entries == AddAll(map[], done)
    {
      var propName := names[i];
      assert names[i..][1..] == names[i + 1..];
      EntryTurn(w, names[i..], props, below, fuel, done);
      if propName in props {
        var cfValue := KjsValueToCFTypeInternal(w, props[propName], below, fuel);
        if cfValue.Crashed? {
          return Crashed;
        }
        entries := AddProperty(entries, propName, cfValue.value, done);
        done := done + [(Name(propName), cfValue.value)];
      }
    }
    PrependEnds(done, Returned([]));
    result := Returned(Dictionary(entries));
  }

  method AddProperty(entries: map<string, CF>, name: string, cfValue: CF, ghost done: seq<(Key, CF)>)
    returns (r: map<string, CF>)
    requires entries == AddAll(map[], done)
    ensures r == AddAll(map[], done + [(Name(name), cfValue)])
  {
    AddAllSnoc(map[], done, (Name(name), cfValue));
    r := entries;
    if cfValue != NoValue && name !in entries {
      r := entries[name := cfValue];
    }
  }

  /** What is converted so far, followed by the rest. */
  ghost function Prepend(done: seq<(Key, CF)>, rest: Outcome<seq<(Key, CF)>>): Outcome<seq<(Key, CF)>> {
    if rest.Returned? then Returned(done + rest.value) else rest
  }

  lemma PrependEnds(done: seq<(Key, CF)>, rest: Outcome<seq<(Key, CF)>>)
    ensures Prepend([], rest) == rest && Prepend(done, Returned([])) == Returned(done)
  {
    if rest.Returned? {
      assert [] + rest.value == rest.value;
    }
    assert done + [] == done;
  }

  /** One turn of either loop. */
  lemma KidTurn(w: World, kids: seq<(Key, Value)>, below: seq<nat>, fuel: nat, done: seq<(Key, CF)>)
    requires kids != []
    ensures Prepend(done, ConvKids(w, kids, below, fuel)) ==
            match Conv(w, kids[0].1, below, fuel)
            case Unfinished => Unfinished
            case Crashed => Crashed
            case Returned(t) =>
              if kids[0].0.Index? && t == NoValue then Crashed
              else Prepend(done + [(kids[0].0, t)], ConvKids(w, kids[1..], below, fuel))
  {
    var rest := ConvKids(w, kids[1..], below, fuel);
    if rest.Returned? && Conv(w, kids[0].1, below, fuel).Returned? {
      var t := Conv(w, kids[0].1, below, fuel).value;
      assert done + [(kids[0].0, t)] + rest.value == done + ([(kids[0].0, t)] + rest.value);
    }
  }

  lemma EntryTurn(w: World, names: seq<string>, props: map<string, Value>, below: seq<nat>, fuel: nat, done: seq<(Key, CF)>)
    requires names != []
    ensures Prepend(done, ConvKids(w, NamedKids(names, props), below, fuel)) ==
            var rest := ConvKids(w, NamedKids(names[1..], props), below, fuel);
            if names[0] !in props then Prepend(done, rest) else
            match Conv(w, props[names[0]], below, fuel)
            case Unfinished => Unfinished
            case Crashed => Crashed
            case Returned(t) => Prepend(done + [(Name(names[0]), t)], rest)
  {
    var kids, more := NamedKids(names, props), NamedKids(names[1..], props);
    if names[0] in props {
      assert kids[0] == (Name(names[0]), props[names[0]]) && kids[1..] == more;
      KidTurn(w, kids, below, fuel, done);
    } else {
      assert kids == more;
    }
  }

  lemma {:induction false} SecondSnoc(kids: seq<(Key, CF)>, kid: (Key, CF))
    ensures Second(kids + [kid]) == Second(kids) + [kid.1]
  {
    SecondAt(kids);
    SecondAt(kids + [kid]);
  }

  lemma {:induction false} AddAllSnoc(m: map<string, CF>, kids: seq<(Key, CF)>, kid: (Key, CF))
    requires kid.0.Name?
    ensures AddAll(m, kids + [kid]) == AddValue(AddAll(m, kids), kid.0.s, kid.1)
    decreases |kids|
  {
    if kids == [] {
      assert kids + [kid] == [kid];
    } else {
      assert (kids + [kid])[1..] == kids[1..] + [kid];
      AddAllSnoc(if kids[0].0.Name? then AddValue(m, kids[0].0.s, kids[0].1) else m, kids[1..], kid);
    }
  }
}

/** Property access on CF containers seen from JavaScript: CFJSObjectCopyProperty and
    CFJSObjectSetProperty of Source/JavaScriptGlue/JavaScriptGlue.cpp. */
module CfProperty {
  import opened Basics

  /** A CF value: a number made by the glue, or a value of the client's. `Client` with
      the number `0` is used for the object that GetCFNull returns. */
  datatype Item = Count(n: nat) | Client(ref: nat)

  const NULL: Item := Client(0)

  datatype Data = ArrayData(items: seq<Item>) | DictionaryData(entries: map<string, Item>) | StringData(length: nat) | OtherData

  /** CFStringGetIntValue, a number in the range of SInt32 for every string. */
  type IntValue = string -> int

  // ----- What the two callbacks compute -----

  function Read(parse: IntValue, d: Data, name: string): Option<Item> {
    match d
    case DictionaryData(m) =>
      if name == "length" then Some(Count(|m|)) else if name in m then Some(m[name]) else None
    case ArrayData(s) =>
      if name == "length" then Some(Count(|s|))
      else if 0 <= parse(name) < |s| then Some(s[parse(name)]) else None
    case StringData(n) => if name == "length" then Some(Count(n)) else None
    case OtherData => None
  }

  /** Pads with null up to the index, then appends or overwrites. */
  function Put(s: seq<Item>, i: nat, v: Item): seq<Item>
    decreases i - |s|
  {
    if i < |s| then s[i := v]
    else if i == |s| then s + [v]
    else Put(s + [NULL], i, v)
  }

  /** A value without a CF counterpart removes a dictionary entry and clears an array slot. */
  function Write(parse: IntValue, d: Data, name: string, v: Option<Item>): Data {
    match d
    case DictionaryData(m) => DictionaryData(if v.Some? then m[name := v.value] else m - {name})
    case ArrayData(s) =>
      if parse(name) < 0 then d else ArrayData(Put(s, parse(name), if v.Some? then v.value else NULL))
    case _ => d
  }

  // ----- What can be read -----

  /** The indices of an array, and no others, read as its entries; nothing is beyond the end. */
  lemma ArrayReads(parse: IntValue, s: seq<Item>, name: string, v: Item)
    requires name != "length"
    ensures Read(parse, ArrayData(s), name) == Some(v) <==> 0 <= parse(name) < |s| && s[parse(name)] == v
  {
  }

  lemma DictionaryReads(parse: IntValue, m: map<string, Item>, name: string, v: Item)
    requires name != "length"
    ensures Read(parse, DictionaryData(m), name) == Some(v) <==> name in m && m[name] == v
  {
  }

  /** "length" reads as the number of entries, or of the characters of a string; a string has
      no other property, and other data has none. */
  lemma LengthReads(parse: IntValue, d: Data, n: nat)
    ensures Read(parse, d, "length") == Some(Count(n)) <==>
              (match d
               case ArrayData(s) => n == |s|
               case DictionaryData(m) => n == |m|
               case StringData(k) => n == k
               case OtherData => false)
    ensures forall name, v :: (d.StringData? && name != "length") || d.OtherData? ==> Read(parse, d, name) != Some(v)
  {
  }

  /** Only arrays and dictionaries can be written to. */
  lemma WritesNowhereElse(parse: IntValue, d: Data, name: string, v: Option<Item>)
    requires d.StringData? || d.OtherData?
    ensures Write(parse, d, name, v) == d
  {
  }

  // ----- One write -----

  lemma {:induction false} PutIs(s: seq<Item>, i: nat, v: Item)
    ensures |Put(s, i, v)| == if i < |s| then |s| else i + 1
    ensures forall j :: 0 <= j < |Put(s, i, v)| ==>
              Put(s, i, v)[j] == if j == i then v else if j < |s| then s[j] else NULL
    decreases i - |s|
  {
    if i > |s| {
      PutIs(s + [NULL], i, v);
    }
  }

  /** A value is read back under the name it was written to, except under a negative
      index, and except under "length", which always reads as the size. */
  lemma ReadBack(parse: IntValue, d: Data, name: string, v: Item)
    requires d.ArrayData? || d.DictionaryData?
    ensures var d' := Write(parse, d, name, Some(v));
            Read(parse, d', name) == Some(v) <==>
              if name == "length" then v == Count(if d'.ArrayData? then |d'.items| else |d'.entries|)
              else d.DictionaryData? || parse(name) >= 0
  {
    if d.ArrayData? && parse(name) >= 0 {
      PutIs(d.items, parse(name), v);
    }
  }

  /** Other names read as before; a slot that came into being in between reads as null. */
  lemma OtherNamesKeep(parse: IntValue, d: Data, name: string, v: Option<Item>, other: string)
    requires other != "length" && other != name
    requires d.ArrayData? ==> parse(other) != parse(name)
    ensures var before, after := Read(parse, d, other), Read(parse, Write(parse, d, name, v), other);
            after == before ||
            (d.ArrayData? && before == None && |d.items| <= parse(other) < parse(name) && after == Some(NULL))
  {
    if d.ArrayData? && parse(name) >= 0 {
      PutIs(d.items, parse(name), if v.Some? then v.value else NULL);
    }
  }

  /** Assigning to the length of an array, a name without digits, does not set its length:
      the value lands in the first slot, which an empty array gets. */
  lemma LengthAssignmentOverwritesFirst(parse: IntValue, s: seq<Item>, v: Item)
    requires parse("length") == 0
    ensures Write(parse, ArrayData(s), "length", Some(v)) == ArrayData(if s == [] then [v] else s[0 := v])
    ensures Read(parse, Write(parse, ArrayData(s), "length", Some(v)), "length") == Some(Count(if s == [] then 1 else |s|))
  {
  }

  // ----- Any sequence of writes -----

  /** A call of SetProperty; no value stands for one without a CF counterpart. */
  datatype Op = Op(name: string, value: Option<Item>)

  function WriteAll(parse: IntValue, d: Data, ops: seq<Op>): (r: Data)
    ensures d.ArrayData? ==> r.ArrayData?
    ensures d.DictionaryData? ==> r.DictionaryData?
  {
    if ops == [] then d else
    var last := ops[|ops| - 1];
    Write(parse, WriteAll(parse, d, ops[..|ops| - 1]), last.name, last.value)
  }

  /** One more than the largest index written; negative indices are ignored. */
  function Extent(parse: IntValue, ops: seq<Op>): nat {
    if ops == [] then 0 else
    var rest, i := Extent(parse, ops[..|ops| - 1]), parse(ops[|ops| - 1].name);
    if i >= rest then i + 1 else rest
  }

  /** After any writes, the length of an array is the larger of the old length and the
      extent, and reads as such. */
  lemma {:induction false} WritesLength(parse: IntValue, s: seq<Item>, ops: seq<Op>)
    ensures var n := |WriteAll(parse, ArrayData(s), ops).items|;
            && n == (if |s| < Extent(parse, ops) then Extent(parse, ops) else |s|)
            && Read(parse, WriteAll(parse, ArrayData(s), ops), "length") == Some(Count(n))
  {
    if ops != [] {
      var front, last := ops[..|ops| - 1], ops[|ops| - 1];
      WritesLength(parse, s, front);
      if parse(last.name) >= 0 {
        PutIs(WriteAll(parse, ArrayData(s), front).items, parse(last.name), if last.value.Some? then last.value.value else NULL);
      }
    }
  }

  /** The write goes to the place that the name denotes. */
  predicate Hits(parse: IntValue, d: Data, op: Op, name: string) {
    if d.ArrayData? then parse(op.name) == parse(name) else op.name == name
  }

  ghost predicate LastHit(parse: IntValue, d: Data, ops: seq<Op>, name: string, k: nat) {
    && k < |ops| && Hits(parse, d, ops[k], name)
    && forall j :: k < j < |ops| ==> !Hits(parse, d, ops[j], name)
  }

  ghost predicate NoHit(parse: IntValue, d: Data, ops: seq<Op>, name: string) {
    forall j :: 0 <= j < |ops| ==> !Hits(parse, d, ops[j], name)
  }

  /** What one write makes a name read as. */
  lemma OneWrite(parse: IntValue, d: Data, op: Op, name: string)
    requires d.ArrayData? || d.DictionaryData?
    requires name != "length" && (d.ArrayData? ==> parse(name) >= 0)
    ensures var d' := Write(parse, d, op.name, op.value);
            Read(parse, d', name) ==
              if Hits(parse, d, op, name) then (if d.ArrayData? && op.value.None? then Some(NULL) else op.value)
              else if d.ArrayData? && |d.items| <= parse(name) < |d'.items| then Some(NULL)
              else Read(parse, d, name)
  {
    if d.ArrayData? && parse(op.name) >= 0 {
      PutIs(d.items, parse(op.name), if op.value.Some? then op.value.value else NULL);
    }
  }

  /** After any writes, a name reads as the last value that was written to its place: a
      value without a CF counterpart reads as null in an array, and has removed the entry
      of a dictionary. */
  lemma {:induction false} ReadsLastWrite(parse: IntValue, d: Data, ops: seq<Op>, name: string, k: nat)
    requires d.ArrayData? || d.DictionaryData?
    requires name != "length" && (d.ArrayData? ==> parse(name) >= 0) && LastHit(parse, d, ops, name, k)
    ensures Read(parse, WriteAll(parse, d, ops), name)
         == if d.ArrayData? && ops[k].value.None? then Some(NULL) else ops[k].value
    decreases |ops|
  {
    var front, last := ops[..|ops| - 1], ops[|ops| - 1];
    var mid := WriteAll(parse, d, front);
    OneWrite(parse, mid, last, name);
    if k < |front| {
      assert LastHit(parse, d, front, name, k);
      ReadsLastWrite(parse, d, front, name, k);
      assert !Hits(parse, d, last, name);
    }
  }

  /** A name whose place was not written reads as before, or as null if the array has grown
      past it; a negative index reads as nothing. */
  lemma {:induction false} ReadsUnwritten(parse: IntValue, d: Data, ops: seq<Op>, name: string)
    requires d.ArrayData? || d.DictionaryData?
    requires name != "length" && (NoHit(parse, d, ops, name) || (d.ArrayData? && parse(name) < 0))
    ensures Read(parse, WriteAll(parse, d, ops), name) ==
              if d.ArrayData? && |d.items| <= parse(name) < |WriteAll(parse, d, ops).items| then Some(NULL)
              else Read(parse, d, name)
    decreases |ops|
  {
    if ops != [] && !(d.ArrayData? && parse(name) < 0) {
      var front, last := ops[..|ops| - 1], ops[|ops| - 1];
      assert NoHit(parse, d, front, name);
      ReadsUnwritten(parse, d, front, name);
      OneWrite(parse, WriteAll(parse, d, front), last, name);
      if d.ArrayData? {
        WritesLength(parse, d.items, front);
        WritesLength(parse, d.items, ops);
      }
    }
  }

  // ----- The code -----

  /** A mutable CF container. */
  class Container {
    var data: Data

    constructor (d: Data)
      ensures data == d
    {
      data := d;
    }

    method CopyProperty(parse: IntValue, name: string) returns (r: Option<Item>)
      ensures r == Read(parse, data, name)
    {
      r := None;
      if data.DictionaryData? {
        if name == "length" {
          r := Some(Count(|data.entries|));
        } else if name in data.entries {
          r := Some(data.entries[name]);
        }
      } else if data.ArrayData? {
        if name == "length" {
          r := Some(Count(|data.items|));
        } else {
          var index := parse(name);
          var arrayCount := |data.items|;
          if index >= 0 && index < arrayCount {
            r := Some(data.items[index]);
          }
        }
      } else if data.StringData? && name == "length" {
        r := Some(Count(data.length));
      }
    }

    method SetProperty(parse: IntValue, name: string, value: Option<Item>)
      modifies this
      ensures data == Write(parse, old(data), name, value)
    {
      if value.Some? {
        if data.DictionaryData? {
          data := DictionaryData(data.entries[name := value.value]);
        } else if data.ArrayData? {
          SetIndex(parse(name), value.value);
        }
      } else {
        if data.DictionaryData? {
          data := DictionaryData(data.entries - {name});
        } else if data.ArrayData? {
          SetIndex(parse(name), NULL);
        }
      }
    }

    /** The padding loop, and CFArraySetValueAtIndex, which appends at the count. */
    method SetIndex(index: int, value: Item)
      requires data.ArrayData?
      modifies this
      ensures data == if index < 0 then old(data) else ArrayData(Put(old(data).items, index, value))
    {
      var arrayCount := |data.items|;
      if index >= 0 {
        while arrayCount < index
          invariant data.ArrayData? && arrayCount == |data.items|
          invariant Put(data.items, index, value) == Put(old(data).items, index, value)
        {
          data := ArrayData(data.items + [NULL]);
          arrayCount := arrayCount + 1;
        }
        if index == |data.items| {
          data := ArrayData(data.items + [value]);
        } else {
          data := ArrayData(data.items[index := value]);
        }
      }
    }
  }
}

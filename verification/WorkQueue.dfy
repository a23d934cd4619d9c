/** The work queue of Tools/DumpRenderTree/WorkQueue.cpp. */
module WorkQueue {
  import opened Basics

  /** An item is known by its arrival number; `script` says what invoking it does. */
  datatype Item = Item(arrival: nat, script: nat)

  /** What an item may do to the queue while it is invoked. */
  datatype Action = Enqueue(script: nat) | SetFrozen(frozen: bool) | ClearQueue

  datatype Behaviour = Behaviour(actions: seq<Action>, loads: bool)

  type Scripts = nat -> Behaviour

  const QUEUE_LENGTH: nat := 1024

  /** The queue and its history: `handed` items were handed in so far, those in `out` have
      been returned by dequeue and not been deleted. `start` is the index of the first
      pending item; the array is never wrapped around. */
  datatype State = State(start: nat, pending: seq<Item>, frozen: bool,
                         handed: nat, out: set<nat>, deleted: seq<nat>, invoked: seq<Item>)

  // ----- The abstract queue -----

  /** None stands for the failure of the assertion that the array has room. */
  function QueueStep(q: State, script: nat): Option<State> {
    if q.start + |q.pending| >= QUEUE_LENGTH then None
    else if q.frozen then Some(q.(handed := q.handed + 1, deleted := q.deleted + [q.handed]))
    else Some(q.(handed := q.handed + 1, pending := q.pending + [Item(q.handed, script)]))
  }

  function DequeueStep(q: State): State
    requires q.pending != []
  {
    q.(start := q.start + 1, pending := q.pending[1..], out := q.out + {q.pending[0].arrival})
  }

  function DeleteStep(q: State, n: nat): State {
    q.(out := q.out - {n}, deleted := q.deleted + [n])
  }

  function Arrivals(items: seq<Item>): seq<nat> {
    if items == [] then [] else [items[0].arrival] + Arrivals(items[1..])
  }

  function ClearStep(q: State): State {
    q.(start := 0, pending := [], deleted := q.deleted + Arrivals(q.pending))
  }

  function Act(q: State, a: Action): Option<State> {
    match a
    case Enqueue(script) => QueueStep(q, script)
    case SetFrozen(b) => Some(q.(frozen := b))
    case ClearQueue => Some(ClearStep(q))
  }

  function ActAll(q: State, actions: seq<Action>): Option<State>
    decreases |actions|
  {
    if actions == [] then Some(q) else
    var r := Act(q, actions[0]);
    if r.None? then None else ActAll(r.value, actions[1..])
  }

  /** One turn of the loop of processWork: dequeue, invoke, delete. */
  function Turn(q: State, scripts: Scripts): Option<State>
    requires q.pending != []
  {
    var item := q.pending[0];
    var taken := DequeueStep(q);
    var r := ActAll(taken.(invoked := taken.invoked + [item]), scripts(item.script).actions);
    if r.None? then None else Some(DeleteStep(r.value, item.arrival))
  }

  /** Invoking the item clears the queue. */
  ghost predicate Clears(scripts: Scripts, item: Item) { ClearQueue in scripts(item.script).actions }

  ghost predicate Loads(scripts: Scripts, item: Item) { scripts(item.script).loads }

  // ----- The invariant -----

  ghost predicate IsPending(q: State, n: nat) {
    exists i :: 0 <= i < |q.pending| && q.pending[i].arrival == n
  }

  /** An item is in one place: pending, out, or deleted. */
  ghost predicate Placed(q: State, n: nat) {
    if IsPending(q, n) then n !in q.out && n !in q.deleted else n in q.out <==> n !in q.deleted
  }

  ghost predicate Increasing(items: seq<Item>) {
    forall i, j :: 0 <= i < j < |items| ==> items[i].arrival < items[j].arrival
  }

  ghost predicate Below(items: seq<Item>, n: nat) {
    forall i :: 0 <= i < |items| ==> items[i].arrival < n
  }

  /** Each item handed in is in one place, and was deleted at most once. */
  ghost predicate Conserved(q: State) {
    && (forall n :: n in q.out ==> n < q.handed)
    && (forall i :: 0 <= i < |q.deleted| ==> q.deleted[i] < q.handed)
    && Distinct(q.deleted)
    && (forall n: nat :: n < q.handed ==> Placed(q, n))
  }

  /** The items invoked so far, followed by those pending, stand in order of arrival. */
  ghost predicate InOrder(q: State) {
    Increasing(q.invoked + q.pending) && Below(q.invoked + q.pending, q.handed)
  }

  ghost predicate Inv(q: State) {
    q.start + |q.pending| <= QUEUE_LENGTH && InOrder(q) && Conserved(q)
  }

  lemma QueueKeeps(q: State, script: nat)
    requires Inv(q) && QueueStep(q, script).Some?
    ensures Inv(QueueStep(q, script).value)
  {
    var r := QueueStep(q, script).value;
    NotPending(q, q.handed);
    if q.frozen {
      assert r.deleted[|q.deleted|] == q.handed;
      forall n: nat | n < r.handed
        ensures Placed(r, n)
      {
        assert IsPending(r, n) <==> IsPending(q, n);
        assert n < q.handed ==> Placed(q, n);
      }
    } else {
      var item := Item(q.handed, script);
      assert r.invoked + r.pending == (q.invoked + q.pending) + [item];
      forall n: nat | n < r.handed
        ensures Placed(r, n)
      {
        PendingAppend(q, r, item, n);
        assert n < q.handed ==> Placed(q, n);
      }
    }
  }

  lemma PendingAppend(q: State, r: State, item: Item, n: nat)
    requires r.pending == q.pending + [item]
    ensures IsPending(r, n) <==> IsPending(q, n) || n == item.arrival
  {
    assert r.pending[|q.pending|] == item;
    assert forall i :: 0 <= i < |q.pending| ==> r.pending[i] == q.pending[i];
  }

  lemma NotPending(q: State, n: nat)
    requires InOrder(q) && n >= q.handed
    ensures !IsPending(q, n)
  {
    assert forall i :: 0 <= i < |q.pending| ==> (q.invoked + q.pending)[|q.invoked| + i] == q.pending[i];
  }

  /** Taking the first item and recording that it is invoked. */
  function Taken(q: State): State
    requires q.pending != []
  {
    DequeueStep(q).(invoked := q.invoked + [q.pending[0]])
  }

  lemma TakenKeeps(q: State)
    requires Inv(q) && q.pending != []
    ensures Inv(Taken(q)) && q.pending[0].arrival in Taken(q).out
  {
    var r, first := Taken(q), q.pending[0];
    assert r.invoked + r.pending == q.invoked + q.pending;
    assert (q.invoked + q.pending)[|q.invoked|] == first;
    forall n: nat | n < r.handed
      ensures Placed(r, n)
    {
      PendingFirst(q, r, n);
      assert Placed(q, n);
    }
  }

  lemma PendingFirst(q: State, r: State, n: nat)
    requires q.pending != [] && r.pending == q.pending[1..] && Increasing(q.invoked + q.pending)
    ensures IsPending(q, n) <==> IsPending(r, n) || n == q.pending[0].arrival
    ensures n == q.pending[0].arrival ==> !IsPending(r, n)
  {
    var all, k := q.invoked + q.pending, |q.invoked|;
    assert all[k] == q.pending[0];
    forall i | 0 <= i < |r.pending|
      ensures r.pending[i] == q.pending[i + 1] && q.pending[0].arrival < r.pending[i].arrival
    {
      assert all[k + i + 1] == q.pending[i + 1];
    }
    if IsPending(q, n) && n != q.pending[0].arrival {
      var i :| 0 <= i < |q.pending| && q.pending[i].arrival == n;
      assert r.pending[i - 1] == q.pending[i];
    }
  }

  lemma DequeueKeeps(q: State)
    requires Inv(q) && q.pending != []
    ensures Inv(DequeueStep(q))
  {
    TakenKeeps(q);
    var r, t := DequeueStep(q), Taken(q);
    var all := q.invoked + q.pending;
    forall i | 0 <= i < |r.invoked + r.pending|
      ensures (r.invoked + r.pending)[i] == all[if i < |q.invoked| then i else i + 1]
    {
    }
    forall n: nat | n < r.handed
      ensures Placed(r, n)
    {
      assert Placed(t, n) && (IsPending(r, n) <==> IsPending(t, n));
    }
  }

  lemma DeleteKeeps(q: State, n: nat)
    requires Inv(q) && n in q.out
    ensures Inv(DeleteStep(q, n))
  {
    var r := DeleteStep(q, n);
    assert Placed(q, n);
    forall m: nat | m < r.handed
      ensures Placed(r, m)
    {
      assert Placed(q, m);
      assert IsPending(r, m) <==> IsPending(q, m);
    }
  }

  lemma {:induction false} ArrivalsAre(items: seq<Item>)
    ensures |Arrivals(items)| == |items| && forall i :: 0 <= i < |items| ==> Arrivals(items)[i] == items[i].arrival
  {
    if items != [] {
      ArrivalsAre(items[1..]);
    }
  }

  lemma {:induction false} ArrivalsSnoc(items: seq<Item>, k: nat)
    requires k < |items|
    ensures Arrivals(items[..k + 1]) == Arrivals(items[..k]) + [items[k].arrival]
  {
    ArrivalsAre(items[..k + 1]);
    ArrivalsAre(items[..k]);
  }

  lemma ClearKeeps(q: State)
    requires Inv(q)
    ensures Inv(ClearStep(q)) && ClearStep(q).out == q.out
  {
    var r := ClearStep(q);
    ClearInOrder(q);
    ClearDeletes(q);
    forall n: nat | n < r.handed
      ensures Placed(r, n)
    {
      assert Placed(q, n) && !IsPending(r, n);
      InArrivals(q, n);
    }
  }

  lemma ClearInOrder(q: State)
    requires InOrder(q)
    ensures InOrder(ClearStep(q))
  {
    var all := q.invoked + q.pending;
    assert forall i :: 0 <= i < |q.invoked| ==> all[i] == q.invoked[i];
    assert q.invoked + [] == q.invoked;
  }

  lemma ClearDeletes(q: State)
    requires Inv(q)
    ensures Distinct(ClearStep(q).deleted)
    ensures forall i :: 0 <= i < |ClearStep(q).deleted| ==> ClearStep(q).deleted[i] < q.handed
  {
    var a := Arrivals(q.pending);
    PendingDistinct(q);
    forall n | n in a
      ensures n < q.handed && n !in q.deleted
    {
      InArrivals(q, n);
      OnePlace(q, n);
    }
    DistinctConcat(q.deleted, a);
    forall i | 0 <= i < |q.deleted + a|
      ensures (q.deleted + a)[i] < q.handed
    {
      assert i >= |q.deleted| ==> a[i - |q.deleted|] in a;
    }
  }

  lemma InArrivals(q: State, n: nat)
    ensures IsPending(q, n) <==> n in Arrivals(q.pending)
  {
    ArrivalsAre(q.pending);
    if IsPending(q, n) {
      var i :| 0 <= i < |q.pending| && q.pending[i].arrival == n;
      assert Arrivals(q.pending)[i] == n;
    }
  }

  lemma FreezeKeeps(q: State, b: bool)
    requires Inv(q)
    ensures Inv(q.(frozen := b))
  {
    var r := q.(frozen := b);
    forall n: nat | n < r.handed
      ensures Placed(r, n)
    {
      assert Placed(q, n) && (IsPending(r, n) <==> IsPending(q, n));
    }
  }

  lemma {:induction false} ActAllKeeps(q: State, actions: seq<Action>)
    requires Inv(q) && ActAll(q, actions).Some?
    ensures Inv(ActAll(q, actions).value)
    ensures ActAll(q, actions).value.out == q.out && ActAll(q, actions).value.invoked == q.invoked
    ensures ClearQueue !in actions ==> ActAll(q, actions).value.start == q.start
    decreases |actions|
  {
    if actions != [] {
      match actions[0] {
        case Enqueue(script) => QueueKeeps(q, script);
        case SetFrozen(b) => FreezeKeeps(q, b);
        case ClearQueue => ClearKeeps(q);
      }
      ActAllKeeps(Act(q, actions[0]).value, actions[1..]);
    }
  }

  lemma TurnKeeps(q: State, scripts: Scripts)
    requires Inv(q) && q.pending != [] && Turn(q, scripts).Some?
    ensures var r := Turn(q, scripts).value;
            Inv(r) && r.out == q.out && r.invoked == q.invoked + [q.pending[0]]
    ensures !Clears(scripts, q.pending[0]) ==> Turn(q, scripts).value.start == q.start + 1
  {
    var first := q.pending[0];
    TakenKeeps(q);
    ActAllKeeps(Taken(q), scripts(first.script).actions);
    DeleteKeeps(ActAll(Taken(q), scripts(first.script).actions).value, first.arrival);
    assert (q.invoked + q.pending)[|q.invoked|] == first;
    assert Placed(q, first.arrival) && IsPending(q, first.arrival);
  }

  // ----- Nothing is lost, nothing is deleted twice -----

  lemma {:induction false} CountUpTo(n: nat, t: set<nat>)
    requires forall x: nat :: x in t <==> x < n
    ensures |t| == n
  {
    if n == 0 {
      assert t == {};
    } else {
      CountUpTo(n - 1, t - {n - 1});
    }
  }

  lemma ThreeParts(a: seq<nat>, out: set<nat>, d: seq<nat>, n: nat)
    requires Distinct(a) && Distinct(d)
    requires forall x: nat :: x in a || x in out || x in d <==> x < n
    requires forall x: nat :: !(x in a && x in out) && !(x in a && x in d) && !(x in out && x in d)
    ensures n == |a| + |out| + |d|
  {
    var a', d' := set x | x in a, set x | x in d;
    DistinctCount(a, a');
    DistinctCount(d, d');
    CountUpTo(n, a' + out + d');
    assert a' !! out && (a' + out) !! d';
  }

  /** The items handed in are those pending, those returned to a caller and those deleted. */
  lemma ItemsAddUp(q: State)
    requires Inv(q)
    ensures q.handed == |q.pending| + |q.out| + |q.deleted|
  {
    var a := Arrivals(q.pending);
    ArrivalsAre(q.pending);
    PendingDistinct(q);
    forall x: nat
      ensures x in a || x in q.out || x in q.deleted <==> x < q.handed
      ensures !(x in a && x in q.out) && !(x in a && x in q.deleted) && !(x in q.out && x in q.deleted)
    {
      InArrivals(q, x);
      OnePlace(q, x);
    }
    ThreeParts(a, q.out, q.deleted, q.handed);
  }

  lemma OnePlace(q: State, n: nat)
    requires Inv(q)
    ensures IsPending(q, n) || n in q.out || n in q.deleted <==> n < q.handed
    ensures !(IsPending(q, n) && n in q.out) && !(IsPending(q, n) && n in q.deleted) && !(n in q.out && n in q.deleted)
  {
    if n < q.handed {
      assert Placed(q, n);
    } else {
      NotPending(q, n);
    }
  }

  lemma PendingDistinct(q: State)
    requires InOrder(q)
    ensures Distinct(Arrivals(q.pending))
  {
    ArrivalsAre(q.pending);
    var all, k := q.invoked + q.pending, |q.invoked|;
    assert forall i :: 0 <= i < |q.pending| ==> all[k + i] == q.pending[i];
  }

  // ----- Freezing -----

  ghost predicate Queues(a: Action) { a.Enqueue? }

  /** Whatever is done to a frozen queue that does not thaw it, clearing included: nothing
      joins the pending items, and every item handed in is deleted at once. */
  lemma {:induction false} FrozenDrops(q: State, actions: seq<Action>)
    requires q.frozen && SetFrozen(false) !in actions && ActAll(q, actions).Some?
    ensures var r := ActAll(q, actions).value;
            && r.frozen && r.pending == (if ClearQueue in actions then [] else q.pending)
            && q.deleted <= r.deleted && q.handed <= r.handed
            && forall n: nat :: q.handed <= n < r.handed ==> n in r.deleted
    decreases |actions|
  {
    if actions != [] {
      var q' := Act(q, actions[0]).value;
      assert actions == [actions[0]] + actions[1..];
      FrozenDrops(q', actions[1..]);
      var r := ActAll(q, actions).value;
      if actions[0].Enqueue? {
        assert q'.deleted[|q.deleted|] == q.handed;
        assert r.deleted[|q.deleted|] == q.handed;
      }
    }
  }

  /** An item that is queued on a full array fails the assertion, frozen or not. */
  lemma {:induction false} FrozenFails(q: State, actions: seq<Action>)
    requires q.frozen && SetFrozen(false) !in actions && ClearQueue !in actions
    ensures ActAll(q, actions).Some? <==>
              (q.start + |q.pending| < 1024 || forall i :: 0 <= i < |actions| ==> !Queues(actions[i]))
    decreases |actions|
  {
    if actions != [] {
      assert actions == [actions[0]] + actions[1..];
      assert Queues(actions[0]) <==> actions[0].Enqueue?;
      assert forall i :: 0 < i < |actions| ==> actions[i] == actions[1..][i - 1];
      var r := Act(q, actions[0]);
      if r.Some? {
        FrozenFails(r.value, actions[1..]);
      }
    }
  }

  function Enqueues(scripts: seq<nat>): (r: seq<Action>)
    ensures |r| == |scripts| && forall i :: 0 <= i < |r| ==> r[i] == Enqueue(scripts[i])
  {
    seq(|scripts|, (i: int) requires 0 <= i < |scripts| => Enqueue(scripts[i]))
  }

  /** On a queue that is not frozen, items join the pending ones in the order in which they
      are handed in, as long as there is room for all of them among the 1024 places. */
  lemma {:induction false} UnfrozenAppends(q: State, scripts: seq<nat>)
    requires !q.frozen && q.start + |q.pending| <= 1024
    ensures ActAll(q, Enqueues(scripts)).Some? <==> q.start + |q.pending| + |scripts| <= 1024
    ensures ActAll(q, Enqueues(scripts)).Some? ==>
              var r := ActAll(q, Enqueues(scripts)).value;
              && !r.frozen && r.start == q.start && r.deleted == q.deleted && r.handed == q.handed + |scripts|
              && |r.pending| == |q.pending| + |scripts| && q.pending <= r.pending
              && forall i :: 0 <= i < |scripts| ==> r.pending[|q.pending| + i] == Item(q.handed + i, scripts[i])
    decreases |scripts|
  {
    if scripts != [] {
      var actions, more := Enqueues(scripts), scripts[1..];
      assert actions[1..] == Enqueues(more);
      if q.start + |q.pending| < 1024 {
        var q' := QueueStep(q, scripts[0]).value;
        assert q'.pending[|q.pending|] == Item(q.handed, scripts[0]);
        UnfrozenAppends(q', more);
        if ActAll(q', Enqueues(more)).Some? {
          var r := ActAll(q', Enqueues(more)).value;
          assert q.pending <= q'.pending <= r.pending;
          forall i | 0 <= i < |scripts|
            ensures r.pending[|q.pending| + i] == Item(q.handed + i, scripts[i])
          {
            if i > 0 {
              assert r.pending[|q'.pending| + (i - 1)] == Item(q'.handed + (i - 1), more[i - 1]);
            } else {
              assert r.pending[|q.pending|] == q'.pending[|q.pending|];
            }
          }
        }
      }
    }
  }

  /** Freezing and thawing take hold at once. */
  lemma FreezeTakesHold(q: State, actions: seq<Action>, scripts: seq<nat>)
    requires q.start + |q.pending| <= 1024 && SetFrozen(false) !in actions && ClearQueue !in actions
    ensures var r := ActAll(q, [SetFrozen(true)] + actions); r.Some? ==> r.value.pending == q.pending
    ensures var r := ActAll(q, [SetFrozen(false)] + Enqueues(scripts));
            && (r.Some? <==> q.start + |q.pending| + |scripts| <= 1024)
            && (r.Some? ==> |r.value.pending| == |q.pending| + |scripts|)
  {
    assert ([SetFrozen(true)] + actions)[1..] == actions;
    assert ([SetFrozen(false)] + Enqueues(scripts))[1..] == Enqueues(scripts);
    if ActAll(q.(frozen := true), actions).Some? {
      FrozenDrops(q.(frozen := true), actions);
    }
    UnfrozenAppends(q.(frozen := false), scripts);
  }

  // ----- processWork -----

  /** How far the loop has come: an assertion failed while an item was invoked; it ended,
      with the queue drained or after an item that loads; or it has another turn to take. */
  datatype Progress = Failed | Ended(state: State, drained: bool) | Going(state: State)

  /** The loop for at most n turns. */
  function Loop(q: State, scripts: Scripts, n: nat): Progress
    decreases n
  {
    if q.pending == [] then Ended(q, true)
    else if n == 0 then Going(q) else
    var r := Turn(q, scripts);
    if r.None? then Failed
    else if scripts(q.pending[0].script).loads then Ended(r.value, false)
    else Loop(r.value, scripts, n - 1)
  }

  /** The items that were invoked from q to r. */
  ghost predicate Invokes(q: State, r: State, now: seq<Item>) { r.invoked == q.invoked + now }

  ghost predicate NoneLoads(scripts: Scripts, now: seq<Item>) {
    forall i :: 0 <= i < |now| ==> !Loads(scripts, now[i])
  }

  /** When the loop ends, the result is true exactly when the queue is drained and no item
      invoked by this call started a load; otherwise the call stopped right after the first
      one that did. This holds whatever the items do. */
  lemma {:induction false} LoopOutcome(q: State, scripts: Scripts, n: nat) returns (now: seq<Item>)
    requires Inv(q) && Loop(q, scripts, n).Ended?
    ensures var r, drained := Loop(q, scripts, n).state, Loop(q, scripts, n).drained;
            && Inv(r) && r.out == q.out && Invokes(q, r, now)
            && (drained <==> r.pending == [] && NoneLoads(scripts, now))
            && (!drained ==> now != [] && Loads(scripts, now[|now| - 1]) && NoneLoads(scripts, now[..|now| - 1]))
    decreases n
  {
    if q.pending == [] {
      now := [];
    } else {
      TurnKeeps(q, scripts);
      var first, r := q.pending[0], Turn(q, scripts).value;
      if Loads(scripts, first) {
        now := [first];
        assert Loads(scripts, now[0]);
      } else {
        var rest := LoopOutcome(r, scripts, n - 1);
        now := [first] + rest;
        Prepended(scripts, first, rest);
      }
    }
  }

  lemma Prepended(scripts: Scripts, first: Item, rest: seq<Item>)
    requires !Loads(scripts, first)
    ensures NoneLoads(scripts, [first] + rest) <==> NoneLoads(scripts, rest)
    ensures rest != [] ==> (NoneLoads(scripts, ([first] + rest)[..|rest|]) <==> NoneLoads(scripts, rest[..|rest| - 1]))
  {
    var now := [first] + rest;
    assert forall i :: 0 <= i < |rest| ==> now[i + 1] == rest[i];
    if rest != [] {
      assert now[..|rest|] == [first] + rest[..|rest| - 1];
      var front := rest[..|rest| - 1];
      assert forall i :: 0 <= i < |front| ==> ([first] + front)[i + 1] == front[i];
    }
  }

  ghost predicate NoneClears(scripts: Scripts, now: seq<Item>) {
    forall i :: 0 <= i < |now| ==> !Clears(scripts, now[i])
  }

  /** A loop that is still going has invoked an item in every turn; the start index rises
      with every turn in which the item does not clear the queue. */
  lemma {:induction false} LoopGoing(q: State, scripts: Scripts, n: nat) returns (now: seq<Item>)
    requires Inv(q) && Loop(q, scripts, n).Going?
    ensures var r := Loop(q, scripts, n).state;
            && Inv(r) && r.pending != [] && Invokes(q, r, now) && |now| == n
            && (NoneClears(scripts, now) ==> r.start == q.start + n)
    decreases n
  {
    if n == 0 {
      now := [];
    } else {
      TurnKeeps(q, scripts);
      var first, r := q.pending[0], Turn(q, scripts).value;
      var rest := LoopGoing(r, scripts, n - 1);
      now := [first] + rest;
      if NoneClears(scripts, now) {
        assert !Clears(scripts, now[0]);
        assert forall i :: 0 <= i < |rest| ==> rest[i] == now[i + 1];
      }
    }
  }

  /** The loop cannot take as many turns as there is room behind the start index unless one
      of them clears the queue. */
  lemma EndsWithoutClear(q: State, scripts: Scripts) returns (now: seq<Item>, k: nat)
    requires Inv(q) && Loop(q, scripts, QUEUE_LENGTH - q.start).Going?
    ensures Invokes(q, Loop(q, scripts, QUEUE_LENGTH - q.start).state, now)
    ensures k < |now| == QUEUE_LENGTH - q.start && Clears(scripts, now[k])
  {
    now := LoopGoing(q, scripts, QUEUE_LENGTH - q.start);
    k :| 0 <= k < |now| && Clears(scripts, now[k]);
  }

  lemma {:induction false} LoopSplit(q: State, scripts: Scripts, m: nat, n: nat)
    requires Loop(q, scripts, m).Going?
    ensures Loop(q, scripts, m + n) == Loop(Loop(q, scripts, m).state, scripts, n)
    decreases m
  {
    if m > 0 {
      LoopSplit(Turn(q, scripts).value, scripts, m - 1, n);
    }
  }

  lemma {:induction false} GoingBefore(q: State, scripts: Scripts, m: nat, n: nat)
    requires m <= n && Loop(q, scripts, n).Going?
    ensures Loop(q, scripts, m).Going?
    decreases m
  {
    if m > 0 {
      GoingBefore(Turn(q, scripts).value, scripts, m - 1, n - 1);
    }
  }

  /** The loop takes turn number m, and the item of that turn clears the queue. */
  ghost predicate ClearsInTurn(q: State, scripts: Scripts, m: nat) {
    Loop(q, scripts, m).Going? && var r := Loop(q, scripts, m).state; r.pending != [] && Clears(scripts, r.pending[0])
  }

  ghost predicate ClearsFrom(q: State, scripts: Scripts, m: nat) {
    exists k: nat :: m <= k && ClearsInTurn(q, scripts, k)
  }

  ghost predicate ClearsForever(q: State, scripts: Scripts) { forall m: nat :: ClearsFrom(q, scripts, m) }

  ghost predicate RunsForever(q: State, scripts: Scripts) { forall n: nat :: Loop(q, scripts, n).Going? }

  /** The loop runs for ever exactly if items that clear the queue are invoked without end. */
  lemma RunsForeverIff(q: State, scripts: Scripts)
    requires Inv(q)
    ensures RunsForever(q, scripts) <==> ClearsForever(q, scripts)
  {
    if RunsForever(q, scripts) {
      forall m: nat
        ensures ClearsFrom(q, scripts, m)
      {
        var k := NextClear(q, scripts, m);
      }
    } else {
      var n: nat :| !Loop(q, scripts, n).Going?;
      forall k: nat | n <= k
        ensures !ClearsInTurn(q, scripts, k)
      {
        if Loop(q, scripts, k).Going? {
          GoingBefore(q, scripts, n, k);
        }
      }
      assert !ClearsFrom(q, scripts, n);
    }
  }

  lemma NextClear(q: State, scripts: Scripts, m: nat) returns (k: nat)
    requires Inv(q) && RunsForever(q, scripts)
    ensures m <= k && ClearsInTurn(q, scripts, k)
  {
    var now := LoopGoing(q, scripts, m);
    var r := Loop(q, scripts, m).state;
    LoopSplit(q, scripts, m, QUEUE_LENGTH - r.start);
    var j := ClearAmong(r, scripts, QUEUE_LENGTH - r.start);
    LoopSplit(q, scripts, m, j);
    k := m + j;
  }

  /** If every turn leaves the queue alone, the start index rises with each. */
  lemma {:induction false} ClearAmong(q: State, scripts: Scripts, n: nat) returns (j: nat)
    requires Inv(q) && Loop(q, scripts, n).Going? && q.start + n >= QUEUE_LENGTH
    ensures j < n && ClearsInTurn(q, scripts, j)
    decreases n
  {
    if Clears(scripts, q.pending[0]) {
      j := 0;
    } else {
      TurnKeeps(q, scripts);
      j := ClearAmong(Turn(q, scripts).value, scripts, n - 1);
      j := j + 1;
    }
  }

  /** So it ends if no item clears the queue. */
  lemma NeverClearingEnds(q: State, scripts: Scripts)
    requires Inv(q) && forall item :: !Clears(scripts, item)
    ensures !Loop(q, scripts, QUEUE_LENGTH - q.start).Going?
  {
    if Loop(q, scripts, QUEUE_LENGTH - q.start).Going? {
      var now, k := EndsWithoutClear(q, scripts);
    }
  }

  /** An item that clears the queue and queues itself again: after any number of turns the
      loop has another one to take, and the array is never full. */
  lemma {:induction false} ClearingItemNeverEnds(q: State, scripts: Scripts, n: nat)
    requires scripts(0) == Behaviour([ClearQueue, Enqueue(0)], false)
    requires q.start == 0 && |q.pending| == 1 && q.pending[0].script == 0 && !q.frozen
    ensures Loop(q, scripts, n).Going?
    decreases n
  {
    if n > 0 {
      var item := q.pending[0];
      var a := DequeueStep(q).(invoked := q.invoked + [item]);
      var b := ClearStep(a);
      var actions := scripts(0).actions;
      assert actions[1..] == [Enqueue(0)] && actions[1..][1..] == [];
      assert ActAll(a, actions) == ActAll(b, [Enqueue(0)]);
      assert ActAll(b, [Enqueue(0)]) == QueueStep(b, 0);
      ClearingItemNeverEnds(Turn(q, scripts).value, scripts, n - 1);
    }
  }

  // ----- The code -----

  datatype Slot = Null | Ptr(item: Item)

  class Queue {
    const theQueue: array<Slot>
    var startOfQueue: nat
    var endOfQueue: nat
    var frozen: bool
    /** How many items were handed in: the arrival number of the next. */
    var handed: nat
    /** The abstract queue with its history. */
    ghost var q: State

    ghost predicate Valid()
      reads this, theQueue
    {
      && theQueue.Length == QUEUE_LENGTH && startOfQueue <= endOfQueue <= QUEUE_LENGTH
      && q.start == startOfQueue && q.frozen == frozen && q.handed == handed && |q.pending| == endOfQueue - startOfQueue
      && (forall i :: startOfQueue <= i < endOfQueue ==> theQueue[i] == Ptr(q.pending[i - startOfQueue]))
      && Inv(q)
    }

    constructor ()
      ensures Valid() && fresh(theQueue) && q == State(0, [], false, 0, {}, [], [])
    {
      theQueue := new Slot[QUEUE_LENGTH](_ => Null);
      startOfQueue, endOfQueue, frozen, handed, q := 0, 0, false, 0, State(0, [], false, 0, {}, [], []);
    }

    /** Hands in an item. `ok` is false when the assertion that the array has room fails. */
    method Enqueue(script: nat) returns (ok: bool)
      requires Valid()
      modifies this, theQueue
      ensures Valid() && (ok <==> QueueStep(old(q), script).Some?)
      ensures q == if ok then QueueStep(old(q), script).value else old(q)
    {
      ok := endOfQueue < QUEUE_LENGTH;
      if ok {
        QueueKeeps(q, script);
        if !frozen {
          theQueue[endOfQueue] := Ptr(Item(handed, script));
          endOfQueue := endOfQueue + 1;
        }
        handed := handed + 1;
        q := QueueStep(q, script).value;
      }
    }

    /** The caller owns the item that is returned. */
    method Dequeue() returns (slot: Slot)
      requires Valid()
      modifies this
      ensures slot == if old(q).pending == [] then Null else Ptr(old(q).pending[0])
      ensures Valid() && q == if old(q).pending == [] then old(q) else DequeueStep(old(q))
    {
      if startOfQueue == endOfQueue {
        return Null;
      }
      DequeueKeeps(q);
      slot := theQueue[startOfQueue];
      startOfQueue := startOfQueue + 1;
      q := DequeueStep(q);
    }

    method Count() returns (n: nat)
      requires Valid()
      ensures n == |q.pending|
    {
      n := endOfQueue - startOfQueue;
    }

    method Clear()
      requires Valid()
      modifies this, theQueue
      ensures Valid() && q == ClearStep(old(q))
    {
      ClearKeeps(q);
      ghost var log := q.deleted;
      assert q.pending[..0] == [];
      for i := startOfQueue to endOfQueue
        modifies theQueue
        invariant forall j :: i <= j < endOfQueue ==> theQueue[j] == Ptr(q.pending[j - startOfQueue])
        invariant log == q.deleted + Arrivals(q.pending[..i - startOfQueue])
      {
        log := log + [theQueue[i].item.arrival];
        theQueue[i] := Null;
        ArrivalsSnoc(q.pending, i - startOfQueue);
      }
      assert q.pending[..|q.pending|] == q.pending;
      startOfQueue, endOfQueue := 0, 0;
      q := q.(start := 0, pending := [], deleted := log);
    }

    method Freeze(b: bool)
      requires Valid()
      modifies this
      ensures Valid() && q == old(q).(frozen := b)
    {
      FreezeKeeps(q, b);
      frozen := b;
      q := q.(frozen := b);
    }

    /** What an item does to the queue when it is invoked. */
    method Invoke(actions: seq<Action>) returns (ok: bool)
      requires Valid()
      modifies this, theQueue
      ensures Valid() && (ok <==> ActAll(old(q), actions).Some?)
      ensures ok ==> q == ActAll(old(q), actions).value
    {
      assert actions[0..] == actions;
      for i := 0 to |actions|
        invariant Valid() && ActAll(old(q), actions) == ActAll(q, actions[i..])
      {
        assert actions[i..][1..] == actions[i + 1..];
        match actions[i] {
          case Enqueue(script) =>
            var room := Enqueue(script);
            if !room {
              return false;
            }
          case SetFrozen(b) => Freeze(b);
          case ClearQueue => Clear();
        }
      }
      return true;
    }

    /** The loop of processWork, on every queue on which it ends; `turns` says when. None
        when an assertion failed while an item was invoked. */
    method ProcessWork(scripts: Scripts, ghost turns: nat) returns (result: Option<bool>)
      requires Valid() && !Loop(q, scripts, turns).Going?
      modifies this, theQueue
      ensures result.None? <==> Loop(old(q), scripts, turns) == Failed
      ensures result.Some? ==> Valid() && Loop(old(q), scripts, turns) == Ended(q, result.value)
    {
      var startedLoad := false;
      var count := Count();
      ghost var left := turns;
      while !startedLoad && count > 0
        invariant Valid() && count == |q.pending|
        invariant startedLoad ==> Loop(old(q), scripts, turns) == Ended(q, false)
        invariant !startedLoad ==> Loop(old(q), scripts, turns) == Loop(q, scripts, left)
        decreases !startedLoad, left
      {
        var ok;
        ok, startedLoad := ProcessItem(scripts);
        if !ok {
          return None;
        }
        if !startedLoad {
          left := left - 1;
        }
        count := Count();
      }
      return Some(!startedLoad);
    }

    method ProcessItem(scripts: Scripts) returns (ok: bool, startedLoad: bool)
      requires Valid() && q.pending != []
      modifies this, theQueue
      ensures ok <==> Turn(old(q), scripts).Some?
      ensures ok ==> Valid() && q == Turn(old(q), scripts).value
      ensures ok ==> startedLoad == scripts(old(q).pending[0].script).loads
    {
      ghost var before := q;
      TakenKeeps(before);
      var slot := Dequeue();
      var item := slot.item;
      q := q.(invoked := q.invoked + [item]);
      ok := Invoke(scripts(item.script).actions);
      startedLoad := scripts(item.script).loads;
      if ok {
        Delete(before, scripts, item.arrival);
      }
    }

    /** `delete item`, at the end of a turn. */
    method Delete(ghost before: State, ghost scripts: Scripts, ghost n: nat)
      requires Valid() && Inv(before) && before.pending != [] && n == before.pending[0].arrival
      requires Turn(before, scripts) == Some(DeleteStep(q, n))
      modifies this
      ensures Valid() && q == DeleteStep(old(q), n)
    {
      TurnKeeps(before, scripts);
      q := DeleteStep(q, n);
    }
  }
}

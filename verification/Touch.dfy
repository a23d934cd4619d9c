/** The touch mocking of Tools/QtTestBrowser/launcherwindow.cpp: mouse and keyboard events
    become touch events over a list of at most two touch points. */
module Touch {
  import opened Basics

  datatype PointState = Pressed | Moved | Stationary | Released

  /** Identity 0 is the mouse, 1 the keyboard. */
  datatype Point = Point(id: nat, state: PointState, pos: (int, int))

  datatype MouseKind = Press | DoubleClick | Move | Release

  datatype Event =
    | Mouse(kind: MouseKind, leftButton: bool, pos: (int, int))
    | ControlF(cursor: (int, int))
    | SetMocking(on: bool)
    | OtherEvent

  datatype TouchKind = Begin | Update | End

  datatype TouchEvent = TouchEvent(kind: TouchKind, points: seq<Point>)

  // ----- What one event does -----

  /** The type of the touch event that sendTouchEvent sends for a list of points. */
  function KindOf(points: seq<Point>): TouchKind {
    if |points| == 1 && points[0].state == Released then End
    else if |points| == 1 && points[0].state == Pressed then Begin
    else Update
  }

  function Remove(points: seq<Point>, i: nat): seq<Point>
    requires i < |points|
  {
    points[..i] + points[i + 1..]
  }

  /** The list after sending: released points are taken out of the first two places. */
  function Prune(points: seq<Point>): seq<Point>
    requires points != []
  {
    var a := if points[0].state == Released then Remove(points, 0) else points;
    if |a| > 1 && a[1].state == Released then Remove(a, 1) else a
  }

  datatype State = State(mocking: bool, points: seq<Point>, sent: seq<TouchEvent>)

  function Send(s: State): State {
    if s.points == [] then s
    else s.(points := Prune(s.points), sent := s.sent + [TouchEvent(KindOf(s.points), s.points)])
  }

  function MouseState(kind: MouseKind): PointState {
    match kind
    case Press => Pressed
    case DoubleClick => Pressed
    case Move => Moved
    case Release => Released
  }

  function WithPoint(points: seq<Point>, p: Point): seq<Point> {
    if |points| > 0 && points[0].id == p.id then points[0 := p]
    else if |points| > 1 && points[1].id == p.id then points[1 := p]
    else points + [p]
  }

  function Handle(s: State, e: Event): State {
    match e
    case SetMocking(on) => s.(mocking := on)
    case OtherEvent => s
    case Mouse(kind, left, pos) =>
      if !s.mocking || (kind == Move && !left) then s
      else Send(s.(points := WithPoint(s.points, Point(0, MouseState(kind), pos))))
    case ControlF(cursor) =>
      if !s.mocking then s
      else if |s.points| > 0 && s.points[0].id == 1 then
        Send(s.(points := s.points[0 := s.points[0].(state := Released)]))
      else if |s.points| > 1 && s.points[1].id == 1 then
        Send(s.(points := s.points[1 := s.points[1].(state := Released)]))
      else
        var t := Send(s.(points := s.points + [Point(1, Pressed, cursor)]));
        if t.points == [] then t
        else t.(points := t.points[|t.points| - 1 := t.points[|t.points| - 1].(state := Stationary)])
  }

  function Run(s: State, events: seq<Event>): State {
    if events == [] then s else Handle(Run(s, events[..|events| - 1]), events[|events| - 1])
  }

  const START: State := State(false, [], [])

  // ----- The list -----

  ghost predicate Listed(points: seq<Point>) {
    && |points| <= 2
    && (forall i :: 0 <= i < |points| ==> points[i].id <= 1 && points[i].state != Released)
    && (|points| == 2 ==> points[0].id != points[1].id)
  }

  // ----- When the touch events come in well-formed groups -----

  /** Reads the kinds of the touch events sent: a group is Begin, any number of Update,
      End. The result tells whether a group is open; None is a malformed sequence. */
  datatype Reading = Malformed | Reading(open: bool)

  function Read(sent: seq<TouchEvent>): Reading {
    if sent == [] then Reading(false) else
    var r := Read(sent[..|sent| - 1]);
    match sent[|sent| - 1].kind
    case Begin => if r == Reading(false) then Reading(true) else Malformed
    case Update => if r == Reading(true) then r else Malformed
    case End => if r == Reading(true) then Reading(false) else Malformed
  }

  /** What can be told from the input alone: whether mocking is on, whether the mouse and
      the keyboard point are down. */
  datatype Hands = Hands(mocking: bool, mouse: bool, keyboard: bool)

  function Follow(h: Hands, e: Event): Hands {
    match e
    case SetMocking(on) => h.(mocking := on)
    case OtherEvent => h
    case Mouse(kind, left, _) =>
      if !h.mocking || (kind == Move && !left) then h else h.(mouse := kind != Release)
    case ControlF(_) => if !h.mocking then h else h.(keyboard := !h.keyboard)
  }

  function FollowAll(events: seq<Event>): Hands {
    if events == [] then Hands(false, false, false)
    else Follow(FollowAll(events[..|events| - 1]), events[|events| - 1])
  }

  /** With no keyboard point down, the mouse button goes down exactly when it was up. */
  predicate Orderly(h: Hands, e: Event) {
    e.Mouse? && h.mocking && !h.keyboard && !(e.kind == Move && !e.leftButton) ==>
      (e.kind == Press || e.kind == DoubleClick <==> !h.mouse)
  }

  predicate AllOrderly(events: seq<Event>) {
    events == [] || (AllOrderly(events[..|events| - 1]) && Orderly(FollowAll(events[..|events| - 1]), events[|events| - 1]))
  }

  predicate HasId(points: seq<Point>, id: nat) {
    (|points| > 0 && points[0].id == id) || (|points| > 1 && points[1].id == id)
  }

  ghost predicate Agrees(s: State, h: Hands) {
    Listed(s.points) && s.mocking == h.mocking && (HasId(s.points, 0) <==> h.mouse) && (HasId(s.points, 1) <==> h.keyboard)
  }

  lemma PruneIs(points: seq<Point>)
    requires |points| == 1 || |points| == 2
    ensures |points| == 1 ==> Prune(points) == if points[0].state == Released then [] else points
    ensures |points| == 2 && points[0].state == Released ==>
              Prune(points) == [points[1]]
    ensures |points| == 2 && points[0].state != Released ==>
              Prune(points) == if points[1].state == Released then [points[0]] else points
  {
  }

  /** Every event keeps the list as it should be, and the list shows what the input says. */
  lemma HandleAgrees(s: State, h: Hands, e: Event)
    requires Agrees(s, h)
    ensures Agrees(Handle(s, e), Follow(h, e))
  {
    if e.Mouse? {
      PruneIs(WithPoint(s.points, Point(0, MouseState(e.kind), e.pos)));
    } else if e.ControlF? {
      ControlAgrees(s, h, e.cursor);
    }
  }

  /** The list after the keyboard point has come up or gone down. */
  function Toggled(points: seq<Point>, cursor: (int, int)): seq<Point> {
    if |points| > 0 && points[0].id == 1 then points[1..]
    else if |points| > 1 && points[1].id == 1 then points[..1]
    else points + [Point(1, Stationary, cursor)]
  }

  lemma ControlToggles(s: State, cursor: (int, int))
    requires Listed(s.points) && s.mocking
    ensures Handle(s, ControlF(cursor)).points == Toggled(s.points, cursor)
  {
    if |s.points| > 0 && s.points[0].id == 1 {
      PruneIs(s.points[0 := s.points[0].(state := Released)]);
    } else if |s.points| > 1 && s.points[1].id == 1 {
      PruneIs(s.points[1 := s.points[1].(state := Released)]);
    } else {
      KeyboardAdded(s.points, cursor);
    }
  }

  lemma KeyboardAdded(points: seq<Point>, cursor: (int, int))
    requires Listed(points) && !HasId(points, 1)
    ensures |points| <= 1 && Prune(points + [Point(1, Pressed, cursor)]) == points + [Point(1, Pressed, cursor)]
  {
    PruneIs(points + [Point(1, Pressed, cursor)]);
  }

  lemma ToggledListed(points: seq<Point>, cursor: (int, int))
    requires Listed(points)
    ensures var after := Toggled(points, cursor);
            Listed(after) && (HasId(after, 0) <==> HasId(points, 0)) && (HasId(after, 1) <==> !HasId(points, 1))
  {
  }

  lemma ControlAgrees(s: State, h: Hands, cursor: (int, int))
    requires Agrees(s, h)
    ensures Agrees(Handle(s, ControlF(cursor)), Follow(h, ControlF(cursor)))
  {
    if s.mocking {
      ControlToggles(s, cursor);
      ToggledListed(s.points, cursor);
    }
  }

  lemma ReadSent(sent: seq<TouchEvent>, t: TouchEvent)
    ensures Read(sent + [t]) ==
      match t.kind
      case Begin => if Read(sent) == Reading(false) then Reading(true) else Malformed
      case Update => if Read(sent) == Reading(true) then Reading(true) else Malformed
      case End => if Read(sent) == Reading(true) then Reading(false) else Malformed
  {
    assert (sent + [t])[..|sent|] == sent;
  }

  /** The list that is sent for an event, if one is. */
  function ToSend(s: State, e: Event): seq<Point> {
    if !s.mocking then [] else
    match e
    case Mouse(kind, left, pos) =>
      if kind == Move && !left then [] else WithPoint(s.points, Point(0, MouseState(kind), pos))
    case ControlF(cursor) =>
      if |s.points| > 0 && s.points[0].id == 1 then s.points[0 := s.points[0].(state := Released)]
      else if |s.points| > 1 && s.points[1].id == 1 then s.points[1 := s.points[1].(state := Released)]
      else s.points + [Point(1, Pressed, cursor)]
    case _ => []
  }

  /** One touch event at most is sent, for the list as the event has changed it. It is a
      Begin exactly when the list was empty and an End exactly when it becomes empty,
      unless the event is a disorderly one. */
  lemma {:induction false} HandleSends(s: State, h: Hands, e: Event)
    requires Agrees(s, h)
    ensures var l := ToSend(s, e);
            Handle(s, e).sent == if l == [] then s.sent else s.sent + [TouchEvent(KindOf(l), l)]
    ensures var l := ToSend(s, e);
            l != [] && Orderly(h, e) ==>
              (KindOf(l) == Begin <==> s.points == []) && (KindOf(l) == End <==> Handle(s, e).points == [])
    ensures ToSend(s, e) == [] ==> (Handle(s, e).points == [] <==> s.points == [])
  {
    HandleAgrees(s, h, e);
    var l := ToSend(s, e);
    if l != [] {
      PruneIs(l);
    }
  }

  /** A disorderly event begins a group inside a group, or goes on with one outside. */
  lemma DisorderlySends(s: State, h: Hands, e: Event)
    requires Agrees(s, h) && !Orderly(h, e)
    ensures var l := ToSend(s, e); l != [] && (KindOf(l) == Begin <==> s.points != [])
  {
    PruneIs(ToSend(s, e));
  }

  lemma StepReads(s: State, h: Hands, e: Event)
    requires Agrees(s, h) && Read(s.sent) == Reading(s.points != [])
    ensures Read(Handle(s, e).sent) == if Orderly(h, e) then Reading(Handle(s, e).points != []) else Malformed
  {
    HandleSends(s, h, e);
    var l := ToSend(s, e);
    if !Orderly(h, e) {
      DisorderlySends(s, h, e);
    }
    if l != [] {
      ReadSent(s.sent, TouchEvent(KindOf(l), l));
    }
  }

  /** The touch events sent form well-formed groups if and only if every event was
      orderly; then a group is open exactly while the list has a point. */
  lemma {:induction false} GroupsIff(events: seq<Event>)
    ensures Agrees(Run(START, events), FollowAll(events))
    ensures Read(Run(START, events).sent)
         == if AllOrderly(events) then Reading(Run(START, events).points != []) else Malformed
  {
    if events != [] {
      var front, last := events[..|events| - 1], events[|events| - 1];
      GroupsIff(front);
      var s, h := Run(START, front), FollowAll(front);
      HandleAgrees(s, h, last);
      HandleSends(s, h, last);
      if AllOrderly(front) {
        StepReads(s, h, last);
      } else {
        var l := ToSend(s, last);
        ReadSent(s.sent, TouchEvent(KindOf(l), l));
      }
    }
  }

  /** One button: it goes down exactly when it was up, moves and comes up again, with any
      keyboard events in between. */
  predicate OneButton(events: seq<Event>) {
    if events == [] then true else
    var front, last := events[..|events| - 1], events[|events| - 1];
    OneButton(front) &&
    (last.Mouse? && FollowAll(front).mocking && !(last.kind == Move && !last.leftButton) ==>
      (last.kind == Press || last.kind == DoubleClick <==> !FollowAll(front).mouse))
  }

  lemma {:induction false} OneButtonMakesGroups(events: seq<Event>)
    requires OneButton(events)
    ensures AllOrderly(events) && Read(Run(START, events).sent) == Reading(Run(START, events).points != [])
  {
    if events != [] {
      OneButtonMakesGroups(events[..|events| - 1]);
    }
    GroupsIff(events);
  }

  /** A second button pressed while the first is down sends a second Begin. */
  lemma SecondButtonBreaksGroup(at: (int, int))
    ensures Read(Run(START, [SetMocking(true), Mouse(Press, true, at), Mouse(Press, true, at)]).sent) == Malformed
  {
    var e := [SetMocking(true), Mouse(Press, true, at), Mouse(Press, true, at)];
    assert e[..2] == [SetMocking(true), Mouse(Press, true, at)];
    assert e[..2][..1] == [SetMocking(true)];
    assert e[..2][..1][..0] == [];
    assert FollowAll(e[..2][..1]) == Hands(true, false, false);
    assert FollowAll(e[..2]) == Hands(true, true, false);
    GroupsIff(e);
  }

  // ----- Which points there are, and where -----

  /** What the input alone says of the two points: the mouse point is where the last mouse
      event that was not ignored put it, the keyboard point where the cursor was when it
      went down. */
  datatype Track = Track(mocking: bool, mouse: Option<Point>, keyboard: Option<Point>)

  function Ignored(mocking: bool, e: Event): bool {
    !mocking || (e.Mouse? && e.kind == Move && !e.leftButton)
  }

  function Note(t: Track, e: Event): Track {
    match e
    case SetMocking(on) => t.(mocking := on)
    case OtherEvent => t
    case Mouse(kind, _, pos) =>
      if Ignored(t.mocking, e) then t
      else t.(mouse := if kind == Release then None else Some(Point(0, if kind == Move then Moved else Pressed, pos)))
    case ControlF(cursor) =>
      if Ignored(t.mocking, e) then t
      else t.(keyboard := if t.keyboard.Some? then None else Some(Point(1, Stationary, cursor)))
  }

  function NoteAll(events: seq<Event>): Track {
    if events == [] then Track(false, None, None)
    else Note(NoteAll(events[..|events| - 1]), events[|events| - 1])
  }

  /** The point of the event itself, as it is sent. */
  function OwnPoint(t: Track, e: Event): Option<Point> {
    if Ignored(t.mocking, e) then None else
    match e
    case Mouse(kind, _, pos) =>
      Some(Point(0, if kind == Release then Released else if kind == Move then Moved else Pressed, pos))
    case ControlF(cursor) =>
      Some(if t.keyboard.Some? then Point(1, Released, t.keyboard.value.pos) else Point(1, Pressed, cursor))
    case _ => None
  }

  /** The points that are sent: that of the event, and the other one as it stands. */
  ghost predicate InEvent(t: Track, e: Event, p: Point) {
    OwnPoint(t, e) == Some(p) || Some(p) == (if e.Mouse? then t.keyboard else t.mouse)
  }

  /** The list holds exactly the points that the input says. */
  ghost predicate Shows(s: State, t: Track) {
    && Listed(s.points) && s.mocking == t.mocking
    && (t.mouse.Some? ==> t.mouse.value.id == 0) && (t.keyboard.Some? ==> t.keyboard.value.id == 1)
    && (forall p :: p in s.points <==> t.mouse == Some(p) || t.keyboard == Some(p))
  }

  /** The list after an event as it is sent: the point `own`, and the other one. */
  ghost predicate Replaces(points: seq<Point>, own: Point, l: seq<Point>) {
    && 1 <= |l| <= 2 && (|l| == 2 ==> l[0].id != l[1].id)
    && (forall p :: p in l <==> p == own || (p in points && p.id != own.id))
  }

  lemma WithPointReplaces(points: seq<Point>, own: Point)
    requires Listed(points) && own.id <= 1
    ensures Replaces(points, own, WithPoint(points, own))
  {
    var l := WithPoint(points, own);
    if |points| == 0 {
      assert l == [own];
    } else if |points| == 1 {
      assert l == if points[0].id == own.id then [own] else [points[0], own];
    } else {
      assert l == if points[0].id == own.id then [own, points[1]] else [points[0], own];
    }
  }

  /** After sending, the released points are gone and the others stay. */
  lemma PruneKeeps(points: seq<Point>, own: Point, l: seq<Point>)
    requires Listed(points) && own.id <= 1 && Replaces(points, own, l)
    ensures Listed(Prune(l)) && forall p :: p in Prune(l) <==> p in l && p.state != Released
  {
    PruneIs(l);
    assert forall i :: 0 <= i < |l| ==> l[i] in l;
    assert forall p :: p in points ==> p.state != Released && p.id <= 1;
    if |l| == 2 {
      assert l[0] == own || l[1] == own || (l[0].state != Released && l[1].state != Released);
    }
  }

  lemma ToSendReplaces(s: State, t: Track, e: Event)
    requires Shows(s, t) && OwnPoint(t, e).Some?
    ensures Replaces(s.points, OwnPoint(t, e).value, ToSend(s, e))
  {
    var own := OwnPoint(t, e).value;
    if e.Mouse? {
      WithPointReplaces(s.points, own);
    } else {
      KeyboardPoint(s, t);
      WithPointReplaces(s.points, own);
      assert ToSend(s, e) == WithPoint(s.points, own);
    }
  }

  /** The keyboard point of the list is the one that the input says. */
  lemma KeyboardPoint(s: State, t: Track)
    requires Shows(s, t)
    ensures forall i :: 0 <= i < |s.points| && s.points[i].id == 1 ==> t.keyboard == Some(s.points[i])
    ensures t.keyboard.Some? ==> exists i :: 0 <= i < |s.points| && s.points[i] == t.keyboard.value
  {
    assert forall i :: 0 <= i < |s.points| ==> s.points[i] in s.points;
    if t.keyboard.Some? {
      assert t.keyboard.value in s.points;
    }
  }

  /** One event: the list still shows the input, and the touch event that is sent, if any,
      holds exactly the point of the event, where and as the event has it, and the other
      point as it stands. */
  lemma HandleShows(s: State, t: Track, e: Event)
    requires Shows(s, t)
    ensures Shows(Handle(s, e), Note(t, e))
    ensures OwnPoint(t, e).None? ==> Handle(s, e).sent == s.sent
    ensures OwnPoint(t, e).Some? ==>
              && |Handle(s, e).sent| == |s.sent| + 1 && s.sent <= Handle(s, e).sent
              && var l := Handle(s, e).sent[|s.sent|].points;
                 1 <= |l| <= 2 && forall p :: p in l <==> InEvent(t, e, p)
  {
    if OwnPoint(t, e).Some? {
      var own, l := OwnPoint(t, e).value, ToSend(s, e);
      ToSendReplaces(s, t, e);
      SentIs(s, e);
      InEventIs(s, t, e, l);
      PruneKeeps(s.points, own, l);
      ListAfter(s, t, e);
    }
  }

  lemma SentIs(s: State, e: Event)
    requires ToSend(s, e) != []
    ensures Handle(s, e).sent == s.sent + [TouchEvent(KindOf(ToSend(s, e)), ToSend(s, e))]
  {
  }

  lemma InEventIs(s: State, t: Track, e: Event, l: seq<Point>)
    requires Shows(s, t) && OwnPoint(t, e).Some? && Replaces(s.points, OwnPoint(t, e).value, l)
    ensures forall p :: p in l <==> InEvent(t, e, p)
  {
    forall p
      ensures p in l <==> InEvent(t, e, p)
    {
      assert p in s.points <==> t.mouse == Some(p) || t.keyboard == Some(p);
    }
  }

  predicate KeyGoesDown(t: Track, e: Event) { e.ControlF? && t.keyboard.None? }

  ghost predicate NotReleased(t: Track) {
    && (t.mouse.Some? ==> t.mouse.value.state != Released) && (t.keyboard.Some? ==> t.keyboard.value.state != Released)
  }

  lemma ShownNotReleased(s: State, t: Track)
    requires Shows(s, t)
    ensures NotReleased(t)
  {
    assert t.mouse.Some? ==> t.mouse.value in s.points;
    assert t.keyboard.Some? ==> t.keyboard.value in s.points;
  }

  /** What of the event stays, in terms of the input alone. */
  lemma Stays(t: Track, e: Event, p: Point)
    requires OwnPoint(t, e).Some? && NotReleased(t) && !KeyGoesDown(t, e)
    ensures var t' := Note(t, e);
            InEvent(t, e, p) && p.state != Released <==> t'.mouse == Some(p) || t'.keyboard == Some(p)
  {
  }

  lemma HandlePrunes(s: State, t: Track, e: Event)
    requires Shows(s, t) && OwnPoint(t, e).Some? && ToSend(s, e) != [] && !KeyGoesDown(t, e)
    ensures Handle(s, e).points == Prune(ToSend(s, e))
  {
    KeyboardPoint(s, t);
  }

  lemma HandleAdds(s: State, t: Track, e: Event)
    requires Shows(s, t) && OwnPoint(t, e).Some? && KeyGoesDown(t, e)
    ensures Handle(s, e).points == s.points + [Point(1, Stationary, e.cursor)] && |s.points| <= 1
  {
    KeyboardPoint(s, t);
    KeyboardAdded(s.points, e.cursor);
  }

  lemma ListAfter(s: State, t: Track, e: Event)
    requires Shows(s, t) && OwnPoint(t, e).Some? && ToSend(s, e) != [] && Listed(Prune(ToSend(s, e)))
    requires forall p :: p in Prune(ToSend(s, e)) <==> p in ToSend(s, e) && p.state != Released
    requires forall p :: p in ToSend(s, e) <==> InEvent(t, e, p)
    ensures Shows(Handle(s, e), Note(t, e))
  {
    var after, t' := Handle(s, e).points, Note(t, e);
    if KeyGoesDown(t, e) {
      HandleAdds(s, t, e);
      AddedShows(s, t, e);
    } else {
      HandlePrunes(s, t, e);
      ShownNotReleased(s, t);
      forall p
        ensures p in after <==> t'.mouse == Some(p) || t'.keyboard == Some(p)
      {
        Stays(t, e, p);
      }
    }
  }

  lemma AddedShows(s: State, t: Track, e: Event)
    requires Shows(s, t) && OwnPoint(t, e).Some? && KeyGoesDown(t, e) && |s.points| <= 1
    requires Handle(s, e).points == s.points + [Point(1, Stationary, e.cursor)] && Handle(s, e).mocking == s.mocking
    ensures Shows(Handle(s, e), Note(t, e))
  {
    KeyboardPoint(s, t);
  }

  /** After any input the list holds exactly the points that the input says, at the
      positions and in the states that it says. */
  lemma {:induction false} RunShows(events: seq<Event>)
    ensures Shows(Run(START, events), NoteAll(events))
  {
    if events != [] {
      var front := events[..|events| - 1];
      RunShows(front);
      HandleShows(Run(START, front), NoteAll(front), events[|events| - 1]);
    }
  }

  /** What the last event of any input sends: nothing if it is ignored, else one touch event
      with its own point and the other one as the input has left it. */
  lemma LastSends(events: seq<Event>, e: Event)
    ensures var before, after, t := Run(START, events).sent, Run(START, events + [e]).sent, NoteAll(events);
            if OwnPoint(t, e).None? then after == before
            else
              && |after| == |before| + 1 && before <= after
              && forall p :: p in after[|before|].points <==> InEvent(t, e, p)
  {
    RunShows(events);
    HandleShows(Run(START, events), NoteAll(events), e);
    assert (events + [e])[..|events|] == events;
  }

  // ----- The code -----

  class LauncherWindow {
    var touchMocking: bool
    var touchPoints: seq<Point>
    /** The touch events delivered to the page. */
    var sent: seq<TouchEvent>

    constructor ()
      ensures Now() == START
    {
      touchMocking, touchPoints, sent := false, [], [];
    }

    ghost function Now(): State
      reads this
    {
      State(touchMocking, touchPoints, sent)
    }

    method SendTouchEvent()
      modifies this
      ensures Now() == Send(old(Now()))
    {
      if touchPoints == [] {
        return;
      }
      var kind := Update;
      if |touchPoints| == 1 {
        if touchPoints[0].state == Released {
          kind := End;
        } else if touchPoints[0].state == Pressed {
          kind := Begin;
        }
      }
      sent := sent + [TouchEvent(kind, touchPoints)];
      if touchPoints[0].state == Released {
        touchPoints := touchPoints[..0] + touchPoints[1..];
      }
      if |touchPoints| > 1 && touchPoints[1].state == Released {
        touchPoints := touchPoints[..1] + touchPoints[2..];
      }
    }

    method EventFilter(e: Event)
      requires Listed(touchPoints)
      modifies this
      ensures Now() == Handle(old(Now()), e) && Listed(touchPoints)
    {
      HandleAgrees(Now(), Hands(touchMocking, HasId(touchPoints, 0), HasId(touchPoints, 1)), e);
      if e.SetMocking? {
        touchMocking := e.on;
        return;
      }
      if !touchMocking {
        return;
      }
      if e.Mouse? {
        if e.kind == Move && !e.leftButton {
          return;
        }
        var state := Moved;
        if e.kind == Press || e.kind == DoubleClick {
          state := Pressed;
        } else if e.kind == Release {
          state := Released;
        }
        var touchPoint := Point(0, state, e.pos);
        if |touchPoints| > 0 && touchPoints[0].id == 0 {
          touchPoints := touchPoints[0 := touchPoint];
        } else if |touchPoints| > 1 && touchPoints[1].id == 0 {
          touchPoints := touchPoints[1 := touchPoint];
        } else {
          touchPoints := touchPoints + [touchPoint];
        }
        SendTouchEvent();
      } else if e.ControlF? {
        if |touchPoints| > 0 && touchPoints[0].id == 1 {
          touchPoints := touchPoints[0 := touchPoints[0].(state := Released)];
          SendTouchEvent();
        } else if |touchPoints| > 1 && touchPoints[1].id == 1 {
          touchPoints := touchPoints[1 := touchPoints[1].(state := Released)];
          SendTouchEvent();
        } else {
          touchPoints := touchPoints + [Point(1, Pressed, e.cursor)];
          SendTouchEvent();
          var last := |touchPoints| - 1;
          touchPoints := touchPoints[last := touchPoints[last].(state := Stationary)];
        }
      }
    }
  }
}

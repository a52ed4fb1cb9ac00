/** The mouse and touch controller of InteractiveControls.js: listener lifecycle,
    hover and press state, and the events it emits. Ray casting is outside
    the model: each cursor call receives the nearest hit, or none. */
module Controls {
  import opened JsArrays
  import opened Scene

  /** The nearest intersection of the cursor ray with the registered
      objects: the object hit and the surface coordinates (u, v) there. */
  datatype Hit = Hit(target: object, u: real, v: real)

  /** The events the controller emits, one constructor per event name. */
  datatype Event =
    | Out(target: object?)                                        // 'interactive-out'
    | Over(target: object?)                                       // 'interactive-over'
    | Move(target: object?, data: Hit)                            // 'interactive-move'
    | Down(target: object?, previous: object?, hit: Option<Hit>)  // 'interactive-down'
    | Up(target: object?)                                         // 'interactive-up'

  /** One call of addListeners (Attach) or of removeListeners (Detach). */
  datatype Listening = Attach | Detach

  datatype Rect = Rect(x: real, y: real, width: real, height: real)

  /** What a prefix of the event stream tells a listener about the cursor. */
  datatype Cursor = Cursor(hovered: object?, selected: object?, down: bool)

  function Apply(p: Cursor, e: Event): Cursor
  {
    match e
    case Out(_) => p.(hovered := null)
    case Over(t) => p.(hovered := t)
    case Move(_, _) => p
    case Down(t, _, _) => p.(selected := t, down := true)
    case Up(_) => p.(down := false)
  }

  /** The cursor state reconstructed from the events seen so far. */
  function Replay(log: seq<Event>): Cursor
    decreases |log|
  {
    if log == [] then Cursor(null, null, false)
    else Apply(Replay(log[..|log| - 1]), log[|log| - 1])
  }

  function Last(log: seq<Event>): Option<Event>
  {
    if log == [] then None else Some(log[|log| - 1])
  }

  /** Whether e may be emitted after a stream whose replay is p and whose
      last event is last: an `out`, `move`, `down` or `up` names the object
      hovered at that moment (a press also the previous selection); an
      `over` names the object about to be hovered and comes straight after
      the `out` of a different object. */
  predicate Fits(p: Cursor, last: Option<Event>, e: Event)
  {
    match e
    case Out(t) => t == p.hovered
    case Over(t) => t != null && last.Some? && last.value.Out? && last.value.target != t
    case Move(t, d) => t == d.target && t == p.hovered
    case Down(t, prev, _) => t == p.hovered && prev == p.selected
    case Up(t) => t == p.hovered
  }

  /** Every event of the stream fits the stream before it. */
  predicate WellFormed(log: seq<Event>)
    decreases |log|
  {
    log == [] ||
    (var prefix := log[..|log| - 1];
     WellFormed(prefix) && Fits(Replay(prefix), Last(prefix), log[|log| - 1]))
  }

  lemma Extend(log: seq<Event>, e: Event)
    ensures Replay(log + [e]) == Apply(Replay(log), e)
    ensures Last(log + [e]) == Some(e)
    ensures WellFormed(log + [e]) <==> WellFormed(log) && Fits(Replay(log), Last(log), e)
  {
    assert (log + [e])[..|log|] == log;
  }

  /** In a well-formed stream every `over` is immediately preceded by the
      `out` of another object: two `over`s never follow each other. */
  lemma {:induction false} OverFollowsOut(log: seq<Event>, k: nat)
    requires WellFormed(log) && k < |log| && log[k].Over?
    ensures k > 0 && log[k - 1].Out? && log[k - 1].target != log[k].target
  {
    var prefix := log[..|log| - 1];
    if k < |log| - 1 {
      OverFollowsOut(prefix, k);
    }
  }

  /** The events one cursor move emits, given the object hovered before. */
  function MoveEvents(hovered: object?, hit: Option<Hit>): seq<Event>
  {
    match hit
    case Some(h) =>
      if hovered != h.target then [Out(hovered), Over(h.target)] else [Move(h.target, h)]
    case None => if hovered != null then [Out(hovered)] else []
  }

  /** The object hovered after a move: whatever the ray hit, or nothing. */
  function HoverAfter(hit: Option<Hit>): object?
  {
    if hit.Some? then hit.value.target else null
  }

  /** A move extends a well-formed stream to a well-formed stream whose
      replay hovers what the ray hit and keeps selection and press state. */
  lemma MoveKeepsStream(log: seq<Event>, hit: Option<Hit>)
    requires WellFormed(log)
    ensures WellFormed(log + MoveEvents(Replay(log).hovered, hit))
    ensures Replay(log + MoveEvents(Replay(log).hovered, hit)) == Replay(log).(hovered := HoverAfter(hit))
  {
    var p := Replay(log);
    match hit
    case Some(h) =>
      if p.hovered != h.target {
        Extend(log, Out(p.hovered));
        Extend(log + [Out(p.hovered)], Over(h.target));
        assert log + [Out(p.hovered)] + [Over(h.target)] == log + MoveEvents(p.hovered, hit);
      } else {
        Extend(log, Move(h.target, h));
      }
    case None =>
      if p.hovered != null {
        Extend(log, Out(p.hovered));
      } else {
        assert log + MoveEvents(p.hovered, hit) == log;
      }
  }

  /** The events of a sequence of moves, starting from hovered. */
  function MoveTrace(hovered: object?, hits: seq<Option<Hit>>): seq<Event>
    decreases |hits|
  {
    if hits == [] then []
    else MoveEvents(hovered, hits[0]) + MoveTrace(HoverAfter(hits[0]), hits[1..])
  }

  /** Moving over a, still over a, over b, then off the surface emits
      out/over for a, a move on a, out/over for b and a final out of b. */
  lemma HoverTrace(a: object, b: object, a1: Hit, a2: Hit, b1: Hit)
    requires a != b && a1.target == a && a2.target == a && b1.target == b
    ensures MoveTrace(null, [Some(a1), Some(a2), Some(b1), None])
         == [Out(null), Over(a), Move(a, a2), Out(a), Over(b), Out(b)]
  {
    var hits := [Some(a1), Some(a2), Some(b1), None];
    assert hits[1..] == [Some(a2), Some(b1), None];
    assert hits[1..][1..] == [Some(b1), None];
    assert hits[1..][1..][1..] == [None];
    assert MoveTrace(b, [None]) == [Out(b)];
    assert MoveTrace(a, [Some(b1), None]) == [Out(a), Over(b), Out(b)];
    assert MoveTrace(a, [Some(a2), Some(b1), None]) == [Move(a, a2), Out(a), Over(b), Out(b)];
  }

  /** Any number of moves that stay on the hovered object emit one `move`
      each, carrying that move's hit, and nothing else. */
  lemma {:induction false} MovesAlong(a: object, hits: seq<Option<Hit>>)
    requires forall k :: 0 <= k < |hits| ==> hits[k].Some? && hits[k].value.target == a
    ensures |MoveTrace(a, hits)| == |hits|
    ensures forall k :: 0 <= k < |hits| ==> MoveTrace(a, hits)[k] == Move(a, hits[k].value)
    decreases |hits|
  {
    if hits != [] {
      MovesAlong(a, hits[1..]);
      assert MoveTrace(a, hits) == [Move(a, hits[0].value)] + MoveTrace(a, hits[1..]);
    }
  }

  function Abs(x: real): real
  {
    if x < 0.0 then -x else x
  }

  /** The press radius: strictly less than 2 pixel units on both axes. */
  predicate Near(p: (int, int), posX: real, posY: real)
  {
    Abs(p.0 as real - posX) < 2.0 && Abs(p.1 as real - posY) < 2.0
  }

  /** A texture coordinate scaled to an image side: `position.x * width`. */
  function Scale(t: real, side: nat): real
  {
    t * side as real
  }

  /** matched lists, in increasing order and each once, exactly the
      positions of the points near (posX, posY); slots[j] is the audio
      element (`music` + matched[j] % 6) that point plays. */
  ghost predicate ProximityResult(points: seq<(int, int)>, posX: real, posY: real,
                                  matched: seq<nat>, slots: seq<nat>)
  {
    && (forall j :: 0 <= j < |matched| ==> matched[j] < |points| && Near(points[matched[j]], posX, posY))
    && (forall k :: 0 <= k < |points| && Near(points[k], posX, posY) ==> k in matched)
    && (forall a, b :: 0 <= a < b < |matched| ==> matched[a] < matched[b])
    && |slots| == |matched|
    && (forall j :: 0 <= j < |matched| ==> slots[j] == matched[j] % 6)
  }

  /** The proximity loop of a press over the interactive points. */
  method Proximity(points: seq<(int, int)>, posX: real, posY: real) returns (matched: seq<nat>, slots: seq<nat>)
    ensures ProximityResult(points, posX, posY, matched, slots)
  {
    matched, slots := [], [];
    for i := 0 to |points|
      invariant forall j :: 0 <= j < |matched| ==> matched[j] < i && Near(points[matched[j]], posX, posY)
      invariant forall k :: 0 <= k < i && Near(points[k], posX, posY) ==> k in matched
      invariant forall a, b :: 0 <= a < b < |matched| ==> matched[a] < matched[b]
      invariant |slots| == |matched|
      invariant forall j :: 0 <= j < |matched| ==> slots[j] == matched[j] % 6
    {
      var point := points[i];
      if Abs(point.0 as real - posX) < 2.0 && Abs(point.1 as real - posY) < 2.0 {
        matched := matched + [i];
        slots := slots + [i % 6];
      }
    }
  }

  predicate Alternating(listening: seq<Listening>)
  {
    forall k :: 0 <= k < |listening| ==> listening[k] == if k % 2 == 0 then Attach else Detach
  }

  class InteractiveControls {
    var enabled: bool
    var listening: seq<Listening>
    var interactivePoints: PointList
    var width: nat
    var height: nat
    var objects: seq<object?>
    var hovered: object?
    var selected: object?
    var isDown: bool
    var intersectionData: Option<Hit>
    var rect: Option<Rect>
    var events: seq<Event>

    /** The state a move leaves alone: the stream is well formed and its
        replay names the hovered and selected objects; listeners were
        attached and detached in strict alternation, attached now iff
        enabled. */
    ghost predicate Settled()
      reads this`events, this`hovered, this`selected, this`listening, this`enabled
    {
      && WellFormed(events)
      && Replay(events).hovered == hovered
      && Replay(events).selected == selected
      && Alternating(listening)
      && (enabled <==> |listening| % 2 == 1)
    }

    /** The object invariant: also the press state is what the stream says. */
    ghost predicate Valid()
      reads this`events, this`hovered, this`selected, this`listening, this`enabled, this`isDown
    {
      Settled() && Replay(events).down == isDown
    }

    constructor ()
      ensures Valid()
      ensures enabled && listening == [Attach]
      ensures fresh(interactivePoints) && interactivePoints.items == []
      ensures width == 0 && height == 0 && objects == []
      ensures hovered == null && selected == null && !isDown
      ensures intersectionData == None && rect == None && events == []
    {
      interactivePoints := new PointList();
      width, height := 0, 0;
      objects := [];
      hovered, selected := null, null;
      isDown := false;
      intersectionData := None;
      rect := None;
      events := [];
      enabled := false;  // `_enabled` starts out undefined, which is falsy
      listening := [];
      new;
      Enable();
    }

    method Enable()
      requires Valid()
      modifies this`enabled, this`listening
      ensures Valid() && enabled
      ensures listening == if old(enabled) then old(listening) else old(listening) + [Attach]
    {
      if enabled {
        return;
      }
      listening := listening + [Attach];
      enabled := true;
    }

    method Disable()
      requires Valid()
      modifies this`enabled, this`listening
      ensures Valid() && !enabled
      ensures listening == if old(enabled) then old(listening) + [Detach] else old(listening)
    {
      if !enabled {
        return;
      }
      listening := listening + [Detach];
      enabled := false;
    }

    /** An explicit rectangle is kept exactly as given when any of its
        numbers is truthy (non-zero); otherwise the window or element
        bounds, passed in as `bounds`, are used. */
    method Resize(x: real, y: real, w: real, h: real, bounds: Rect)
      modifies this`rect
      ensures rect == Some(if x != 0.0 || y != 0.0 || w != 0.0 || h != 0.0 then Rect(x, y, w, h) else bounds)
    {
      if x != 0.0 || y != 0.0 || w != 0.0 || h != 0.0 {
        rect := Some(Rect(x, y, w, h));
      } else {
        rect := Some(bounds);
      }
    }

    method OnMove(hit: Option<Hit>)
      requires Settled()
      requires hit.Some? ==> hit.value.target in objects
      modifies this`hovered, this`intersectionData, this`events
      ensures Settled()
      ensures Replay(events).down == old(Replay(events).down)
      ensures hovered == HoverAfter(hit) && intersectionData == hit
      ensures events == old(events) + MoveEvents(old(hovered), hit)
    {
      MoveKeepsStream(events, hit);
      if hit.Some? {
        var target := hit.value.target;
        intersectionData := hit;
        if hovered != target {
          events := events + [Out(hovered), Over(target)];
          hovered := target;
        } else {
          events := events + [Move(target, hit.value)];
        }
      } else {
        intersectionData := None;
        if hovered != null {
          events := events + [Out(hovered)];
          hovered := null;
        }
      }
    }

    /** A press: `isDown` is set, the cursor moves to the hit, the
        `down` event reports what is hovered and what was selected, the
        hovered object becomes the selection, and the hit's texture
        coordinates, scaled to the image, are tested against every
        interactive point. */
    method OnDown(hit: Option<Hit>) returns (matched: seq<nat>, slots: seq<nat>)
      requires Valid()
      requires hit.Some? ==> hit.value.target in objects
      modifies this`isDown, this`hovered, this`selected, this`intersectionData, this`events
      ensures Valid()
      ensures isDown && intersectionData == hit
      ensures hovered == HoverAfter(hit) && selected == HoverAfter(hit)
      ensures events == old(events) + MoveEvents(old(hovered), hit) + [Down(HoverAfter(hit), old(selected), hit)]
      ensures hit.None? ==> matched == [] && slots == []
      ensures hit.Some? ==> ProximityResult(interactivePoints.items, Scale(hit.value.u, width),
                                            Scale(hit.value.v, height), matched, slots)
    {
      isDown := true;
      OnMove(hit);
      var next := events + [Down(hovered, selected, intersectionData)];
      Extend(events, Down(hovered, selected, intersectionData));
      assert WellFormed(next);
      assert Replay(next) == Replay(events).(selected := hovered, down := true);
      events := next;
      selected := hovered;
      matched, slots := [], [];
      if hit.Some? {
        var posX := Scale(hit.value.u, width);
        var posY := Scale(hit.value.v, height);
        matched, slots := Proximity(interactivePoints.items, posX, posY);
      }
    }

    method OnUp()
      requires Valid()
      modifies this`isDown, this`events
      ensures Valid() && !isDown
      ensures events == old(events) + [Up(hovered)]
    {
      var next := events + [Up(hovered)];
      Extend(events, Up(hovered));
      assert WellFormed(next);
      assert Replay(next) == Replay(events).(down := false);
      isDown := false;
      events := next;
    }

    /** Leaving the surface: a release, then an `out` of whatever is
        hovered (null included), then nothing is hovered. */
    method OnLeave()
      requires Valid()
      modifies this`isDown, this`events, this`hovered
      ensures Valid() && !isDown && hovered == null
      ensures events == old(events) + [Up(old(hovered)), Out(old(hovered))]
    {
      OnUp();
      assert Valid() && events == old(events) + [Up(old(hovered))] && hovered == old(hovered);
      var next := events + [Out(hovered)];
      Extend(events, Out(hovered));
      assert WellFormed(next);
      assert Replay(next) == Replay(events).(hovered := null);
      events := next;
      hovered := null;
    }
  }
}

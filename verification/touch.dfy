/**
 * The swipe recogniser behind `createTouchGestureHandler`: a handler holds
 * its options and an optional gesture in progress, and each touch event
 * moves it to a new handler, touch-end possibly reporting a swipe.
 *
 * The clock (`Date.now()`) and the viewport width (`window.innerWidth`) are
 * parameters of the events that read them. Coordinates, times and the
 * threshold are JavaScript numbers, modelled as reals.
 */
module TouchGestures {
  import opened Wrappers

  /** The default swipe threshold, as a fraction of the viewport width. */
  const DefaultThreshold: real := 0.15

  /** A swipe must end within this many milliseconds of its start. */
  const MaxSwipeMillis: real := 1000.0

  /** `onSwipe` is only observed through whether it is present. */
  datatype Options = Options(hasOnSwipe: bool, swipeThreshold: real, enabled: bool)

  datatype Touch = Touch(clientX: real, clientY: real)

  datatype GestureState = GestureState(startX: real, startY: real, startTime: real, isMultiTouch: bool)

  datatype Handler = Handler(options: Options, state: Option<GestureState>)

  datatype Direction = Left | Right

  /** One call of `onSwipe(direction, deltaX)`. */
  datatype Swipe = Swipe(direction: Direction, deltaX: real)

  /** The handler after touch-end, and the swipe it reported, if any. */
  datatype EndResult = EndResult(handler: Handler, swipe: Option<Swipe>)

  function Abs(x: real): real {
    if x < 0.0 then -x else x
  }

  /** `createTouchGestureHandler(options)`: no gesture in progress. */
  function Create(options: Options): (h: Handler)
    ensures h.options == options && GetGestureState(h).None?
  {
    Handler(options, None)
  }

  /** The options with the source's defaults: threshold 0.15 and enabled. */
  function DefaultOptions(hasOnSwipe: bool): (o: Options)
    ensures o.swipeThreshold == DefaultThreshold && o.enabled && o.hasOnSwipe == hasOnSwipe
  {
    Options(hasOnSwipe, DefaultThreshold, true)
  }

  /** `getGestureState()`. */
  function GetGestureState(h: Handler): Option<GestureState> {
    h.state
  }

  /** Only an enabled handler with a callback records gestures. */
  predicate Listening(o: Options) {
    o.enabled && o.hasOnSwipe
  }

  /** `handleTouchStart`: record the first touch, the time, and whether more than one finger is down. */
  function TouchStart(h: Handler, touches: seq<Touch>, now: real): (h': Handler)
    ensures h'.options == h.options
    ensures !Listening(h.options) || |touches| == 0 ==> h' == h
    ensures Listening(h.options) && |touches| > 0 ==>
      h'.state.Some? && h'.state.value.startX == touches[0].clientX &&
      h'.state.value.startY == touches[0].clientY && h'.state.value.startTime == now &&
      (h'.state.value.isMultiTouch <==> |touches| > 1)
  {
    if !Listening(h.options) || |touches| == 0 then h
    else Handler(h.options, Some(GestureState(touches[0].clientX, touches[0].clientY, now, |touches| > 1)))
  }

  /** `handleTouchMove`: a second finger during the gesture marks it multi-touch. */
  function TouchMove(h: Handler, touches: seq<Touch>): (h': Handler)
    ensures h'.options == h.options
    ensures h.state.None? || !h.options.enabled ==> h' == h
    ensures h.state.Some? <==> h'.state.Some?
    ensures h.state.Some? ==>
      h'.state.value.startX == h.state.value.startX && h'.state.value.startY == h.state.value.startY &&
      h'.state.value.startTime == h.state.value.startTime
    ensures h.state.Some? && h.state.value.isMultiTouch ==> h'.state.value.isMultiTouch
    ensures h.state.Some? && h.options.enabled && |touches| > 1 ==> h'.state.value.isMultiTouch
    ensures h.state.Some? && |touches| <= 1 ==> h' == h
  {
    if !h.options.enabled || h.state.None? then h
    else if |touches| > 1 then Handler(h.options, Some(h.state.value.(isMultiTouch := true)))
    else h
  }

  /**
   * The three tests touch-end applies to a single-finger gesture: mostly
   * horizontal, longer than the threshold fraction of the viewport, and
   * quicker than a second. All comparisons are strict.
   */
  predicate SwipeAccepted(g: GestureState, end: Touch, now: real, innerWidth: real, threshold: real) {
    var deltaX, deltaY := end.clientX - g.startX, end.clientY - g.startY;
    Abs(deltaX) > Abs(deltaY) && Abs(deltaX) > innerWidth * threshold && now - g.startTime < MaxSwipeMillis
  }

  /** `handleTouchEnd`: report a swipe if the gesture qualifies, and end the gesture. */
  function TouchEnd(h: Handler, changedTouches: seq<Touch>, now: real, innerWidth: real): (r: EndResult)
    ensures r.handler.options == h.options
    ensures !Listening(h.options) || h.state.None? ==> r.handler == h && r.swipe.None?
    ensures Listening(h.options) && h.state.Some? ==> r.handler.state.None?
    ensures r.swipe.Some? <==>
      Listening(h.options) && h.state.Some? && !h.state.value.isMultiTouch && |changedTouches| > 0 &&
      SwipeAccepted(h.state.value, changedTouches[0], now, innerWidth, h.options.swipeThreshold)
    ensures r.swipe.Some? ==>
      r.swipe.value.deltaX == changedTouches[0].clientX - h.state.value.startX &&
      (r.swipe.value.direction == Right <==> r.swipe.value.deltaX > 0.0)
  {
    if !Listening(h.options) || h.state.None? then EndResult(h, None)
    else
      var g := h.state.value;
      var ended := Handler(h.options, None);
      if g.isMultiTouch || |changedTouches| == 0 then EndResult(ended, None)
      else
        var deltaX := changedTouches[0].clientX - g.startX;
        if SwipeAccepted(g, changedTouches[0], now, innerWidth, h.options.swipeThreshold) then
          EndResult(ended, Some(Swipe(if deltaX > 0.0 then Right else Left, deltaX)))
        else EndResult(ended, None)
  }

  /** `handleTouchCancel`, and also `reset`: forget the gesture whatever the options. */
  function TouchCancel(h: Handler): (h': Handler)
    ensures h'.options == h.options && h'.state.None?
  {
    Handler(h.options, None)
  }

  // ---------------------------------------------------------------------------
  // Event sequences
  // ---------------------------------------------------------------------------

  datatype Event =
    | Start(touches: seq<Touch>, now: real)
    | Move(touches: seq<Touch>)
    | End(changedTouches: seq<Touch>, now: real, innerWidth: real)
    | Cancel
    | Reset

  /** One event's effect: the next handler and the swipes it reported (none or one). */
  function Step(h: Handler, e: Event): EndResult {
    match e
    case Start(touches, now) => EndResult(TouchStart(h, touches, now), None)
    case Move(touches) => EndResult(TouchMove(h, touches), None)
    case End(changed, now, width) => TouchEnd(h, changed, now, width)
    case Cancel => EndResult(TouchCancel(h), None)
    case Reset => EndResult(TouchCancel(h), None)
  }

  /** The swipes a handler reports over a sequence of events, in order. */
  function Swipes(h: Handler, events: seq<Event>): seq<Swipe>
    decreases |events|
  {
    if |events| == 0 then []
    else
      var r := Step(h, events[0]);
      (if r.swipe.Some? then [r.swipe.value] else []) + Swipes(r.handler, events[1..])
  }

  /** The handler after a sequence of events. */
  function Final(h: Handler, events: seq<Event>): (h': Handler)
    ensures h'.options == h.options
    decreases |events|
  {
    if |events| == 0 then h else Final(Step(h, events[0]).handler, events[1..])
  }

  /** A gesture is only ever in progress on a handler that is listening. */
  predicate Reachable(h: Handler) {
    h.state.Some? ==> Listening(h.options)
  }

  /** Every event keeps a handler reachable. */
  lemma StepReachable(h: Handler, e: Event)
    requires Reachable(h)
    ensures Reachable(Step(h, e).handler)
  {
  }

  /** A freshly created handler is reachable, and so is every handler after any sequence of events. */
  lemma {:induction false} FinalReachable(options: Options, events: seq<Event>)
    ensures Reachable(Final(Create(options), events))
  {
    ReachableAfter(Create(options), events);
  }

  lemma {:induction false} ReachableAfter(h: Handler, events: seq<Event>)
    requires Reachable(h)
    ensures Reachable(Final(h, events))
    decreases |events|
  {
    if |events| > 0 {
      StepReachable(h, events[0]);
      ReachableAfter(Step(h, events[0]).handler, events[1..]);
    }
  }

  /** On a reachable handler, any touch-end that found a gesture leaves none behind. */
  lemma EndClearsGesture(h: Handler, changedTouches: seq<Touch>, now: real, innerWidth: real)
    requires Reachable(h) && h.state.Some?
    ensures TouchEnd(h, changedTouches, now, innerWidth).handler.state.None?
  {
  }

  /**
   * Without a touch-start nothing is ever reported: from a handler with no
   * gesture, events other than `Start` report no swipe and leave no gesture.
   */
  lemma {:induction false} NoSwipeWithoutStart(h: Handler, events: seq<Event>)
    requires h.state.None?
    requires forall i :: 0 <= i < |events| ==> !events[i].Start?
    ensures Swipes(h, events) == []
    ensures Final(h, events).state.None?
    decreases |events|
  {
    if |events| > 0 {
      var r := Step(h, events[0]);
      assert r.handler.state.None? && r.swipe.None?;
      NoSwipeWithoutStart(r.handler, events[1..]);
    }
  }

  /** A handler that is disabled, or has no callback, never reports a swipe. */
  lemma {:induction false} SilentWhenNotListening(h: Handler, events: seq<Event>)
    requires Reachable(h) && !Listening(h.options)
    ensures Swipes(h, events) == []
    decreases |events|
  {
    if |events| > 0 {
      var r := Step(h, events[0]);
      assert r.swipe.None?;
      StepReachable(h, events[0]);
      SilentWhenNotListening(r.handler, events[1..]);
    }
  }

  /** Each event reports at most one swipe, so a sequence reports at most one per event. */
  lemma {:induction false} SwipesBounded(h: Handler, events: seq<Event>)
    ensures |Swipes(h, events)| <= |events|
    decreases |events|
  {
    if |events| > 0 {
      SwipesBounded(Step(h, events[0]).handler, events[1..]);
    }
  }

  /** Once a gesture is multi-touch, no later move clears the flag and its end reports nothing. */
  lemma MultiTouchNeverSwipes(h: Handler, moves: seq<seq<Touch>>, changedTouches: seq<Touch>, now: real, innerWidth: real)
    requires h.state.Some? && h.state.value.isMultiTouch
    ensures MovesAll(h, moves).state.Some? && MovesAll(h, moves).state.value.isMultiTouch
    ensures TouchEnd(MovesAll(h, moves), changedTouches, now, innerWidth).swipe.None?
  {
    MovesKeepMultiTouch(h, moves);
  }

  /** A run of touch-moves. */
  function MovesAll(h: Handler, moves: seq<seq<Touch>>): (h': Handler)
    decreases |moves|
  {
    if |moves| == 0 then h else MovesAll(TouchMove(h, moves[0]), moves[1..])
  }

  lemma {:induction false} MovesKeepMultiTouch(h: Handler, moves: seq<seq<Touch>>)
    requires h.state.Some? && h.state.value.isMultiTouch
    ensures MovesAll(h, moves).state.Some? && MovesAll(h, moves).state.value.isMultiTouch
    decreases |moves|
  {
    if |moves| > 0 {
      MovesKeepMultiTouch(TouchMove(h, moves[0]), moves[1..]);
    }
  }

  /**
   * A one-finger gesture on a listening handler, started and ended, reports
   * exactly one swipe when it passes the three tests and none otherwise.
   */
  lemma SingleGestureSwipes(o: Options, start: Touch, end: Touch, t0: real, t1: real, innerWidth: real)
    requires Listening(o)
    ensures var swipes := Swipes(Create(o), [Start([start], t0), End([end], t1, innerWidth)]);
      |swipes| <= 1 &&
      (|swipes| == 1 <==> SwipeAccepted(GestureState(start.clientX, start.clientY, t0, false), end, t1, innerWidth, o.swipeThreshold))
  {
    var events := [Start([start], t0), End([end], t1, innerWidth)];
    var h1 := Step(Create(o), events[0]).handler;
    assert events[1..] == [End([end], t1, innerWidth)];
    assert events[1..][1..] == [];
    assert Swipes(h1, events[1..]) == (if Step(h1, events[1]).swipe.Some? then [Step(h1, events[1]).swipe.value] else []);
  }

  /**
   * A one-finger touch followed by a one-finger end 200 pixels to the right
   * within the time limit, on a 1000-pixel viewport with the default
   * threshold, reports a right swipe of 200.
   */
  lemma RightSwipeExample(now: real)
    ensures var h := TouchStart(Create(DefaultOptions(true)), [Touch(100.0, 200.0)], now);
      TouchEnd(h, [Touch(300.0, 200.0)], now + 500.0, 1000.0).swipe == Some(Swipe(Right, 200.0))
  {
  }
}

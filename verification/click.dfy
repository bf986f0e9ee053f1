/**
 * `isPrimaryClick` and `handlePrimaryClick`: a click navigates only when it
 * is a plain left click; anything else passes through to the browser so that
 * "open in new tab" keeps working.
 *
 * The wrapper's side effects are recorded as a list of effects in the order
 * they happen, instead of being performed.
 */
module PhotoClick {

  /** The fields of a `MouseEvent` the wrapper and its callers look at. */
  datatype MouseEvent = MouseEvent(button: int, ctrlKey: bool, metaKey: bool, shiftKey: bool, altKey: bool)

  /** What the wrapper does: cancel the browser's default action, or call the wrapped handler. */
  datatype Effect<T> = PreventDefault(event: MouseEvent) | CallHandler(event: MouseEvent, args: seq<T>)

  /** `isPrimaryClick`: the main button, with neither Ctrl nor Meta held. */
  predicate IsPrimaryClick(e: MouseEvent) {
    e.button == 0 && !e.ctrlKey && !e.metaKey
  }

  /**
   * The function `handlePrimaryClick(handler)` returns, applied to `event`
   * and `args`: on a primary click it prevents the default and then calls the
   * handler with the same event and arguments; otherwise it does nothing.
   */
  function HandlePrimaryClick<T>(event: MouseEvent, args: seq<T>): (effects: seq<Effect<T>>)
    ensures |effects| <= 2
    ensures forall k :: 0 <= k < |effects| ==> effects[k].event == event
    ensures forall k :: 0 <= k < |effects| && effects[k].CallHandler? ==> effects[k].args == args
  {
    if IsPrimaryClick(event) then [PreventDefault(event), CallHandler(event, args)] else []
  }

  /** The handler is called exactly when the click is primary, and then exactly once. */
  lemma HandlerCalledIffPrimary<T>(event: MouseEvent, args: seq<T>)
    ensures var effects := HandlePrimaryClick(event, args);
      (exists k :: 0 <= k < |effects| && effects[k].CallHandler?) <==> IsPrimaryClick(event)
    ensures var effects := HandlePrimaryClick(event, args);
      forall i, j :: 0 <= i < j < |effects| ==> !(effects[i].CallHandler? && effects[j].CallHandler?)
  {
    var effects := HandlePrimaryClick(event, args);
    if IsPrimaryClick(event) {
      assert effects[1].CallHandler?;
    }
  }

  /** The default is prevented exactly when the handler is called, and before it. */
  lemma PreventDefaultBeforeHandler<T>(event: MouseEvent, args: seq<T>)
    ensures var effects := HandlePrimaryClick(event, args);
      (exists k :: 0 <= k < |effects| && effects[k].PreventDefault?) <==> IsPrimaryClick(event)
    ensures var effects := HandlePrimaryClick(event, args);
      forall k :: 0 <= k < |effects| && effects[k].CallHandler? ==>
        exists j :: 0 <= j < k && effects[j].PreventDefault?
  {
    var effects := HandlePrimaryClick(event, args);
    if IsPrimaryClick(event) {
      assert effects[0].PreventDefault?;
    }
  }

  /** Shift and Alt do not change whether a click is primary. */
  lemma ShiftAndAltIgnored(e: MouseEvent, shiftKey: bool, altKey: bool)
    ensures IsPrimaryClick(e.(shiftKey := shiftKey, altKey := altKey)) == IsPrimaryClick(e)
  {
  }

  /** Any other button, or Ctrl or Meta held, lets the click through untouched. */
  lemma OtherClicksPassThrough<T>(event: MouseEvent, args: seq<T>)
    requires event.button != 0 || event.ctrlKey || event.metaKey
    ensures HandlePrimaryClick(event, args) == []
  {
  }

  /** The handler calls a stream of clicks produces: one per primary click, in order. */
  function Dispatch<T>(clicks: seq<(MouseEvent, seq<T>)>): (calls: seq<Effect<T>>)
    decreases |clicks|
  {
    if |clicks| == 0 then []
    else
      var effects := HandlePrimaryClick(clicks[0].0, clicks[0].1);
      (if |effects| == 2 then [effects[1]] else []) + Dispatch(clicks[1..])
  }

  /** The primary clicks of a stream, as handler calls: the reference for `Dispatch`. */
  function PrimaryCalls<T>(clicks: seq<(MouseEvent, seq<T>)>): (calls: seq<Effect<T>>)
    decreases |clicks|
  {
    if |clicks| == 0 then []
    else if IsPrimaryClick(clicks[0].0) then [CallHandler(clicks[0].0, clicks[0].1)] + PrimaryCalls(clicks[1..])
    else PrimaryCalls(clicks[1..])
  }

  /** The wrapper turns a stream of clicks into exactly the calls for its primary clicks. */
  lemma {:induction false} DispatchCallsPrimaryOnly<T>(clicks: seq<(MouseEvent, seq<T>)>)
    ensures Dispatch(clicks) == PrimaryCalls(clicks)
    ensures |Dispatch(clicks)| <= |clicks|
    decreases |clicks|
  {
    if |clicks| > 0 {
      DispatchCallsPrimaryOnly(clicks[1..]);
    }
  }
}

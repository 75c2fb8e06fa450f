/**
 * The `keyboard-nav` class of the page body: added on a Tab key press,
 * removed on any mouse button press. The Escape branch of the keydown
 * handler is empty, so Escape, like every other key, changes nothing.
 */
module Keyboard {
  import opened Wrappers

  /** An event the two document listeners react to. */
  datatype Event = KeyDown(key: string) | MouseDown

  /** The flag after one event. */
  function Step(keyboardNav: bool, e: Event): (r: bool)
    ensures e == KeyDown("Tab") ==> r
    ensures e == MouseDown ==> !r
    ensures e.KeyDown? && e.key != "Tab" ==> r == keyboardNav
  {
    match e
    case KeyDown(key) => if key == "Tab" then true else keyboardNav
    case MouseDown => false
  }

  /** The flag after a run of events, oldest first. */
  function Run(keyboardNav: bool, events: seq<Event>): bool
    decreases |events|
  {
    if events == [] then keyboardNav else Run(Step(keyboardNav, events[0]), events[1..])
  }

  /** Whether an event settles the flag: a Tab press or a mouse press. */
  predicate Decisive(e: Event)
  {
    e == KeyDown("Tab") || e == MouseDown
  }

  /** The index of the last decisive event of `events`, if any. */
  function LastDecisive(events: seq<Event>): (r: Option<nat>)
    ensures r.Some? ==> r.value < |events| && Decisive(events[r.value])
    ensures r.Some? ==> forall j :: r.value < j < |events| ==> !Decisive(events[j])
    ensures r.None? <==> forall k :: 0 <= k < |events| ==> !Decisive(events[k])
  {
    if events == [] then None
    else if Decisive(events[|events| - 1]) then Some(|events| - 1)
    else LastDecisive(events[..|events| - 1])
  }

  lemma {:induction false} RunSnoc(keyboardNav: bool, events: seq<Event>, e: Event)
    ensures Run(keyboardNav, events + [e]) == Step(Run(keyboardNav, events), e)
    decreases |events|
  {
    if events == [] {
      assert [] + [e] == [e];
    } else {
      assert (events + [e])[1..] == events[1..] + [e];
      RunSnoc(Step(keyboardNav, events[0]), events[1..], e);
    }
  }

  /**
   * After any run of events the flag is set exactly when the last decisive
   * event was a Tab press, and is the initial flag when there was none.
   */
  lemma {:induction false} RunIsLastDecisive(keyboardNav: bool, events: seq<Event>)
    ensures Run(keyboardNav, events) ==
      match LastDecisive(events)
      case None => keyboardNav
      case Some(i) => events[i] == KeyDown("Tab")
    decreases |events|
  {
    if events != [] {
      var init, last := events[..|events| - 1], events[|events| - 1];
      assert events == init + [last];
      RunSnoc(keyboardNav, init, last);
      RunIsLastDecisive(keyboardNav, init);
    }
  }

  /** The document body's class list, as far as the two listeners touch it. */
  class Body {
    var keyboardNav: bool

    constructor ()
      ensures !keyboardNav
    {
      keyboardNav := false;
    }

    /** The `keydown` listener. */
    method OnKeyDown(key: string)
      modifies this
      ensures keyboardNav == Step(old(keyboardNav), KeyDown(key))
    {
      if key == "Tab" {
        keyboardNav := true;
      }
    }

    /** The `mousedown` listener. */
    method OnMouseDown()
      modifies this
      ensures keyboardNav == Step(old(keyboardNav), MouseDown)
    {
      keyboardNav := false;
    }
  }
}

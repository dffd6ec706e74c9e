/** The per-tab touch target (`BackgroundView`) and its vertical "slide-off"
    gesture: a press records where it started, a vertical move beyond the
    touch slop asks the slide-off listener whether to take over, after which
    the parent's touch interception is locked out and crossing the tab's own
    height toggles the slide-off state. */
module Gesture {
  import opened Util

  datatype Action = Down | Move | Up | Cancel | OtherAction

  /** A touch event: its action and its vertical position. */
  datatype Motion = Motion(action: Action, y: real)

  /** `SLIDE_OFF_DIRECTION_TOP` (-1) or `SLIDE_OFF_DIRECTION_BOTTOM` (1). */
  datatype SlideOffDirection = Top | Bottom

  /** The slide-off listener callbacks, in the order they are made. */
  datatype SlideEvent = Prepare | Start | Movement | Finish(apply: bool)

  /** What the surroundings answer while one event is handled: whether a
      slide-off listener is registered, the platform touch slop, the view's
      measured height, the configured direction, what `onSlideOffPrepare`
      returns if it is asked, and whether the view has a parent to lock. */
  datatype Surroundings = Surroundings(
    hasListener: bool,
    touchSlop: real,
    height: int,
    direction: SlideOffDirection,
    prepareAnswer: bool,
    hasParent: bool)

  /** `touchDownY`, `inSlideOff` and whether `lockedParent` is set. */
  datatype TouchState = TouchState(touchDownY: real, inSlideOff: bool, locked: bool)

  datatype StepResult = StepResult(state: TouchState, events: seq<SlideEvent>)

  /** The gesture is only ever inside slide-off while the parent is locked. */
  predicate Consistent(s: TouchState) {
    s.inSlideOff ==> s.locked
  }

  /** Whether a locked move at `y` is past the slide-off threshold. */
  predicate PastThreshold(y: real, c: Surroundings) {
    if c.direction == Top then y <= c.height as real else y >= c.height as real
  }

  /** One call of `onTouchEvent` with a slide-off listener present (without
      one the state is not touched), as a state transition with the
      callbacks it makes. */
  function Step(s: TouchState, e: Motion, c: Surroundings): StepResult
  {
    if !c.hasListener then StepResult(s, [])
    else match e.action
      case Down => StepResult(s.(touchDownY := e.y), [])
      case Move =>
        if !s.locked then
          if AbsReal(e.y - s.touchDownY) > c.touchSlop then
            StepResult(s.(locked := c.prepareAnswer && c.hasParent), [Prepare])
          else StepResult(s, [])
        else
          var inside := PastThreshold(e.y, c);
          var toggle := if s.inSlideOff == inside then [] else if inside then [Start] else [Finish(false)];
          StepResult(s.(inSlideOff := inside), toggle + (if inside then [Movement] else []))
      case Cancel =>
        StepResult(s.(inSlideOff := false, locked := false), if s.inSlideOff then [Finish(false)] else [])
      case Up =>
        StepResult(s.(inSlideOff := false, locked := false), if s.inSlideOff then [Finish(true)] else [])
      case OtherAction => StepResult(s, [])
  }

  /** Every event keeps the gesture consistent. */
  lemma StepConsistent(s: TouchState, e: Motion, c: Surroundings)
    requires Consistent(s)
    ensures Consistent(Step(s, e, c).state)
  {
  }

  /** The parent is locked only by a move beyond the slop from the press
      position that the listener agreed to. */
  lemma LocksOnlyAfterSlopAndPrepare(s: TouchState, e: Motion, c: Surroundings)
    requires !s.locked && Step(s, e, c).state.locked
    ensures c.hasListener && e.action == Move
    ensures AbsReal(e.y - s.touchDownY) > c.touchSlop && c.prepareAnswer
    ensures Step(s, e, c).events == [Prepare]
  {
  }

  /** While the parent is not locked no start, movement or finish callback
      is made: the only possible callback is the question to prepare. */
  lemma UnlockedIsQuiet(s: TouchState, e: Motion, c: Surroundings)
    requires Consistent(s) && !s.locked
    ensures forall i :: 0 <= i < |Step(s, e, c).events| ==> Step(s, e, c).events[i] == Prepare
    ensures !Step(s, e, c).state.inSlideOff
  {
  }

  /** On a locked move `Start` fires exactly when slide-off is entered,
      `Finish(false)` exactly when it is left, and `Movement` exactly when the
      move ends inside slide-off; the new state records which side it is on. */
  lemma LockedMoveToggles(s: TouchState, e: Motion, c: Surroundings)
    requires c.hasListener && s.locked && e.action == Move
    ensures var r := Step(s, e, c);
      && r.state.locked && r.state.touchDownY == s.touchDownY
      && r.state.inSlideOff == PastThreshold(e.y, c)
      && (Start in r.events <==> !s.inSlideOff && r.state.inSlideOff)
      && (Finish(false) in r.events <==> s.inSlideOff && !r.state.inSlideOff)
      && (Movement in r.events <==> r.state.inSlideOff)
      && Finish(true) !in r.events && Prepare !in r.events
  {
  }

  /** Releasing applies the slide-off and cancelling abandons it, each only
      if the gesture is inside it; afterwards the gesture is outside and
      the parent unlocked. */
  lemma ReleaseAndCancelEnd(s: TouchState, y: real, c: Surroundings)
    requires c.hasListener
    ensures var r := Step(s, Motion(Up, y), c);
      && !r.state.inSlideOff && !r.state.locked
      && r.events == (if s.inSlideOff then [Finish(true)] else [])
    ensures var r := Step(s, Motion(Cancel, y), c);
      && !r.state.inSlideOff && !r.state.locked
      && r.events == (if s.inSlideOff then [Finish(false)] else [])
  {
  }

  /** A stream of events, each with the surroundings it meets. */
  datatype Input = Input(motion: Motion, surroundings: Surroundings)

  function Run(s: TouchState, inputs: seq<Input>): StepResult
    decreases |inputs|
  {
    if inputs == [] then StepResult(s, [])
    else
      var first := Step(s, inputs[0].motion, inputs[0].surroundings);
      var rest := Run(first.state, inputs[1..]);
      StepResult(rest.state, first.events + rest.events)
  }

  /** The number of times slide-off begins (`Start`) minus the number of times
      it ends (`Finish`, applied or not). */
  function Opened(events: seq<SlideEvent>): int
  {
    if events == [] then 0
    else (if events[0] == Start then 1 else if events[0].Finish? then -1 else 0) + Opened(events[1..])
  }

  lemma {:induction false} OpenedAppend(a: seq<SlideEvent>, b: seq<SlideEvent>)
    ensures Opened(a + b) == Opened(a) + Opened(b)
  {
    if a == [] {
      assert a + b == b;
    } else {
      assert (a + b)[1..] == a[1..] + b;
      OpenedAppend(a[1..], b);
    }
  }

  function InSlideOffCount(s: TouchState): int {
    if s.inSlideOff then 1 else 0
  }

  /** One event changes the open count by exactly the change in whether the
      gesture is inside slide-off. */
  lemma StepBalanced(s: TouchState, e: Motion, c: Surroundings)
    requires Consistent(s)
    ensures Opened(Step(s, e, c).events) == InSlideOffCount(Step(s, e, c).state) - InSlideOffCount(s)
  {
    if c.hasListener && e.action == Move && s.locked {
      var inside := PastThreshold(e.y, c);
      var toggle := if s.inSlideOff == inside then [] else if inside then [Start] else [Finish(false)];
      var tail := if inside then [Movement] else [];
      assert Step(s, e, c).events == toggle + tail;
      OpenedAppend(toggle, tail);
      assert Opened(tail) == 0;
    }
  }

  /** Over any stream of events starting and finishing callbacks balance:
      every `Start` is matched by one `Finish`, except one still open when
      the stream ends inside slide-off. */
  lemma {:induction false} RunBalanced(s: TouchState, inputs: seq<Input>)
    requires Consistent(s)
    ensures Consistent(Run(s, inputs).state)
    ensures Opened(Run(s, inputs).events) == InSlideOffCount(Run(s, inputs).state) - InSlideOffCount(s)
    decreases |inputs|
  {
    if inputs != [] {
      var e := inputs[0].motion;
      var c := inputs[0].surroundings;
      var first := Step(s, e, c);
      var rest := Run(first.state, inputs[1..]);
      assert Run(s, inputs) == StepResult(rest.state, first.events + rest.events);
      StepConsistent(s, e, c);
      StepBalanced(s, e, c);
      RunBalanced(first.state, inputs[1..]);
      OpenedAppend(first.events, rest.events);
    }
  }

  /** A slide-off-eligible tab of height 100 with the bottom direction:
      pressed at 50, dragged past the slop (the listener agrees), then past
      its height twice and released there, gives one `Start`, a `Movement`
      for each move past the height and one applied `Finish`. */
  lemma SlideOffScenario(slop: real)
    requires 0.0 <= slop < 10.0
    ensures var c := Surroundings(true, slop, 100, Bottom, true, true);
      var inputs := [Input(Motion(Down, 50.0), c), Input(Motion(Move, 70.0), c),
                     Input(Motion(Move, 120.0), c), Input(Motion(Move, 130.0), c),
                     Input(Motion(Up, 130.0), c)];
      Run(TouchState(0.0, false, false), inputs).events == [Prepare, Start, Movement, Movement, Finish(true)]
  {
    var c := Surroundings(true, slop, 100, Bottom, true, true);
    var up := [Input(Motion(Up, 130.0), c)];
    var m3 := [Input(Motion(Move, 130.0), c)] + up;
    var m2 := [Input(Motion(Move, 120.0), c)] + m3;
    var m1 := [Input(Motion(Move, 70.0), c)] + m2;
    var all := [Input(Motion(Down, 50.0), c)] + m1;
    assert Step(TouchState(50.0, true, true), Motion(Up, 130.0), c)
        == StepResult(TouchState(50.0, false, false), [Finish(true)]);
    assert Step(TouchState(50.0, true, true), Motion(Move, 130.0), c)
        == StepResult(TouchState(50.0, true, true), [Movement]);
    assert Step(TouchState(50.0, false, true), Motion(Move, 120.0), c)
        == StepResult(TouchState(50.0, true, true), [Start, Movement]);
    assert Step(TouchState(50.0, false, false), Motion(Move, 70.0), c)
        == StepResult(TouchState(50.0, false, true), [Prepare]);
    assert Step(TouchState(0.0, false, false), Motion(Down, 50.0), c)
        == StepResult(TouchState(50.0, false, false), []);
    assert Run(TouchState(50.0, true, true), up).events == [Finish(true)];
    assert Run(TouchState(50.0, true, true), m3).events == [Movement, Finish(true)];
    assert Run(TouchState(50.0, false, true), m2).events == [Start, Movement, Movement, Finish(true)];
    assert Run(TouchState(50.0, false, false), m1).events == [Prepare, Start, Movement, Movement, Finish(true)];
    assert Run(TouchState(0.0, false, false), all).events == [Prepare, Start, Movement, Movement, Finish(true)];
    assert all == [Input(Motion(Down, 50.0), c), Input(Motion(Move, 70.0), c),
                   Input(Motion(Move, 120.0), c), Input(Motion(Move, 130.0), c),
                   Input(Motion(Up, 130.0), c)];
  }

  /** One tab's touch target, with the fields its `onTouchEvent` updates and
      the log of slide-off callbacks it has made. */
  class BackgroundView {
    var index: int
    var touchDownY: real
    var inSlideOff: bool
    var locked: bool
    var events: seq<SlideEvent>

    function State(): TouchState
      reads this
    {
      TouchState(touchDownY, inSlideOff, locked)
    }

    constructor (index: int)
      ensures this.index == index && State() == TouchState(0.0, false, false) && events == []
    {
      this.index := index;
      touchDownY := 0.0;
      inSlideOff := false;
      locked := false;
      events := [];
    }

    method SetIndex(index: int)
      modifies this`index
      ensures this.index == index
    {
      this.index := index;
    }

    /** `onTouchEvent`. Without a slide-off listener the view only reports
        whether it handled the event: never while its parent is faded
        (alpha below 1), else what the platform's click handling answers. */
    method OnTouchEvent(e: Motion, c: Surroundings, parentAlpha: real, platformConsumes: bool)
      returns (handled: bool)
      modifies this`touchDownY, this`inSlideOff, this`locked, this`events
      ensures State() == Step(old(State()), e, c).state
      ensures events == old(events) + Step(old(State()), e, c).events
      ensures handled == (if c.hasListener then true else parentAlpha >= 1.0 && platformConsumes)
      ensures Consistent(old(State())) ==> Consistent(State())
    {
      if !c.hasListener {
        return parentAlpha >= 1.0 && platformConsumes;
      }
      match e.action {
        case Down =>
          touchDownY := e.y;
        case Move =>
          if !locked {
            if AbsReal(e.y - touchDownY) > c.touchSlop {
              events := events + [Prepare];
              if c.prepareAnswer {
                locked := c.hasParent;
              }
            }
          } else {
            var inside := PastThreshold(e.y, c);
            if inSlideOff != inside {
              inSlideOff := inside;
              events := events + (if inside then [Start] else [Finish(false)]);
            }
            if inside {
              events := events + [Movement];
            }
          }
        case Cancel =>
          if inSlideOff {
            inSlideOff := false;
            events := events + [Finish(false)];
          }
          locked := false;
        case Up =>
          if inSlideOff {
            inSlideOff := false;
            events := events + [Finish(true)];
          }
          locked := false;
        case OtherAction =>
      }
      if Consistent(old(State())) {
        StepConsistent(old(State()), e, c);
      }
      return true;
    }
  }
}

/** What each input handler of the colour picker widget does to the widget's
    state and which notifications it raises, as functions of the old state.

    The widget is idle or interacting; while interacting, `hueInteraction`
    says whether the hue track or the saturation/value plane is being
    dragged. Notifications are recorded as the events they would deliver:
    `Begin` when an interaction starts, `Changed(c)` when the colour becomes
    `c`, `End` when an interaction finishes. */
module PickerProtocol {
  import opened ColorLibrary
  import opened PickerGeometry

  /** A notification raised to the widget's listeners. */
  datatype Event = Begin | Changed(color: LinearColor) | End

  /** The sizes of the hue track and of the saturation/value plane. */
  datatype Layout = Layout(hSizeX: real, hSizeY: real, svSizeX: real, svSizeY: real)
  {
    /** Sizes are never negative, and every size the widget divides by is positive. */
    predicate Valid()
    {
      0.0 <= hSizeX && 0.0 < hSizeY && 0.0 < svSizeX && 0.0 < svSizeY
    }
  }

  /** The sizes a newly placed widget has: a 30 x 300 hue track and a 400 x 300 plane. */
  const DefaultLayout := Layout(30.0, 300.0, 400.0, 300.0)

  /** The widget's state that the handlers read and write. */
  datatype PickerState = PickerState(
    interacting: bool,
    hueInteraction: bool,
    color: LinearColor,
    hue: real,
    saturation: real,
    value: real,
    hueIndicator: Vector2,
    svIndicator: Vector2)

  /** A freshly created widget: idle, every component zero, indicators at the origin. */
  const Initial := PickerState(false, false, LinearColor(0.0, 0.0, 0.0, 0.0), 0.0, 0.0, 0.0,
                               Vector2(0.0, 0.0), Vector2(0.0, 0.0))

  /** One pointer event, already translated into each picker's local coordinates. */
  datatype Pointer = Pointer(inHuePicker: Vector2, inSaturationValuePicker: Vector2)

  /** The state after a handler, and the notifications it raised in order. */
  datatype Step = Step(next: PickerState, emitted: seq<Event>)

  /** Both indicators inside their pickers, and hue, saturation and value in range. */
  predicate InRange(layout: Layout, st: PickerState)
  {
    WithinCanvas(st.hueIndicator, layout.hSizeX, layout.hSizeY) &&
    WithinCanvas(st.svIndicator, layout.svSizeX, layout.svSizeY) &&
    0.0 <= st.hue <= 360.0 && 0.0 <= st.saturation <= 1.0 && 0.0 <= st.value <= 1.0
  }

  // ---------------------------------------------------------------------
  // Indicator setters

  /** Moves the hue indicator to `position`, clamped to the track, and sets
      the hue it points at. */
  function SetHueIndicatorPosition(layout: Layout, st: PickerState, position: Vector2): (r: PickerState)
    requires layout.Valid()
    ensures WithinCanvas(r.hueIndicator, layout.hSizeX, layout.hSizeY)
    ensures WithinCanvas(position, layout.hSizeX, layout.hSizeY) ==> r.hueIndicator == position
    ensures r.hueIndicator == ClampToCanvas(position, layout.hSizeX, layout.hSizeY)
    ensures r.hue == HueAtTrackPosition(position.y, layout.hSizeY)
    ensures r.hue == HueAtTrackPosition(r.hueIndicator.y, layout.hSizeY)
    ensures r == st.(hueIndicator := r.hueIndicator, hue := r.hue)
  {
    var indicator := ClampToCanvas(position, layout.hSizeX, layout.hSizeY);
    st.(hueIndicator := indicator, hue := indicator.y / layout.hSizeY * 360.0)
  }

  /** Moves the saturation/value indicator to `position`, clamped to the
      plane, and sets the saturation and value it points at. */
  function SetSaturationValueIndicatorPosition(layout: Layout, st: PickerState, position: Vector2): (r: PickerState)
    requires layout.Valid()
    ensures WithinCanvas(r.svIndicator, layout.svSizeX, layout.svSizeY)
    ensures WithinCanvas(position, layout.svSizeX, layout.svSizeY) ==> r.svIndicator == position
    ensures r.svIndicator == ClampToCanvas(position, layout.svSizeX, layout.svSizeY)
    ensures r.saturation == SaturationAtPlanePosition(position.x, layout.svSizeX)
    ensures r.value == ValueAtPlanePosition(position.y, layout.svSizeY)
    ensures r == st.(svIndicator := r.svIndicator, saturation := r.saturation, value := r.value)
  {
    var indicator := ClampToCanvas(position, layout.svSizeX, layout.svSizeY);
    st.(svIndicator := indicator,
        saturation := indicator.x / layout.svSizeX,
        value := 1.0 - indicator.y / layout.svSizeY)
  }

  // ---------------------------------------------------------------------
  // Input handlers

  /** Pointer motion. While interacting it moves the active indicator under
      the pointer, recomputes the colour from hue, saturation and value, and
      raises one `Changed` with that colour; otherwise it does nothing. */
  function MouseMove(layout: Layout, cv: Converter, st: PickerState, pointer: Pointer): (r: Step)
    requires layout.Valid()
    ensures !st.interacting ==> r == Step(st, [])
    ensures st.interacting ==>
      && r.next.interacting && r.next.hueInteraction == st.hueInteraction
      && r.next.color == cv.hsvToLinearColor(r.next.hue, r.next.saturation, r.next.value)
      && r.emitted == [Changed(r.next.color)]
    ensures st.interacting && st.hueInteraction ==>
      && r.next.hue == HueAtTrackPosition(pointer.inHuePicker.y, layout.hSizeY)
      && r.next.hueIndicator == Vector2(0.0, Clamp(pointer.inHuePicker.y, 0.0, layout.hSizeY))
      && r.next.saturation == st.saturation && r.next.value == st.value
      && r.next.svIndicator == st.svIndicator
    ensures st.interacting && !st.hueInteraction ==>
      && r.next.saturation == SaturationAtPlanePosition(pointer.inSaturationValuePicker.x, layout.svSizeX)
      && r.next.value == ValueAtPlanePosition(pointer.inSaturationValuePicker.y, layout.svSizeY)
      && r.next.svIndicator == ClampToCanvas(pointer.inSaturationValuePicker, layout.svSizeX, layout.svSizeY)
      && r.next.hue == st.hue && r.next.hueIndicator == st.hueIndicator
    ensures st.interacting && ToLinearColorDocumented(cv) ==> r.next.color.a == 1.0
    ensures InRange(layout, st) ==> InRange(layout, r.next)
  {
    if !st.interacting then Step(st, [])
    else
      var moved :=
        if st.hueInteraction
        then SetHueIndicatorPosition(layout, st, Vector2(0.0, pointer.inHuePicker.y))
        else SetSaturationValueIndicatorPosition(layout, st, pointer.inSaturationValuePicker);
      var colored := moved.(color := cv.hsvToLinearColor(moved.hue, moved.saturation, moved.value));
      Step(colored, [Changed(colored.color)])
  }

  /** The flags a button press sets: a hue interaction over the hue track,
      else a saturation/value interaction over the plane, else no change. */
  function Press(st: PickerState, hueHovered: bool, svHovered: bool): (r: PickerState)
    ensures r.interacting <==> st.interacting || hueHovered || svHovered
    ensures hueHovered ==> r.hueInteraction
    ensures !hueHovered && svHovered ==> !r.hueInteraction
    ensures !hueHovered && !svHovered ==> r == st
    ensures r == st.(interacting := r.interacting, hueInteraction := r.hueInteraction)
  {
    if hueHovered then st.(interacting := true, hueInteraction := true)
    else if svHovered then st.(interacting := true, hueInteraction := false)
    else st
  }

  /** A button press. Over the hue track it starts a hue interaction; else,
      over the plane, a saturation/value interaction. If the widget is then
      interacting it raises `Begin` and handles the press as a motion. */
  function MouseButtonDown(layout: Layout, cv: Converter, st: PickerState,
                           hueHovered: bool, svHovered: bool, pointer: Pointer): (r: Step)
    requires layout.Valid()
    ensures hueHovered ==> r.next.interacting && r.next.hueInteraction
    ensures !hueHovered && svHovered ==> r.next.interacting && !r.next.hueInteraction
    ensures !hueHovered && !svHovered ==>
      r.next.interacting == st.interacting && r.next.hueInteraction == st.hueInteraction
    ensures r.next.interacting <==> st.interacting || hueHovered || svHovered
    ensures r.next.interacting ==>
      && r.emitted == [Begin, Changed(r.next.color)]
      && r.next.color == cv.hsvToLinearColor(r.next.hue, r.next.saturation, r.next.value)
    ensures r.next.interacting ==>
      r.next == MouseMove(layout, cv, st.(interacting := true, hueInteraction := r.next.hueInteraction), pointer).next
    ensures !r.next.interacting ==> r == Step(st, [])
    ensures InRange(layout, st) ==> InRange(layout, r.next)
  {
    var pressed := Press(st, hueHovered, svHovered);
    if pressed.interacting then
      var moved := MouseMove(layout, cv, pressed, pointer);
      Step(moved.next, [Begin] + moved.emitted)
    else
      Step(pressed, [])
  }

  /** The flags a press sets keep the state in range, and raising `Begin`
      when they leave the widget interacting keeps the log consistent. */
  lemma PressKeepsInvariant(layout: Layout, st: PickerState, log: seq<Event>, hueHovered: bool, svHovered: bool)
    requires InRange(layout, st) && Consistent(st, log)
    ensures InRange(layout, Press(st, hueHovered, svHovered))
    ensures Press(st, hueHovered, svHovered).interacting ==> Consistent(Press(st, hueHovered, svHovered), log + [Begin])
    ensures !Press(st, hueHovered, svHovered).interacting ==> Press(st, hueHovered, svHovered) == st
  {
    AppendEvent(log, Begin);
  }

  /** A press is its flags followed, if the widget is then interacting, by a
      motion raising `Begin` first. */
  lemma MouseButtonDownIsPressThenMove(layout: Layout, cv: Converter, st: PickerState,
                                       hueHovered: bool, svHovered: bool, pointer: Pointer)
    requires layout.Valid()
    ensures var pressed := Press(st, hueHovered, svHovered);
      MouseButtonDown(layout, cv, st, hueHovered, svHovered, pointer)
      == if pressed.interacting
         then Step(MouseMove(layout, cv, pressed, pointer).next, [Begin] + MouseMove(layout, cv, pressed, pointer).emitted)
         else Step(pressed, [])
  {
  }

  /** A button release or a loss of mouse capture: raises `End` if an
      interaction was active, and leaves the widget idle either way. */
  function EndInteraction(st: PickerState): (r: Step)
    ensures !r.next.interacting
    ensures r.next == st.(interacting := false)
    ensures End in r.emitted <==> st.interacting
    ensures r.emitted == [] || r.emitted == [End]
  {
    Step(st.(interacting := false), if st.interacting then [End] else [])
  }

  /** Sets the colour directly. The colour is stored as given; the
      indicators are moved to where its hue, saturation and value are drawn,
      and hue, saturation and value are read back from them. `Changed` is
      raised only when `broadcastChange` asks for it. */
  function SetPickerColor(layout: Layout, cv: Converter, st: PickerState,
                          newColor: LinearColor, broadcastChange: bool): (r: Step)
    requires layout.Valid()
    ensures r.next.color == newColor
    ensures r.next.interacting == st.interacting && r.next.hueInteraction == st.hueInteraction
    ensures r.emitted == if broadcastChange then [Changed(newColor)] else []
    ensures var hsv := cv.linearColorToHsv(newColor);
      && r.next.hue == Clamp(hsv.h, 0.0, 360.0)
      && r.next.saturation == Clamp(hsv.s, 0.0, 1.0)
      && r.next.value == Clamp(hsv.v, 0.0, 1.0)
    ensures ToHsvDocumented(cv) ==>
      var hsv := cv.linearColorToHsv(newColor);
      r.next.hue == hsv.h && r.next.saturation == hsv.s && r.next.value == hsv.v
    ensures r.next.hueIndicator == Vector2(0.0, TrackPositionOfHue(r.next.hue, layout.hSizeY))
    ensures r.next.svIndicator == Vector2(PlanePositionOfSaturation(r.next.saturation, layout.svSizeX),
                                          PlanePositionOfValue(r.next.value, layout.svSizeY))
    ensures InRange(layout, r.next)
  {
    var hsv := cv.linearColorToHsv(newColor);
    var colored := st.(color := newColor);
    var withHue := SetHueIndicatorPosition(layout, colored, Vector2(0.0, TrackPositionOfHue(hsv.h, layout.hSizeY)));
    var withSv := SetSaturationValueIndicatorPosition(layout, withHue,
      Vector2(PlanePositionOfSaturation(hsv.s, layout.svSizeX), PlanePositionOfValue(hsv.v, layout.svSizeY)));
    HueRoundTrip(hsv.h, layout.hSizeY);
    SaturationRoundTrip(hsv.s, layout.svSizeX);
    ValueRoundTrip(hsv.v, layout.svSizeY);
    TrackPositionRoundTrip(TrackPositionOfHue(hsv.h, layout.hSizeY), layout.hSizeY);
    PlanePositionRoundTrip(Vector2(PlanePositionOfSaturation(hsv.s, layout.svSizeX), PlanePositionOfValue(hsv.v, layout.svSizeY)),
                           layout.svSizeX, layout.svSizeY);
    Step(withSv, if broadcastChange then [Changed(newColor)] else [])
  }

  // ---------------------------------------------------------------------
  // The notification log

  /** Whether the log leaves an interaction open: its last `Begin` or `End` is a `Begin`. */
  function Open(log: seq<Event>): (open: bool)
  {
    if log == [] then false
    else match log[|log| - 1]
      case Begin => true
      case End => false
      case Changed(_) => Open(log[..|log| - 1])
  }

  /** No `End` is raised unless an interaction is open. */
  predicate Bracketed(log: seq<Event>)
  {
    log == [] || (Bracketed(log[..|log| - 1]) && (log[|log| - 1] == End ==> Open(log[..|log| - 1])))
  }

  /** The log agrees with the widget: it is bracketed and leaves an
      interaction open exactly while the widget is interacting. */
  predicate Consistent(st: PickerState, log: seq<Event>)
  {
    Bracketed(log) && Open(log) == st.interacting
  }

  /** How appending one event changes `Open` and `Bracketed`. */
  lemma AppendEvent(log: seq<Event>, e: Event)
    ensures Open(log + [e]) == match e case Begin => true case End => false case Changed(_) => Open(log)
    ensures Bracketed(log + [e]) == (Bracketed(log) && (e == End ==> Open(log)))
  {
    assert (log + [e])[..|log|] == log;
  }

  /** Appending to a log in two steps is appending the two parts at once. */
  lemma AppendAssociates(log: seq<Event>, a: seq<Event>, b: seq<Event>)
    ensures log + a + b == log + (a + b)
  {
  }

  /** Appending no events leaves a log as it is, on either side. */
  lemma AppendNothing(log: seq<Event>)
    ensures log + [] == log && [] + log == log
  {
  }

  /** Every handler keeps the indicators and components in range and the log
      consistent with the state. */
  lemma ApplyPreservesInvariant(layout: Layout, cv: Converter, st: PickerState,
                                 log: seq<Event>, input: Input)
    requires layout.Valid() && InRange(layout, st) && Consistent(st, log)
    ensures InRange(layout, Apply(layout, cv, st, input).next)
    ensures Consistent(Apply(layout, cv, st, input).next, log + Apply(layout, cv, st, input).emitted)
  {
    var r := Apply(layout, cv, st, input);
    match input
    case ButtonDown(hueHovered, svHovered, pointer) =>
      if r.next.interacting {
        var c := r.next.color;
        AppendEvent(log, Begin);
        AppendEvent(log + [Begin], Changed(c));
        AppendAssociates(log, [Begin], [Changed(c)]);
      } else {
        AppendNothing(log);
      }
    case Move(pointer) =>
      if st.interacting {
        AppendEvent(log, Changed(r.next.color));
      } else {
        AppendNothing(log);
      }
    case ButtonUp =>
      if st.interacting {
        AppendEvent(log, End);
      } else {
        AppendNothing(log);
      }
    case CaptureLost =>
      if st.interacting {
        AppendEvent(log, End);
      } else {
        AppendNothing(log);
      }
    case SetColor(newColor, broadcastChange) =>
      if broadcastChange {
        AppendEvent(log, Changed(newColor));
      } else {
        AppendNothing(log);
      }
  }

  // ---------------------------------------------------------------------
  // Input traces

  /** One input the widget receives. */
  datatype Input =
    | ButtonDown(hueHovered: bool, svHovered: bool, pointer: Pointer)
    | Move(pointer: Pointer)
    | ButtonUp
    | CaptureLost
    | SetColor(newColor: LinearColor, broadcastChange: bool)

  /** The handler an input is delivered to. */
  function Apply(layout: Layout, cv: Converter, st: PickerState, input: Input): (r: Step)
    requires layout.Valid()
    ensures r.next.interacting ==> st.interacting || input.ButtonDown?
    ensures st.interacting && !r.next.interacting ==> input.ButtonUp? || input.CaptureLost?
    ensures Begin in r.emitted ==> input.ButtonDown?
    ensures End in r.emitted ==> st.interacting && !r.next.interacting
  {
    match input
    case ButtonDown(hueHovered, svHovered, pointer) => MouseButtonDown(layout, cv, st, hueHovered, svHovered, pointer)
    case Move(pointer) => MouseMove(layout, cv, st, pointer)
    case ButtonUp => EndInteraction(st)
    case CaptureLost => EndInteraction(st)
    case SetColor(newColor, broadcastChange) => SetPickerColor(layout, cv, st, newColor, broadcastChange)
  }

  /** Delivers the inputs in order, collecting every notification raised. */
  function Run(layout: Layout, cv: Converter, st: PickerState, inputs: seq<Input>): (r: Step)
    requires layout.Valid()
    decreases |inputs|
  {
    if inputs == [] then Step(st, [])
    else
      var first := Apply(layout, cv, st, inputs[0]);
      var rest := Run(layout, cv, first.next, inputs[1..]);
      Step(rest.next, first.emitted + rest.emitted)
  }

  /** Whatever inputs arrive, the indicators and components stay in range and
      the log stays consistent with the state. */
  lemma {:induction false} RunPreservesInvariant(layout: Layout, cv: Converter, st: PickerState,
                                                 log: seq<Event>, inputs: seq<Input>)
    requires layout.Valid() && InRange(layout, st) && Consistent(st, log)
    ensures InRange(layout, Run(layout, cv, st, inputs).next)
    ensures Consistent(Run(layout, cv, st, inputs).next, log + Run(layout, cv, st, inputs).emitted)
    decreases |inputs|
  {
    if inputs != [] {
      var first := Apply(layout, cv, st, inputs[0]);
      ApplyPreservesInvariant(layout, cv, st, log, inputs[0]);
      RunPreservesInvariant(layout, cv, first.next, log + first.emitted, inputs[1..]);
      var rest := Run(layout, cv, first.next, inputs[1..]);
      assert Run(layout, cv, st, inputs) == Step(rest.next, first.emitted + rest.emitted);
      AppendAssociates(log, first.emitted, rest.emitted);
    } else {
      AppendNothing(log);
    }
  }

  /** The number of `Begin` events in a log. */
  function Begins(log: seq<Event>): (n: nat)
  {
    if log == [] then 0 else Begins(log[..|log| - 1]) + (if log[|log| - 1] == Begin then 1 else 0)
  }

  /** The number of `End` events in a log. */
  function Ends(log: seq<Event>): (n: nat)
  {
    if log == [] then 0 else Ends(log[..|log| - 1]) + (if log[|log| - 1] == End then 1 else 0)
  }

  /** In a bracketed log every `End` is paid for by an earlier `Begin`, and an
      open interaction by one more. */
  lemma {:induction false} EndsNeverOutnumberBegins(log: seq<Event>)
    requires Bracketed(log)
    ensures Ends(log) + (if Open(log) then 1 else 0) <= Begins(log)
    decreases |log|
  {
    if log != [] {
      EndsNeverOutnumberBegins(log[..|log| - 1]);
    }
  }

  /** From a freshly created widget, any sequence of inputs raises at least as
      many `Begin` notifications as `End` notifications, and never an `End`
      without an open interaction. */
  lemma {:induction false} SessionIsBracketed(layout: Layout, cv: Converter, inputs: seq<Input>)
    requires layout.Valid()
    ensures Bracketed(Run(layout, cv, Initial, inputs).emitted)
    ensures Ends(Run(layout, cv, Initial, inputs).emitted) <= Begins(Run(layout, cv, Initial, inputs).emitted)
  {
    RunPreservesInvariant(layout, cv, Initial, [], inputs);
    AppendNothing(Run(layout, cv, Initial, inputs).emitted);
    EndsNeverOutnumberBegins(Run(layout, cv, Initial, inputs).emitted);
  }

  /** A second release (or capture loss) raises nothing and changes nothing. */
  lemma EndInteractionIdempotent(st: PickerState)
    ensures EndInteraction(EndInteraction(st).next).emitted == []
    ensures EndInteraction(EndInteraction(st).next).next == EndInteraction(st).next
  {
  }

  /** A press while already interacting raises `Begin` again, even when
      neither picker is hovered: the handler does not check the previous state. */
  lemma PressWhileInteractingBeginsAgain(layout: Layout, cv: Converter, st: PickerState,
                                         hueHovered: bool, svHovered: bool, pointer: Pointer)
    requires layout.Valid() && st.interacting
    ensures MouseButtonDown(layout, cv, st, hueHovered, svHovered, pointer).emitted[0] == Begin
  {
  }
}

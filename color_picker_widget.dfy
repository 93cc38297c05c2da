/** The colour picker widget: a hue track beside a saturation/value plane.

    The widget's fields are updated in place by its input handlers. Each
    handler is specified by the function of the same name in
    `PickerProtocol`: the new state, read through `Model()`, is that
    function's next state, and the notifications it raises are appended to
    `log`. Engine input is passed in: whether each picker is hovered, and the
    pointer in each picker's local coordinates. */
module Widget {
  import opened ColorLibrary
  import opened PickerGeometry
  import opened PickerProtocol

  /** The reply to a cursor query: hide the cursor, or leave the choice to the base widget. */
  datatype CursorReply = NoCursor | InheritedCursor

  class ColorPickerWidget {
    /** Hue track size. */
    const hSizeX: real
    const hSizeY: real
    /** Saturation/value plane size. */
    const svSizeX: real
    const svSizeY: real
    /** The conversion library the widget calls. */
    const converter: Converter

    /** The colour the picker displays. */
    var currentColor: LinearColor
    /** Hue, saturation and value at the indicators. */
    var currentHue: real
    var currentSaturation: real
    var currentValue: real
    /** Whether the user is dragging one of the pickers. */
    var isInteracting: bool
    /** True while the hue track is dragged, false while the plane is. */
    var hueInteraction: bool
    /** Indicator positions in their pickers' local coordinates. */
    var hueIndicatorPosition: Vector2
    var svIndicatorPosition: Vector2
    /** Every notification raised so far, in order. */
    var log: seq<Event>

    /** The picker sizes as one value. */
    function Sizes(): Layout
    {
      Layout(hSizeX, hSizeY, svSizeX, svSizeY)
    }

    function Model(): PickerState
      reads this
    {
      PickerState(isInteracting, hueInteraction, currentColor, currentHue, currentSaturation,
                  currentValue, hueIndicatorPosition, svIndicatorPosition)
    }

    /** Sizes are usable, indicators and components are in range, and the
        log is bracketed and open exactly while interacting. */
    ghost predicate Valid()
      reads this
    {
      Sizes().Valid() && InRange(Sizes(), Model()) && Consistent(Model(), log)
    }

    /** A widget with the default sizes. */
    constructor (converter: Converter)
      ensures Valid() && Sizes() == DefaultLayout && this.converter == converter
      ensures Model() == Initial && log == []
    {
      hSizeX, hSizeY, svSizeX, svSizeY := 30.0, 300.0, 400.0, 300.0;
      this.converter := converter;
      currentColor := LinearColor(0.0, 0.0, 0.0, 0.0);
      currentHue, currentSaturation, currentValue := 0.0, 0.0, 0.0;
      isInteracting, hueInteraction := false, false;
      hueIndicatorPosition, svIndicatorPosition := Vector2(0.0, 0.0), Vector2(0.0, 0.0);
      log := [];
    }

    /** A widget with the given sizes. */
    constructor WithLayout(layout: Layout, converter: Converter)
      requires layout.Valid()
      ensures Valid() && Sizes() == layout && this.converter == converter
      ensures Model() == Initial && log == []
    {
      hSizeX, hSizeY, svSizeX, svSizeY := layout.hSizeX, layout.hSizeY, layout.svSizeX, layout.svSizeY;
      this.converter := converter;
      currentColor := LinearColor(0.0, 0.0, 0.0, 0.0);
      currentHue, currentSaturation, currentValue := 0.0, 0.0, 0.0;
      isInteracting, hueInteraction := false, false;
      hueIndicatorPosition, svIndicatorPosition := Vector2(0.0, 0.0), Vector2(0.0, 0.0);
      log := [];
    }

    /** The colour currently displayed. */
    function GetPickerColor(): (c: LinearColor)
      reads this
      ensures c == Model().color
    {
      currentColor
    }

    /** The cursor is hidden exactly while the user is dragging a picker. */
    function OnCursorQuery(): (reply: CursorReply)
      reads this
      ensures reply == NoCursor <==> Model().interacting
    {
      if isInteracting then NoCursor else InheritedCursor
    }

    /** Sets the displayed colour and moves the indicators to it; raises
        `Changed` only if asked to, and by default does not. */
    method SetPickerColor(newColor: LinearColor, broadcastChange: bool := false)
      requires Valid()
      modifies this
      ensures Valid()
      ensures Model() == PickerProtocol.SetPickerColor(Sizes(), converter, old(Model()), newColor, broadcastChange).next
      ensures log == old(log) + PickerProtocol.SetPickerColor(Sizes(), converter, old(Model()), newColor, broadcastChange).emitted
    {
      ghost var st0, log0 := Model(), log;
      currentColor := newColor;
      var hsv := converter.linearColorToHsv(currentColor);
      SetHueIndicatorPosition(Vector2(0.0, TrackPositionOfHue(hsv.h, hSizeY)));
      SetSaturationValueIndicatorPosition(
        Vector2(PlanePositionOfSaturation(hsv.s, svSizeX), PlanePositionOfValue(hsv.v, svSizeY)));
      if broadcastChange {
        log := log + [Changed(currentColor)];
      }
      ApplyPreservesInvariant(Sizes(), converter, st0, log0, SetColor(newColor, broadcastChange));
    }

    /** A button press over the hue track or the plane starts an interaction,
        raises `Begin` and handles the press as a motion. */
    method OnMouseButtonDown(hueHovered: bool, svHovered: bool, pointer: Pointer)
      requires Valid()
      modifies this
      ensures Valid()
      ensures Model() == MouseButtonDown(Sizes(), converter, old(Model()), hueHovered, svHovered, pointer).next
      ensures log == old(log) + MouseButtonDown(Sizes(), converter, old(Model()), hueHovered, svHovered, pointer).emitted
    {
      ghost var st0, log0 := Model(), log;
      if hueHovered {
        isInteracting := true;
        hueInteraction := true;
      } else if svHovered {
        isInteracting := true;
        hueInteraction := false;
      }
      ghost var pressed := Model();
      assert pressed == Press(st0, hueHovered, svHovered);
      PressKeepsInvariant(Sizes(), st0, log0, hueHovered, svHovered);
      MouseButtonDownIsPressThenMove(Sizes(), converter, st0, hueHovered, svHovered, pointer);
      if isInteracting {
        ghost var moved := MouseMove(Sizes(), converter, pressed, pointer);
        log := log + [Begin];
        OnMouseMove(pointer);
        AppendAssociates(log0, [Begin], moved.emitted);
      }
    }

    /** A button release ends the interaction, raising `End` if one was active. */
    method OnMouseButtonUp()
      requires Valid()
      modifies this
      ensures Valid()
      ensures Model() == EndInteraction(old(Model())).next
      ensures log == old(log) + EndInteraction(old(Model())).emitted
    {
      ghost var st0, log0 := Model(), log;
      if isInteracting {
        log := log + [End];
      }
      isInteracting := false;
      ApplyPreservesInvariant(Sizes(), converter, st0, log0, ButtonUp);
    }

    /** Pointer motion while interacting moves the active indicator, recomputes
        the colour and raises `Changed`; otherwise nothing happens. */
    method OnMouseMove(pointer: Pointer)
      requires Valid()
      modifies this
      ensures Valid()
      ensures Model() == MouseMove(Sizes(), converter, old(Model()), pointer).next
      ensures log == old(log) + MouseMove(Sizes(), converter, old(Model()), pointer).emitted
    {
      ghost var st0, log0 := Model(), log;
      var colorChanged := false;
      if isInteracting {
        if hueInteraction {
          SetHueIndicatorPosition(Vector2(0.0, pointer.inHuePicker.y));
          colorChanged := true;
        } else {
          SetSaturationValueIndicatorPosition(pointer.inSaturationValuePicker);
          colorChanged := true;
        }
      }
      if colorChanged {
        currentColor := converter.hsvToLinearColor(currentHue, currentSaturation, currentValue);
        log := log + [Changed(currentColor)];
      }
      ApplyPreservesInvariant(Sizes(), converter, st0, log0, Move(pointer));
    }

    /** Losing mouse capture ends the interaction like a release. */
    method OnMouseCaptureLost()
      requires Valid()
      modifies this
      ensures Valid()
      ensures Model() == EndInteraction(old(Model())).next
      ensures log == old(log) + EndInteraction(old(Model())).emitted
    {
      ghost var st0, log0 := Model(), log;
      if isInteracting {
        log := log + [End];
      }
      isInteracting := false;
      ApplyPreservesInvariant(Sizes(), converter, st0, log0, CaptureLost);
    }

    /** Places the hue indicator (clamped to the track) and sets the hue. */
    method SetHueIndicatorPosition(position: Vector2)
      requires Valid()
      modifies this
      ensures Valid()
      ensures Model() == PickerProtocol.SetHueIndicatorPosition(Sizes(), old(Model()), position)
      ensures log == old(log)
    {
      var x := Clamp(position.x, 0.0, hSizeX);
      var y := Clamp(position.y, 0.0, hSizeY);
      ScaleFacts(y, hSizeY, 360.0);
      hueIndicatorPosition := Vector2(x, y);
      currentHue := y / hSizeY * 360.0;
    }

    /** Places the saturation/value indicator (clamped to the plane) and sets
        saturation and value. */
    method SetSaturationValueIndicatorPosition(position: Vector2)
      requires Valid()
      modifies this
      ensures Valid()
      ensures Model() == PickerProtocol.SetSaturationValueIndicatorPosition(Sizes(), old(Model()), position)
      ensures log == old(log)
    {
      var x := Clamp(position.x, 0.0, svSizeX);
      var y := Clamp(position.y, 0.0, svSizeY);
      ScaleFacts(x, svSizeX, 1.0);
      ScaleFacts(y, svSizeY, 1.0);
      svIndicatorPosition := Vector2(x, y);
      currentSaturation := x / svSizeX;
      currentValue := 1.0 - y / svSizeY;
    }
  }
}

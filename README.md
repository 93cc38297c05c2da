# Colour picker widget: interaction protocol and pointer-to-HSV mapping

A Dafny model of `UColorPickerWidget`, the UMG colour picker of the
ColorPicker plugin. The widget shows a vertical hue track beside a
saturation/value plane. Pressing a mouse button over either picker starts an
interaction. While the button is held, pointer motion moves that picker's
indicator and recomputes the colour. Releasing the button, or losing mouse
capture, ends the interaction. Listeners are notified when an interaction
begins, each time the colour changes, and when it ends. A caller can also set
the colour directly, which moves both indicators to it.

The project has four modules, one per concern:

- `ColorLibrary` (`color_library.dfy`): the colour values, and the two
  conversions the widget calls (HSV to linear colour and back). Their bodies
  are not part of this model. A `Converter` holds them as two total functions.
  The only facts assumed about them are the ranges their documentation
  states, and only where a property needs them (`ToHsvDocumented`,
  `ToLinearColorDocumented`).
- `PickerGeometry` (`picker_geometry.dfy`): the clamp-and-scale arithmetic
  over `real`. It maps a pointer offset to a hue, or to a saturation and a
  value, and maps a component back to an indicator offset. It proves the
  ranges of these maps and their round trips.
- `PickerProtocol` (`picker_protocol.dfy`): every handler as a function from
  the old state to the new state plus the notifications raised, in order
  (`Begin`, `Changed(colour)`, `End`). It also defines input traces (`Run`)
  and a log invariant that every input preserves.
- `Widget` (`color_picker_widget.dfy`): class `ColorPickerWidget` with the
  source's fields, updated in place. Each handler is a method whose
  postcondition equates the new state (`Model()`) and the extended
  notification `log` with the matching `PickerProtocol` function. Every
  method keeps `Valid()`. `Valid()` requires usable sizes, indicators inside
  their pickers, hue in [0, 360], saturation and value in [0, 1], and a log
  that never has an `End` without an open interaction and is open exactly
  while the widget is interacting.

Engine input is passed in as arguments: whether each picker is hovered, and
the pointer in each picker's local coordinates (`Pointer`). A broadcast is
modelled as appending its event to `log`.

Notes on the behaviour the model exposes:

- The code divides by `H_SizeY`, `SV_SizeX` and `SV_SizeY` without a guard.
  The model therefore requires these three sizes to be positive; `H_SizeX`
  only needs to be non-negative. No fallback value is made up for a
  zero-sized picker, because the code has none.
- Dragging to the bottom of the hue track gives hue 360 exactly, not 0. That
  value lies outside the [0, 360) range documented for the HSV-to-colour
  conversion, which says it clamps invalid input.
- A press while already interacting raises `Begin` again, even over neither
  picker (`PressWhileInteractingBeginsAgain`). The handler only checks the
  flag after it has set it. So the log guarantees "no `End` without an open
  interaction" and "at least as many `Begin`s as `End`s"
  (`SessionIsBracketed`), but not strict alternation.
- `SetPickerColor` stores the colour it is given. It does not recompute the
  colour from hue, saturation and value. Reading them back from the moved
  indicators yields the converter's hue, saturation and value clamped to
  [0, 360] and [0, 1]. That is exact whenever the converter keeps its
  documented ranges.

## Model

| member | source | states |
|---|---|---|
| `PickerGeometry.Clamp` | Source/ColorPicker/Private/UMG/ColorPickerWidget.cpp:214-215 | the clamped value lies in [lo, hi], equals the input when the input is inside, and is the nearer bound otherwise |
| `PickerGeometry.ClampToCanvas` | Source/ColorPicker/Public/UMG/ColorPickerWidget.h:59-73 | an indicator position always ends inside its picker canvas. Each coordinate is kept when inside its range, and becomes 0 below it or the size above it |
| `PickerGeometry.HueAtTrackPosition` | Source/ColorPicker/Private/UMG/ColorPickerWidget.cpp:215-223 | the hue picked on the track is in [0, 360]; it is 0 exactly at or above the top, and 360 (not wrapped) exactly at or below the bottom |
| `PickerGeometry.TrackPositionOfHue` | Source/ColorPicker/Private/UMG/ColorPickerWidget.cpp:201 | a hue in [0, 360] is drawn on the track; a hue below 0 or above 360 is drawn above or below it |
| `PickerGeometry.SaturationAtPlanePosition` | Source/ColorPicker/Private/UMG/ColorPickerWidget.cpp:234-243 | saturation is in [0, 1]; it is 0 exactly at or left of the left edge and 1 exactly at or right of the right edge |
| `PickerGeometry.ValueAtPlanePosition` | Source/ColorPicker/Private/UMG/ColorPickerWidget.cpp:235-244 | value is in [0, 1]; it is 1 exactly at or above the top edge and 0 exactly at or below the bottom edge |
| `PickerGeometry.PlanePositionOfSaturation` | Source/ColorPicker/Private/UMG/ColorPickerWidget.cpp:202 | a saturation in [0, 1] is drawn inside the plane's width, and one outside [0, 1] is drawn outside it on the matching side |
| `PickerGeometry.PlanePositionOfValue` | Source/ColorPicker/Private/UMG/ColorPickerWidget.cpp:202 | a value in [0, 1] is drawn inside the plane's height; a value below 0 is drawn below it and one above 1 above it |
| `PickerGeometry.HueRoundTrip` | Source/ColorPicker/Private/UMG/ColorPickerWidget.cpp:199-223 | drawing a hue on the track and reading it back gives the hue clamped to [0, 360], so every documented hue round-trips exactly |
| `PickerGeometry.TrackPositionRoundTrip` | Source/ColorPicker/Private/UMG/ColorPickerWidget.cpp:212-223 | reading the hue under the pointer and drawing it again puts the indicator at the clamped pointer offset |
| `PickerGeometry.SaturationRoundTrip` | Source/ColorPicker/Private/UMG/ColorPickerWidget.cpp:202-243 | drawing a saturation and reading it back gives it clamped to [0, 1] |
| `PickerGeometry.ValueRoundTrip` | Source/ColorPicker/Private/UMG/ColorPickerWidget.cpp:202-244 | drawing a value and reading it back gives it clamped to [0, 1] |
| `PickerGeometry.PlanePositionRoundTrip` | Source/ColorPicker/Private/UMG/ColorPickerWidget.cpp:232-245 | reading saturation and value under the pointer and drawing them again puts the indicator at the pointer clamped to the plane |
| `PickerGeometry.HueMonotonic` | Source/ColorPicker/Private/UMG/ColorPickerWidget.cpp:215-223 | moving the pointer down the track never decreases the hue |
| `PickerGeometry.DefaultLayoutExamples` | Source/ColorPicker/Public/UMG/ColorPickerWidget.h:117-135 | with the default sizes: track middle is hue 180, plane point (200, 75) is saturation 0.5 and value 0.75, and (-50, 1000) clamps to saturation 0 and value 0 |
| `PickerProtocol.SetHueIndicatorPosition` | Source/ColorPicker/Private/UMG/ColorPickerWidget.cpp:212-230 | the hue indicator is the requested position clamped to the track on both axes, the hue is the one it points at, and nothing else changes |
| `PickerProtocol.SetSaturationValueIndicatorPosition` | Source/ColorPicker/Private/UMG/ColorPickerWidget.cpp:232-245 | the indicator is the requested position clamped to the plane on both axes, saturation and value are the ones the requested position points at, and nothing else changes |
| `PickerProtocol.MouseMove` | Source/ColorPicker/Private/UMG/ColorPickerWidget.cpp:143-175 | when idle nothing changes and nothing is raised. When interacting: a hue drag puts the indicator at X 0 and the pointer's Y clamped to the track, and keeps saturation and value; a plane drag keeps the hue; the colour becomes the conversion of the new hue, saturation and value; exactly one `Changed` carrying it is raised; the result is opaque if the conversion is; ranges are kept |
| `PickerProtocol.Press` | Source/ColorPicker/Private/UMG/ColorPickerWidget.cpp:105-116 | a press leaves the widget interacting iff it was already or a picker is hovered; over the hue track it selects hue mode (the track wins if both are hovered), over only the plane it selects plane mode, and over neither it changes nothing; nothing but the two flags ever changes |
| `PickerProtocol.MouseButtonDown` | Source/ColorPicker/Private/UMG/ColorPickerWidget.cpp:102-130 | over the hue track: interacting in hue mode, and the hue track wins if both are hovered. Over only the plane: interacting in plane mode. Over neither: both flags kept. Interacting afterwards iff it was before or a picker was hovered. If interacting, the new state is what a motion gives from the pressed state, and it raises `Begin` then exactly one `Changed` with the recomputed colour; otherwise nothing changes |
| `PickerProtocol.PressKeepsInvariant` | Source/ColorPicker/Private/UMG/ColorPickerWidget.cpp:105-122 | setting the flags keeps the state in range, and raising `Begin` when they leave the widget interacting keeps the log consistent |
| `PickerProtocol.EndInteraction` | Source/ColorPicker/Private/UMG/ColorPickerWidget.cpp:132-141 | afterwards the widget is idle and nothing else changed; `End` is raised iff an interaction was active, and at most once |
| `PickerProtocol.SetPickerColor` | Source/ColorPicker/Private/UMG/ColorPickerWidget.cpp:195-209 | the colour is stored exactly as given and the flags are kept; `Changed(colour)` is raised only when asked. Hue, saturation and value become the converter's values clamped to range, and equal them exactly when the converter keeps its documented ranges. The hue indicator is at X 0 and the track offset of the new hue; the plane indicator is at the plane offsets of the new saturation and value |
| `PickerProtocol.Apply` | Source/ColorPicker/Private/UMG/ColorPickerWidget.cpp:102-209 | only a press can start an interaction; only a release or a capture loss can end one; only a press raises `Begin`; `End` is raised only when an active interaction ends |
| `PickerProtocol.ApplyPreservesInvariant` | Source/ColorPicker/Private/UMG/ColorPickerWidget.cpp:102-209 | every handler keeps indicators and components in range, keeps the log free of an `End` without an open interaction, and keeps the log open exactly while interacting |
| `PickerProtocol.RunPreservesInvariant` | Source/ColorPicker/Private/UMG/ColorPickerWidget.cpp:102-192 | the same invariant holds after any sequence of inputs |
| `PickerProtocol.EndsNeverOutnumberBegins` | Source/ColorPicker/Private/UMG/ColorPickerWidget.cpp:119-138 | in such a log the `End`s, plus one for an open interaction, never outnumber the `Begin`s |
| `PickerProtocol.SessionIsBracketed` | Source/ColorPicker/Private/UMG/ColorPickerWidget.cpp:102-192 | from a new widget, any input sequence raises no `End` without an open interaction and no more `End`s than `Begin`s |
| `PickerProtocol.EndInteractionIdempotent` | Source/ColorPicker/Private/UMG/ColorPickerWidget.cpp:185-191 | a second release or capture loss raises nothing and changes nothing |
| `PickerProtocol.PressWhileInteractingBeginsAgain` | Source/ColorPicker/Private/UMG/ColorPickerWidget.cpp:106-123 | a press while already interacting raises `Begin` again, whatever is hovered |
| `Widget.ColorPickerWidget.constructor` | Source/ColorPicker/Public/UMG/ColorPickerWidget.h:117-135 | a new widget has the default 30 x 300 track and 400 x 300 plane, is idle with a zero colour and an empty log, and is valid |
| `Widget.ColorPickerWidget.WithLayout` | Source/ColorPicker/Public/UMG/ColorPickerWidget.h:117-135 | a widget with any sizes usable for division starts idle, with a zero colour and an empty log, and is valid |
| `Widget.ColorPickerWidget.GetPickerColor` | Source/ColorPicker/Public/UMG/ColorPickerWidget.h:40 | returns the current colour; as a function it changes nothing |
| `Widget.ColorPickerWidget.OnCursorQuery` | Source/ColorPicker/Private/UMG/ColorPickerWidget.cpp:177-183 | the cursor is hidden exactly while interacting |
| `Widget.ColorPickerWidget.SetPickerColor` | Source/ColorPicker/Public/UMG/ColorPickerWidget.h:25-32 | updates the fields and the log as `PickerProtocol.SetPickerColor` says, keeps `Valid()`, and by default does not broadcast |
| `Widget.ColorPickerWidget.OnMouseButtonDown` | Source/ColorPicker/Private/UMG/ColorPickerWidget.cpp:102-130 | updates the fields and the log as `PickerProtocol.MouseButtonDown` says, and keeps `Valid()` |
| `Widget.ColorPickerWidget.OnMouseButtonUp` | Source/ColorPicker/Private/UMG/ColorPickerWidget.cpp:132-141 | updates the fields and the log as `PickerProtocol.EndInteraction` says, and keeps `Valid()` |
| `Widget.ColorPickerWidget.OnMouseMove` | Source/ColorPicker/Private/UMG/ColorPickerWidget.cpp:143-175 | updates the fields and the log as `PickerProtocol.MouseMove` says, and keeps `Valid()` |
| `Widget.ColorPickerWidget.OnMouseCaptureLost` | Source/ColorPicker/Private/UMG/ColorPickerWidget.cpp:185-192 | updates the fields and the log as `PickerProtocol.EndInteraction` says, and keeps `Valid()` |
| `Widget.ColorPickerWidget.SetHueIndicatorPosition` | Source/ColorPicker/Private/UMG/ColorPickerWidget.cpp:212-224 | updates the hue indicator and the hue as `PickerProtocol.SetHueIndicatorPosition` says, keeps `Valid()`, and raises nothing |
| `Widget.ColorPickerWidget.SetSaturationValueIndicatorPosition` | Source/ColorPicker/Private/UMG/ColorPickerWidget.cpp:232-245 | updates the plane indicator, saturation and value as `PickerProtocol.SetSaturationValueIndicatorPosition` says, keeps `Valid()`, and raises nothing |

## Left out

- The bodies of the colour conversions (`HSVToLinearColor`, `LinearColorToHSV`) are not part of this model; they are float numerics. The widget uses them only through a `Converter`. Facts are taken only from their documented ranges: HSV output in [0, 360) x [0, 1] x [0, 1], and alpha 1.
- The other conversions of the library (hex, RGB, CMYK, HSL) are not called by the widget and are not part of this model.
- Float rounding: all arithmetic is over `real`.
- Material and rendering calls: material lookup and dynamic material creation (`NativeOnInitialized`), the `Hue` material parameter, and `UpdateSaturationValueIndicator`, which only forwards the colour to a material.
- `NativePreConstruct` slot layout, indicator sizes and brush resources are engine layout.
- `NativeConstruct` only calls the base class.
- Engine input plumbing is replaced by arguments: `IsHovered`, `AbsoluteToLocal`, and mouse capture, lock and release replies. The base widget's cursor reply is `InheritedCursor`.
- Delegate binding: `IsBound` is not modelled. `log` records what a bound listener would receive.
- The indicator slot `Cast` is assumed to succeed. If it failed, the source would skip the indicator move but still set the hue, saturation or value.
- The designer's initial indicator positions are taken to be the origin. The initial colour and components are zero, as in a freshly zeroed engine object.
- Picker positions (`H_PositionX`, `SV_PositionX`, …) are used only for layout and are not modelled.

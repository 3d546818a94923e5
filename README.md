# Mouse-gesture recogniser for ZMK: a Dafny model

This project models the gesture engine of the ZMK mouse-gesture module. A
small state machine watches relative pointer motion while a "gesture mode"
key is held. It adds each event to a per-axis accumulator, ignoring noise.
Once the accumulated distance reaches the stroke size, it classifies the
stroke into one of eight compass directions and appends that direction to a
sequence of at most eight. It then looks up the sequence in a table of
configured patterns. On the first exact match it queues the pattern's key
bindings as taps on ZMK's behaviour queue.

Four modules follow the three source files:

- `MouseGestureCodes` (codes.dfy): the direction bit codes and the macros
  `GESTURE_X`, `GESTURE_Y` and `GESTURE_XY` of the device-tree header.
- `MouseGestureBehavior` (behavior.dfy): the momentary gesture-mode key. The
  class `BehaviorData` is the C record used both for each instance and for
  the process-wide state. The handlers are methods on these records. `Run`
  folds a series of key events.
- `MouseGestureLogic` (logic.dfy): the value-level view of the input
  processor; its datatypes and functions specify the class below.
  - `DetectDirection` is `detect_direction`.
  - `AccumulateSafe` is the overflow check of `accumulate_movement_safe`.
  - `FirstMatch` is the pattern the matcher acts on.
  - `IsBatch` is the set of queue-call logs that tapping a pattern's
    bindings can produce.
  - `Step` is what one event does to the accumulators and the sequence.
- `MouseGestureProcessor` (processor.dfy): the processor's data as a class
  `GestureData`, with fields `accX`, `accY`, an 8-byte `sequence` array and
  `sequenceLen`. Its methods are the locked event handler, the matcher, the
  accumulator update and `init`. Each is proved against the functions above.
  The behaviour queue is a class `BehaviorQueue` that records every call and
  its result.

Properties of the model worth knowing:

- The classifier stores the magnitudes in 16-bit unsigned variables. Its
  result therefore agrees with the untruncated octant (`Octant`) only while
  both magnitudes are below 65536 (`DetectDirectionIsOctant`).
- Beyond that, a purely rightward displacement of 65536 counts is classified
  as up-right (`TruncationMisclassifies`). With the default configuration, a
  single such event reaches the sequence as `GESTURE_UP_RIGHT`
  (`LargeRightwardEventRecordedUpRight`).
- The handler reads the gesture-mode flag only from the process-wide record.
  It queues bindings synchronously, from inside the handler.
- There is no cooldown between matches, no suppression of repeated
  directions, no event-rate guard, no 4-way mode and no deferred dispatch slot.
- A sequence that is already full when a further stroke completes is
  cleared, and the new direction is dropped.

## Model

| member | source | states |
|---|---|---|
| MouseGestureCodes.GestureX | include/dt-bindings/zmk/mouse-gesture.h:20 | the result is a horizontal code; it is RIGHT exactly when x > 0, so zero gives LEFT |
| MouseGestureCodes.GestureY | include/dt-bindings/zmk/mouse-gesture.h:21 | the result is a vertical code; it is DOWN exactly when y > 0, so zero gives UP |
| MouseGestureCodes.GestureXY | include/dt-bindings/zmk/mouse-gesture.h:22 | the result is one of the four diagonals; its horizontal bits are GESTURE_X(x) and its vertical bits GESTURE_Y(y) |
| MouseGestureCodes.ConstantsDistinct | include/dt-bindings/zmk/mouse-gesture.h:10-18 | the nine constants are pairwise distinct; NONE is 0, and UP, DOWN, LEFT and RIGHT are the single bits 1, 2, 4 and 8 |
| MouseGestureCodes.DiagonalsAreUnions | include/dt-bindings/zmk/mouse-gesture.h:15-18 | a code is diagonal exactly when it has one vertical and one horizontal bit, and it is the union of those two bits |
| MouseGestureCodes.DirectionsWellFormed | include/dt-bindings/zmk/mouse-gesture.h:10-18 | each of the eight direction codes is nonzero, below 16, and has at most one bit per axis |
| MouseGestureCodes.MacrosWellFormed | include/dt-bindings/zmk/mouse-gesture.h:20-22 | every macro result is nonzero, within 4 bits, and has at most one bit of {UP, DOWN} and at most one of {LEFT, RIGHT} |
| MouseGestureBehavior.BehaviorData.constructor | src/behaviors/behavior_mouse_gesture.c:28 | a freshly initialised record, global or per-instance, is inactive |
| MouseGestureBehavior.IsActive | src/behaviors/behavior_mouse_gesture.c:31-33 | returns exactly the process-wide flag and changes nothing |
| MouseGestureBehavior.Init | src/behaviors/behavior_mouse_gesture.c:35-41 | clears the instance flag, leaves the process-wide flag as it was, returns 0 |
| MouseGestureBehavior.OnBindingPressed | src/behaviors/behavior_mouse_gesture.c:43-54 | sets both instance and process-wide flags and returns OPAQUE |
| MouseGestureBehavior.OnBindingReleased | src/behaviors/behavior_mouse_gesture.c:56-67 | clears both flags and returns OPAQUE |
| MouseGestureBehavior.HandlersIdempotent | src/behaviors/behavior_mouse_gesture.c:43-67 | a second press, or a second release, changes nothing |
| MouseGestureBehavior.RunIsLastEvent | src/behaviors/behavior_mouse_gesture.c:43-67 | after any series of key events the flag is "the last event was a press"; after none it is unchanged |
| MouseGestureBehavior.FlagFromStart | src/behaviors/behavior_mouse_gesture.c:28-67 | starting from the initial false, the flag is on iff the series is nonempty and ends with a press |
| MouseGestureLogic.DominanceExclusive | src/input_processors/input_processor_mouse_gesture.c:61-63 | the horizontal and vertical dominance tests can never both hold |
| MouseGestureLogic.DetectDirection | src/input_processors/input_processor_mouse_gesture.c:57-70 | never NONE; with ax, ay the magnitudes mod 65536, the result is horizontal iff 5ax > 12ay, vertical iff 5ay > 12ax, diagonal otherwise; its bits follow the signs of x and y |
| MouseGestureLogic.Octant | src/input_processors/input_processor_mouse_gesture.c:61-67 | the untruncated classifier always yields one of the eight direction codes |
| MouseGestureLogic.DetectDirectionIsOctant | src/input_processors/input_processor_mouse_gesture.c:58-67 | below 65536 on both axes the classifier equals the untruncated octant |
| MouseGestureLogic.TruncationMisclassifies | src/input_processors/input_processor_mouse_gesture.c:58-59 | (65536, 0) is rightward by octant but classified as UP_RIGHT |
| MouseGestureLogic.AccumulateSafe | src/input_processors/input_processor_mouse_gesture.c:143-155 | reports -EOVERFLOW exactly when acc + delta leaves the int32 range, and then restarts from delta; otherwise stores acc + delta and returns 0 |
| MouseGestureLogic.DefaultConfig | src/input_processors/input_processor_mouse_gesture.c:304-307 | with no thresholds given, the stroke size is 1000 and the movement threshold 10 |
| MouseGestureLogic.FirstMatchFrom | src/input_processors/input_processor_mouse_gesture.c:87-135 | the scan from index i returns a matching pattern with no match before it, or none when no pattern from i on matches |
| MouseGestureLogic.FirstMatch | src/input_processors/input_processor_mouse_gesture.c:77-139 | none for an empty table or empty sequence; otherwise the lowest-index pattern of equal length and equal codes, or none if no pattern matches |
| MouseGestureLogic.FirstMatchExists | src/input_processors/input_processor_mouse_gesture.c:87-139 | a match is found iff the sequence is nonempty and some pattern matches it |
| MouseGestureLogic.BatchPresses | src/input_processors/input_processor_mouse_gesture.c:118-131 | tapping a pattern presses every binding exactly once and in order, including after failures |
| MouseGestureLogic.BatchLength | src/input_processors/input_processor_mouse_gesture.c:118-131 | n bindings make between n and 2n queue calls: one press each, plus one release per accepted press |
| MouseGestureLogic.BatchPairing | src/input_processors/input_processor_mouse_gesture.c:118-131 | every call carries the gesture event; presses wait 0; a release waits 10 and directly follows the accepted press of the same binding; a press is followed by a release iff it was accepted |
| MouseGestureLogic.BatchSnoc | src/input_processors/input_processor_mouse_gesture.c:118-131 | one more binding continues the loop: the taps so far followed by that binding's own taps are the taps of the longer prefix |
| MouseGestureLogic.StepInvariant | src/input_processors/input_processor_mouse_gesture.c:196-225 | every event keeps the sequence at most 8 long and made of direction codes, and keeps both accumulators in int32 |
| MouseGestureLogic.StepInactive | src/input_processors/input_processor_mouse_gesture.c:166-171 | with gesture mode off, both accumulators and the sequence are cleared and nothing is queued |
| MouseGestureLogic.StepIgnores | src/input_processors/input_processor_mouse_gesture.c:173-181 | events other than REL_X or REL_Y, and values with magnitude below the movement threshold, change nothing |
| MouseGestureLogic.StepBelowStroke | src/input_processors/input_processor_mouse_gesture.c:183-198 | below the stroke size only the addressed accumulator changes, as the overflow-safe sum says |
| MouseGestureLogic.StepCompletesStroke | src/input_processors/input_processor_mouse_gesture.c:200-225 | at the stroke size both accumulators become 0; with room, the direction is appended and the sequence is matched and cleared on a match; a full sequence is cleared without appending |
| MouseGestureLogic.StepFiresFirstMatch | src/input_processors/input_processor_mouse_gesture.c:206-215 | a fired pattern is the first match of the extended sequence, and the state returns to initial |
| MouseGestureLogic.RightRightFires | src/input_processors/input_processor_mouse_gesture.c:157-231 | under the defaults, two rightward events of 1000 fire a right-right pattern on the second event |
| MouseGestureLogic.LargeRightwardEventRecordedUpRight | src/input_processors/input_processor_mouse_gesture.c:184-207 | one REL_X event of 65536 from the initial state records UP_RIGHT |
| MouseGestureProcessor.BehaviorQueue.Add | src/input_processors/input_processor_mouse_gesture.c:121-126 | one call of the behaviour queue is appended to the log together with its unspecified result |
| MouseGestureProcessor.QueueTap | src/input_processors/input_processor_mouse_gesture.c:120-130 | one binding makes a press call, then a release call only if the press was accepted |
| MouseGestureProcessor.QueueTaps | src/input_processors/input_processor_mouse_gesture.c:118-131 | the calls appended for a pattern form a batch of its bindings in order |
| MouseGestureProcessor.GestureData.constructor | src/input_processors/input_processor_mouse_gesture.c:300-301 | zero-initialised data: accumulators 0 and an empty sequence in an 8-entry array |
| MouseGestureProcessor.GestureData.Init | src/input_processors/input_processor_mouse_gesture.c:253-264 | from any field values, clears both accumulators and the sequence (establishing the invariant) and returns 0 |
| MouseGestureProcessor.GestureData.AccumulateMovementSafe | src/input_processors/input_processor_mouse_gesture.c:143-155 | updates only the named accumulator, as AccumulateSafe says, and returns its status |
| MouseGestureProcessor.GestureData.MatchGesturePattern | src/input_processors/input_processor_mouse_gesture.c:73-140 | returns true iff FirstMatch finds a pattern; then the sequence is cleared and that pattern's taps are queued; otherwise the state and the queue are unchanged |
| MouseGestureProcessor.GestureData.AddDirection | src/input_processors/input_processor_mouse_gesture.c:204-225 | with room, the direction is appended and the patterns are tried, clearing the sequence on a match; a full sequence is cleared and the direction dropped; both accumulators become 0, and the queue gains exactly the fired pattern's taps |
| MouseGestureProcessor.GestureData.HandleEventLocked | src/input_processors/input_processor_mouse_gesture.c:157-231 | the new state is Step of the old one; the queue gains exactly the fired pattern's taps, or nothing; the result is always CONTINUE |

## Left out

- The mutex wrapper `input_processor_mouse_gesture_handle_event` (input_processor_mouse_gesture.c:233-251) is not modelled: concurrency and lock timeouts are out of scope. A failed lock returns CONTINUE and does nothing. Only the locked body is modelled.
- Device-tree instantiation and registration (input_processor_mouse_gesture.c:266-315, behavior_mouse_gesture.c:69-85) are static wiring. The configuration is an immutable `Config` value, and the per-instance records are passed to the handlers directly.
- `zmk_behavior_get_binding` is not modelled: the device lookup is replaced by passing the instance record.
- `k_uptime_get` is the `now` parameter.
- `zmk_behavior_queue_add` is `BehaviorQueue.Add`, whose result is unspecified. What the queue does with accepted entries is outside this model.
- The `source` field of the binding event, present only in split builds, is not modelled.
- Logging has no behavioural effect and is left out. So are the handler's unused `param1`, `param2` and `state` arguments.
- include/zmk/mouse_gesture.h only declares the query function and adds nothing to model.
- C gives `ABS(INT32_MIN)` no defined value (lines 58, 59 and 179). The model excludes it by precondition: `NoUndefinedAbs` requires that the event value is not INT32_MIN and that the accumulator it produces is not INT32_MIN, and the state invariant `WellFormed` keeps both accumulators away from INT32_MIN.
- The signed sum at line 191 can overflow in C. The model computes `total_distance` as the mathematical sum, which always fits in uint32 here.
- `Step` leaves out the test `direction != GESTURE_NONE` (line 202) and the final `return GESTURE_NONE` (line 69). `DetectDirection` never returns NONE, so neither can take effect. `HandleEventLocked` keeps the test.
- `MAX_GESTURE_PATTERNS` (line 32) is declared but never checked by the code, so the model does not bound the pattern table.
- MouseGestureBehavior.Init: requires the instance record to be distinct from the process-wide record, as the two are separate static objects in C.

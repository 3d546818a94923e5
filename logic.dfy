/** The value-level logic of the mouse-gesture input processor: integer
    widths, the direction classifier, overflow-safe accumulation, pattern
    matching, the shape of the queued key taps, and the effect of one input
    event on the recogniser's state. The class in MouseGestureProcessor
    implements these step by step and is proved against them. */
module MouseGestureLogic {
  import opened MouseGestureCodes

  const INT32_MIN: int := -0x8000_0000
  const INT32_MAX: int := 0x7FFF_FFFF

  type int32 = x: int | INT32_MIN <= x <= INT32_MAX
  type uint16 = x: int | 0 <= x < 0x1_0000
  type uint32 = x: int | 0 <= x < 0x1_0000_0000

  /** Zephyr's errno value for EOVERFLOW; the accumulator reports its negation. */
  const EOVERFLOW: int := 139

  /** Capacity of the gesture sequence. */
  const MAX_GESTURE_SEQUENCE_LENGTH: int := 8
  /** Declared next to the sequence capacity but never enforced on the
      pattern table. */
  const MAX_GESTURE_PATTERNS: int := 16

  /** Device-tree defaults of the two thresholds. */
  const DEFAULT_STROKE_SIZE: uint32 := 1000
  const DEFAULT_MOVEMENT_THRESHOLD: uint32 := 10

  /** Wait before each queued release, and the key position given to every
      queued event (no physical key has it). */
  const RELEASE_WAIT: nat := 10
  const GESTURE_POSITION: int32 := INT32_MAX

  /** Zephyr input event type and codes for relative motion. */
  const INPUT_EV_REL: int := 0x02
  const INPUT_REL_X: int := 0x00
  const INPUT_REL_Y: int := 0x01

  datatype Option<T> = None | Some(value: T)

  /** The C macro ABS on a value whose negation does not overflow. */
  function Abs(x: int): nat {
    if x < 0 then -x else x
  }

  /** Conversion to uint16_t: the value modulo 2^16. */
  function ToUint16(n: int): uint16 {
    n % 0x1_0000
  }

  // ---------------------------------------------------------------------
  // Direction classifier

  /** Neither axis can dominate the other by the factor 12/5 at the same time. */
  lemma DominanceExclusive(ax: nat, ay: nat)
    ensures !(ax * 5 > ay * 12 && ay * 5 > ax * 12)
  {
  }

  /** detect_direction: classifies an accumulated displacement into one of
      the eight codes. The magnitudes are first stored in 16-bit unsigned
      variables and so are reduced modulo 65536. */
  function DetectDirection(x: int32, y: int32): (r: bv8)
    requires x != INT32_MIN && y != INT32_MIN
    ensures IsDirection(r)
    ensures IsHorizontal(r) <==> ToUint16(Abs(x)) * 5 > ToUint16(Abs(y)) * 12
    ensures IsVertical(r) <==> ToUint16(Abs(y)) * 5 > ToUint16(Abs(x)) * 12
    ensures IsDiagonal(r) <==> !IsHorizontal(r) && !IsVertical(r)
    ensures !IsVertical(r) ==> r & HORIZONTAL_BITS == GestureX(x)
    ensures !IsHorizontal(r) ==> r & VERTICAL_BITS == GestureY(y)
  {
    var absX := ToUint16(Abs(x));
    var absY := ToUint16(Abs(y));
    DominanceExclusive(absX, absY);
    if absX * 5 > absY * 12 then
      GestureX(x)
    else if absY * 5 > absX * 12 then
      GestureY(y)
    else
      GestureXY(x, y)
  }

  /** The same classification without the 16-bit truncation: the octant of
      (x, y), with sectors split where one magnitude exceeds 12/5 of the other. */
  function Octant(x: int, y: int): (r: bv8)
    ensures IsDirection(r)
  {
    if Abs(x) * 5 > Abs(y) * 12 then GestureX(x)
    else if Abs(y) * 5 > Abs(x) * 12 then GestureY(y)
    else GestureXY(x, y)
  }

  /** While both magnitudes fit in 16 bits the classifier is the octant. */
  lemma DetectDirectionIsOctant(x: int32, y: int32)
    requires Abs(x) < 0x1_0000 && Abs(y) < 0x1_0000
    ensures DetectDirection(x, y) == Octant(x, y)
  {
  }

  /** Beyond 16 bits it is not: a purely rightward displacement of 65536
      counts truncates to (0, 0) and is classified as up-right. */
  lemma TruncationMisclassifies()
    ensures Octant(0x1_0000, 0) == GESTURE_RIGHT
    ensures DetectDirection(0x1_0000, 0) == GESTURE_UP_RIGHT
  {
  }

  // ---------------------------------------------------------------------
  // Overflow-safe accumulation

  /** The new accumulator value and the status code. */
  datatype Accumulated = Accumulated(acc: int32, ret: int)

  /** accumulate_movement_safe: add without wrapping; when the sum leaves
      the int32 range the accumulator restarts from the delta and the call
      reports -EOVERFLOW. */
  function AccumulateSafe(acc: int32, delta: int32): (r: Accumulated)
    ensures r.ret == -EOVERFLOW <==> !(INT32_MIN <= acc + delta <= INT32_MAX)
    ensures r.ret == -EOVERFLOW ==> r.acc == delta
    ensures r.ret != -EOVERFLOW ==> r.ret == 0 && r.acc == acc + delta
  {
    if (acc > 0 && delta > INT32_MAX - acc) || (acc < 0 && delta < INT32_MIN - acc) then
      Accumulated(delta, -EOVERFLOW)
    else
      Accumulated(acc + delta, 0)
  }

  // ---------------------------------------------------------------------
  // Configuration and pattern matching

  /** A key binding to run: the behaviour's device name and two parameters. */
  datatype Binding = Binding(behaviorDev: string, param1: uint32, param2: uint32)

  /** A configured gesture: the direction codes to match and the bindings to tap. */
  datatype Pattern = Pattern(bindings: seq<Binding>, gesture: seq<bv8>)

  /** Read-only configuration of one processor instance. */
  datatype Config = Config(strokeSize: uint32, movementThreshold: uint32, patterns: seq<Pattern>)

  /** A configuration that sets neither threshold. */
  function DefaultConfig(patterns: seq<Pattern>): (cfg: Config)
    ensures cfg.strokeSize == 1000 && cfg.movementThreshold == 10 && cfg.patterns == patterns
  {
    Config(DEFAULT_STROKE_SIZE, DEFAULT_MOVEMENT_THRESHOLD, patterns)
  }

  /** A pattern matches a sequence when the lengths agree and the codes
      agree position by position. */
  predicate Matches(p: Pattern, s: seq<bv8>) {
    |p.gesture| == |s| && forall j :: 0 <= j < |s| ==> p.gesture[j] == s[j]
  }

  /** The first pattern at index i or later that matches s. */
  function FirstMatchFrom(patterns: seq<Pattern>, s: seq<bv8>, i: nat): (r: Option<nat>)
    requires i <= |patterns|
    ensures r.Some? ==> i <= r.value < |patterns| && Matches(patterns[r.value], s)
    ensures forall k :: i <= k < |patterns| && (r.None? || k < r.value) ==> !Matches(patterns[k], s)
    decreases |patterns| - i
  {
    if i == |patterns| then None
    else if Matches(patterns[i], s) then Some(i)
    else FirstMatchFrom(patterns, s, i + 1)
  }

  /** The pattern match_gesture_pattern acts on: none when the table or the
      sequence is empty, otherwise the lowest-index exact match. */
  function FirstMatch(patterns: seq<Pattern>, s: seq<bv8>): (r: Option<nat>)
    ensures |patterns| == 0 || |s| == 0 ==> r == None
    ensures r.Some? ==> r.value < |patterns| && Matches(patterns[r.value], s)
    ensures r.Some? ==> forall k :: 0 <= k < r.value ==> !Matches(patterns[k], s)
    ensures r.None? && |s| > 0 ==> forall k :: 0 <= k < |patterns| ==> !Matches(patterns[k], s)
  {
    if |patterns| == 0 then None
    else if |s| == 0 then None
    else FirstMatchFrom(patterns, s, 0)
  }

  /** A match is found exactly when the sequence is nonempty and some
      pattern matches it. */
  lemma FirstMatchExists(patterns: seq<Pattern>, s: seq<bv8>)
    ensures FirstMatch(patterns, s).Some? <==>
            |s| > 0 && exists k :: 0 <= k < |patterns| && Matches(patterns[k], s)
  {
  }

  // ---------------------------------------------------------------------
  // Queued key taps

  /** The event handed to the behaviour queue with every binding. */
  datatype BindingEvent = BindingEvent(position: int32, timestamp: int)

  /** One call of the behaviour queue: what was asked for and what it returned. */
  datatype QueueCall = QueueCall(event: BindingEvent, binding: Binding, press: bool, wait: nat, ret: int)

  predicate IsPressOf(c: QueueCall, ev: BindingEvent, b: Binding) {
    c.event == ev && c.binding == b && c.press && c.wait == 0
  }

  predicate IsReleaseOf(c: QueueCall, ev: BindingEvent, b: Binding) {
    c.event == ev && c.binding == b && !c.press && c.wait == RELEASE_WAIT
  }

  /** The calls that tapping bindings bs makes, whatever the queue returns:
      for each binding in order a press with no wait, and, only when that
      press was accepted (nonnegative result), the release after RELEASE_WAIT. */
  predicate IsBatch(ev: BindingEvent, bs: seq<Binding>, calls: seq<QueueCall>)
    decreases |bs|
  {
    if bs == [] then calls == []
    else
      var b, n := bs[|bs| - 1], |calls|;
      && n >= 1
      && if calls[n - 1].press then
           && IsPressOf(calls[n - 1], ev, b) && calls[n - 1].ret < 0
           && IsBatch(ev, bs[..|bs| - 1], calls[..n - 1])
         else
           && n >= 2
           && IsReleaseOf(calls[n - 1], ev, b)
           && IsPressOf(calls[n - 2], ev, b) && calls[n - 2].ret >= 0
           && IsBatch(ev, bs[..|bs| - 1], calls[..n - 2])
  }

  /** The bindings of the press calls, in order. */
  function Presses(calls: seq<QueueCall>): seq<Binding>
    decreases |calls|
  {
    if calls == [] then []
    else (if calls[0].press then [calls[0].binding] else []) + Presses(calls[1..])
  }

  lemma {:induction false} PressesAppend(a: seq<QueueCall>, b: seq<QueueCall>)
    ensures Presses(a + b) == Presses(a) + Presses(b)
    decreases |a|
  {
    if a == [] {
      assert a + b == b;
    } else {
      assert (a + b)[1..] == a[1..] + b;
      PressesAppend(a[1..], b);
    }
  }

  /** The shape every call of a batch has at its position i: it carries the
      batch's event; a press has no wait, and it is followed by a release
      exactly when it was accepted; a release waits RELEASE_WAIT and directly
      follows the accepted press of the same binding. */
  predicate PairedAt(ev: BindingEvent, calls: seq<QueueCall>, i: nat)
    requires i < |calls|
  {
    && calls[i].event == ev
    && (calls[i].press ==> calls[i].wait == 0 && (calls[i].ret >= 0 <==> i + 1 < |calls| && !calls[i + 1].press))
    && (!calls[i].press ==>
          && 0 < i && IsPressOf(calls[i - 1], ev, calls[i].binding) && calls[i - 1].ret >= 0
          && calls[i].wait == RELEASE_WAIT)
  }

  /** The calls of a batch before its last binding's calls. */
  function BatchFront(ev: BindingEvent, bs: seq<Binding>, calls: seq<QueueCall>): (k: nat)
    requires IsBatch(ev, bs, calls) && bs != []
    ensures k < |calls| && IsBatch(ev, bs[..|bs| - 1], calls[..k])
  {
    if calls[|calls| - 1].press then |calls| - 1 else |calls| - 2
  }

  /** Tapping bindings bs presses every binding once, in order, even when
      some presses fail. */
  lemma {:induction false} BatchPresses(ev: BindingEvent, bs: seq<Binding>, calls: seq<QueueCall>)
    requires IsBatch(ev, bs, calls)
    ensures Presses(calls) == bs
    decreases |bs|
  {
    if bs != [] {
      var k := BatchFront(ev, bs, calls);
      var front, tail := calls[..k], calls[k..];
      BatchPresses(ev, bs[..|bs| - 1], front);
      assert calls == front + tail;
      PressesAppend(front, tail);
      assert bs == bs[..|bs| - 1] + [bs[|bs| - 1]];
      assert tail[0].binding == bs[|bs| - 1] && tail[0].press;
      if |tail| == 2 {
        assert !tail[1].press && tail[1..][1..] == [];
        assert Presses(tail[1..]) == [];
      } else {
        assert tail[1..] == [];
      }
      assert Presses(tail) == [bs[|bs| - 1]];
    }
  }

  /** A batch makes one or two calls per binding. */
  lemma {:induction false} BatchLength(ev: BindingEvent, bs: seq<Binding>, calls: seq<QueueCall>)
    requires IsBatch(ev, bs, calls)
    ensures |bs| <= |calls| <= 2 * |bs|
    decreases |bs|
  {
    if bs != [] {
      var k := BatchFront(ev, bs, calls);
      BatchLength(ev, bs[..|bs| - 1], calls[..k]);
    }
  }

  /** Within a batch a release directly follows each accepted press and
      nothing else, and a failed press has no release. */
  lemma {:induction false} BatchPairing(ev: BindingEvent, bs: seq<Binding>, calls: seq<QueueCall>)
    requires IsBatch(ev, bs, calls)
    ensures forall i :: 0 <= i < |calls| ==> PairedAt(ev, calls, i)
    decreases |bs|
  {
    if bs != [] {
      var n := |calls|;
      var k := BatchFront(ev, bs, calls);
      var front := calls[..k];
      BatchPairing(ev, bs[..|bs| - 1], front);
      forall i | 0 <= i < n
        ensures PairedAt(ev, calls, i)
      {
        if i < k {
          assert PairedAt(ev, front, i);
          assert i + 1 < k ==> front[i + 1] == calls[i + 1];
          if i + 1 == k {
            assert calls[k].press;
          }
        }
      }
    }
  }

  /** Tapping one more binding extends a batch by its own calls. */
  lemma BatchSnoc(ev: BindingEvent, bs: seq<Binding>, k: nat, calls: seq<QueueCall>, more: seq<QueueCall>)
    requires k < |bs|
    requires IsBatch(ev, bs[..k], calls)
    requires IsBatch(ev, [bs[k]], more)
    ensures IsBatch(ev, bs[..k + 1], calls + more)
  {
    var all, n := calls + more, |calls + more|;
    assert bs[..k + 1][..k] == bs[..k];
    if more[|more| - 1].press {
      assert all[..n - 1] == calls;
    } else {
      assert all[..n - 2] == calls;
    }
  }

  // ---------------------------------------------------------------------
  // One input event

  /** A relative motion event on the X or Y axis. */
  datatype InputEvent = InputEvent(evType: int, code: int, value: int32)

  predicate IsMotion(ev: InputEvent) {
    ev.evType == INPUT_EV_REL && (ev.code == INPUT_REL_X || ev.code == INPUT_REL_Y)
  }

  /** The recogniser's state: both accumulators and the gesture so far. */
  datatype GestureState = GestureState(accX: int32, accY: int32, sequence: seq<bv8>)

  const INITIAL: GestureState := GestureState(0, 0, [])

  /** The state's invariant: a bounded sequence of direction codes, and no
      accumulator at INT32_MIN, whose magnitude C cannot take. */
  predicate WellFormed(s: GestureState) {
    && s.accX != INT32_MIN && s.accY != INT32_MIN
    && |s.sequence| <= MAX_GESTURE_SEQUENCE_LENGTH
    && forall i :: 0 <= i < |s.sequence| ==> IsDirection(s.sequence[i])
  }

  /** The accumulator an accepted event adds to: X for REL_X, Y otherwise. */
  function AxisAcc(s: GestureState, ev: InputEvent): int32 {
    if ev.code == INPUT_REL_X then s.accX else s.accY
  }

  /** The event never asks C for the magnitude of INT32_MIN: neither the
      event's value (noise cut-off) nor the accumulator it produces
      (distance and classification) is INT32_MIN. */
  predicate NoUndefinedAbs(cfg: Config, active: bool, s: GestureState, ev: InputEvent) {
    active && IsMotion(ev) ==>
      && ev.value != INT32_MIN
      && (Abs(ev.value) >= cfg.movementThreshold ==> AxisAcc(s, ev) + ev.value != INT32_MIN)
  }

  /** The state after adding the event's value to its axis. */
  function Accumulate(s: GestureState, ev: InputEvent): GestureState
  {
    if ev.code == INPUT_REL_X then s.(accX := AccumulateSafe(s.accX, ev.value).acc)
    else s.(accY := AccumulateSafe(s.accY, ev.value).acc)
  }

  /** The new state, and the pattern whose bindings were queued, if any. */
  datatype StepOutcome = StepOutcome(next: GestureState, fired: Option<nat>)

  /** What a completed stroke in direction d does: with room in the
      sequence, append d and try the patterns, clearing the sequence on a
      match; with the sequence full, clear it and drop d. Either way both
      accumulators restart from zero. */
  function RecordDirection(cfg: Config, sequence: seq<bv8>, d: bv8): StepOutcome {
    if |sequence| < MAX_GESTURE_SEQUENCE_LENGTH then
      var appended := sequence + [d];
      var m := FirstMatch(cfg.patterns, appended);
      StepOutcome(GestureState(0, 0, if m.Some? then [] else appended), m)
    else
      StepOutcome(INITIAL, None)
  }

  /** The locked event handler on values: gate on gesture mode, keep only
      relative X/Y motion, drop noise, accumulate, and once the stroke is
      long enough classify it and record the direction. */
  function Step(cfg: Config, active: bool, s: GestureState, ev: InputEvent): StepOutcome
    requires WellFormed(s) && NoUndefinedAbs(cfg, active, s, ev)
  {
    if !active then StepOutcome(INITIAL, None)
    else if !IsMotion(ev) then StepOutcome(s, None)
    else if Abs(ev.value) < cfg.movementThreshold then StepOutcome(s, None)
    else
      var s1 := Accumulate(s, ev);
      if Abs(s1.accX) + Abs(s1.accY) < cfg.strokeSize then StepOutcome(s1, None)
      else RecordDirection(cfg, s1.sequence, DetectDirection(s1.accX, s1.accY))
  }

  /** The queue log grew from log0 to log by exactly the taps of the fired
      pattern, or not at all when none fired. */
  ghost predicate QueuedFor(cfg: Config, fired: Option<nat>, ev: BindingEvent, log0: seq<QueueCall>, log: seq<QueueCall>) {
    && |log| >= |log0| && log[..|log0|] == log0
    && (fired.None? ==> log == log0)
    && (fired.Some? ==> fired.value < |cfg.patterns| && IsBatch(ev, cfg.patterns[fired.value].bindings, log[|log0|..]))
  }

  /** The direction a stroke-completing event records. */
  function StrokeDirection(s: GestureState, ev: InputEvent): bv8
    requires WellFormed(s) && IsMotion(ev) && ev.value != INT32_MIN
    requires AxisAcc(s, ev) + ev.value != INT32_MIN
  {
    var s1 := Accumulate(s, ev);
    DetectDirection(s1.accX, s1.accY)
  }

  /** Every step keeps the state's invariant, and a queued pattern exists. */
  lemma StepInvariant(cfg: Config, active: bool, s: GestureState, ev: InputEvent)
    requires WellFormed(s) && NoUndefinedAbs(cfg, active, s, ev)
    ensures WellFormed(Step(cfg, active, s, ev).next)
    ensures var o := Step(cfg, active, s, ev); o.fired.Some? ==> o.fired.value < |cfg.patterns|
  {
  }

  /** With gesture mode off, the accumulators and the sequence are cleared
      and nothing is queued. */
  lemma StepInactive(cfg: Config, s: GestureState, ev: InputEvent)
    requires WellFormed(s)
    ensures Step(cfg, false, s, ev) == StepOutcome(INITIAL, None)
  {
  }

  /** Events other than relative X/Y motion, and motion below the noise
      threshold, change nothing. */
  lemma StepIgnores(cfg: Config, s: GestureState, ev: InputEvent)
    requires WellFormed(s) && NoUndefinedAbs(cfg, true, s, ev)
    requires !IsMotion(ev) || Abs(ev.value) < cfg.movementThreshold
    ensures Step(cfg, true, s, ev) == StepOutcome(s, None)
  {
  }

  /** Below the stroke size only the addressed accumulator changes. */
  lemma StepBelowStroke(cfg: Config, s: GestureState, ev: InputEvent)
    requires WellFormed(s) && NoUndefinedAbs(cfg, true, s, ev)
    requires IsMotion(ev) && Abs(ev.value) >= cfg.movementThreshold
    requires Abs(Accumulate(s, ev).accX) + Abs(Accumulate(s, ev).accY) < cfg.strokeSize
    ensures var o := Step(cfg, true, s, ev);
            && o.fired == None
            && o.next.sequence == s.sequence
            && (ev.code == INPUT_REL_X ==> o.next.accY == s.accY && o.next.accX == AccumulateSafe(s.accX, ev.value).acc)
            && (ev.code == INPUT_REL_Y ==> o.next.accX == s.accX && o.next.accY == AccumulateSafe(s.accY, ev.value).acc)
  {
  }

  /** Once the stroke size is reached both accumulators restart from zero;
      a sequence with room gets the classified direction appended and is
      then matched, a sequence already full is cleared without appending. */
  lemma StepCompletesStroke(cfg: Config, s: GestureState, ev: InputEvent)
    requires WellFormed(s) && NoUndefinedAbs(cfg, true, s, ev)
    requires IsMotion(ev) && Abs(ev.value) >= cfg.movementThreshold
    requires Abs(Accumulate(s, ev).accX) + Abs(Accumulate(s, ev).accY) >= cfg.strokeSize
    ensures var o, d := Step(cfg, true, s, ev), StrokeDirection(s, ev);
            && IsDirection(d)
            && o.next.accX == 0 && o.next.accY == 0
            && (|s.sequence| < MAX_GESTURE_SEQUENCE_LENGTH ==>
                  && o.fired == FirstMatch(cfg.patterns, s.sequence + [d])
                  && o.next.sequence == if o.fired.Some? then [] else s.sequence + [d])
            && (|s.sequence| == MAX_GESTURE_SEQUENCE_LENGTH ==> o.next.sequence == [] && o.fired == None)
  {
  }

  /** A queued pattern is the first one matching the sequence with the new
      direction, and the sequence is then empty. */
  lemma StepFiresFirstMatch(cfg: Config, active: bool, s: GestureState, ev: InputEvent)
    requires WellFormed(s) && NoUndefinedAbs(cfg, active, s, ev)
    requires Step(cfg, active, s, ev).fired.Some?
    ensures var o := Step(cfg, active, s, ev); var i := o.fired.value;
            && active && IsMotion(ev) && |s.sequence| < MAX_GESTURE_SEQUENCE_LENGTH
            && o.next == INITIAL
            && i < |cfg.patterns|
            && Matches(cfg.patterns[i], s.sequence + [StrokeDirection(s, ev)])
            && forall k :: 0 <= k < i ==> !Matches(cfg.patterns[k], s.sequence + [StrokeDirection(s, ev)])
  {
  }

  /** Two rightward strokes of the default stroke size, from the initial
      state, fire a configured right-right pattern and leave the recogniser
      in its initial state. */
  lemma RightRightFires(bindings: seq<Binding>)
    ensures var cfg := DefaultConfig([Pattern(bindings, [GESTURE_RIGHT, GESTURE_RIGHT])]);
            var ev := InputEvent(INPUT_EV_REL, INPUT_REL_X, 1000);
            var first := Step(cfg, true, INITIAL, ev);
            && first == StepOutcome(GestureState(0, 0, [GESTURE_RIGHT]), None)
            && Step(cfg, true, first.next, ev) == StepOutcome(INITIAL, Some(0))
  {
    var cfg := DefaultConfig([Pattern(bindings, [GESTURE_RIGHT, GESTURE_RIGHT])]);
    assert !Matches(cfg.patterns[0], [GESTURE_RIGHT]);
    assert Matches(cfg.patterns[0], [GESTURE_RIGHT] + [GESTURE_RIGHT]);
  }

  /** The truncation reaches the recogniser: one rightward event of 65536
      counts is recorded as an up-right stroke. */
  lemma LargeRightwardEventRecordedUpRight()
    ensures Step(DefaultConfig([]), true, INITIAL, InputEvent(INPUT_EV_REL, INPUT_REL_X, 0x1_0000)).next
            == GestureState(0, 0, [GESTURE_UP_RIGHT])
  {
    TruncationMisclassifies();
  }
}

/** The mouse-gesture input processor's mutable data and its handlers:
    the accumulators, the fixed-size gesture sequence with its length, the
    event handler run under the processor's lock, and the pattern matcher
    that taps the matched pattern's bindings through the behaviour queue. */
module MouseGestureProcessor {
  import opened MouseGestureCodes
  import opened MouseGestureLogic
  import MouseGestureBehavior

  /** What an input processor tells the input pipeline. */
  datatype ProcResult = Continue | Stop

  /** Which accumulator accumulate_movement_safe updates. */
  datatype Axis = X | Y

  /** The behaviour queue, seen as the log of every call made to it. Whether
      a call succeeds is up to the queue; a negative result is a failure. */
  class BehaviorQueue {
    var log: seq<QueueCall>

    constructor ()
      ensures log == []
    {
      log := [];
    }

    method Add(event: BindingEvent, binding: Binding, press: bool, wait: nat) returns (ret: int)
      modifies this
      ensures log == old(log) + [QueueCall(event, binding, press, wait, ret)]
    {
      ret := *;
      log := log + [QueueCall(event, binding, press, wait, ret)];
    }
  }

  /** Queue one binding as a key tap: the press with no wait and, only when
      the queue accepted it, the release after RELEASE_WAIT. */
  method QueueTap(queue: BehaviorQueue, event: BindingEvent, b: Binding) returns (ghost added: seq<QueueCall>)
    modifies queue
    ensures queue.log == old(queue.log) + added
    ensures IsBatch(event, [b], added)
  {
    var ret := queue.Add(event, b, true, 0);
    added := [QueueCall(event, b, true, 0, ret)];
    if ret >= 0 {
      var releaseRet := queue.Add(event, b, false, RELEASE_WAIT);
      added := added + [QueueCall(event, b, false, RELEASE_WAIT, releaseRet)];
    }
    assert [b][..0] == [];
    assert |added| == 2 ==> added[..0] == [];
    assert added[..|added| - 1] == [] || |added| == 2;
  }

  /** The binding loop of match_gesture_pattern: tap every binding in order;
      a failed call does not stop the remaining bindings. */
  method QueueTaps(queue: BehaviorQueue, event: BindingEvent, bindings: seq<Binding>) returns (ghost calls: seq<QueueCall>)
    modifies queue
    ensures queue.log == old(queue.log) + calls
    ensures IsBatch(event, bindings, calls)
  {
    calls := [];
    var k := 0;
    while k < |bindings|
      invariant 0 <= k <= |bindings|
      invariant queue.log == old(queue.log) + calls
      invariant IsBatch(event, bindings[..k], calls)
    {
      var added := QueueTap(queue, event, bindings[k]);
      BatchSnoc(event, bindings, k, calls, added);
      calls := calls + added;
      k := k + 1;
    }
    assert bindings[..k] == bindings;
  }

  /** The per-instance data of the processor (the lock is not modelled). */
  class GestureData {
    var accX: int32
    var accY: int32
    const sequence: array<bv8>
    var sequenceLen: int

    ghost predicate Valid()
      reads this, sequence
    {
      && sequence.Length == MAX_GESTURE_SEQUENCE_LENGTH
      && 0 <= sequenceLen <= MAX_GESTURE_SEQUENCE_LENGTH
      && WellFormed(State())
    }

    /** The recogniser state held in the fields: the live prefix of the array. */
    ghost function State(): GestureState
      reads this, sequence
      requires 0 <= sequenceLen <= sequence.Length
    {
      GestureState(accX, accY, sequence[..sequenceLen])
    }

    /** The zero-initialised static data of an instance. */
    constructor ()
      ensures Valid() && State() == INITIAL && fresh(sequence)
    {
      accX, accY := 0, 0;
      sequence := new bv8[MAX_GESTURE_SEQUENCE_LENGTH];
      sequenceLen := 0;
    }

    /** input_processor_mouse_gesture_init: whatever the fields held, both
        accumulators and the sequence are cleared. */
    method Init() returns (r: int)
      requires sequence.Length == MAX_GESTURE_SEQUENCE_LENGTH
      modifies this
      ensures Valid() && State() == INITIAL
      ensures r == 0
    {
      accX, accY := 0, 0;
      sequenceLen := 0;
      r := 0;
    }

    /** accumulate_movement_safe on one of the two accumulators. */
    method AccumulateMovementSafe(axis: Axis, delta: int32) returns (ret: int)
      modifies this
      ensures var a := AccumulateSafe(if axis == X then old(accX) else old(accY), delta);
              && ret == a.ret
              && (axis == X ==> accX == a.acc && accY == old(accY))
              && (axis == Y ==> accY == a.acc && accX == old(accX))
      ensures sequenceLen == old(sequenceLen)
    {
      var acc := if axis == X then accX else accY;
      if (acc > 0 && delta > INT32_MAX - acc) || (acc < 0 && delta < INT32_MIN - acc) {
        acc, ret := delta, -EOVERFLOW;
      } else {
        acc, ret := acc + delta, 0;
      }
      if axis == X {
        accX := acc;
      } else {
        accY := acc;
      }
    }

    /** match_gesture_pattern: scan the patterns in order for one that equals
        the sequence; on the first match clear the sequence and queue every
        binding of that pattern as a press and, when the press was accepted,
        a delayed release. */
    method MatchGesturePattern(cfg: Config, queue: BehaviorQueue, now: int) returns (matched: bool)
      requires Valid()
      modifies this, queue
      ensures Valid() && accX == old(accX) && accY == old(accY)
      ensures var m := FirstMatch(cfg.patterns, old(State()).sequence);
              && matched == m.Some?
              && State() == (if matched then old(State()).(sequence := []) else old(State()))
              && QueuedFor(cfg, m, BindingEvent(GESTURE_POSITION, now), old(queue.log), queue.log)
    {
      if |cfg.patterns| == 0 {
        return false;
      }
      if sequenceLen == 0 {
        return false;
      }
      ghost var s := sequence[..sequenceLen];
      var i := 0;
      while i < |cfg.patterns|
        invariant 0 <= i <= |cfg.patterns|
        invariant forall k :: 0 <= k < i ==> !Matches(cfg.patterns[k], s)
      {
        var pattern := cfg.patterns[i];
        if |pattern.gesture| != sequenceLen {
          i := i + 1;
          continue;
        }
        var same := true;
        var j := 0;
        while j < |pattern.gesture|
          invariant 0 <= j <= |pattern.gesture|
          invariant forall t :: 0 <= t < j ==> pattern.gesture[t] == s[t]
        {
          if pattern.gesture[j] != sequence[j] {
            same := false;
            break;
          }
          j := j + 1;
        }
        if same {
          sequenceLen := 0;
          ghost var calls := QueueTaps(queue, BindingEvent(GESTURE_POSITION, now), pattern.bindings);
          assert queue.log[|old(queue.log)|..] == calls;
          return true;
        }
        assert !Matches(pattern, s);
        i := i + 1;
      }
      return false;
    }

    /** Lines 204-225 of the handler: record a completed stroke's direction,
        try the patterns, and restart both accumulators. */
    method AddDirection(cfg: Config, direction: bv8, queue: BehaviorQueue, now: int)
      requires Valid() && IsDirection(direction)
      modifies this, sequence, queue
      ensures Valid()
      ensures var o := RecordDirection(cfg, old(State()).sequence, direction);
              && State() == o.next
              && QueuedFor(cfg, o.fired, BindingEvent(GESTURE_POSITION, now), old(queue.log), queue.log)
    {
      if sequenceLen < MAX_GESTURE_SEQUENCE_LENGTH {
        sequence[sequenceLen] := direction;
        sequenceLen := sequenceLen + 1;
        assert sequence[..sequenceLen] == old(State()).sequence + [direction];
        var matched := MatchGesturePattern(cfg, queue, now);
        if matched {
          sequenceLen := 0;
        }
      } else {
        sequenceLen := 0;
      }
      accX, accY := 0, 0;
    }

    /** input_processor_mouse_gesture_handle_event_locked: one input event,
        handled as Step describes; the gesture-mode flag is read from the
        behaviour's process-wide state. */
    method HandleEventLocked(cfg: Config, event: InputEvent, global: MouseGestureBehavior.BehaviorData,
                             queue: BehaviorQueue, now: int) returns (r: ProcResult)
      requires Valid()
      requires NoUndefinedAbs(cfg, global.isActive, State(), event)
      modifies this, sequence, queue
      ensures Valid() && r == Continue
      ensures var o := Step(cfg, global.isActive, old(State()), event);
              && State() == o.next
              && QueuedFor(cfg, o.fired, BindingEvent(GESTURE_POSITION, now), old(queue.log), queue.log)
    {
      ghost var s0 := State();
      var active := MouseGestureBehavior.IsActive(global);
      if !active {
        accX, accY := 0, 0;
        sequenceLen := 0;
        return Continue;
      }
      if !(event.evType == INPUT_EV_REL && (event.code == INPUT_REL_X || event.code == INPUT_REL_Y)) {
        return Continue;
      }
      if Abs(event.value) < cfg.movementThreshold {
        return Continue;
      }
      var overflow;
      if event.code == INPUT_REL_X {
        overflow := AccumulateMovementSafe(X, event.value);
      } else if event.code == INPUT_REL_Y {
        overflow := AccumulateMovementSafe(Y, event.value);
      }
      ghost var s1 := State();
      assert s1 == Accumulate(s0, event);
      var totalDistance := Abs(accX) + Abs(accY);
      if totalDistance < cfg.strokeSize {
        return Continue;
      }
      var direction := DetectDirection(accX, accY);
      assert Step(cfg, true, s0, event) == RecordDirection(cfg, s0.sequence, direction);
      if direction != GESTURE_NONE {
        AddDirection(cfg, direction, queue, now);
      }
      return Continue;
    }
  }
}

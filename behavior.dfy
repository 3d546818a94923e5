/** The gesture-mode key behaviour: a momentary on/off flag.
    Pressing the bound key turns gesture mode on, releasing it turns it off.
    The flag is kept twice, in the instance's own data and in one process-wide
    record that the input processor reads. */
module MouseGestureBehavior {

  /** What a key-binding handler tells the keymap: the event is consumed
      (opaque) or passed on to lower layers (transparent). */
  datatype BindingResult = Opaque | Transparent

  /** A key event delivered to the behaviour. */
  datatype KeyEvent = Press | Release

  /** The behaviour's data record; used for the per-instance data and for
      the process-wide state alike. Allocation gives the static initialiser's
      `is_active = false`. */
  class BehaviorData {
    var isActive: bool

    constructor ()
      ensures !isActive
    {
      isActive := false;
    }
  }

  /** The flag after one key event, whatever it was before. */
  function Next(active: bool, e: KeyEvent): bool {
    e == Press
  }

  /** The flag after a series of key events, applied in order from `active`. */
  function Run(active: bool, events: seq<KeyEvent>): bool
    decreases |events|
  {
    if events == [] then active else Run(Next(active, events[0]), events[1..])
  }

  /** Whether gesture mode is on: exactly the process-wide flag. */
  method IsActive(global: BehaviorData) returns (active: bool)
    ensures active == global.isActive
  {
    active := global.isActive;
  }

  /** Device initialisation clears the instance flag only. */
  method Init(data: BehaviorData, global: BehaviorData) returns (r: int)
    requires data != global
    modifies data
    ensures !data.isActive && global.isActive == old(global.isActive)
    ensures r == 0
  {
    data.isActive := false;
    r := 0;
  }

  /** Key press: both flags on, the event is consumed. */
  method OnBindingPressed(data: BehaviorData, global: BehaviorData) returns (r: BindingResult)
    modifies data, global
    ensures data.isActive && global.isActive
    ensures global.isActive == Next(old(global.isActive), Press)
    ensures r == Opaque
  {
    data.isActive := true;
    global.isActive := true;
    r := Opaque;
  }

  /** Key release: both flags off, the event is consumed. */
  method OnBindingReleased(data: BehaviorData, global: BehaviorData) returns (r: BindingResult)
    modifies data, global
    ensures !data.isActive && !global.isActive
    ensures global.isActive == Next(old(global.isActive), Release)
    ensures r == Opaque
  {
    data.isActive := false;
    global.isActive := false;
    r := Opaque;
  }

  /** Pressing twice is pressing once, and so is releasing. */
  lemma HandlersIdempotent(active: bool, e: KeyEvent)
    ensures Next(Next(active, e), e) == Next(active, e)
  {
  }

  /** After any series of events the flag tells whether the last one was a
      press; with no events it keeps its starting value. */
  lemma {:induction false} RunIsLastEvent(active: bool, events: seq<KeyEvent>)
    ensures Run(active, events) == if events == [] then active else events[|events| - 1] == Press
    decreases |events|
  {
    if events != [] {
      RunIsLastEvent(Next(active, events[0]), events[1..]);
    }
  }

  /** From the initial state (off), the flag is on exactly when there was at
      least one event and the last one was a press. */
  lemma FlagFromStart(events: seq<KeyEvent>)
    ensures Run(false, events) <==> events != [] && events[|events| - 1] == Press
  {
    RunIsLastEvent(false, events);
  }
}

/** The key-state map behind `InputManager`: one boolean per key name, written
    by the key-down and key-up listeners and read by the two queries. The
    listeners are plain methods here; wiring them to the document is not
    modelled. */
module Input {
  import opened Wrappers

  /** `keyDownMap.get(key) ?? false`: a key never seen is not down. */
  function Down(keys: map<string, bool>, key: string): bool
  {
    if key in keys then keys[key] else false
  }

  /** `keyDownMap.get(key) !== true`: anything but a recorded `true` is up. */
  function Up(keys: map<string, bool>, key: string): (up: bool)
    ensures up == !Down(keys, key)
  {
    !(key in keys && keys[key] == true)
  }

  /** A platform key event, as the two listeners receive it. */
  datatype KeyEvent = Pressed(key: string) | Released(key: string)

  /** What one listener does to the map. */
  function Apply(keys: map<string, bool>, e: KeyEvent): map<string, bool>
  {
    match e
    case Pressed(k) => keys[k := true]
    case Released(k) => keys[k := false]
  }

  /** The map after a whole sequence of events, oldest first. */
  function ApplyAll(keys: map<string, bool>, events: seq<KeyEvent>): map<string, bool>
    decreases events
  {
    if events == [] then keys else ApplyAll(Apply(keys, events[0]), events[1..])
  }

  /** The most recent event for `key`, if there is one. */
  function LastEventFor(events: seq<KeyEvent>, key: string): (last: Option<KeyEvent>)
    ensures last.Some? ==> last.value.key == key && last.value in events
  {
    if events == [] then None
    else if events[|events| - 1].key == key then Some(events[|events| - 1])
    else LastEventFor(events[..|events| - 1], key)
  }

  /** A key never seen reports down = false and up = true. */
  lemma UnseenKey(keys: map<string, bool>, key: string)
    requires key !in keys
    ensures !Down(keys, key) && Up(keys, key)
  {
  }

  /** After a key-down event for its key that key is down, after a key-up
      event it is not. */
  lemma EventEffect(keys: map<string, bool>, e: KeyEvent)
    ensures Down(Apply(keys, e), e.key) == e.Pressed?
    ensures Up(Apply(keys, e), e.key) == e.Released?
  {
  }

  /** An event leaves every other key reading as before. */
  lemma EventLeavesOthers(keys: map<string, bool>, e: KeyEvent, other: string)
    requires other != e.key
    ensures Down(Apply(keys, e), other) == Down(keys, other)
    ensures Up(Apply(keys, e), other) == Up(keys, other)
  {
  }

  /** The most recent event for a key decides its state; a key with no event
      in the sequence keeps the state it had. */
  lemma {:induction false} MostRecentEventWins(keys: map<string, bool>, events: seq<KeyEvent>, key: string)
    ensures Down(ApplyAll(keys, events), key) ==
      match LastEventFor(events, key)
      case None => Down(keys, key)
      case Some(e) => e.Pressed?
  {
    if events != [] {
      var init, e := events[..|events| - 1], events[|events| - 1];
      assert events == init + [e];
      ApplyAllSnoc(keys, init, e);
      MostRecentEventWins(keys, init, key);
    }
  }

  /** Applying a sequence and then one more event is applying the longer sequence. */
  lemma {:induction false} ApplyAllSnoc(keys: map<string, bool>, events: seq<KeyEvent>, e: KeyEvent)
    ensures ApplyAll(keys, events + [e]) == Apply(ApplyAll(keys, events), e)
    decreases events
  {
    if events != [] {
      assert (events + [e])[1..] == events[1..] + [e];
      ApplyAllSnoc(Apply(keys, events[0]), events[1..], e);
    }
  }

  /** The object the listeners and the queries share. */
  class InputManager {
    var keyDownMap: map<string, bool>

    constructor ()
      ensures keyDownMap == map[]
    {
      keyDownMap := map[];
    }

    /** The key-down listener. */
    method KeyDown(key: string)
      modifies this
      ensures keyDownMap == old(keyDownMap)[key := true]
      ensures IsKeyDown(key)
      ensures forall k :: k != key ==> IsKeyDown(k) == old(IsKeyDown(k))
    {
      keyDownMap := keyDownMap[key := true];
    }

    /** The key-up listener. */
    method KeyUp(key: string)
      modifies this
      ensures keyDownMap == old(keyDownMap)[key := false]
      ensures !IsKeyDown(key)
      ensures forall k :: k != key ==> IsKeyDown(k) == old(IsKeyDown(k))
    {
      keyDownMap := keyDownMap[key := false];
    }

    function IsKeyDown(key: string): bool
      reads this
    {
      Down(keyDownMap, key)
    }

    function IsKeyUp(key: string): (up: bool)
      reads this
      ensures up == !IsKeyDown(key)
    {
      Up(keyDownMap, key)
    }
  }
}

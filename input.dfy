/** Keyboard edge-state tracking (src/input.rs): two key-to-bool maps, the
    current state of each key seen so far and its state before the latest
    event for it, with the "held" and "just pressed" queries. */
module Keyboard {

  /** A `VirtualKeyCode`, identified by its discriminant. */
  type KeyCode = nat

  datatype ElementState = Pressed | Released

  datatype Option<T> = None | Some(value: T)

  /** The part of a `KeyboardInput` event the tracker reads: whether the
      key went down or up, and the key, when the platform reported one. */
  datatype KeyboardInput = KeyboardInput(state: ElementState, virtualKeycode: Option<KeyCode>)

  /** `map.get(&key).unwrap_or(&false)`: a key never recorded reads as up. */
  function Lookup(m: map<KeyCode, bool>, key: KeyCode): (b: bool)
    ensures key !in m ==> !b
    ensures key in m ==> b == m[key]
  {
    key in m && m[key]
  }

  class Input {
    var pressed: map<KeyCode, bool>
    var prevPressed: map<KeyCode, bool>

    /** Every event inserts its key into both maps, so they hold the same keys. */
    ghost predicate Valid()
      reads this
    {
      pressed.Keys == prevPressed.Keys
    }

    /** `Input::new`: nothing recorded, so no key is held or just pressed. */
    constructor ()
      ensures Valid()
      ensures pressed == map[] && prevPressed == map[]
      ensures forall key: KeyCode :: !KeyPressed(key) && !KeyJustPressed(key)
    {
      pressed := map[];
      prevPressed := map[];
    }

    /** `key_pressed`: the key's latest event was a press. A key with no
        event yet is up. */
    function KeyPressed(key: KeyCode): (b: bool)
      reads this
      ensures key !in pressed ==> !b
      ensures b <==> key in pressed && pressed[key]
    {
      Lookup(pressed, key)
    }

    /** `key_just_pressed`: the key is held now and was not held before its
        latest event. */
    function KeyJustPressed(key: KeyCode): (b: bool)
      reads this
      ensures b ==> KeyPressed(key)
      ensures b <==> KeyPressed(key) && !(key in prevPressed && prevPressed[key])
    {
      var prevKey := Lookup(prevPressed, key);
      !prevKey && KeyPressed(key)
    }

    /** `process_event`: for an event naming a key, remember whether the key
        was held, then record whether it is held now. Other keys keep their
        entries, and an event without a key changes nothing. */
    method ProcessEvent(input: KeyboardInput)
      requires Valid()
      modifies this
      ensures Valid()
      ensures input.virtualKeycode.None? ==> pressed == old(pressed) && prevPressed == old(prevPressed)
      ensures input.virtualKeycode.Some? ==>
        var key := input.virtualKeycode.value;
        && prevPressed == old(prevPressed)[key := old(KeyPressed(key))]
        && pressed == old(pressed)[key := input.state == Pressed]
      ensures input.virtualKeycode.Some? ==>
        var key := input.virtualKeycode.value;
        && KeyPressed(key) == (input.state == Pressed)
        && KeyJustPressed(key) == (input.state == Pressed && !old(KeyPressed(key)))
      ensures forall key: KeyCode :: input.virtualKeycode != Some(key) ==>
        KeyPressed(key) == old(KeyPressed(key)) && KeyJustPressed(key) == old(KeyJustPressed(key))
    {
      if input.virtualKeycode.Some? {
        var keycode := input.virtualKeycode.value;
        prevPressed := prevPressed[keycode := KeyPressed(keycode)];
        pressed := pressed[keycode := input.state == Pressed];
      }
    }

    /** `update_states` as written: the loop assigns every entry of a clone
        of `prevPressed`, and the clone is dropped, so neither map changes. */
    method UpdateStates()
      requires Valid()
      modifies this
      ensures pressed == old(pressed) && prevPressed == old(prevPressed)
      ensures forall key: KeyCode :: KeyJustPressed(key) == old(KeyJustPressed(key))
    {
      var copy := prevPressed;
      var todo := copy.Keys;
      while todo != {}
        decreases todo
      {
        var key :| key in todo;
        copy := copy[key := KeyPressed(key)];
        todo := todo - {key};
      }
    }

    /** `update_states` as its call at the end of each frame needs it: every
        recorded key's previous state becomes its current state, so no key
        stays "just pressed" into the next frame. */
    method UpdateStatesCorrected()
      requires Valid()
      modifies this
      ensures Valid()
      ensures pressed == old(pressed)
      ensures prevPressed == map key: KeyCode | key in old(prevPressed) :: old(KeyPressed(key))
      ensures forall key: KeyCode :: KeyPressed(key) == old(KeyPressed(key)) && !KeyJustPressed(key)
    {
      var todo := prevPressed.Keys;
      while todo != {}
        invariant todo <= prevPressed.Keys == old(prevPressed).Keys
        invariant pressed == old(pressed)
        invariant forall key: KeyCode :: key in prevPressed && key !in todo ==> prevPressed[key] == KeyPressed(key)
        invariant forall key: KeyCode :: key in todo ==> prevPressed[key] == old(prevPressed)[key]
        decreases todo
      {
        var key :| key in todo;
        prevPressed := prevPressed[key := KeyPressed(key)];
        todo := todo - {key};
      }
    }
  }

  /** A release followed by a press makes the key "just pressed"; a second
      press (key repeat) with no release in between clears it again. */
  method ReleasePressRepeat(input: Input, key: KeyCode) returns (afterPress: bool, afterRepeat: bool)
    requires input.Valid()
    modifies input
    ensures input.Valid()
    ensures afterPress && !afterRepeat
  {
    input.ProcessEvent(KeyboardInput(Released, Some(key)));
    input.ProcessEvent(KeyboardInput(Pressed, Some(key)));
    afterPress := input.KeyJustPressed(key);
    input.ProcessEvent(KeyboardInput(Pressed, Some(key)));
    afterRepeat := input.KeyJustPressed(key);
  }

  /** Pressing a key on a fresh tracker and ending the frame with the
      as-written `UpdateStates` leaves the key "just pressed" for the next
      frame; the corrected version clears it. */
  method StaleJustPressed(key: KeyCode) returns (asWritten: bool, corrected: bool)
    ensures asWritten && !corrected
  {
    var input := new Input();
    input.ProcessEvent(KeyboardInput(Pressed, Some(key)));
    input.UpdateStates();
    asWritten := input.KeyJustPressed(key);

    var other := new Input();
    other.ProcessEvent(KeyboardInput(Pressed, Some(key)));
    other.UpdateStatesCorrected();
    corrected := other.KeyJustPressed(key);
  }
}

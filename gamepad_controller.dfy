/**
 * The gamepad wrapper (teamcode/GamepadController.java): each on/off button gets an
 * edge-detecting state, advanced once per loop from whether the button is pressed.
 */
module Gamepads {

  /** The four per-button states: just pressed, just released, held, idle. */
  datatype ButtonState = KeyDown | KeyUp | KeyHold | KeyInactive

  /** The on/off buttons, in declaration order. */
  datatype ToggleButton =
    | A | B | X | Y
    | DpadUp | DpadDown | DpadLeft | DpadRight
    | LeftBumper | RightBumper | LeftStickButton | RightStickButton
    | StartButton | LeftTrigger | RightTrigger | BackButton | CenterButton

  /** All toggle buttons, in the order the update loop visits them. */
  const ToggleButtonList: seq<ToggleButton> :=
    [A, B, X, Y, DpadUp, DpadDown, DpadLeft, DpadRight, LeftBumper, RightBumper,
     LeftStickButton, RightStickButton, StartButton, LeftTrigger, RightTrigger, BackButton, CenterButton]

  /** The position of a button in ToggleButtonList. */
  function Index(b: ToggleButton): nat {
    match b
    case A => 0 case B => 1 case X => 2 case Y => 3
    case DpadUp => 4 case DpadDown => 5 case DpadLeft => 6 case DpadRight => 7
    case LeftBumper => 8 case RightBumper => 9 case LeftStickButton => 10 case RightStickButton => 11
    case StartButton => 12 case LeftTrigger => 13 case RightTrigger => 14 case BackButton => 15
    case CenterButton => 16
  }

  /** The update loop visits every button exactly once: Index and ToggleButtonList are inverse. */
  lemma ToggleButtonListIndexed()
    ensures forall b :: Index(b) < |ToggleButtonList| && ToggleButtonList[Index(b)] == b
    ensures forall k :: 0 <= k < |ToggleButtonList| ==> Index(ToggleButtonList[k]) == k
  {
    forall b ensures Index(b) < |ToggleButtonList| && ToggleButtonList[Index(b)] == b {
      match b
      case A => case B => case X => case Y =>
      case DpadUp => case DpadDown => case DpadLeft => case DpadRight =>
      case LeftBumper => case RightBumper => case LeftStickButton => case RightStickButton =>
      case StartButton => case LeftTrigger => case RightTrigger => case BackButton =>
      case CenterButton =>
    }
  }

  /** One reading of the gamepad hardware: its on/off buttons and the two analog triggers. */
  datatype Gamepad = Gamepad(
    a: bool, b: bool, x: bool, y: bool,
    dpadUp: bool, dpadDown: bool, dpadLeft: bool, dpadRight: bool,
    leftBumper: bool, rightBumper: bool, leftStickButton: bool, rightStickButton: bool,
    start: bool, guide: bool, back: bool,
    leftTrigger: real, rightTrigger: real)

  /** Whether a reading has the button down; a trigger counts as down when its value is positive. */
  predicate Pressed(pad: Gamepad, button: ToggleButton) {
    match button
    case A => pad.a case B => pad.b case X => pad.x case Y => pad.y
    case DpadUp => pad.dpadUp case DpadDown => pad.dpadDown
    case DpadLeft => pad.dpadLeft case DpadRight => pad.dpadRight
    case LeftBumper => pad.leftBumper case RightBumper => pad.rightBumper
    case LeftStickButton => pad.leftStickButton case RightStickButton => pad.rightStickButton
    case StartButton => pad.start case CenterButton => pad.guide case BackButton => pad.back
    case LeftTrigger => pad.leftTrigger > 0.0
    case RightTrigger => pad.rightTrigger > 0.0
  }

  /**
   * The edge detector: the new state is down or held iff the button is pressed, it is KeyDown
   * only on a press after a released state, and KeyUp only on a release after a pressed state.
   */
  function NextState(state: ButtonState, pressed: bool): (r: ButtonState)
    ensures (r == KeyDown || r == KeyHold) <==> pressed
    ensures r == KeyDown <==> pressed && (state == KeyInactive || state == KeyUp)
    ensures r == KeyUp <==> !pressed && (state == KeyDown || state == KeyHold)
    ensures r == KeyInactive <==> !pressed && (state == KeyInactive || state == KeyUp)
  {
    var wasDown := state.KeyDown? || state.KeyHold?;
    if pressed then (if wasDown then KeyHold else KeyDown)
    else (if wasDown then KeyUp else KeyInactive)
  }

  /** The states reported over a run of updates with the given pressed values. */
  function Run(state: ButtonState, presses: seq<bool>): (r: seq<ButtonState>)
    ensures |r| == |presses|
    decreases |presses|
  {
    if presses == [] then []
    else [NextState(state, presses[0])] + Run(NextState(state, presses[0]), presses[1..])
  }

  /** The number of KeyDown reports in a run. */
  function CountDown(states: seq<ButtonState>): nat {
    if states == [] then 0 else (if states[0] == KeyDown then 1 else 0) + CountDown(states[1..])
  }

  /**
   * A button held through a run of updates, starting down or held, reports KeyHold every time
   * and never KeyDown.
   */
  lemma {:induction false} HeldStaysHeld(state: ButtonState, n: nat)
    requires state == KeyDown || state == KeyHold
    ensures Run(state, seq(n, _ => true)) == seq(n, _ => KeyHold)
    ensures CountDown(Run(state, seq(n, _ => true))) == 0
    decreases n
  {
    if n > 0 {
      assert seq(n, _ => true)[1..] == seq(n - 1, _ => true);
      HeldStaysHeld(KeyHold, n - 1);
      assert seq(n, _ => KeyHold) == [KeyHold] + seq(n - 1, _ => KeyHold);
    }
  }

  /**
   * A button pressed from a released state and held for n >= 1 updates reports KeyDown exactly
   * once, on the first update, and KeyHold after it.
   */
  lemma HeldButtonReportsDownOnce(state: ButtonState, n: nat)
    requires state == KeyInactive || state == KeyUp
    requires n >= 1
    ensures Run(state, seq(n, _ => true)) == [KeyDown] + seq(n - 1, _ => KeyHold)
    ensures CountDown(Run(state, seq(n, _ => true))) == 1
  {
    assert seq(n, _ => true)[1..] == seq(n - 1, _ => true);
    HeldStaysHeld(KeyDown, n - 1);
  }

  /** A button released from a pressed state reports KeyUp once, then stays inactive. */
  lemma {:induction false} ReleasedButtonReportsUpOnce(state: ButtonState, n: nat)
    requires state == KeyDown || state == KeyHold
    requires n >= 1
    ensures Run(state, seq(n, _ => false)) == [KeyUp] + seq(n - 1, _ => KeyInactive)
  {
    assert seq(n, _ => false)[1..] == seq(n - 1, _ => false);
    IdleStaysInactive(KeyUp, n - 1);
  }

  lemma {:induction false} IdleStaysInactive(state: ButtonState, n: nat)
    requires state == KeyInactive || state == KeyUp
    ensures Run(state, seq(n, _ => false)) == seq(n, _ => KeyInactive)
    decreases n
  {
    if n > 0 {
      assert seq(n, _ => false)[1..] == seq(n - 1, _ => false);
      IdleStaysInactive(KeyInactive, n - 1);
      assert seq(n, _ => KeyInactive) == [KeyInactive] + seq(n - 1, _ => KeyInactive);
    }
  }

  /** Every toggle button occurs in ToggleButtonList. */
  lemma ToggleButtonsListed()
    ensures forall b :: b in ToggleButtonList
  {
    ToggleButtonListIndexed();
    forall b ensures b in ToggleButtonList {
      assert ToggleButtonList[Index(b)] == b;
    }
  }

  /** The states after the first n buttons of the list have been set to KeyInactive. */
  function InactivePrefix(states: map<ToggleButton, ButtonState>, n: nat): map<ToggleButton, ButtonState>
    requires n <= |ToggleButtonList|
  {
    if n == 0 then states else InactivePrefix(states, n - 1)[ToggleButtonList[n - 1] := KeyInactive]
  }

  /** A button among the first n of the list is KeyInactive once they have been reset. */
  lemma {:induction false} InactivePrefixAt(states: map<ToggleButton, ButtonState>, n: nat, b: ToggleButton)
    requires n <= |ToggleButtonList|
    ensures Index(b) < n ==> b in InactivePrefix(states, n) && InactivePrefix(states, n)[b] == KeyInactive
    decreases n
  {
    if n > 0 {
      InactivePrefixAt(states, n - 1, b);
      ToggleButtonListIndexed();
    }
  }

  /** The states after the first n buttons of the list have each taken one transition, in list order. */
  function StepPrefix(states: map<ToggleButton, ButtonState>, values: map<ToggleButton, bool>, n: nat): (r: map<ToggleButton, ButtonState>)
    requires n <= |ToggleButtonList|
    requires forall b :: b in states && b in values
    ensures r.Keys == states.Keys
  {
    if n == 0 then states
    else
      var prev := StepPrefix(states, values, n - 1);
      var b := ToggleButtonList[n - 1];
      prev[b := NextState(prev[b], values[b])]
  }

  /**
   * Stepping the buttons one at a time gives each of the first n its own transition from its own
   * old state, and leaves the others alone: no button's update sees another's.
   */
  lemma {:induction false} StepPrefixAt(states: map<ToggleButton, ButtonState>, values: map<ToggleButton, bool>, n: nat, b: ToggleButton)
    requires n <= |ToggleButtonList|
    requires forall b :: b in states && b in values
    ensures StepPrefix(states, values, n)[b] == if Index(b) < n then NextState(states[b], values[b]) else states[b]
    decreases n
  {
    if n > 0 {
      StepPrefixAt(states, values, n - 1, b);
      ToggleButtonListIndexed();
    }
  }

  /** Per-button states and pressed values of one gamepad. */
  class GamepadController {
    var controllerToggleStates: map<ToggleButton, ButtonState>
    var gamepadToggleValues: map<ToggleButton, bool>

    /** Every button has a state and a value. */
    ghost predicate Valid()
      reads this
    {
      forall b :: b in controllerToggleStates && b in gamepadToggleValues
    }

    /** Reads the gamepad and takes every button one step from KeyInactive. */
    constructor (pad: Gamepad)
      ensures Valid()
      ensures forall b :: gamepadToggleValues[b] == Pressed(pad, b)
      ensures forall b :: controllerToggleStates[b] == NextState(KeyInactive, Pressed(pad, b))
    {
      controllerToggleStates := map[];
      gamepadToggleValues := map[];
      new;
      InitializeGamepadStates(pad);
    }

    /** Every button is set to KeyInactive and then advanced once with the current reading. */
    method InitializeGamepadStates(pad: Gamepad)
      modifies this
      ensures Valid()
      ensures forall b :: gamepadToggleValues[b] == Pressed(pad, b)
      ensures forall b :: controllerToggleStates[b] == NextState(KeyInactive, Pressed(pad, b))
    {
      UpdateButtonValues(pad);
      var states := controllerToggleStates;
      var k := 0;
      while k < |ToggleButtonList|
        invariant 0 <= k <= |ToggleButtonList|
        invariant states == InactivePrefix(controllerToggleStates, k)
      {
        states := states[ToggleButtonList[k] := KeyInactive];
        k := k + 1;
      }
      forall b ensures b in states && states[b] == KeyInactive {
        InactivePrefixAt(controllerToggleStates, k, b);
        ToggleButtonListIndexed();
      }
      controllerToggleStates := states;
      UpdateButtonStates(pad);
    }

    /** Reads the gamepad, then advances every button once. */
    method UpdateButtonStates(pad: Gamepad)
      requires Valid()
      modifies this
      ensures Valid()
      ensures forall b :: gamepadToggleValues[b] == Pressed(pad, b)
      ensures forall b :: controllerToggleStates[b] == NextState(old(controllerToggleStates[b]), Pressed(pad, b))
    {
      UpdateButtonValues(pad);
      UpdateToggleButtonStates();
    }

    /** Advances every button once from its own state and its own value; the values are left as they are. */
    method UpdateToggleButtonStates()
      requires Valid()
      modifies this`controllerToggleStates
      ensures Valid()
      ensures forall b :: controllerToggleStates[b] == NextState(old(controllerToggleStates[b]), gamepadToggleValues[b])
    {
      var k := 0;
      while k < |ToggleButtonList|
        invariant 0 <= k <= |ToggleButtonList|
        invariant controllerToggleStates == StepPrefix(old(controllerToggleStates), gamepadToggleValues, k)
        decreases |ToggleButtonList| - k
      {
        var toggleButton := ToggleButtonList[k];
        UpdateToggleButtonState(toggleButton);
        k := k + 1;
      }
      forall b ensures controllerToggleStates[b] == NextState(old(controllerToggleStates[b]), gamepadToggleValues[b]) {
        StepPrefixAt(old(controllerToggleStates), gamepadToggleValues, k, b);
        ToggleButtonListIndexed();
      }
    }

    /** The transition of one button, from its own state and its own value. */
    method UpdateToggleButtonState(toggleButton: ToggleButton)
      requires Valid()
      modifies this`controllerToggleStates
      ensures Valid()
      ensures controllerToggleStates ==
        old(controllerToggleStates)[toggleButton := NextState(old(controllerToggleStates[toggleButton]), gamepadToggleValues[toggleButton])]
    {
      var buttonVal := gamepadToggleValues[toggleButton];
      match controllerToggleStates[toggleButton] {
        case KeyInactive =>
          if buttonVal {
            controllerToggleStates := controllerToggleStates[toggleButton := KeyDown];
          }
        case KeyDown =>
          if buttonVal {
            controllerToggleStates := controllerToggleStates[toggleButton := KeyHold];
          } else {
            controllerToggleStates := controllerToggleStates[toggleButton := KeyUp];
          }
        case KeyHold =>
          if !buttonVal {
            controllerToggleStates := controllerToggleStates[toggleButton := KeyUp];
          }
        case KeyUp =>
          if buttonVal {
            controllerToggleStates := controllerToggleStates[toggleButton := KeyDown];
          } else {
            controllerToggleStates := controllerToggleStates[toggleButton := KeyInactive];
          }
      }
    }

    /** Stores the pressed value of every toggle button from one reading; the states are left as they are. */
    method UpdateButtonValues(pad: Gamepad)
      modifies this`gamepadToggleValues
      ensures forall b :: b in gamepadToggleValues && gamepadToggleValues[b] == Pressed(pad, b)
      ensures gamepadToggleValues[LeftTrigger] <==> pad.leftTrigger > 0.0
      ensures gamepadToggleValues[RightTrigger] <==> pad.rightTrigger > 0.0
    {
      // every toggle button is written, so no earlier value survives
      ToggleButtonsListed();
      gamepadToggleValues := map b | b in ToggleButtonList :: Pressed(pad, b);
    }

    /** The current state of one toggle button. */
    function GetButtonState(button: ToggleButton): ButtonState
      requires Valid()
      reads this
    {
      controllerToggleStates[button]
    }
  }
}

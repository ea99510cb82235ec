/** Keyboard and mouse state (Input.cpp): GLFW callbacks record each key's
    last action and how often it changed during the frame, Update starts a new
    frame, and Has decides whether a client action fires. */
module InputState {
  import opened Binds
  import opened Vectors
  import opened Wrappers

  // GLFW action codes
  const Release: I32 := 0
  const Press: I32 := 1
  const RepeatAction: I32 := 2

  // GLFW key and button codes
  const KeySpace: I32 := 32
  const KeyA: I32 := 65
  const KeyD: I32 := 68
  const KeyS: I32 := 83
  const KeyW: I32 := 87
  const KeyF5: I32 := 294
  const KeyLeftShift: I32 := 340
  const KeyLeftControl: I32 := 341
  /** GLFW_KEY_MENU, the highest key code GLFW reports. */
  const KeyMenu: I32 := 348
  /** GLFW_KEY_LAST is the highest key code itself, not a count. */
  const KeyLast: I32 := KeyMenu
  const MouseButtonRight: I32 := 1
  /** GLFW_MOUSE_BUTTON_8, the highest button code GLFW reports. */
  const MouseButton8: I32 := 7
  const MouseButtonLast: I32 := MouseButton8

  /** Number of key states: one per key code 0..KeyLast. */
  const KeyStateCount: nat := KeyLast as nat + 1
  /** Number of mouse button states: one per code 0..MouseButtonLast. */
  const MouseStateCount: nat := MouseButtonLast as nat + 1

  /** ClientAction */
  datatype ClientAction =
    | MoveForward | MoveBackward | MoveLeft | MoveRight | MoveUp | MoveDown | MoveFaster
    | DebugReloadShaders
    | MainDown

  /** KeyState: the last recorded action and the number of recorded changes
      since the last Update. */
  datatype KeyState = KeyState(currentState: int, changes: int)

  /** The state of a key after one callback: a repeat changes nothing,
      anything else becomes the current state and counts as a change. */
  function Record(state: KeyState, action: I32): (r: KeyState)
    ensures action == RepeatAction ==> r == state
    ensures action != RepeatAction ==> r.currentState == action && r.changes == state.changes + 1
  {
    if action == RepeatAction then state else KeyState(action, state.changes + 1)
  }

  /** The state of a key after Update: the change counter restarts. */
  function Reset(state: KeyState): (r: KeyState)
    ensures r.currentState == state.currentState && r.changes == 0
  {
    KeyState(state.currentState, 0)
  }

  /** The decision of Has for one bound key state. */
  function Decide(state: KeyState, inputType: InputType): bool {
    match inputType
    case Down => state.currentState == Press || state.changes >= 2
    case Pressed => (state.currentState == Press && state.changes >= 1) || state.changes >= 2
    case Released => state.currentState == Release && state.changes >= 1
  }

  /** Right after Update, with no callback in between, nothing is pressed or
      released during the frame, and a key is down exactly when its last
      action was a press. */
  lemma DecideAfterReset(state: KeyState)
    ensures !Decide(Reset(state), Pressed)
    ensures !Decide(Reset(state), Released)
    ensures Decide(Reset(state), Down) <==> state.currentState == Press
  {
  }

  /** A key pressed during the frame is also down during the frame. */
  lemma PressedIsDown(state: KeyState)
    ensures Decide(state, Pressed) ==> Decide(state, Down)
  {
  }

  /** Pressing a key at the start of a frame makes it pressed and down, not
      released; releasing it makes it released and neither pressed nor
      down. */
  lemma OneChangePerFrame(state: KeyState)
    ensures Decide(Record(Reset(state), Press), Pressed)
    ensures Decide(Record(Reset(state), Press), Down)
    ensures !Decide(Record(Reset(state), Press), Released)
    ensures Decide(Record(Reset(state), Release), Released)
    ensures !Decide(Record(Reset(state), Release), Pressed)
    ensures !Decide(Record(Reset(state), Release), Down)
  {
  }

  /** A tap, pressed and released within one frame, is not lost: the key
      counts as down and as pressed and as released during that frame, and
      key repeats in between change nothing. */
  lemma TapNotLost(state: KeyState, repeats: nat)
    ensures Decide(Record(RepeatedRecord(Record(Reset(state), Press), repeats), Release), Down)
    ensures Decide(Record(RepeatedRecord(Record(Reset(state), Press), repeats), Release), Pressed)
    ensures Decide(Record(RepeatedRecord(Record(Reset(state), Press), repeats), Release), Released)
  {
    RepeatsChangeNothing(Record(Reset(state), Press), repeats);
  }

  /** The state after `count` repeat callbacks. */
  function RepeatedRecord(state: KeyState, count: nat): KeyState {
    if count == 0 then state else Record(RepeatedRecord(state, count - 1), RepeatAction)
  }

  lemma {:induction false} RepeatsChangeNothing(state: KeyState, count: nat)
    ensures RepeatedRecord(state, count) == state
  {
    if count > 0 {
      RepeatsChangeNothing(state, count - 1);
    }
  }

  /** The keyboard bindings the constructor installs. */
  function DefaultKeybinds(): (r: map<ClientAction, Bind>)
    ensures r.Keys == {MoveForward, MoveBackward, MoveLeft, MoveRight, MoveUp, MoveDown,
                       MoveFaster, DebugReloadShaders}
    ensures forall a | a in r :: 0 < r[a].key <= KeyLast
    ensures forall a | a in r :: r[a].inputType == (if a == DebugReloadShaders then Released else Down)
  {
    map[MoveForward := BindKey(KeyW), MoveBackward := BindKey(KeyS),
        MoveLeft := BindKey(KeyA), MoveRight := BindKey(KeyD),
        MoveUp := BindKey(KeySpace), MoveDown := BindKey(KeyLeftControl),
        MoveFaster := BindKey(KeyLeftShift),
        DebugReloadShaders := Bind(KeyF5, Released)]
  }

  /** The mouse bindings the constructor installs. */
  function DefaultMousebinds(): (r: map<ClientAction, Bind>)
    ensures r.Keys == {MainDown}
    ensures forall a | a in r :: 0 < r[a].key <= MouseButtonLast
    ensures r[MainDown].key == MouseButtonRight && r[MainDown].inputType == Down
  {
    map[MainDown := BindKey(MouseButtonRight)]
  }

  /** Every default keyboard binding lives in the low half of its key: its
      keyboard value is the key, its mouse value is 0, and it counts as a
      keyboard bind. */
  lemma DefaultKeybindIsLowHalf(a: ClientAction)
    requires a in DefaultKeybinds()
    ensures GetKeyboardValue(DefaultKeybinds()[a]) == DefaultKeybinds()[a].key
    ensures GetMouseValue(DefaultKeybinds()[a]) == 0
    ensures IsKeyboardBind(DefaultKeybinds()[a])
  {
    LowHalfKey(DefaultKeybinds()[a]);
  }

  /** The default mouse binding is packed the same way: its button sits in
      the low half, so it too counts as a keyboard bind. */
  lemma DefaultMousebindIsLowHalf(a: ClientAction)
    requires a in DefaultMousebinds()
    ensures GetKeyboardValue(DefaultMousebinds()[a]) == DefaultMousebinds()[a].key
    ensures GetMouseValue(DefaultMousebinds()[a]) == 0
    ensures IsKeyboardBind(DefaultMousebinds()[a])
  {
    LowHalfKey(DefaultMousebinds()[a]);
  }

  /** A key in [0, 65535] is its own keyboard value and has mouse value 0. */
  lemma LowHalfKey(b: Bind)
    requires 0 <= b.key <= 0xFFFF
    ensures GetKeyboardValue(b) == b.key && GetMouseValue(b) == 0
    ensures IsKeyboardBind(b) <==> b.key != 0
  {
    KeyboardValueIsLowHalf(b);
    MouseValueIsHighHalf(b);
    IsKeyboardBindIffValue(b);
  }

  // ---------------------------------------------------------------------
  // The state vectors as sized in the source
  // ---------------------------------------------------------------------

  /** The key vector as the source sizes it: resize(GLFW_KEY_LAST). */
  const KeyStateCountAsWritten: nat := KeyLast as nat

  /** The mouse vector as the source sizes it: resize(GLFW_MOUSE_BUTTON_LAST). */
  const MouseStateCountAsWritten: nat := MouseButtonLast as nat

  /** Whether a key code indexes a vector of `count` key states. */
  predicate Indexable(code: int, count: nat) {
    0 <= code < count
  }

  /** With the sizes as written, the menu key and the eighth mouse button,
      which GLFW does report, index one past the end of their vectors. */
  lemma LastCodesOutOfRangeAsWritten()
    ensures !Indexable(KeyMenu, KeyStateCountAsWritten)
    ensures !Indexable(MouseButton8, MouseStateCountAsWritten)
    ensures forall code | 0 <= code < KeyLast :: Indexable(code, KeyStateCountAsWritten)
  {
  }

  /** With one state per code, every key and button GLFW reports is in
      range. */
  lemma EveryCodeInRange()
    ensures forall code | 0 <= code <= KeyLast :: Indexable(code, KeyStateCount)
    ensures forall code | 0 <= code <= MouseButtonLast :: Indexable(code, MouseStateCount)
  {
  }

  /** Input */
  class Input {
    var keyStates: array<KeyState>
    var mouseStates: array<KeyState>
    var keybinds: map<ClientAction, Bind>
    var mousebinds: map<ClientAction, Bind>
    var scroll: Vec2

    /** One state per key and per button code, every bound key indexes its
        vector, and no counter is negative. */
    ghost predicate Valid()
      reads this, keyStates, mouseStates
    {
      keyStates != mouseStates &&
      keyStates.Length == KeyStateCount && mouseStates.Length == MouseStateCount &&
      (forall a | a in keybinds :: keybinds[a].key == KeyUnknown || 0 <= keybinds[a].key < keyStates.Length) &&
      (forall a | a in mousebinds :: 0 <= mousebinds[a].key < mouseStates.Length) &&
      (forall i | 0 <= i < keyStates.Length :: keyStates[i].changes >= 0) &&
      (forall i | 0 <= i < mouseStates.Length :: mouseStates[i].changes >= 0)
    }

    /** Input(window): install the default bindings and start every key and
        button released with no changes. */
    constructor ()
      ensures Valid() && fresh(keyStates) && fresh(mouseStates)
      ensures keybinds == DefaultKeybinds() && mousebinds == DefaultMousebinds()
      ensures forall i | 0 <= i < keyStates.Length :: keyStates[i] == KeyState(Release, 0)
      ensures forall i | 0 <= i < mouseStates.Length :: mouseStates[i] == KeyState(Release, 0)
      ensures scroll == Zero
    {
      keybinds := DefaultKeybinds();
      mousebinds := DefaultMousebinds();
      keyStates := new KeyState[KeyStateCount](_ => KeyState(Release, 0));
      mouseStates := new KeyState[MouseStateCount](_ => KeyState(Release, 0));
      scroll := Zero;
    }

    /** KeyCallback: record the action for a known key; unknown keys and
        repeats leave every state as it was. GLFW reports key codes up to
        KeyLast. */
    method KeyCallback(key: I32, action: I32)
      requires Valid()
      requires key == KeyUnknown || action == RepeatAction || 0 <= key <= KeyLast
      modifies keyStates
      ensures Valid()
      ensures key != KeyUnknown && action != RepeatAction ==>
        keyStates[..] == old(keyStates[..])[key := Record(old(keyStates[key]), action)]
      ensures key == KeyUnknown || action == RepeatAction ==> keyStates[..] == old(keyStates[..])
    {
      if key != KeyUnknown && action != RepeatAction {
        keyStates[key] := Record(keyStates[key], action);
      }
    }

    /** MouseCallback: the same for mouse buttons. */
    method MouseCallback(button: I32, action: I32)
      requires Valid()
      requires button == KeyUnknown || action == RepeatAction || 0 <= button <= MouseButtonLast
      modifies mouseStates
      ensures Valid()
      ensures button != KeyUnknown && action != RepeatAction ==>
        mouseStates[..] == old(mouseStates[..])[button := Record(old(mouseStates[button]), action)]
      ensures button == KeyUnknown || action == RepeatAction ==> mouseStates[..] == old(mouseStates[..])
    {
      if button != KeyUnknown && action != RepeatAction {
        mouseStates[button] := Record(mouseStates[button], action);
      }
    }

    /** ScrollCallback: accumulate the scroll offset. */
    method ScrollCallback(x: real, y: real)
      modifies this
      ensures scroll == Add(old(scroll), Vec2(x, y))
      ensures keyStates == old(keyStates) && mouseStates == old(mouseStates)
      ensures keybinds == old(keybinds) && mousebinds == old(mousebinds)
    {
      scroll := Add(scroll, Vec2(x, y));
    }

    /** Update: start a new frame. Scroll returns to zero and every change
        counter restarts; the current states stay. */
    method Update()
      requires Valid()
      modifies this, keyStates, mouseStates
      ensures Valid()
      ensures keyStates == old(keyStates) && mouseStates == old(mouseStates)
      ensures keybinds == old(keybinds) && mousebinds == old(mousebinds)
      ensures scroll == Zero
      ensures forall i | 0 <= i < keyStates.Length :: keyStates[i] == Reset(old(keyStates[i]))
      ensures forall i | 0 <= i < mouseStates.Length :: mouseStates[i] == Reset(old(mouseStates[i]))
    {
      scroll := Zero;
      ResetAll(keyStates);
      ResetAll(mouseStates);
    }

    /** The binding Has consults and the state it reads: a mouse binding
        overrides a keyboard one, and a keyboard binding to the unknown key
        is ignored. */
    function Selected(action: ClientAction): (r: Option<(Bind, KeyState)>)
      requires Valid()
      reads this, keyStates, mouseStates
      ensures action in mousebinds ==>
        r == Some((mousebinds[action], mouseStates[mousebinds[action].key]))
      ensures action !in mousebinds && action in keybinds && keybinds[action].key != KeyUnknown ==>
        r == Some((keybinds[action], keyStates[keybinds[action].key]))
      ensures r.None? <==> action !in mousebinds && (action !in keybinds || keybinds[action].key == KeyUnknown)
    {
      var fromKeys :=
        if action in keybinds && keybinds[action].key != KeyUnknown
        then Some((keybinds[action], keyStates[keybinds[action].key]))
        else None;
      if action in mousebinds
      then Some((mousebinds[action], mouseStates[mousebinds[action].key]))
      else fromKeys
    }

    /** Has: whether the action fires this frame. An unbound action never
        fires. */
    function Has(action: ClientAction): (r: bool)
      requires Valid()
      reads this, keyStates, mouseStates
      ensures Selected(action).None? ==> !r
      ensures Selected(action).Some? ==> (r <==> Decide(Selected(action).value.1, Selected(action).value.0.inputType))
    {
      match Selected(action)
      case None => false
      case Some((bind, state)) => Decide(state, bind.inputType)
    }
  }

  /** Reset every state in the vector. */
  method ResetAll(states: array<KeyState>)
    modifies states
    ensures forall i | 0 <= i < states.Length :: states[i] == Reset(old(states[i]))
  {
    var i := 0;
    while i < states.Length
      invariant 0 <= i <= states.Length
      invariant forall j | 0 <= j < i :: states[j] == Reset(old(states[j]))
      invariant forall j | i <= j < states.Length :: states[j] == old(states[j])
    {
      states[i] := Reset(states[i]);
      i := i + 1;
    }
  }

  /** Right after Update, an action fires only if it is bound as Down and
      its key's last action was a press; Pressed and Released bindings do not
      fire until a callback records a change. */
  lemma HasAfterUpdate(input: Input, action: ClientAction)
    requires input.Valid()
    requires forall i | 0 <= i < input.keyStates.Length :: input.keyStates[i].changes == 0
    requires forall i | 0 <= i < input.mouseStates.Length :: input.mouseStates[i].changes == 0
    ensures input.Has(action) <==>
      input.Selected(action).Some? &&
      input.Selected(action).value.0.inputType == Down &&
      input.Selected(action).value.1.currentState == Press
  {
    if input.Selected(action).Some? {
      var state := input.Selected(action).value.1;
      assert state == Reset(state);
      DecideAfterReset(state);
    }
  }
}

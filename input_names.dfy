/**
 * The `stringTo*` lookups that turn configuration names into input enum
 * values.  Each one lower-cases its argument (the C library `tolower` in the
 * "C" locale: ASCII letters only) and walks an if/else chain of literals.
 * The argument is the contents of the `FString<20>` it is passed in.
 */
module StringToInputValues {

  import opened SeqSteps

  /** The capacity of the comparison string, `INPUT_COMPARE_STRING_MAX`. */
  const CompareMax := 20

  /** A C string converted to the comparison `FString<20>`: its first 20 characters. */
  function ToCompareString(cstr: string): (s: string)
    ensures |s| <= CompareMax && s <= cstr
    ensures |cstr| <= CompareMax ==> s == cstr
  {
    if |cstr| <= CompareMax then cstr else cstr[..CompareMax]
  }

  function LowerChar(c: char): char
  {
    if 'A' <= c <= 'Z' then (c as int + 32) as char else c
  }

  /** `FString::toLower`. */
  function Lower(s: string): (r: string)
    ensures |r| == |s|
    ensures forall k :: 0 <= k < |s| ==> r[k] == LowerChar(s[k])
  {
    seq(|s|, k requires 0 <= k < |s| => LowerChar(s[k]))
  }

  datatype InputDevice =
    | Null | GamePad | Keyboard | Mouse

  datatype GamePadID =
    | Null | One | Two | Three | Four | All

  datatype GamePadInputType =
    | Null | Button | Axis

  datatype GamePadAxisCode =
    | Null_Axis | Left_Trigger | Right_Trigger | Left_X | Left_Y | Right_X | Right_Y

  datatype GamePadBtnCode =
    | Null_Input | A | B | X | Y | Left_Shoulder | Right_Shoulder | Left_Thumbstick
    | Right_Thumbstick | Start | Back | DPad_Up | DPad_Down | DPad_Left | DPad_Right | Any

  datatype KeyboardKeyCode =
    | Null | Space | A | B | C | D | E | F
    | G | H | I | J | K | L | M | N
    | O | P | Q | R | S | T | U | V
    | W | X | Y | Z | Num0 | Num1 | Num2 | Num3
    | Num4 | Num5 | Num6 | Num7 | Num8 | Num9 | Num_Pad0 | Num_Pad1
    | Num_Pad2 | Num_Pad3 | Num_Pad4 | Num_Pad5 | Num_Pad6 | Num_Pad7 | Num_Pad8 | Num_Pad9
    | Arrow_Up | Arrow_Down | Arrow_Left | Arrow_Right | Num_Pad_Multiply | Num_Pad_Subtract | Num_Pad_Decimal | Num_Pad_Divide
    | Semi_Colon | Plus | Comma | Minus | Period | Slash_Forward | Slash_Backward | Tilde
    | Square_Left | Square_Right | Quote | F1 | F2 | F3 | F4 | F5
    | F6 | F7 | F8 | F9 | F10 | F11 | F12 | F13
    | F14 | F15 | F16 | F17 | F18 | F19 | F20 | F21
    | F22 | F23 | F24 | Escape | Backspace | TAB | Return | Shift
    | Shift_Left | Shift_Right | Control | Control_Left | Control_Right | Alt | Alt_Left | Alt_Right
    | Windows_Left | Windows_Right | Apps | Page_Up | Page_Down | End | Home | Cancel
    | Clear | Select | Print | Execute | Print_Screen | Insert | Delete | Help
    | Sleep | Caps_Lock | Num_Lock | Scroll_Lock

  datatype MouseInputType =
    | Null | Button | Axis

  datatype MouseButton =
    | Null | Left | Right | Middle | Extra1 | Extra2

  datatype MouseAxis =
    | Null | X | Y

  predicate IsFunctionKey(k: KeyboardKeyCode)
  {
    k.F1?
    || k.F2?
    || k.F3?
    || k.F4?
    || k.F5?
    || k.F6?
    || k.F7?
    || k.F8?
    || k.F9?
    || k.F10?
    || k.F11?
    || k.F12?
    || k.F13?
    || k.F14?
    || k.F15?
    || k.F16?
    || k.F17?
    || k.F18?
    || k.F19?
    || k.F20?
    || k.F21?
    || k.F22?
    || k.F23?
    || k.F24?
  }

  /** The literals `stringToInputType` compares with. */
  const InputTypeLiterals: set<string> := {"gamepad", "keyboard", "mouse"}

  /** The literals `stringToGamePadID` compares with. */
  const GamePadIDLiterals: set<string> := {"one", "two", "three", "four", "all"}

  /** The literals `stringToGamePadInputType` compares with. */
  const GamePadInputTypeLiterals: set<string> := {"button", "axis"}

  /** The literals `stringToGamePadAxis` compares with. */
  const GamePadAxisLiterals: set<string> := {"left_trigger", "right_trigger", "left_x", "left_y", "right_x", "right_y"}

  /** The literals `stringToGamePadBtn` compares with. */
  const GamePadBtnLiterals: set<string> := {"a", "b", "x", "y", "left_shoulder", "right_shoulder", "left_thumbstick", "right_thumbstick", "start", "back", "dpad_up", "dpad_down", "dpad_left", "dpad_right", "any"}

  const SpaceAndLettersLiterals: set<string> := {"space", "a", "b", "c", "d", "e", "f", "g", "h", "i", "j", "k", "l", "m", "n", "o", "p", "q", "r", "s", "t", "u", "v", "w", "x", "y", "z"}
  const NumberRowLiterals: set<string> := {"num0", "num1", "num2", "num3", "num4", "num5", "num6", "num7", "num8", "num9"}
  const NumberPadLiterals: set<string> := {"num_pad0", "num_pad1", "num_pad2", "num_pad3", "num_pad4", "num_pad5", "num_pad6", "num_pad7", "num_pad8", "num_pad9"}
  const ArrowsLiterals: set<string> := {"arrow_up", "arrow_down", "arrow_left", "arrow_right"}
  const NumPadOperatorsLiterals: set<string> := {"num_pad_multiply", "num_pad_subtract", "num_pad_decimal", "num_pad_divide"}
  const PunctuationLiterals: set<string> := {"semi_colon", "plus", "comma", "minus", "period", "slash_forward", "slash_backward", "tilde", "square_left", "square_right", "quote"}
  const FunctionKeysLiterals: set<string> := {"F1", "F2", "F3", "F4", "F5", "F6", "F7", "F8", "F9", "F10", "F11", "F12", "F13", "F14", "F15", "F16", "F17", "F18", "F19", "F20", "F21", "F22", "F23", "F24"}
  const EscapeAndShiftLiterals: set<string> := {"escape", "backspace", "tab", "return", "shift", "shift_left", "shift_right"}
  const ControlAltLiterals: set<string> := {"control", "control_left", "control_right", "alt", "alt_left", "alt_right", "windows_left", "windows_right", "apps"}
  const CommandKeysLiterals: set<string> := {"page_up", "page_down", "end", "home", "cancel", "clear", "select", "print", "execute", "print_screen", "insert", "delete", "help", "sleep"}
  const LocksLiterals: set<string> := {"caps_lock", "num_lock", "scroll_lock"}

  /** The literals `stringToKeyboardKey` compares with. */
  const KeyboardKeyLiterals: set<string> := SpaceAndLettersLiterals + NumberRowLiterals + NumberPadLiterals + ArrowsLiterals + NumPadOperatorsLiterals + PunctuationLiterals + FunctionKeysLiterals + EscapeAndShiftLiterals + ControlAltLiterals + CommandKeysLiterals + LocksLiterals

  /** The literals `stringToMouseInputType` compares with. */
  const MouseInputTypeLiterals: set<string> := {"button", "axis"}

  /** The literals `stringToMouseButton` compares with. */
  const MouseButtonLiterals: set<string> := {"left", "right", "middle", "extra1", "extra2"}

  /** The literals `stringToMouseAxis` compares with. */
  const MouseAxisLiterals: set<string> := {"x", "y"}

  /** The if/else chain of `stringToInputType`, applied to the lower-cased name. */
  function InputTypeOf(k: string): InputDevice
  {
    if k == "gamepad" then InputDevice.GamePad
    else if k == "keyboard" then InputDevice.Keyboard
    else if k == "mouse" then InputDevice.Mouse
    else InputDevice.Null
  }

  /** `stringToInputType`. */
  function StringToInputType(name: string): (r: InputDevice)
    ensures r.GamePad? <==> Lower(name) == "gamepad"
    ensures r.Keyboard? <==> Lower(name) == "keyboard"
    ensures r.Mouse? <==> Lower(name) == "mouse"
    ensures r.Null? <==> Lower(name) !in InputTypeLiterals
  {
    InputTypeOf(Lower(name))
  }

  /** The if/else chain of `stringToGamePadID`, applied to the lower-cased name. */
  function GamePadIDOf(k: string): GamePadID
  {
    if k == "one" then GamePadID.One
    else if k == "two" then GamePadID.Two
    else if k == "three" then GamePadID.Three
    else if k == "four" then GamePadID.Four
    else if k == "all" then GamePadID.All
    else GamePadID.Null
  }

  /** `stringToGamePadID`. */
  function StringToGamePadID(name: string): (r: GamePadID)
    ensures r.One? <==> Lower(name) == "one"
    ensures r.Two? <==> Lower(name) == "two"
    ensures r.Three? <==> Lower(name) == "three"
    ensures r.Four? <==> Lower(name) == "four"
    ensures r.All? <==> Lower(name) == "all"
    ensures r.Null? <==> Lower(name) !in GamePadIDLiterals
  {
    GamePadIDOf(Lower(name))
  }

  /** The if/else chain of `stringToGamePadInputType`, applied to the lower-cased name. */
  function GamePadInputTypeOf(k: string): GamePadInputType
  {
    if k == "button" then GamePadInputType.Button
    else if k == "axis" then GamePadInputType.Axis
    else GamePadInputType.Null
  }

  /** `stringToGamePadInputType`. */
  function StringToGamePadInputType(name: string): (r: GamePadInputType)
    ensures r.Button? <==> Lower(name) == "button"
    ensures r.Axis? <==> Lower(name) == "axis"
    ensures r.Null? <==> Lower(name) !in GamePadInputTypeLiterals
  {
    GamePadInputTypeOf(Lower(name))
  }

  /** The if/else chain of `stringToGamePadAxis`, applied to the lower-cased name. */
  function GamePadAxisOf(k: string): GamePadAxisCode
  {
    if k == "left_trigger" then GamePadAxisCode.Left_Trigger
    else if k == "right_trigger" then GamePadAxisCode.Right_Trigger
    else if k == "left_x" then GamePadAxisCode.Left_X
    else if k == "left_y" then GamePadAxisCode.Left_Y
    else if k == "right_x" then GamePadAxisCode.Right_X
    else if k == "right_y" then GamePadAxisCode.Right_Y
    else GamePadAxisCode.Null_Axis
  }

  /** `stringToGamePadAxis`. */
  function StringToGamePadAxis(name: string): (r: GamePadAxisCode)
    ensures r.Left_Trigger? <==> Lower(name) == "left_trigger"
    ensures r.Right_Trigger? <==> Lower(name) == "right_trigger"
    ensures r.Left_X? <==> Lower(name) == "left_x"
    ensures r.Left_Y? <==> Lower(name) == "left_y"
    ensures r.Right_X? <==> Lower(name) == "right_x"
    ensures r.Right_Y? <==> Lower(name) == "right_y"
    ensures r.Null_Axis? <==> Lower(name) !in GamePadAxisLiterals
  {
    GamePadAxisOf(Lower(name))
  }

  /** The if/else chain of `stringToGamePadBtn`, applied to the lower-cased name. */
  function GamePadBtnOf(k: string): GamePadBtnCode
  {
    if k == "a" then GamePadBtnCode.A
    else if k == "b" then GamePadBtnCode.B
    else if k == "x" then GamePadBtnCode.X
    else if k == "y" then GamePadBtnCode.Y
    else if k == "left_shoulder" then GamePadBtnCode.Left_Shoulder
    else if k == "right_shoulder" then GamePadBtnCode.Right_Shoulder
    else if k == "left_thumbstick" then GamePadBtnCode.Left_Thumbstick
    else if k == "right_thumbstick" then GamePadBtnCode.Right_Thumbstick
    else if k == "start" then GamePadBtnCode.Start
    else if k == "back" then GamePadBtnCode.Back
    else if k == "dpad_up" then GamePadBtnCode.DPad_Up
    else if k == "dpad_down" then GamePadBtnCode.DPad_Down
    else if k == "dpad_left" then GamePadBtnCode.DPad_Left
    else if k == "dpad_right" then GamePadBtnCode.DPad_Right
    else if k == "any" then GamePadBtnCode.Any
    else GamePadBtnCode.Null_Input
  }

  /** `stringToGamePadBtn`. */
  function StringToGamePadBtn(name: string): (r: GamePadBtnCode)
    ensures r.A? <==> Lower(name) == "a"
    ensures r.Start? <==> Lower(name) == "start"
    ensures r.Any? <==> Lower(name) == "any"
    ensures r.Null_Input? <==> Lower(name) !in GamePadBtnLiterals
  {
    GamePadBtnOf(Lower(name))
  }

  /** The chain's branches for space and the letters. */
  function SpaceAndLettersKey(k: string): Option<KeyboardKeyCode>
  {
    if k == "space" then Some(KeyboardKeyCode.Space)
    else if k == "a" then Some(KeyboardKeyCode.A)
    else if k == "b" then Some(KeyboardKeyCode.B)
    else if k == "c" then Some(KeyboardKeyCode.C)
    else if k == "d" then Some(KeyboardKeyCode.D)
    else if k == "e" then Some(KeyboardKeyCode.E)
    else if k == "f" then Some(KeyboardKeyCode.F)
    else if k == "g" then Some(KeyboardKeyCode.G)
    else if k == "h" then Some(KeyboardKeyCode.H)
    else if k == "i" then Some(KeyboardKeyCode.I)
    else if k == "j" then Some(KeyboardKeyCode.J)
    else if k == "k" then Some(KeyboardKeyCode.K)
    else if k == "l" then Some(KeyboardKeyCode.L)
    else if k == "m" then Some(KeyboardKeyCode.M)
    else if k == "n" then Some(KeyboardKeyCode.N)
    else if k == "o" then Some(KeyboardKeyCode.O)
    else if k == "p" then Some(KeyboardKeyCode.P)
    else if k == "q" then Some(KeyboardKeyCode.Q)
    else if k == "r" then Some(KeyboardKeyCode.R)
    else if k == "s" then Some(KeyboardKeyCode.S)
    else if k == "t" then Some(KeyboardKeyCode.T)
    else if k == "u" then Some(KeyboardKeyCode.U)
    else if k == "v" then Some(KeyboardKeyCode.V)
    else if k == "w" then Some(KeyboardKeyCode.W)
    else if k == "x" then Some(KeyboardKeyCode.X)
    else if k == "y" then Some(KeyboardKeyCode.Y)
    else if k == "z" then Some(KeyboardKeyCode.Z)
    else None
  }

  /** The chain's branches for the number row digits. */
  function NumberRowKey(k: string): Option<KeyboardKeyCode>
  {
    if k == "num0" then Some(KeyboardKeyCode.Num0)
    else if k == "num1" then Some(KeyboardKeyCode.Num1)
    else if k == "num2" then Some(KeyboardKeyCode.Num2)
    else if k == "num3" then Some(KeyboardKeyCode.Num3)
    else if k == "num4" then Some(KeyboardKeyCode.Num4)
    else if k == "num5" then Some(KeyboardKeyCode.Num5)
    else if k == "num6" then Some(KeyboardKeyCode.Num6)
    else if k == "num7" then Some(KeyboardKeyCode.Num7)
    else if k == "num8" then Some(KeyboardKeyCode.Num8)
    else if k == "num9" then Some(KeyboardKeyCode.Num9)
    else None
  }

  /** The chain's branches for the number pad digits. */
  function NumberPadKey(k: string): Option<KeyboardKeyCode>
  {
    if k == "num_pad0" then Some(KeyboardKeyCode.Num_Pad0)
    else if k == "num_pad1" then Some(KeyboardKeyCode.Num_Pad1)
    else if k == "num_pad2" then Some(KeyboardKeyCode.Num_Pad2)
    else if k == "num_pad3" then Some(KeyboardKeyCode.Num_Pad3)
    else if k == "num_pad4" then Some(KeyboardKeyCode.Num_Pad4)
    else if k == "num_pad5" then Some(KeyboardKeyCode.Num_Pad5)
    else if k == "num_pad6" then Some(KeyboardKeyCode.Num_Pad6)
    else if k == "num_pad7" then Some(KeyboardKeyCode.Num_Pad7)
    else if k == "num_pad8" then Some(KeyboardKeyCode.Num_Pad8)
    else if k == "num_pad9" then Some(KeyboardKeyCode.Num_Pad9)
    else None
  }

  /** The chain's branches for the arrow keys. */
  function ArrowsKey(k: string): Option<KeyboardKeyCode>
  {
    if k == "arrow_up" then Some(KeyboardKeyCode.Arrow_Up)
    else if k == "arrow_down" then Some(KeyboardKeyCode.Arrow_Down)
    else if k == "arrow_left" then Some(KeyboardKeyCode.Arrow_Left)
    else if k == "arrow_right" then Some(KeyboardKeyCode.Arrow_Right)
    else None
  }

  /** The chain's branches for the number pad operators. */
  function NumPadOperatorsKey(k: string): Option<KeyboardKeyCode>
  {
    if k == "num_pad_multiply" then Some(KeyboardKeyCode.Num_Pad_Multiply)
    else if k == "num_pad_subtract" then Some(KeyboardKeyCode.Num_Pad_Subtract)
    else if k == "num_pad_decimal" then Some(KeyboardKeyCode.Num_Pad_Decimal)
    else if k == "num_pad_divide" then Some(KeyboardKeyCode.Num_Pad_Divide)
    else None
  }

  /** The chain's branches for punctuation. */
  function PunctuationKey(k: string): Option<KeyboardKeyCode>
  {
    if k == "semi_colon" then Some(KeyboardKeyCode.Semi_Colon)
    else if k == "plus" then Some(KeyboardKeyCode.Plus)
    else if k == "comma" then Some(KeyboardKeyCode.Comma)
    else if k == "minus" then Some(KeyboardKeyCode.Minus)
    else if k == "period" then Some(KeyboardKeyCode.Period)
    else if k == "slash_forward" then Some(KeyboardKeyCode.Slash_Forward)
    else if k == "slash_backward" then Some(KeyboardKeyCode.Slash_Backward)
    else if k == "tilde" then Some(KeyboardKeyCode.Tilde)
    else if k == "square_left" then Some(KeyboardKeyCode.Square_Left)
    else if k == "square_right" then Some(KeyboardKeyCode.Square_Right)
    else if k == "quote" then Some(KeyboardKeyCode.Quote)
    else None
  }

  /** The chain's branches for the function keys. */
  function FunctionKeysKey(k: string): Option<KeyboardKeyCode>
  {
    if k == "F1" then Some(KeyboardKeyCode.F1)
    else if k == "F2" then Some(KeyboardKeyCode.F2)
    else if k == "F3" then Some(KeyboardKeyCode.F3)
    else if k == "F4" then Some(KeyboardKeyCode.F4)
    else if k == "F5" then Some(KeyboardKeyCode.F5)
    else if k == "F6" then Some(KeyboardKeyCode.F6)
    else if k == "F7" then Some(KeyboardKeyCode.F7)
    else if k == "F8" then Some(KeyboardKeyCode.F8)
    else if k == "F9" then Some(KeyboardKeyCode.F9)
    else if k == "F10" then Some(KeyboardKeyCode.F10)
    else if k == "F11" then Some(KeyboardKeyCode.F11)
    else if k == "F12" then Some(KeyboardKeyCode.F12)
    else if k == "F13" then Some(KeyboardKeyCode.F13)
    else if k == "F14" then Some(KeyboardKeyCode.F14)
    else if k == "F15" then Some(KeyboardKeyCode.F15)
    else if k == "F16" then Some(KeyboardKeyCode.F16)
    else if k == "F17" then Some(KeyboardKeyCode.F17)
    else if k == "F18" then Some(KeyboardKeyCode.F18)
    else if k == "F19" then Some(KeyboardKeyCode.F19)
    else if k == "F20" then Some(KeyboardKeyCode.F20)
    else if k == "F21" then Some(KeyboardKeyCode.F21)
    else if k == "F22" then Some(KeyboardKeyCode.F22)
    else if k == "F23" then Some(KeyboardKeyCode.F23)
    else if k == "F24" then Some(KeyboardKeyCode.F24)
    else None
  }

  /** The chain's branches for escape, the editing keys and shift. */
  function EscapeAndShiftKey(k: string): Option<KeyboardKeyCode>
  {
    if k == "escape" then Some(KeyboardKeyCode.Escape)
    else if k == "backspace" then Some(KeyboardKeyCode.Backspace)
    else if k == "tab" then Some(KeyboardKeyCode.TAB)
    else if k == "return" then Some(KeyboardKeyCode.Return)
    else if k == "shift" then Some(KeyboardKeyCode.Shift)
    else if k == "shift_left" then Some(KeyboardKeyCode.Shift_Left)
    else if k == "shift_right" then Some(KeyboardKeyCode.Shift_Right)
    else None
  }

  /** The chain's branches for control, alt, the windows keys and apps. */
  function ControlAltKey(k: string): Option<KeyboardKeyCode>
  {
    if k == "control" then Some(KeyboardKeyCode.Control)
    else if k == "control_left" then Some(KeyboardKeyCode.Control_Left)
    else if k == "control_right" then Some(KeyboardKeyCode.Control_Right)
    else if k == "alt" then Some(KeyboardKeyCode.Alt)
    else if k == "alt_left" then Some(KeyboardKeyCode.Alt_Left)
    else if k == "alt_right" then Some(KeyboardKeyCode.Alt_Right)
    else if k == "windows_left" then Some(KeyboardKeyCode.Windows_Left)
    else if k == "windows_right" then Some(KeyboardKeyCode.Windows_Right)
    else if k == "apps" then Some(KeyboardKeyCode.Apps)
    else None
  }

  /** The chain's branches for navigation and command keys. */
  function CommandKeysKey(k: string): Option<KeyboardKeyCode>
  {
    if k == "page_up" then Some(KeyboardKeyCode.Page_Up)
    else if k == "page_down" then Some(KeyboardKeyCode.Page_Down)
    else if k == "end" then Some(KeyboardKeyCode.End)
    else if k == "home" then Some(KeyboardKeyCode.Home)
    else if k == "cancel" then Some(KeyboardKeyCode.Cancel)
    else if k == "clear" then Some(KeyboardKeyCode.Clear)
    else if k == "select" then Some(KeyboardKeyCode.Select)
    else if k == "print" then Some(KeyboardKeyCode.Print)
    else if k == "execute" then Some(KeyboardKeyCode.Execute)
    else if k == "print_screen" then Some(KeyboardKeyCode.Print_Screen)
    else if k == "insert" then Some(KeyboardKeyCode.Insert)
    else if k == "delete" then Some(KeyboardKeyCode.Delete)
    else if k == "help" then Some(KeyboardKeyCode.Help)
    else if k == "sleep" then Some(KeyboardKeyCode.Sleep)
    else None
  }

  /** The chain's branches for the lock keys. */
  function LocksKey(k: string): Option<KeyboardKeyCode>
  {
    if k == "caps_lock" then Some(KeyboardKeyCode.Caps_Lock)
    else if k == "num_lock" then Some(KeyboardKeyCode.Num_Lock)
    else if k == "scroll_lock" then Some(KeyboardKeyCode.Scroll_Lock)
    else None
  }

  /**
   * The if/else chain of `stringToKeyboardKey`, applied to the lower-cased
   * name.  The chain is cut into the groups the source lays out, tried in
   * order; the first group that recognises the key decides it.
   */
  function KeyboardKeyOf(k: string): KeyboardKeyCode
  {
    match SpaceAndLettersKey(k) case Some(v) => v case None =>
    match NumberRowKey(k) case Some(v) => v case None =>
    match NumberPadKey(k) case Some(v) => v case None =>
    match ArrowsKey(k) case Some(v) => v case None =>
    match NumPadOperatorsKey(k) case Some(v) => v case None =>
    match PunctuationKey(k) case Some(v) => v case None =>
    match FunctionKeysKey(k) case Some(v) => v case None =>
    match EscapeAndShiftKey(k) case Some(v) => v case None =>
    match ControlAltKey(k) case Some(v) => v case None =>
    match CommandKeysKey(k) case Some(v) => v case None =>
    match LocksKey(k) case Some(v) => v case None =>
    KeyboardKeyCode.Null
  }

  /** `stringToKeyboardKey`. */
  function StringToKeyboardKey(name: string): (r: KeyboardKeyCode)
    ensures Lower(name) !in KeyboardKeyLiterals ==> r.Null?
    ensures !IsFunctionKey(r)
  {
    UnrecognisedKeyIsNull(Lower(name));
    LowerIdempotent(name);
    FunctionKeyNeedsCapitalF(Lower(name));
    KeyboardKeyOf(Lower(name))
  }

  /** The if/else chain of `stringToMouseInputType`, applied to the lower-cased name. */
  function MouseInputTypeOf(k: string): MouseInputType
  {
    if k == "button" then MouseInputType.Button
    else if k == "axis" then MouseInputType.Axis
    else MouseInputType.Null
  }

  /** `stringToMouseInputType`. */
  function StringToMouseInputType(name: string): (r: MouseInputType)
    ensures r.Button? <==> Lower(name) == "button"
    ensures r.Axis? <==> Lower(name) == "axis"
    ensures r.Null? <==> Lower(name) !in MouseInputTypeLiterals
  {
    MouseInputTypeOf(Lower(name))
  }

  /** The if/else chain of `stringToMouseButton`, applied to the lower-cased name. */
  function MouseButtonOf(k: string): MouseButton
  {
    if k == "left" then MouseButton.Left
    else if k == "right" then MouseButton.Right
    else if k == "middle" then MouseButton.Middle
    else if k == "extra1" then MouseButton.Extra1
    else if k == "extra2" then MouseButton.Extra2
    else MouseButton.Null
  }

  /** `stringToMouseButton`. */
  function StringToMouseButton(name: string): (r: MouseButton)
    ensures r.Left? <==> Lower(name) == "left"
    ensures r.Right? <==> Lower(name) == "right"
    ensures r.Middle? <==> Lower(name) == "middle"
    ensures r.Extra1? <==> Lower(name) == "extra1"
    ensures r.Extra2? <==> Lower(name) == "extra2"
    ensures r.Null? <==> Lower(name) !in MouseButtonLiterals
  {
    MouseButtonOf(Lower(name))
  }

  /** The if/else chain of `stringToMouseAxis`, applied to the lower-cased name. */
  function MouseAxisOf(k: string): MouseAxis
  {
    if k == "x" then MouseAxis.X
    else if k == "y" then MouseAxis.Y
    else MouseAxis.Null
  }

  /** `stringToMouseAxis`. */
  function StringToMouseAxis(name: string): (r: MouseAxis)
    ensures r.X? <==> Lower(name) == "x"
    ensures r.Y? <==> Lower(name) == "y"
    ensures r.Null? <==> Lower(name) !in MouseAxisLiterals
  {
    MouseAxisOf(Lower(name))
  }

  lemma LowerIdempotent(s: string)
    ensures Lower(Lower(s)) == Lower(s)
    ensures forall k :: 0 <= k < |s| ==> !('A' <= Lower(s)[k] <= 'Z')
  {
  }

  /** Every lookup sees only the lower-cased name, so the letter case of the argument never matters. */
  lemma CaseInsensitive(s: string)
    ensures StringToInputType(s) == StringToInputType(Lower(s))
    ensures StringToGamePadID(s) == StringToGamePadID(Lower(s))
    ensures StringToGamePadInputType(s) == StringToGamePadInputType(Lower(s))
    ensures StringToGamePadAxis(s) == StringToGamePadAxis(Lower(s))
    ensures StringToGamePadBtn(s) == StringToGamePadBtn(Lower(s))
    ensures StringToKeyboardKey(s) == StringToKeyboardKey(Lower(s))
    ensures StringToMouseInputType(s) == StringToMouseInputType(Lower(s))
    ensures StringToMouseButton(s) == StringToMouseButton(Lower(s))
    ensures StringToMouseAxis(s) == StringToMouseAxis(Lower(s))
  {
    LowerIdempotent(s);
  }

  /** The keyboard chain: a key outside the key literals gives `Null`. */
  lemma UnrecognisedKeyIsNull(k: string)
    ensures k !in KeyboardKeyLiterals ==> KeyboardKeyOf(k) == KeyboardKeyCode.Null
  {
    SpaceAndLettersGroup(k);
    SpaceAndLettersValues(k);
    NumberRowGroup(k);
    NumberRowValues(k);
    NumberPadGroup(k);
    NumberPadValues(k);
    ArrowsGroup(k);
    ArrowsValues(k);
    NumPadOperatorsGroup(k);
    NumPadOperatorsValues(k);
    PunctuationGroup(k);
    PunctuationValues(k);
    FunctionKeysGroup(k);
    FunctionKeysValues(k);
    EscapeAndShiftGroup(k);
    EscapeAndShiftValues(k);
    ControlAltGroup(k);
    ControlAltValues(k);
    CommandKeysGroup(k);
    CommandKeysValues(k);
    LocksGroup(k);
    LocksValues(k);
  }

  lemma SpaceAndLettersGroup(k: string)
    ensures k !in SpaceAndLettersLiterals ==> SpaceAndLettersKey(k) == None
  {
  }

  lemma SpaceAndLettersValues(k: string)
    ensures SpaceAndLettersKey(k) != None ==> !IsFunctionKey(SpaceAndLettersKey(k).value)
  {
  }

  lemma NumberRowGroup(k: string)
    ensures k !in NumberRowLiterals ==> NumberRowKey(k) == None
  {
  }

  lemma NumberRowValues(k: string)
    ensures NumberRowKey(k) != None ==> !IsFunctionKey(NumberRowKey(k).value)
  {
  }
  lemma NumberPadGroup(k: string)
    ensures k !in NumberPadLiterals ==> NumberPadKey(k) == None
  {
  }

  lemma NumberPadValues(k: string)
    ensures NumberPadKey(k) != None ==> !IsFunctionKey(NumberPadKey(k).value)
  {
  }

  lemma ArrowsGroup(k: string)
    ensures k !in ArrowsLiterals ==> ArrowsKey(k) == None
  {
  }

  lemma ArrowsValues(k: string)
    ensures ArrowsKey(k) != None ==> !IsFunctionKey(ArrowsKey(k).value)
  {
  }

  lemma NumPadOperatorsGroup(k: string)
    ensures k !in NumPadOperatorsLiterals ==> NumPadOperatorsKey(k) == None
  {
  }

  lemma NumPadOperatorsValues(k: string)
    ensures NumPadOperatorsKey(k) != None ==> !IsFunctionKey(NumPadOperatorsKey(k).value)
  {
  }

  lemma PunctuationGroup(k: string)
    ensures k !in PunctuationLiterals ==> PunctuationKey(k) == None
  {
  }

  lemma PunctuationValues(k: string)
    ensures PunctuationKey(k) != None ==> !IsFunctionKey(PunctuationKey(k).value)
  {
  }

  lemma FunctionKeysGroup(k: string)
    ensures k !in FunctionKeysLiterals ==> FunctionKeysKey(k) == None
  {
  }

  lemma FunctionKeysValues(k: string)
    ensures FunctionKeysKey(k) != None ==> |k| > 0 && k[0] == 'F'
  {
  }

  lemma EscapeAndShiftGroup(k: string)
    ensures k !in EscapeAndShiftLiterals ==> EscapeAndShiftKey(k) == None
  {
  }

  lemma EscapeAndShiftValues(k: string)
    ensures EscapeAndShiftKey(k) != None ==> !IsFunctionKey(EscapeAndShiftKey(k).value)
  {
  }
  lemma ControlAltGroup(k: string)
    ensures k !in ControlAltLiterals ==> ControlAltKey(k) == None
  {
  }

  lemma ControlAltValues(k: string)
    ensures ControlAltKey(k) != None ==> !IsFunctionKey(ControlAltKey(k).value)
  {
  }

  lemma CommandKeysGroup(k: string)
    ensures k !in CommandKeysLiterals ==> CommandKeysKey(k) == None
  {
  }

  lemma CommandKeysValues(k: string)
    ensures CommandKeysKey(k) != None ==> !IsFunctionKey(CommandKeysKey(k).value)
  {
  }

  lemma LocksGroup(k: string)
    ensures k !in LocksLiterals ==> LocksKey(k) == None
  {
  }

  lemma LocksValues(k: string)
    ensures LocksKey(k) != None ==> !IsFunctionKey(LocksKey(k).value)
  {
  }

  /** Only a key starting with a capital 'F' reaches the function-key branches. */
  lemma FunctionKeyNeedsCapitalF(k: string)
    ensures IsFunctionKey(KeyboardKeyOf(k)) ==> |k| > 0 && k[0] == 'F'
  {
    SpaceAndLettersGroup(k);
    SpaceAndLettersValues(k);
    NumberRowGroup(k);
    NumberRowValues(k);
    NumberPadGroup(k);
    NumberPadValues(k);
    ArrowsGroup(k);
    ArrowsValues(k);
    NumPadOperatorsGroup(k);
    NumPadOperatorsValues(k);
    PunctuationGroup(k);
    PunctuationValues(k);
    FunctionKeysGroup(k);
    FunctionKeysValues(k);
    EscapeAndShiftGroup(k);
    EscapeAndShiftValues(k);
    ControlAltGroup(k);
    ControlAltValues(k);
    CommandKeysGroup(k);
    CommandKeysValues(k);
    LocksGroup(k);
    LocksValues(k);
  }

  /**
   * A C string longer than the comparison buffer is cut to 20 characters,
   * and every literal is shorter than that, so it never matches.
   */
  lemma OverlongNamesAreNull(cstr: string)
    requires |cstr| > CompareMax
    ensures StringToKeyboardKey(ToCompareString(cstr)) == KeyboardKeyCode.Null
    ensures StringToGamePadBtn(ToCompareString(cstr)) == GamePadBtnCode.Null_Input
    ensures StringToGamePadAxis(ToCompareString(cstr)) == GamePadAxisCode.Null_Axis
    ensures StringToInputType(ToCompareString(cstr)) == InputDevice.Null
  {
    var k := Lower(ToCompareString(cstr));
    assert |k| == CompareMax;
    OverlongKeyIsNull(k);
  }

  /** No keyboard literal is as long as the comparison buffer. */
  lemma OverlongKeyIsNull(k: string)
    requires |k| == CompareMax
    ensures KeyboardKeyOf(k) == KeyboardKeyCode.Null
  {
    SpaceAndLettersOverlong(k);
    NumberRowOverlong(k);
    NumberPadOverlong(k);
    ArrowsOverlong(k);
    NumPadOperatorsOverlong(k);
    PunctuationOverlong(k);
    FunctionKeysOverlong(k);
    EscapeAndShiftOverlong(k);
    ControlAltOverlong(k);
    CommandKeysOverlong(k);
    LocksOverlong(k);
  }

  lemma SpaceAndLettersOverlong(k: string)
    requires |k| == CompareMax
    ensures SpaceAndLettersKey(k) == None
  {
  }

  lemma NumberRowOverlong(k: string)
    requires |k| == CompareMax
    ensures NumberRowKey(k) == None
  {
  }

  lemma NumberPadOverlong(k: string)
    requires |k| == CompareMax
    ensures NumberPadKey(k) == None
  {
  }

  lemma ArrowsOverlong(k: string)
    requires |k| == CompareMax
    ensures ArrowsKey(k) == None
  {
  }

  lemma NumPadOperatorsOverlong(k: string)
    requires |k| == CompareMax
    ensures NumPadOperatorsKey(k) == None
  {
  }

  lemma PunctuationOverlong(k: string)
    requires |k| == CompareMax
    ensures PunctuationKey(k) == None
  {
  }

  lemma FunctionKeysOverlong(k: string)
    requires |k| == CompareMax
    ensures FunctionKeysKey(k) == None
  {
  }

  lemma EscapeAndShiftOverlong(k: string)
    requires |k| == CompareMax
    ensures EscapeAndShiftKey(k) == None
  {
  }

  lemma ControlAltOverlong(k: string)
    requires |k| == CompareMax
    ensures ControlAltKey(k) == None
  {
  }

  lemma CommandKeysOverlong(k: string)
    requires |k| == CompareMax
    ensures CommandKeysKey(k) == None
  {
  }

  lemma LocksOverlong(k: string)
    requires |k| == CompareMax
    ensures LocksKey(k) == None
  {
  }
}

/** Input vocabulary: the keyboard and mouse buttons the application
    reports, and the total maps from SDL's scancodes and mouse-button codes
    to them. Numeric codes are SDL 3's: scancodes 4..29 are the letters A..Z,
    30..38 the digits 1..9, 39 the digit 0, and 79..82 the arrows Right,
    Left, Down, Up; mouse buttons are numbered 1..5 from Left to X2. */
module Input {

  type LetterIndex = x: nat | x < 26
  type Digit = x: nat | x < 10

  /** `KeyboardButton`: `Letter(0)` is `A` … `Letter(25)` is `Z`, and
      `Number(d)` is `Number<d>`. */
  datatype KeyboardButton = Unknown | Up | Down | Left | Right | Letter(letter: LetterIndex) | Number(digit: Digit)

  const ScancodeA: int := 4
  const Scancode1: int := 30
  const Scancode0: int := 39
  const ScancodeRight: int := 79
  const ScancodeLeft: int := 80
  const ScancodeDown: int := 81
  const ScancodeUp: int := 82

  /** The named buttons used by the examples. */
  const A: KeyboardButton := Letter(0)
  const D: KeyboardButton := Letter(3)
  const E: KeyboardButton := Letter(4)
  const Q: KeyboardButton := Letter(16)
  const S: KeyboardButton := Letter(18)
  const W: KeyboardButton := Letter(22)
  const Number1: KeyboardButton := Number(1)
  const Number2: KeyboardButton := Number(2)

  /** The scancode switch of the keyboard handler: the arrows, letters and
      digits map to their buttons; any other code is `Unknown`. */
  function ButtonOfScancode(scancode: int): KeyboardButton
  {
    if scancode == ScancodeLeft then Left
    else if scancode == ScancodeRight then Right
    else if scancode == ScancodeUp then Up
    else if scancode == ScancodeDown then Down
    else if ScancodeA <= scancode < ScancodeA + 26 then Letter(scancode - ScancodeA)
    else if Scancode1 <= scancode < Scancode1 + 9 then Number(scancode - Scancode1 + 1)
    else if scancode == Scancode0 then Number(0)
    else Unknown
  }

  /** The scancode of each known button: the independent table the switch
      is checked against. */
  function ScancodeOfButton(b: KeyboardButton): int
    requires b != Unknown
  {
    match b
    case Up => ScancodeUp
    case Down => ScancodeDown
    case Left => ScancodeLeft
    case Right => ScancodeRight
    case Letter(i) => ScancodeA + i
    case Number(d) => if d == 0 then Scancode0 else Scancode1 + d - 1
  }

  /** Every known button is reached from exactly its own scancode, and a
      scancode that names a button is that button's scancode: the switch is
      a bijection between the 40 scancodes and the 40 known buttons, and
      everything else is `Unknown`. */
  lemma ScancodeMapRoundTrips(b: KeyboardButton, scancode: int)
    ensures b != Unknown ==> ButtonOfScancode(ScancodeOfButton(b)) == b
    ensures ButtonOfScancode(scancode) != Unknown ==> ScancodeOfButton(ButtonOfScancode(scancode)) == scancode
    ensures ButtonOfScancode(scancode) == Unknown <==>
              !(ScancodeA <= scancode <= Scancode0 || ScancodeRight <= scancode <= ScancodeUp)
  {
  }

  datatype MouseButton = UnknownButton | LeftButton | MiddleButton | RightButton | X1Button | X2Button

  const MouseCodeLeft: int := 1
  const MouseCodeMiddle: int := 2
  const MouseCodeRight: int := 3
  const MouseCodeX1: int := 4
  const MouseCodeX2: int := 5

  /** The mouse-button chain of the mouse handler. */
  function MouseButtonOfCode(code: int): MouseButton
  {
    if code == MouseCodeLeft then LeftButton
    else if code == MouseCodeMiddle then MiddleButton
    else if code == MouseCodeRight then RightButton
    else if code == MouseCodeX1 then X1Button
    else if code == MouseCodeX2 then X2Button
    else UnknownButton
  }

  function CodeOfMouseButton(b: MouseButton): int
    requires b != UnknownButton
  {
    match b
    case LeftButton => MouseCodeLeft
    case MiddleButton => MouseCodeMiddle
    case RightButton => MouseCodeRight
    case X1Button => MouseCodeX1
    case X2Button => MouseCodeX2
  }

  /** The mouse map is a bijection between codes 1..5 and the five known
      buttons; any other code is `Unknown`. */
  lemma MouseMapRoundTrips(b: MouseButton, code: int)
    ensures b != UnknownButton ==> MouseButtonOfCode(CodeOfMouseButton(b)) == b
    ensures MouseButtonOfCode(code) != UnknownButton ==> CodeOfMouseButton(MouseButtonOfCode(code)) == code
    ensures MouseButtonOfCode(code) == UnknownButton <==> !(MouseCodeLeft <= code <= MouseCodeX2)
  {
  }
}

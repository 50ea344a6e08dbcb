/** helix's backend-agnostic keyboard vocabulary: the `KeyModifiers` bit flags,
    the `KeyCode` enumeration, and the `From` conversions between them and the
    terminal backend's types. */
module Keyboard {
  import opened Primitives
  import B = ModifierBits
  import Crossterm

  /** Key modifiers (shift, control, alt): a `bitflags!` struct over `u8`. */
  datatype KeyModifiers = KeyModifiers(bits: B.Mask) {

    /** `self & other` */
    function And(other: KeyModifiers): KeyModifiers {
      KeyModifiers(B.And(bits, other.bits))
    }

    /** `self | other` */
    function Or(other: KeyModifiers): KeyModifiers {
      KeyModifiers(B.Or(bits, other.bits))
    }

    /** The named flag is set. */
    predicate Contains(f: B.Flag) {
      B.Has(bits, f)
    }
  }

  const SHIFT: KeyModifiers := KeyModifiers(0x01)
  const CONTROL: KeyModifiers := KeyModifiers(0x02)
  const ALT: KeyModifiers := KeyModifiers(0x04)
  const NONE: KeyModifiers := KeyModifiers(0x00)

  /** `From<KeyModifiers> for crossterm::event::KeyModifiers`, as written: the
      accumulator starts at the backend's NONE and each flag found in the input
      is folded in with `&=`.  Intersecting NONE with anything leaves NONE, so
      every input, whatever flags it holds, converts to the backend's NONE. */
  function ModifiersToCrossterm(m: KeyModifiers): (r: Crossterm.KeyModifiers)
    ensures r == Crossterm.NONE
    ensures forall f :: !r.Contains(f)
  {
    var result := Crossterm.NONE;
    var result := if m.And(SHIFT) != NONE then result.And(Crossterm.SHIFT) else result;
    var result := if m.And(CONTROL) != NONE then result.And(Crossterm.CONTROL) else result;
    var result := if m.And(ALT) != NONE then result.And(Crossterm.ALT) else result;
    result
  }

  /** `From<crossterm::event::KeyModifiers> for KeyModifiers`, as written: the
      same `&=` accumulation from NONE, so every input converts to NONE. */
  function ModifiersFromCrossterm(c: Crossterm.KeyModifiers): (r: KeyModifiers)
    ensures r == NONE
    ensures forall f :: !r.Contains(f)
  {
    var result := NONE;
    var result := if c.And(Crossterm.SHIFT) != Crossterm.NONE then result.And(SHIFT) else result;
    var result := if c.And(Crossterm.CONTROL) != Crossterm.NONE then result.And(CONTROL) else result;
    var result := if c.And(Crossterm.ALT) != Crossterm.NONE then result.And(ALT) else result;
    result
  }

  /** The evidently intended conversion to the backend: the same three flag
      tests, accumulating with `|=`.  Each flag survives exactly when the input
      holds it. */
  function IntendedModifiersToCrossterm(m: KeyModifiers): (r: Crossterm.KeyModifiers)
    ensures forall f :: r.Contains(f) <==> m.Contains(f)
  {
    var result := Crossterm.NONE;
    var result := if m.And(SHIFT) != NONE then result.Or(Crossterm.SHIFT) else result;
    var result := if m.And(CONTROL) != NONE then result.Or(Crossterm.CONTROL) else result;
    var result := if m.And(ALT) != NONE then result.Or(Crossterm.ALT) else result;
    result
  }

  /** The evidently intended conversion from the backend, accumulating with `|=`. */
  function IntendedModifiersFromCrossterm(c: Crossterm.KeyModifiers): (r: KeyModifiers)
    ensures forall f :: r.Contains(f) <==> c.Contains(f)
  {
    var result := NONE;
    var result := if c.And(Crossterm.SHIFT) != Crossterm.NONE then result.Or(SHIFT) else result;
    var result := if c.And(Crossterm.CONTROL) != Crossterm.NONE then result.Or(CONTROL) else result;
    var result := if c.And(Crossterm.ALT) != Crossterm.NONE then result.Or(ALT) else result;
    result
  }

  /** A key.  `F(1)` is the F1 key; `Char('c')` is the character `c`. */
  datatype KeyCode =
    | Backspace
    | Enter
    | Left
    | Right
    | Up
    | Down
    | Home
    | End
    | PageUp
    | PageDown
    | Tab
    | BackTab
    | Delete
    | Insert
    | F(number: u8)
    | Char(character: char)
    | Null
    | Esc

  /** `From<KeyCode> for crossterm::event::KeyCode`: an exhaustive match that
      maps every variant to the backend variant of the same name and copies the
      function-key number and the character unchecked. */
  function KeyCodeToCrossterm(k: KeyCode): (c: Crossterm.KeyCode)
    ensures k.Backspace? <==> c.Backspace?
    ensures k.Enter? <==> c.Enter?
    ensures k.Left? <==> c.Left?
    ensures k.Right? <==> c.Right?
    ensures k.Up? <==> c.Up?
    ensures k.Down? <==> c.Down?
    ensures k.Home? <==> c.Home?
    ensures k.End? <==> c.End?
    ensures k.PageUp? <==> c.PageUp?
    ensures k.PageDown? <==> c.PageDown?
    ensures k.Tab? <==> c.Tab?
    ensures k.BackTab? <==> c.BackTab?
    ensures k.Delete? <==> c.Delete?
    ensures k.Insert? <==> c.Insert?
    ensures k.F? <==> c.F?
    ensures k.F? ==> c.number == k.number
    ensures k.Char? <==> c.Char?
    ensures k.Char? ==> c.character == k.character
    ensures k.Null? <==> c.Null?
    ensures k.Esc? <==> c.Esc?
  {
    match k
    case Backspace => Crossterm.Backspace
    case Enter => Crossterm.Enter
    case Left => Crossterm.Left
    case Right => Crossterm.Right
    case Up => Crossterm.Up
    case Down => Crossterm.Down
    case Home => Crossterm.Home
    case End => Crossterm.End
    case PageUp => Crossterm.PageUp
    case PageDown => Crossterm.PageDown
    case Tab => Crossterm.Tab
    case BackTab => Crossterm.BackTab
    case Delete => Crossterm.Delete
    case Insert => Crossterm.Insert
    case F(fNumber) => Crossterm.F(fNumber)
    case Char(character) => Crossterm.Char(character)
    case Null => Crossterm.Null
    case Esc => Crossterm.Esc
  }

  /** `From<crossterm::event::KeyCode> for KeyCode`: the exhaustive match in
      the other direction, again tag for tag with payloads copied unchecked. */
  function KeyCodeFromCrossterm(c: Crossterm.KeyCode): (k: KeyCode)
    ensures c.Backspace? <==> k.Backspace?
    ensures c.Enter? <==> k.Enter?
    ensures c.Left? <==> k.Left?
    ensures c.Right? <==> k.Right?
    ensures c.Up? <==> k.Up?
    ensures c.Down? <==> k.Down?
    ensures c.Home? <==> k.Home?
    ensures c.End? <==> k.End?
    ensures c.PageUp? <==> k.PageUp?
    ensures c.PageDown? <==> k.PageDown?
    ensures c.Tab? <==> k.Tab?
    ensures c.BackTab? <==> k.BackTab?
    ensures c.Delete? <==> k.Delete?
    ensures c.Insert? <==> k.Insert?
    ensures c.F? <==> k.F?
    ensures c.F? ==> k.number == c.number
    ensures c.Char? <==> k.Char?
    ensures c.Char? ==> k.character == c.character
    ensures c.Null? <==> k.Null?
    ensures c.Esc? <==> k.Esc?
  {
    match c
    case Backspace => Backspace
    case Enter => Enter
    case Left => Left
    case Right => Right
    case Up => Up
    case Down => Down
    case Home => Home
    case End => End
    case PageUp => PageUp
    case PageDown => PageDown
    case Tab => Tab
    case BackTab => BackTab
    case Delete => Delete
    case Insert => Insert
    case F(fNumber) => F(fNumber)
    case Char(character) => Char(character)
    case Null => Null
    case Esc => Esc
  }
}

/** The terminal backend's keyboard vocabulary (crossterm's `event::KeyModifiers`
    and `event::KeyCode`), mirrored only as far as helix's conversions use it:
    a three-flag modifier bitmask and a closed key-code enumeration. */
module Crossterm {
  import opened Primitives
  import B = ModifierBits

  /** The backend's modifier bit flags. */
  datatype KeyModifiers = KeyModifiers(bits: B.Mask) {

    /** `self & other` */
    function And(other: KeyModifiers): KeyModifiers {
      KeyModifiers(B.And(bits, other.bits))
    }

    /** `self | other` */
    function Or(other: KeyModifiers): KeyModifiers {
      KeyModifiers(B.Or(bits, other.bits))
    }

    /** The named flag is set. */
    predicate Contains(f: B.Flag) {
      B.Has(bits, f)
    }
  }

  const NONE: KeyModifiers := KeyModifiers(0x00)
  const SHIFT: KeyModifiers := KeyModifiers(0x01)
  const CONTROL: KeyModifiers := KeyModifiers(0x02)
  const ALT: KeyModifiers := KeyModifiers(0x04)

  /** The backend's key identities: the same eighteen variants as helix's
      `KeyCode`, two of them carrying a payload. */
  datatype KeyCode =
    | Backspace
    | Enter
    | Left
    | Right
    | Up
    | Down
    | Home
    | End
    | PageUp
    | PageDown
    | Tab
    | BackTab
    | Delete
    | Insert
    | F(number: u8)
    | Char(character: char)
    | Null
    | Esc
}

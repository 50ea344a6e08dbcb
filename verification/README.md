# helix keyboard vocabulary — a Dafny model

This project models `helix-view/src/keyboard.rs` of the helix editor: the
terminal-agnostic description of a key press and its conversions to and from
the terminal backend (crossterm).

- `KeyModifiers` is a `bitflags!` struct over `u8` with SHIFT = 1, CONTROL = 2,
  ALT = 4 and NONE = 0. It is modelled as a `bv8` restricted to its low three
  bits (`ModifierBits.Mask`), wrapped in a datatype. The wrapper offers `&`
  (`And`), `|` (`Or`) and the flag test `m & FLAG != NONE` (`Contains`).
  `ModifierBits` also gives an independent reading of a mask as a set of
  named flags, so that union, intersection and membership can be checked
  against set operations.
- The backend's modifier and key-code types are foreign. `Crossterm` mirrors
  them only as far as the conversions use them: a three-flag bitmask with the
  same constants, and an 18-variant key-code datatype.
- Both modifier conversions are modelled exactly as written, accumulating
  with `&=` starting from NONE. The model proves that they always return NONE.
  The evidently intended versions, which accumulate with `|=`, are modelled
  beside them under separate names (see Findings).
- `KeyCode` is the closed 18-variant enumeration. Its two conversions map
  each variant to the same-named variant and copy the `F` number and the
  `Char` character without any check.

Files: `primitives.dfy` (`u8`), `modifier_bits.dfy` (the three-flag
bitmask), `crossterm.dfy` (backend mirror), `keyboard.dfy` (helix's types, the
four `From` conversions as written and the two intended `|=` modifier
conversions), `keyboard_laws.dfy` (round trips, injectivity, and the
counterexample for the modifier conversions).

A `From` between two encodings of the same three flags is evidently meant to
keep every flag. The code starts from NONE and accumulates with `&=`, so it
keeps none. The model follows the code, and the `|=` versions appear only as
the `Intended*` functions.

## Model

| member | source | states |
|---|---|---|
| ModifierBits.Bit | helix-view/src/keyboard.rs:7-9 | each flag constant is a single, non-zero bit |
| ModifierBits.BitsDisjoint | helix-view/src/keyboard.rs:7-9 | two flags share a bit if and only if they are the same flag |
| ModifierBits.Or | helix-view/src/keyboard.rs:3-12 | `a \| b` holds a flag exactly when `a` or `b` holds it |
| ModifierBits.And | helix-view/src/keyboard.rs:21 | `a & b` holds a flag exactly when both `a` and `b` hold it |
| ModifierBits.FromFlags | helix-view/src/keyboard.rs:6-10 | the mask a set of named flags stands for is empty exactly when the set is empty |
| ModifierBits.HasIsMembership | helix-view/src/keyboard.rs:21 | the test `m & FLAG != NONE` agrees with membership of the flag in the set the mask stands for |
| ModifierBits.Extensional | helix-view/src/keyboard.rs:3-12 | two masks are equal if and only if they hold the same flags |
| ModifierBits.FlagsBijection | helix-view/src/keyboard.rs:3-12 | masks and sets of the three flags are in one-to-one correspondence, both ways round |
| ModifierBits.OrIsSetUnion | helix-view/src/keyboard.rs:3-12 | bitwise union of masks is union of their flag sets |
| ModifierBits.AndIsSetIntersection | helix-view/src/keyboard.rs:21 | bitwise intersection of masks is intersection of their flag sets |
| KeyboardLaws.ModifierConstants | helix-view/src/keyboard.rs:6-10 | SHIFT, CONTROL and ALT each hold only their own flag and are pairwise disjoint; NONE holds nothing and is the identity of union; the same for the backend's constants |
| KeyboardLaws.ModifiersEqualIffSameFlags | helix-view/src/keyboard.rs:21-52 | two `KeyModifiers`, and two backend modifier sets, are equal if and only if every flag matches; this is the meaning of the `!=` in every branch guard |
| KeyboardLaws.FlagTestIsMembership | helix-view/src/keyboard.rs:21-52 | every branch guard `x & FLAG != NONE`, on either side, is exactly the membership test of that flag |
| Keyboard.ModifiersToCrossterm | helix-view/src/keyboard.rs:15-34 | as written, the conversion to the backend returns the backend's NONE for every input |
| Keyboard.ModifiersFromCrossterm | helix-view/src/keyboard.rs:38-57 | as written, the conversion from the backend returns NONE for every input |
| KeyboardLaws.ModifierRoundTripOnlyForNone | helix-view/src/keyboard.rs:15-57 | as written, a modifier set survives the round trip through the backend if and only if it is NONE, in both directions |
| KeyboardLaws.ShiftIsLostAsWritten | helix-view/src/keyboard.rs:19-33 | counterexample: SHIFT comes back as NONE, and control+shift reaches the backend as the backend's NONE, with neither flag |
| Keyboard.IntendedModifiersToCrossterm | helix-view/src/keyboard.rs:15-34 | intended conversion: the backend value holds a flag exactly when the input does |
| Keyboard.IntendedModifiersFromCrossterm | helix-view/src/keyboard.rs:38-57 | intended conversion: the result holds a flag exactly when the backend value does |
| KeyboardLaws.IntendedModifierRoundTrip | helix-view/src/keyboard.rs:15-57 | the intended conversions are mutually inverse on all eight flag combinations |
| KeyboardLaws.IntendedToCrosstermKeepsUnion | helix-view/src/keyboard.rs:19-33 | the intended conversion maps union to union, so control+shift reaches the backend with both flags |
| Keyboard.KeyCodeToCrossterm | helix-view/src/keyboard.rs:107-131 | every key code maps to the backend variant with the same tag, with `F` number and `Char` character copied unchanged |
| Keyboard.KeyCodeFromCrossterm | helix-view/src/keyboard.rs:135-159 | every backend key code maps to the variant with the same tag, with payloads copied unchanged |
| KeyboardLaws.KeyCodeRoundTrip | helix-view/src/keyboard.rs:107-159 | from-backend after to-backend is the identity on key codes |
| KeyboardLaws.CrosstermKeyCodeRoundTrip | helix-view/src/keyboard.rs:107-159 | to-backend after from-backend is the identity on backend key codes |
| KeyboardLaws.KeyCodeConversionsInjective | helix-view/src/keyboard.rs:111-158 | both key-code conversions map distinct inputs to distinct outputs |
| KeyboardLaws.KeyCodeConversionsOnto | helix-view/src/keyboard.rs:111-158 | every value on either side is reached by the conversion from the other side, so no variant is unreachable |
| KeyboardLaws.PayloadsPassThrough | helix-view/src/keyboard.rs:126-127 | function-key numbers (including 0 and 255) and characters (including control characters) pass through with no range or printability check |

## Left out

- The crossterm library itself is not part of this model. Only its
  `KeyModifiers` and `KeyCode` are mirrored, as far as the conversions use them.
  The backend's modifier bits are assumed to be SHIFT = 1, CONTROL = 2,
  ALT = 4. Only the three named flags matter to the proofs. Any further
  backend flags are not modelled.
- Methods that `bitflags!` generates besides the constants, `&` and `|`, such
  as `all`, `from_bits` and `Debug`, are not modelled. The conversions do not
  use them.
- The serde `Serialize`/`Deserialize` derives are not modelled. They contain
  no visible encoding logic.
- The `cfg(feature = "term")` and `cfg_attr(feature = "serde")` gating is not
  modelled. Conditional compilation has no run-time meaning.
- The derived `Debug`, `Hash`, `Clone`, `Copy` and `PartialOrd` impls of
  `KeyCode` are not modelled. Derived equality is Dafny's datatype equality.
  Nothing in the file uses the ordering.
- A key event that pairs modifiers with a key code is not defined in this
  file, so it is not modelled.

## Findings

| source | as written | input that shows it | evidently intended | confidence | as-written member | corrected member |
|---|---|---|---|---|---|---|
| helix-view/src/keyboard.rs:19-33 | starts from the backend's NONE and applies `result &= FLAG` for each flag present, so the result is always NONE | `KeyModifiers::SHIFT` (or CONTROL \| SHIFT) converts to the backend's NONE | `result \|= FLAG`, so every flag present reaches the backend | high (not executed) | Keyboard.ModifiersToCrossterm | Keyboard.IntendedModifiersToCrossterm |
| helix-view/src/keyboard.rs:42-56 | starts from NONE and applies `result &= FLAG` for each backend flag present, so the result is always NONE | the backend's SHIFT converts to `KeyModifiers::NONE` | `result \|= FLAG`, so every backend flag present is kept | high (not executed) | Keyboard.ModifiersFromCrossterm | Keyboard.IntendedModifiersFromCrossterm |

/** Laws of helix's keyboard vocabulary and of its conversions to and from the
    terminal backend: the modifier constants, the behaviour of the modifier
    conversions as written and as intended, and the key-code round trips. */
module KeyboardLaws {
  import opened Primitives
  import B = ModifierBits
  import Crossterm
  import opened Keyboard

  /** SHIFT, CONTROL and ALT each hold exactly their own flag, so they are
      pairwise disjoint; NONE holds no flag and is the identity of union.
      The same holds of the backend's constants (`c` on the backend side). */
  lemma ModifierConstants(m: KeyModifiers, c: Crossterm.KeyModifiers)
    ensures forall f :: SHIFT.Contains(f) <==> f == B.Shift
    ensures forall f :: CONTROL.Contains(f) <==> f == B.Control
    ensures forall f :: ALT.Contains(f) <==> f == B.Alt
    ensures forall f :: !NONE.Contains(f)
    ensures SHIFT.And(CONTROL) == NONE && SHIFT.And(ALT) == NONE && CONTROL.And(ALT) == NONE
    ensures NONE.Or(m) == m && m.Or(NONE) == m
    ensures forall f :: Crossterm.SHIFT.Contains(f) <==> f == B.Shift
    ensures forall f :: Crossterm.CONTROL.Contains(f) <==> f == B.Control
    ensures forall f :: Crossterm.ALT.Contains(f) <==> f == B.Alt
    ensures forall f :: !Crossterm.NONE.Contains(f)
    ensures Crossterm.SHIFT.And(Crossterm.CONTROL) == Crossterm.NONE
    ensures Crossterm.SHIFT.And(Crossterm.ALT) == Crossterm.NONE
    ensures Crossterm.CONTROL.And(Crossterm.ALT) == Crossterm.NONE
    ensures Crossterm.NONE.Or(c) == c && c.Or(Crossterm.NONE) == c
  {
  }

  /** Two modifier sets are equal exactly when every flag is present in both
      or in neither; this holds for helix's sets (`a`, `b`) and for the
      backend's (`c`, `d`) alike. */
  lemma ModifiersEqualIffSameFlags(a: KeyModifiers, b: KeyModifiers, c: Crossterm.KeyModifiers, d: Crossterm.KeyModifiers)
    ensures a == b <==> forall f :: a.Contains(f) <==> b.Contains(f)
    ensures c == d <==> forall f :: c.Contains(f) <==> d.Contains(f)
  {
    forall f
      ensures a.Contains(f) == B.Has(a.bits, f) && b.Contains(f) == B.Has(b.bits, f)
      ensures c.Contains(f) == B.Has(c.bits, f) && d.Contains(f) == B.Has(d.bits, f)
    {
    }
    B.Extensional(a.bits, b.bits);
    B.Extensional(c.bits, d.bits);
  }

  /** The test `m & FLAG != NONE` that guards every branch of the modifier
      conversions is the membership test of that flag. */
  lemma FlagTestIsMembership(m: KeyModifiers, c: Crossterm.KeyModifiers)
    ensures (m.And(SHIFT) != NONE) == m.Contains(B.Shift)
    ensures (m.And(CONTROL) != NONE) == m.Contains(B.Control)
    ensures (m.And(ALT) != NONE) == m.Contains(B.Alt)
    ensures (c.And(Crossterm.SHIFT) != Crossterm.NONE) == c.Contains(B.Shift)
    ensures (c.And(Crossterm.CONTROL) != Crossterm.NONE) == c.Contains(B.Control)
    ensures (c.And(Crossterm.ALT) != Crossterm.NONE) == c.Contains(B.Alt)
  {
  }

  /** As written, the modifier round trip through the backend returns the
      input only when the input is NONE; in the other direction only the
      backend's NONE survives. */
  lemma ModifierRoundTripOnlyForNone(m: KeyModifiers, c: Crossterm.KeyModifiers)
    ensures ModifiersFromCrossterm(ModifiersToCrossterm(m)) == m <==> m == NONE
    ensures ModifiersToCrossterm(ModifiersFromCrossterm(c)) == c <==> c == Crossterm.NONE
  {
  }

  /** Counterexample to the modifier round trip as written: SHIFT comes back
      as NONE, and control+shift reaches the backend with neither flag. */
  lemma ShiftIsLostAsWritten()
    ensures ModifiersFromCrossterm(ModifiersToCrossterm(SHIFT)) == NONE != SHIFT
    ensures ModifiersToCrossterm(CONTROL.Or(SHIFT)) == Crossterm.NONE
    ensures !ModifiersToCrossterm(CONTROL.Or(SHIFT)).Contains(B.Control)
  {
  }

  /** The intended conversions are inverse to each other on all eight
      combinations of shift, control and alt, in both directions. */
  lemma IntendedModifierRoundTrip(m: KeyModifiers, c: Crossterm.KeyModifiers)
    ensures IntendedModifiersFromCrossterm(IntendedModifiersToCrossterm(m)) == m
    ensures IntendedModifiersToCrossterm(IntendedModifiersFromCrossterm(c)) == c
  {
    ModifiersEqualIffSameFlags(
      IntendedModifiersFromCrossterm(IntendedModifiersToCrossterm(m)), m,
      IntendedModifiersToCrossterm(IntendedModifiersFromCrossterm(c)), c);
  }

  /** The intended conversion to the backend maps union to union, so flags set
      together (control+shift) all reach the backend. */
  lemma IntendedToCrosstermKeepsUnion(a: KeyModifiers, b: KeyModifiers)
    ensures IntendedModifiersToCrossterm(a.Or(b)) == IntendedModifiersToCrossterm(a).Or(IntendedModifiersToCrossterm(b))
    ensures IntendedModifiersToCrossterm(CONTROL.Or(SHIFT)) == Crossterm.CONTROL.Or(Crossterm.SHIFT)
  {
    ModifiersEqualIffSameFlags(
      a, a,
      IntendedModifiersToCrossterm(a.Or(b)),
      IntendedModifiersToCrossterm(a).Or(IntendedModifiersToCrossterm(b)));
    ModifiersEqualIffSameFlags(
      a, a,
      IntendedModifiersToCrossterm(CONTROL.Or(SHIFT)),
      Crossterm.CONTROL.Or(Crossterm.SHIFT));
  }

  /** Converting a key code to the backend and back gives the same key code. */
  lemma KeyCodeRoundTrip(k: KeyCode)
    ensures KeyCodeFromCrossterm(KeyCodeToCrossterm(k)) == k
  {
  }

  /** Converting a backend key code to helix's and back gives the same value. */
  lemma CrosstermKeyCodeRoundTrip(c: Crossterm.KeyCode)
    ensures KeyCodeToCrossterm(KeyCodeFromCrossterm(c)) == c
  {
  }

  /** Both key-code conversions are injective: distinct keys stay distinct. */
  lemma KeyCodeConversionsInjective(a: KeyCode, b: KeyCode, c: Crossterm.KeyCode, d: Crossterm.KeyCode)
    ensures KeyCodeToCrossterm(a) == KeyCodeToCrossterm(b) ==> a == b
    ensures KeyCodeFromCrossterm(c) == KeyCodeFromCrossterm(d) ==> c == d
  {
    KeyCodeRoundTrip(a);
    KeyCodeRoundTrip(b);
    CrosstermKeyCodeRoundTrip(c);
    CrosstermKeyCodeRoundTrip(d);
  }

  /** Both key-code conversions are onto: no variant on either side is
      unreachable, so the two enumerations are in one-to-one correspondence. */
  lemma KeyCodeConversionsOnto(k: KeyCode, c: Crossterm.KeyCode)
    ensures exists k' :: KeyCodeToCrossterm(k') == c
    ensures exists c' :: KeyCodeFromCrossterm(c') == k
  {
    CrosstermKeyCodeRoundTrip(c);
    KeyCodeRoundTrip(k);
  }

  /** Function-key numbers and characters pass through unvalidated: F(0),
      F(255) and a control character reach the backend as they are. */
  lemma PayloadsPassThrough(n: u8, ch: char)
    ensures KeyCodeToCrossterm(F(n)) == Crossterm.F(n)
    ensures KeyCodeFromCrossterm(Crossterm.F(n)) == F(n)
    ensures KeyCodeToCrossterm(Char(ch)) == Crossterm.Char(ch)
    ensures KeyCodeFromCrossterm(Crossterm.Char(ch)) == Char(ch)
    ensures KeyCodeToCrossterm(F(0)) == Crossterm.F(0)
    ensures KeyCodeToCrossterm(F(255)) == Crossterm.F(255)
    ensures KeyCodeToCrossterm(Char('\U{7}')) == Crossterm.Char('\U{7}')
  {
  }
}

/** The bit-level representation behind a `bitflags!` struct over `u8` that
    declares the three keyboard modifier flags SHIFT, CONTROL and ALT in its
    low three bits.  Both helix's `KeyModifiers` and the terminal backend's
    modifier type are values of this shape; this module defines the shape
    once, together with its reading as a plain set of named flags. */
module ModifierBits {

  /** The bits of a modifier set.  Only the three flag bits can be set:
      every value is built from the declared constants with `&` and `|`. */
  type Mask = b: bv8 | b & 0xF8 == 0

  /** The named flags a modifier set can hold. */
  datatype Flag = Shift | Control | Alt

  /** The empty set: no bit set. */
  const EMPTY: Mask := 0

  /** The single bit each flag constant is declared with. */
  function Bit(f: Flag): (b: Mask)
    ensures b != EMPTY
    ensures b & (b - 1) == 0
  {
    match f
    case Shift => 0x01
    case Control => 0x02
    case Alt => 0x04
  }

  /** Distinct flags have disjoint bits, so each flag owns its own bit. */
  lemma BitsDisjoint(f: Flag, g: Flag)
    ensures f != g <==> Bit(f) & Bit(g) == EMPTY
  {
  }

  /** The membership test of a flag: `m & FLAG != NONE`. */
  predicate Has(m: Mask, f: Flag) {
    m & Bit(f) != EMPTY
  }

  /** Bitwise union `a | b`: the result holds exactly the flags of either. */
  function Or(a: Mask, b: Mask): (r: Mask)
    ensures forall f :: Has(r, f) <==> Has(a, f) || Has(b, f)
  {
    a | b
  }

  /** Bitwise intersection `a & b`: the result holds exactly the flags of both. */
  function And(a: Mask, b: Mask): (r: Mask)
    ensures forall f :: Has(r, f) <==> Has(a, f) && Has(b, f)
  {
    a & b
  }

  /** Reference reading of a set of named flags as a mask: the sum of the
      weights 1, 2 and 4 of the flags it holds, written without bit operations. */
  function FromFlags(s: set<Flag>): (m: Mask)
    ensures m == EMPTY <==> s == {}
  {
    var n := (if Shift in s then 1 else 0)
           + (if Control in s then 2 else 0)
           + (if Alt in s then 4 else 0);
    NonEmptyHoldsAFlag(s);
    n as bv8
  }

  /** A non-empty set of flags holds one of the three named flags. */
  lemma NonEmptyHoldsAFlag(s: set<Flag>)
    ensures s != {} ==> Shift in s || Control in s || Alt in s
  {
    if s != {} {
      var f :| f in s;
      assert f == Shift || f == Control || f == Alt;
    }
  }

  /** The set of named flags a mask holds. */
  function Flags(m: Mask): set<Flag> {
    set f: Flag | Has(m, f)
  }

  /** A flag is present in a mask exactly when it is in the set the mask
      stands for: the bitwise membership test agrees with set membership. */
  lemma HasIsMembership(s: set<Flag>, f: Flag)
    ensures Has(FromFlags(s), f) <==> f in s
  {
  }

  /** Two masks are equal exactly when they hold the same flags. */
  lemma Extensional(a: Mask, b: Mask)
    ensures a == b <==> forall f :: Has(a, f) <==> Has(b, f)
  {
    if forall f :: Has(a, f) <==> Has(b, f) {
      assert Has(a, Shift) == Has(b, Shift);
      assert Has(a, Control) == Has(b, Control);
      assert Has(a, Alt) == Has(b, Alt);
    }
  }

  /** Every mask stands for the set of flags it holds, and every set of
      flags is read back from its mask: masks and flag sets are in bijection. */
  lemma FlagsBijection(m: Mask, s: set<Flag>)
    ensures FromFlags(Flags(m)) == m
    ensures Flags(FromFlags(s)) == s
  {
    forall f
      ensures Has(FromFlags(Flags(m)), f) <==> Has(m, f)
    {
      HasIsMembership(Flags(m), f);
    }
    Extensional(FromFlags(Flags(m)), m);
    forall f
      ensures f in Flags(FromFlags(s)) <==> f in s
    {
      HasIsMembership(s, f);
    }
  }

  /** Union of masks is union of flag sets. */
  lemma OrIsSetUnion(s: set<Flag>, t: set<Flag>)
    ensures Or(FromFlags(s), FromFlags(t)) == FromFlags(s + t)
  {
    forall f
      ensures Has(Or(FromFlags(s), FromFlags(t)), f) <==> Has(FromFlags(s + t), f)
    {
      HasIsMembership(s, f);
      HasIsMembership(t, f);
      HasIsMembership(s + t, f);
    }
    Extensional(Or(FromFlags(s), FromFlags(t)), FromFlags(s + t));
  }

  /** Intersection of masks is intersection of flag sets. */
  lemma AndIsSetIntersection(s: set<Flag>, t: set<Flag>)
    ensures And(FromFlags(s), FromFlags(t)) == FromFlags(s * t)
  {
    forall f
      ensures Has(And(FromFlags(s), FromFlags(t)), f) <==> Has(FromFlags(s * t), f)
    {
      HasIsMembership(s, f);
      HasIsMembership(t, f);
      HasIsMembership(s * t, f);
    }
    Extensional(And(FromFlags(s), FromFlags(t)), FromFlags(s * t));
  }
}

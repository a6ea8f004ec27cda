/** Fields of a 32-bit word: placing one, reading one back, and which bits are left alone. */
module BitField {

  type Word = bv32

  // The machine's operators, named so that proofs can treat them as black boxes.

  function And(a: Word, b: Word): Word { a & b }

  function Or(a: Word, b: Word): Word { a | b }

  function Double(a: Word): Word { a << (1 as bv6) }

  function Halve(a: Word): Word { a >> (1 as bv6) }

  /** Shifts by a number of places. */
  function Shl(a: Word, s: nat): Word { if s == 0 then a else Double(Shl(a, s - 1)) }

  function Shr(a: Word, s: nat): Word { if s == 0 then a else Shr(Halve(a), s - 1) }

  function Bit(n: nat): Word { Shl(1, n) }

  function Pred(a: Word): Word { a - 1 }

  function Mask(bits: nat): Word { Pred(Bit(bits)) }

  predicate Less(a: Word, b: Word) { a < b }

  predicate NoMore(a: Word, b: Word) { a <= b }

  const TOP: Word := 0x8000_0000

  /** The value can be moved up `s` places without losing a bit. */
  predicate Placed(m: Word, s: nat) { s == 0 || (Placed(m, s - 1) && Less(Shl(m, s - 1), TOP)) }

  /** What a field of a word holds, and a value put in its place. */
  function Field(w: Word, m: Word, s: nat): Word { And(Shr(w, s), m) }

  function At(x: Word, m: Word, s: nat): Word { Shl(And(x, m), s) }

  // ---------------------------------------------------------------- single places

  lemma HalveAnd(a: Word, b: Word)
    ensures Halve(And(a, b)) == And(Halve(a), Halve(b))
  {
  }

  lemma HalveOr(a: Word, b: Word)
    ensures Halve(Or(a, b)) == Or(Halve(a), Halve(b))
  {
  }

  lemma DoubleAnd(a: Word, b: Word)
    ensures Double(And(a, b)) == And(Double(a), Double(b))
  {
  }

  lemma HalveDouble(a: Word)
    requires Less(a, TOP)
    ensures Halve(Double(a)) == a
  {
  }

  lemma DoubleLess(a: Word, b: Word)
    requires Less(a, b) && b <= 0x4000_0000
    ensures Less(Double(a), Double(b)) && Less(a, TOP)
  {
  }

  lemma AndLess(x: Word, m: Word)
    ensures NoMore(And(x, m), m)
  {
  }

  lemma OrAnd(p: Word, x: Word, m: Word)
    requires And(p, m) == 0
    ensures And(Or(p, And(x, m)), m) == And(x, m)
  {
  }

  lemma Within(y: Word, q: Word, p: Word)
    requires And(y, q) == y && And(p, q) == 0
    ensures And(y, p) == 0
  {
  }

  lemma OrKeeps(a: Word, y: Word, p: Word)
    requires And(y, p) == 0
    ensures And(Or(a, y), p) == And(a, p)
  {
  }

  lemma AndOr(p: Word, a: Word, b: Word)
    requires And(p, a) == 0 && And(p, b) == 0
    ensures And(p, Or(a, b)) == 0
  {
  }

  lemma AndOfOr(p: Word, a: Word, b: Word)
    requires And(p, Or(a, b)) == 0
    ensures And(p, a) == 0 && And(p, b) == 0
  {
  }

  lemma AndTwice(x: Word, m: Word)
    ensures And(And(x, m), m) == And(x, m)
  {
  }

  // ---------------------------------------------------------------- many places

  lemma {:induction false} ShrAnd(a: Word, b: Word, s: nat)
    ensures Shr(And(a, b), s) == And(Shr(a, s), Shr(b, s))
    decreases s
  {
    hide And, Halve;
    if s > 0 {
      HalveAnd(a, b);
      ShrAnd(Halve(a), Halve(b), s - 1);
    }
  }

  lemma {:induction false} ShrOr(a: Word, b: Word, s: nat)
    ensures Shr(Or(a, b), s) == Or(Shr(a, s), Shr(b, s))
    decreases s
  {
    hide Or, Halve;
    if s > 0 {
      HalveOr(a, b);
      ShrOr(Halve(a), Halve(b), s - 1);
    }
  }

  lemma {:induction false} ShlAnd(a: Word, b: Word, s: nat)
    ensures Shl(And(a, b), s) == And(Shl(a, s), Shl(b, s))
  {
    hide And, Double;
    if s > 0 {
      ShlAnd(a, b, s - 1);
      DoubleAnd(Shl(a, s - 1), Shl(b, s - 1));
    }
  }

  lemma {:induction false} ShrZero(s: nat)
    ensures Shr(0, s) == 0
  {
    if s > 0 {
      assert Halve(0) == 0;
      ShrZero(s - 1);
    }
  }

  lemma {:induction false} ShlZero(s: nat)
    ensures Shl(0, s) == 0
  {
    if s > 0 {
      ShlZero(s - 1);
    }
  }

  lemma {:induction false} ShiftsUndo(y: Word, s: nat)
    requires Placed(y, s)
    ensures Shr(Shl(y, s), s) == y
  {
    hide Double, Halve;
    if s > 0 {
      HalveDouble(Shl(y, s - 1));
      ShiftsUndo(y, s - 1);
    }
  }

  lemma {:induction false} ShiftsAdd(a: Word, k: nat, n: nat)
    ensures Shl(Shl(a, k), n) == Shl(a, k + n)
    decreases n
  {
    hide Double;
    if n > 0 {
      ShiftsAdd(a, k, n - 1);
      assert k + n - 1 == k + (n - 1);
    }
  }

  lemma {:induction false} ShlAnother(x: Word, m: Word, s: nat)
    requires NoMore(x, m) && Placed(m, s)
    ensures Placed(x, s) && NoMore(Shl(x, s), Shl(m, s))
  {
    hide Double, Less, NoMore;
    if s > 0 {
      ShlAnother(x, m, s - 1);
      DoubleNoMore(Shl(x, s - 1), Shl(m, s - 1));
    }
  }

  lemma DoubleNoMore(a: Word, b: Word)
    requires NoMore(a, b) && Less(b, TOP)
    ensures NoMore(Double(a), Double(b)) && Less(a, TOP)
  {
  }

  // ---------------------------------------------------------------- powers of two

  predicate Power(h: Word) { h != 0 && h & (h - 1) == 0 }

  lemma TopBit()
    ensures Bit(31) == TOP
  {
    assert Bit(10) == 0x400;
    assert Shl(0x400, 10) == 0x10_0000;
    assert Shl(0x10_0000, 11) == 0x8000_0000;
    ShiftsAdd(1, 10, 10);
    ShiftsAdd(1, 20, 11);
  }

  lemma PowerDoubles(h: Word)
    requires Power(h) && h <= 0x4000_0000
    ensures Power(Double(h))
  {
  }

  lemma PowerTop(h: Word)
    requires Power(h) && h > 0x4000_0000
    ensures h == 0x8000_0000 && Double(h) == 0
  {
  }

  lemma {:induction false} BitBelow(k: nat)
    requires k < 31
    ensures Power(Bit(k)) && Bit(k) <= 0x4000_0000
  {
    hide Power, Double;
    if k == 0 {
      PowerOne();
    } else {
      BitBelow(k - 1);
      PowerDoubles(Bit(k - 1));
    }
    if Bit(k) > 0x4000_0000 {
      PowerTop(Bit(k));
      assert Shl(1, k + 1) == 0;
      ShlZero(30 - k);
      ShiftsAdd(1, k + 1, 30 - k);
      TopBit();
    }
  }

  lemma PowerOne()
    ensures Power(1) && Bit(0) == 1
  {
  }

  lemma PredLess(a: Word)
    requires a != 0
    ensures Less(Pred(a), a)
  {
  }

  lemma {:induction false} LessPlaced(m: Word, bits: nat, s: nat)
    requires bits + s <= 32 && bits < 32 && Less(m, Bit(bits))
    ensures Placed(m, s) && (bits + s < 32 ==> Less(Shl(m, s), Bit(bits + s)))
    decreases s
  {
    hide Double, Power, Less;
    if s > 0 {
      LessPlaced(m, bits, s - 1);
      var k := bits + s - 1;
      assert Bit(k + 1) == Double(Bit(k));
      if k < 31 {
        BitBelow(k);
        DoubleLess(Shl(m, s - 1), Bit(k));
      } else {
        TopBit();
      }
    }
  }

  lemma MaskPlaced(bits: nat, s: nat)
    requires bits + s <= 32 && bits < 32
    ensures Placed(Mask(bits), s)
  {
    hide Pred, Power, Less;
    if bits < 31 { BitBelow(bits); PowerNonzero(Bit(bits)); } else { TopBit(); }
    PredLess(Bit(bits));
    LessPlaced(Mask(bits), bits, s);
  }

  lemma PowerNonzero(h: Word)
    requires Power(h)
    ensures h != 0
  {
  }

  /** What a mask of low bits keeps whole. */
  lemma MaskKeepsIff(x: Word, bits: nat)
    requires bits < 31
    ensures And(x, Mask(bits)) == x <==> NoMore(x, Mask(bits))
  {
    BitBelow(bits);
    LowKept(x, Bit(bits));
  }

  lemma LowKept(x: Word, h: Word)
    requires Power(h)
    ensures And(x, Pred(h)) == x <==> NoMore(x, Pred(h))
  {
  }

  // ---------------------------------------------------------------- fields

  /** A value or-ed into clear bits is read back. */
  lemma OwnField(a: Word, x: Word, m: Word, s: nat)
    requires Placed(m, s) && And(a, Shl(m, s)) == 0
    ensures Field(Or(a, At(x, m, s)), m, s) == And(x, m)
  {
    hide And, Or, Shl, Shr, Placed;
    AndLess(x, m);
    ShiftsUndo(m, s);
    ShlAnother(And(x, m), m, s);
    ShiftsUndo(And(x, m), s);
    ShrAnd(a, Shl(m, s), s);
    ShrZero(s);
    ShrOr(a, At(x, m, s), s);
    OrAnd(Shr(a, s), x, m);
  }

  /** A field depends on its own bits only. */
  lemma FieldIsItsBits(v: Word, w: Word, m: Word, s: nat)
    requires Placed(m, s) && And(v, Shl(m, s)) == And(w, Shl(m, s))
    ensures Field(v, m, s) == Field(w, m, s)
  {
    hide And, Shl, Shr, Placed;
    ShiftsUndo(m, s);
    ShrAnd(v, Shl(m, s), s);
    ShrAnd(w, Shl(m, s), s);
  }

  /** A value keeps to the bits of its field. */
  lemma Elsewhere(x: Word, m: Word, s: nat, p: Word)
    requires And(p, Shl(m, s)) == 0
    ensures And(At(x, m, s), p) == 0
  {
    hide And, Shl;
    AndTwice(x, m);
    ShlAnd(And(x, m), m, s);
    Within(At(x, m, s), Shl(m, s), p);
  }
}

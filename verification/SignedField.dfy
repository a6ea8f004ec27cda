/** Branch distances: a signed word offset kept in a field. */
module SignedField {
  import opened BitField

  predicate Negative(d: Word) { d >= 0x8000_0000 }

  /** Signed shift right by two, and its opposite. */
  function Quarter(d: Word): Word {
    if Negative(d) then Or(Quarter0(d), 0xC000_0000) else Quarter0(d)
  }

  function Quarter0(d: Word): Word { d >> (2 as bv6) }

  function Times4(a: Word): Word { a << (2 as bv6) }

  function Minus(a: Word, b: Word): Word { a - b }

  /** The branch arm of parse_operand, up to the final mask. */
  function PackOffset(d: Word, bits: nat): Word
    requires bits > 0
  {
    var data := And(Quarter(d), Halve(Mask(bits)));
    if Negative(d) then Or(data, Bit(bits - 1)) else data
  }

  /** The sign extension of print_operands. */
  function UnpackOffset(v: Word, bits: nat): Word
    requires bits > 0
  {
    Times4(if And(v, Bit(bits - 1)) != 0 then Minus(v, Bit(bits)) else v)
  }

  /** Word-aligned, and within 2^(bits + 1) bytes either way. */
  predicate InReach(d: Word, bits: nat) {
    And(d, 3) == 0 && (Less(d, Bit(bits + 1)) || NoMore(Minus(0, Bit(bits + 1)), d))
  }

  // ---------------------------------------------------------------- in terms of the sign bit

  const FARTHEST: Word := 0x1000_0000

  function Twice(h: Word): Word { h + h }

  lemma SignBit(bits: nat)
    requires 1 <= bits <= 29
    ensures var h := Bit(bits - 1);
            && Power(h) && NoMore(h, FARTHEST) && Mask(bits) == Pred(Twice(h)) && Halve(Mask(bits)) == Pred(h)
            && Bit(bits) == Twice(h) && Bit(bits + 1) == Times4(h)
  {
    hide Power, Double, Twice, Pred, Halve, Times4;
    var h := Bit(bits - 1);
    BitBelow(bits - 1);
    BitBelow(bits);
    BitBelow(bits + 1);
    assert Bit(bits) == Double(h) && Bit(bits + 1) == Double(Bit(bits));
    DoubleIs(h);
    Times4Is(h);
    Quartered(h);
  }

  lemma Times4Is(h: Word)
    ensures Times4(h) == Double(Double(h))
  {
  }

  lemma DoubleIs(h: Word)
    requires Power(h) && h <= 0x4000_0000
    ensures Double(h) == Twice(h) && Halve(Pred(Twice(h))) == Pred(h)
  {
  }

  lemma Quartered(h: Word)
    requires Power(h) && h <= 0x4000_0000 && Double(h) <= 0x4000_0000 && Double(Double(h)) <= 0x4000_0000
    ensures NoMore(h, FARTHEST)
  {
  }

  lemma SmallKept(x: Word, h: Word)
    requires Power(h) && NoMore(h, FARTHEST) && Less(x, h)
    ensures And(x, Pred(h)) == x && And(x, h) == 0 && And(x, Pred(Twice(h))) == x
  {
    hide And, Pred, Power, Twice, Less, NoMore;
    Below(x, h);
    WiderLow(x, h);
    Below(x, Twice(h));
  }

  lemma Below(x: Word, h: Word)
    requires Power(h) && Less(x, h)
    ensures And(x, Pred(h)) == x && And(x, h) == 0
  {
  }

  lemma WiderLow(x: Word, h: Word)
    requires Power(h) && NoMore(h, FARTHEST) && Less(x, h)
    ensures Power(Twice(h)) && Less(x, Twice(h))
  {
  }

  lemma HighKept(x: Word, h: Word)
    requires Power(h) && NoMore(h, FARTHEST) && NoMore(Minus(0, h), x)
    ensures Or(And(x, Pred(h)), h) == And(x, Pred(Twice(h)))
    ensures And(And(x, Pred(Twice(h))), h) != 0
  {
  }

  lemma Extended(x: Word, h: Word)
    requires Power(h) && NoMore(h, FARTHEST) && NoMore(Minus(0, h), x)
    ensures Minus(And(x, Pred(Twice(h))), Twice(h)) == x
  {
    hide And, Minus, Pred, Power, Twice;
    Wider(x, h);
    ExtendedBy(x, Twice(h));
  }

  lemma Wider(x: Word, h: Word)
    requires Power(h) && NoMore(h, FARTHEST) && NoMore(Minus(0, h), x)
    ensures Power(Twice(h)) && NoMore(Minus(0, Twice(h)), x)
  {
  }

  lemma ExtendedBy(x: Word, k: Word)
    requires Power(k) && NoMore(Minus(0, k), x)
    ensures Minus(And(x, Pred(k)), k) == x
  {
    hide And, Minus, Power, NoMore;
    HighBits(x, k);
    Parted(x, k);
    MinusPlus(And(x, Pred(k)), k);
  }

  function Plus(a: Word, b: Word): Word { a + b }

  lemma HighBits(x: Word, k: Word)
    requires Power(k) && NoMore(Minus(0, k), x)
    ensures And(x, Minus(0, k)) == Minus(0, k)
  {
  }

  lemma Parted(x: Word, k: Word)
    requires Power(k)
    ensures x == Plus(And(x, Pred(k)), And(x, Minus(0, k)))
  {
  }

  lemma MinusPlus(a: Word, k: Word)
    ensures Minus(a, k) == Plus(a, Minus(0, k))
  {
    hide Minus, Plus;
    PlusNegative(a, k);
    MinusIs(0, k);
    MinusIs(a, k);
  }

  lemma PlusNegative(a: Word, k: Word)
    ensures Plus(a, 0 - k) == a - k
  {
  }

  lemma MinusIs(a: Word, b: Word)
    ensures Minus(a, b) == a - b
  {
  }

  lemma Aligned(d: Word)
    requires And(d, 3) == 0
    ensures Times4(Quarter(d)) == d
  {
    if Negative(d) {
      AlignedHigh(d);
    }
  }

  lemma AlignedHigh(d: Word)
    requires And(d, 3) == 0
    ensures Times4(Or(Quarter0(d), 0xC000_0000)) == d
  {
  }

  lemma QuarterLow(d: Word, h: Word)
    requires NoMore(h, FARTHEST) && Less(d, Times4(h))
    ensures !Negative(d) && Less(Quarter(d), h)
  {
  }

  lemma QuarterHigh(d: Word, h: Word)
    requires Power(h) && NoMore(h, FARTHEST) && NoMore(Minus(0, Times4(h)), d)
    ensures Negative(d) && NoMore(Minus(0, h), Quarter(d))
  {
    hide Power, Minus, Times4, Quarter, Quarter0, Negative, NoMore;
    MinusHigh(h);
    Times4Minus(h);
    QuarterOfHigh(d, Minus(0, h));
  }

  lemma MinusHigh(h: Word)
    requires Power(h) && NoMore(h, FARTHEST)
    ensures NoMore(0xF000_0000, Minus(0, h))
  {
  }

  lemma Times4Minus(h: Word)
    ensures Minus(0, Times4(h)) == Times4(Minus(0, h))
  {
  }

  lemma QuarterOfHigh(d: Word, u: Word)
    requires NoMore(0xF000_0000, u) && NoMore(Times4(u), d)
    ensures Negative(d) && NoMore(u, Quarter(d))
  {
  }

  /** What comes back is aligned and in reach. */
  lemma UnpackReach(v: Word, h: Word)
    requires Power(h) && NoMore(h, FARTHEST) && NoMore(v, Pred(Twice(h)))
    ensures var d := Times4(if And(v, h) != 0 then Minus(v, Twice(h)) else v);
            And(d, 3) == 0 && (Less(d, Times4(h)) || NoMore(Minus(0, Times4(h)), d))
  {
  }

  /** A branch distance survives exactly when it is aligned and in reach. */
  lemma OffsetComesBackIff(d: Word, bits: nat)
    requires 1 <= bits <= 29
    ensures UnpackOffset(And(PackOffset(d, bits), Mask(bits)), bits) == d <==> InReach(d, bits)
  {
    hide Mask, Bit, Times4, Quarter, Negative, Power, And, Or, Halve, Minus, Twice, Pred, Less, NoMore;
    SignBit(bits);
    var h, v := Bit(bits - 1), And(PackOffset(d, bits), Mask(bits));
    AndLess(PackOffset(d, bits), Mask(bits));
    UnpackReach(v, h);
    if InReach(d, bits) {
      Aligned(d);
      if Less(d, Times4(h)) {
        QuarterLow(d, h);
        SmallKept(Quarter(d), h);
      } else {
        PowerNonzero(h);
        QuarterHigh(d, h);
        HighKept(Quarter(d), h);
        AndTwice(Quarter(d), Pred(Twice(h)));
        Extended(Quarter(d), h);
      }
    }
  }
}

/** The three table-driven checksums, in one 32-bit register: what the table loops compute and
    what they detect. */
module Crc {
  import opened CrcTables
  import opened BitStream

  /** CRC-8, CRC-16 and CRC-32; the narrow ones leave the upper bits of the register clear. */
  datatype Kind = Eight | Sixteen | ThirtyTwo

  /** x^8 + x^7 + x^6 + x^4 + x^2 + 1, and the polynomials of Appendices C.2 and C.3 of
      RFC 1662, each written from its highest power down to the lowest bit. */
  function Poly(kind: Kind): bv32 {
    match kind
    case Eight => 0xAB
    case Sixteen => 0x8408
    case ThirtyTwo => 0xEDB8_8320
  }

  function Ones(kind: Kind): bv32 {
    match kind
    case Eight => 0xFF
    case Sixteen => 0xFFFF
    case ThirtyTwo => 0xFFFF_FFFF
  }

  predicate Fits(kind: Kind, crc: bv32) { crc & Ones(kind) == crc }

  function Table(kind: Kind, i: bv8): bv32 {
    match kind
    case Eight => Table8(i)
    case Sixteen => Table16(i)
    case ThirtyTwo => Table32(i)
  }

  // The machine's operators, named so that proofs can treat them as black boxes.

  function Xor(a: bv32, b: bv32): bv32 { a ^ b }

  function Wide(b: bv8): bv32 { b as bv32 }

  function Odd(x: bv32): bool { x & 1 == 1 }

  function Half(x: bv32): bv32 { x >> 1 }

  function Shr8(x: bv32): bv32 { x >> 8 }

  /** One message bit of reflected division. */
  function Bit(p: bv32, crc: bv32, bit: bool): bv32 {
    if Odd(crc) != bit then Xor(Half(crc), p) else Half(crc)
  }

  /** The reference: a message as a stream of bits, divided one bit at a time. */
  function Divide(p: bv32, crc: bv32, bits: seq<bool>): bv32
    decreases |bits|
  {
    if bits == [] then crc else Divide(p, Bit(p, crc, bits[0]), bits[1..])
  }

  /** The table index: the low byte of the CRC against the message byte. */
  function Lower(crc: bv32, b: bv8): bv8 { ((crc ^ (b as bv32)) & 0xFF) as bv8 }

  /** The loop body: one byte through the table. */
  function Step(kind: Kind, crc: bv32, b: bv8): bv32 { Xor(Shr8(crc), Table(kind, Lower(crc, b))) }

  function Crc(kind: Kind, crc: bv32, data: seq<bv8>): bv32
    decreases |data|
  {
    if data == [] then crc else Crc(kind, Step(kind, crc, data[0]), data[1..])
  }

  // ---------------------------------------------------------------- what the tables mean

  /** `k` steps that bring in no message bits. */
  function Zeros(p: bv32, x: bv32, k: nat): bv32
    decreases k
  {
    if k == 0 then x else Zeros(p, Bit(p, x, false), k - 1)
  }


  function Z(x: bv32, p: bv32): bv32 { if x & 1 == 1 then (x >> 1) ^ p else x >> 1 }

  lemma ZIs(x: bv32, p: bv32)
    ensures Bit(p, x, false) == Z(x, p)
  {
  }

  lemma ZerosEight(p: bv32, x: bv32)
    ensures Zeros(p, x, 8) == Z(Z(Z(Z(Z(Z(Z(Z(x, p), p), p), p), p), p), p), p)
  {
    hide Bit, Z;
    var x2 := Z(Z(x, p), p);
    var x4 := Z(Z(x2, p), p);
    var x6 := Z(Z(x4, p), p);
    ZerosTwo(p, x, 6);
    ZerosTwo(p, x2, 4);
    ZerosTwo(p, x4, 2);
    ZerosTwo(p, x6, 0);
  }

  lemma ZerosTwo(p: bv32, x: bv32, k: nat)
    ensures Zeros(p, x, k + 2) == Zeros(p, Z(Z(x, p), p), k)
    ensures Zeros(p, x, 0) == x
  {
    hide Bit, Z;
    ZIs(x, p);
    ZIs(Z(x, p), p);
    assert Zeros(p, x, k + 2) == Zeros(p, Z(x, p), k + 1);
  }

  lemma Entry8(i: bv8)
    ensures var x := Wide(i); Table8(i) == Z(Z(Z(Z(Z(Z(Z(Z(x, 0xAB), 0xAB), 0xAB), 0xAB), 0xAB), 0xAB), 0xAB), 0xAB)
  {
    if i < 0x40 {} else if i < 0x80 {} else if i < 0xC0 {} else {}
  }

  lemma Entry16(i: bv8)
    ensures var x := Wide(i); Table16(i) == Z(Z(Z(Z(Z(Z(Z(Z(x, 0x8408), 0x8408), 0x8408), 0x8408), 0x8408), 0x8408), 0x8408), 0x8408)
  {
    if i < 0x40 {} else if i < 0x80 {} else if i < 0xC0 {} else {}
  }

  lemma Entry32(i: bv8)
    ensures var x := Wide(i); Table32(i) == Z(Z(Z(Z(Z(Z(Z(Z(x, 0xEDB8_8320), 0xEDB8_8320), 0xEDB8_8320), 0xEDB8_8320), 0xEDB8_8320), 0xEDB8_8320), 0xEDB8_8320), 0xEDB8_8320)
  {
    if i < 0x40 {} else if i < 0x80 {} else if i < 0xC0 {} else {}
  }

  /** Each of the 256 literal entries of each table is eight steps of division. */
  lemma TableEntry(kind: Kind, i: bv8)
    ensures Table(kind, i) == Zeros(Poly(kind), Wide(i), 8)
  {
    hide Z, Zeros, Table8, Table16, Table32, Wide;
    ZerosEight(Poly(kind), Wide(i));
    match kind
    case Eight => Entry8(i);
    case Sixteen => Entry16(i);
    case ThirtyTwo => Entry32(i);
  }

  lemma WideNext(b: bv8)
    ensures Half(Wide(b)) == Wide(Next(b)) && Odd(Wide(b)) == Low(b)
  {
  }

  lemma XorFacts(u: bv32, v: bv32)
    ensures Half(Xor(u, v)) == Xor(Half(u), Half(v))
    ensures Odd(Xor(u, v)) == (Odd(u) != Odd(v))
  {
  }

  lemma Assoc(a: bv32, b: bv32, c: bv32)
    ensures Xor(Xor(a, b), c) == Xor(a, Xor(b, c))
  {
  }

  lemma Comm(a: bv32, b: bv32)
    ensures Xor(a, b) == Xor(b, a)
  {
  }

  lemma Undo(a: bv32, b: bv32)
    ensures Xor(Xor(a, b), b) == a
  {
  }

  lemma XorRules(a: bv32, b: bv32, p: bv32)
    ensures Xor(Xor(a, b), p) == Xor(Xor(a, p), b) == Xor(a, Xor(b, p))
    ensures Xor(Xor(a, p), Xor(b, p)) == Xor(a, b)
  {
    hide Xor;
    Assoc(a, b, p);
    Assoc(a, p, b);
    Comm(p, b);
    Assoc(a, p, Xor(b, p));
    Comm(p, Xor(b, p));
    Undo(b, p);
  }

  /** A message bit may be mixed in early, or when it is due. */
  lemma Mix(p: bv32, crc: bv32, b: bv8)
    ensures Bit(p, Xor(crc, Wide(b)), false) == Xor(Bit(p, crc, Low(b)), Wide(Next(b)))
  {
    hide Xor, Wide, Low, Next, Odd, Half;
    WideNext(b);
    XorFacts(crc, Wide(b));
    XorRules(Half(crc), Half(Wide(b)), p);
  }

  lemma {:induction false} MixAll(p: bv32, crc: bv32, b: bv8, k: nat)
    ensures Zeros(p, Xor(crc, Wide(b)), k) == Xor(Divide(p, crc, Bits(b, k)), Wide(Rest(b, k)))
    decreases k
  {
    hide Bit, Xor, Wide, Low, Next;
    if k > 0 {
      Mix(p, crc, b);
      MixAll(p, Bit(p, crc, Low(b)), Next(b), k - 1);
      assert Bits(b, k)[1..] == Bits(Next(b), k - 1);
    }
  }

  lemma Additive(p: bv32, u: bv32, v: bv32)
    ensures Bit(p, Xor(u, v), false) == Xor(Bit(p, u, false), Bit(p, v, false))
  {
    hide Xor, Odd, Half;
    XorFacts(u, v);
    XorRules(Half(u), Half(v), p);
  }

  lemma {:induction false} ZerosAdditive(p: bv32, u: bv32, v: bv32, k: nat)
    ensures Zeros(p, Xor(u, v), k) == Xor(Zeros(p, u, k), Zeros(p, v, k))
    decreases k
  {
    hide Bit, Xor;
    if k > 0 {
      Additive(p, u, v);
      ZerosAdditive(p, Bit(p, u, false), Bit(p, v, false), k - 1);
    }
  }

  /** Bits above the low eight just move down. */
  lemma UpperMoves(p: bv32, x: bv32)
    requires Low8(x) == 0
    ensures Zeros(p, x, 8) == Shr8(x)
  {
    ZerosEight(p, x);
  }

  function Upper(x: bv32): bv32 { x & 0xFFFF_FF00 }

  function Low8(x: bv32): bv32 { x & 0xFF }

  lemma Parts(crc: bv32, b: bv8)
    ensures Xor(crc, Wide(b)) == Xor(Upper(crc), Wide(Lower(crc, b)))
  {
    hide Upper, Lower, Wide, Xor, Low8;
    LowerFacts(crc, b);
    Recombine(crc, Wide(b));
  }

  lemma LowerFacts(crc: bv32, b: bv8)
    ensures Low8(Wide(b)) == Wide(b) && Wide(Lower(crc, b)) == Low8(Xor(crc, Wide(b)))
  {
  }

  lemma Recombine(crc: bv32, m: bv32)
    requires Low8(m) == m
    ensures Xor(crc, m) == Xor(Upper(crc), Low8(Xor(crc, m)))
  {
    RecombineRaw(crc, m);
    assert Xor(crc, m) == crc ^ m;
  }

  lemma RecombineRaw(crc: bv32, m: bv32)
    requires m & 0xFF == m
    ensures crc ^ m == (crc & 0xFFFF_FF00) ^ ((crc ^ m) & 0xFF)
  {
  }

  lemma UpperFacts(crc: bv32)
    ensures Low8(Upper(crc)) == 0 && Shr8(Upper(crc)) == Shr8(crc)
  {
  }

  lemma StepIsZeros(kind: Kind, crc: bv32, b: bv8)
    ensures Step(kind, crc, b) == Zeros(Poly(kind), Xor(crc, Wide(b)), 8)
  {
    hide Bit, Table, Zeros, Xor, Wide, Upper, Lower, Low8, Shr8, Poly;
    Parts(crc, b);
    UpperFacts(crc);
    TableEntry(kind, Lower(crc, b));
    UpperMoves(Poly(kind), Upper(crc));
    ZerosAdditive(Poly(kind), Upper(crc), Wide(Lower(crc, b)), 8);
  }

  lemma {:induction false} DivideConcat(p: bv32, crc: bv32, s: seq<bool>, t: seq<bool>)
    ensures Divide(p, crc, s + t) == Divide(p, Divide(p, crc, s), t)
    decreases |s|
  {
    hide Bit;
    if s == [] {
      assert s + t == t;
    } else {
      assert (s + t)[1..] == s[1..] + t;
      DivideConcat(p, Bit(p, crc, s[0]), s[1..], t);
    }
  }

  /** A table step divides the eight bits of its byte. */
  lemma StepDivides(kind: Kind, crc: bv32, b: bv8)
    ensures Step(kind, crc, b) == Divide(Poly(kind), crc, Bits(b, 8))
  {
    hide Divide, Zeros, Xor, Wide, Bits, Rest, Step, Poly;
    StepIsZeros(kind, crc, b);
    MixAll(Poly(kind), crc, b, 8);
    AllOut(b);
    XorZero(Divide(Poly(kind), crc, Bits(b, 8)));
  }

  lemma XorZero(x: bv32)
    ensures Xor(x, Wide(0)) == x
  {
  }

  /** The table loops are bit-at-a-time division, for every message and start value. */
  lemma {:induction false} CrcIsDivision(kind: Kind, crc: bv32, data: seq<bv8>)
    ensures Crc(kind, crc, data) == Divide(Poly(kind), crc, Stream(data))
    decreases |data|
  {
    hide Step, Bit, Bits, Poly;
    if data != [] {
      StepDivides(kind, crc, data[0]);
      DivideConcat(Poly(kind), crc, Bits(data[0], 8), Stream(data[1..]));
      CrcIsDivision(kind, Step(kind, crc, data[0]), data[1..]);
    }
  }

  /** Pieces accumulate as one message. */
  lemma {:induction false} CrcConcat(kind: Kind, crc: bv32, a: seq<bv8>, b: seq<bv8>)
    ensures Crc(kind, crc, a + b) == Crc(kind, Crc(kind, crc, a), b)
    decreases |a|
  {
    hide Step;
    if a == [] {
      assert a + b == b;
    } else {
      assert (a + b)[1..] == a[1..] + b;
      CrcConcat(kind, Step(kind, crc, a[0]), a[1..], b);
    }
  }

  lemma CrcEmpty(kind: Kind, crc: bv32)
    ensures Crc(kind, crc, []) == crc
  {
  }

  lemma CrcOne(kind: Kind, crc: bv32, b: bv8)
    ensures Crc(kind, crc, [b]) == Step(kind, crc, b)
  {
    hide Step;
    assert [b][1..] == [];
  }

  /** One byte more. */
  lemma CrcAnd(kind: Kind, crc: bv32, a: seq<bv8>, b: bv8)
    ensures Crc(kind, crc, a + [b]) == Step(kind, Crc(kind, crc, a), b)
  {
    hide Step, Crc;
    CrcConcat(kind, crc, a, [b]);
    CrcOne(kind, Crc(kind, crc, a), b);
  }

  // ---------------------------------------------------------------- staying in the register

  lemma BitFits(kind: Kind, crc: bv32, bit: bool)
    requires Fits(kind, crc)
    ensures Fits(kind, Bit(Poly(kind), crc, bit))
  {
  }

  lemma {:induction false} DivideFits(kind: Kind, crc: bv32, bits: seq<bool>)
    requires Fits(kind, crc)
    ensures Fits(kind, Divide(Poly(kind), crc, bits))
    decreases |bits|
  {
    hide Bit, Fits, Poly;
    if bits != [] {
      BitFits(kind, crc, bits[0]);
      DivideFits(kind, Bit(Poly(kind), crc, bits[0]), bits[1..]);
    }
  }

  /** A narrow CRC stays narrow. */
  lemma CrcFits(kind: Kind, crc: bv32, data: seq<bv8>)
    requires Fits(kind, crc)
    ensures Fits(kind, Crc(kind, crc, data))
  {
    hide Fits, Crc, Divide, Poly;
    CrcIsDivision(kind, crc, data);
    DivideFits(kind, crc, Stream(data));
  }

  // ---------------------------------------------------------------- what it is good for

  /** Division forgets nothing: from the same message bits, different states stay different. */
  lemma BitInjective(kind: Kind, c: bv32, d: bv32, bit: bool)
    requires Fits(kind, c) && Fits(kind, d) && Bit(Poly(kind), c, bit) == Bit(Poly(kind), d, bit)
    ensures c == d
  {
    hide Odd, Half, Xor, Fits, Poly;
    TopClear(kind, c, d);
    TopClear(kind, d, c);
    Undo(Half(c), Poly(kind));
    Undo(Half(d), Poly(kind));
    assert Odd(c) == Odd(d) && Half(c) == Half(d);
    Halves(c, d);
  }

  lemma Halves(c: bv32, d: bv32)
    requires Odd(c) == Odd(d) && Half(c) == Half(d)
    ensures c == d
  {
  }

  /** Halving clears the top bit of the register, and the polynomial sets it. */
  lemma TopClear(kind: Kind, c: bv32, d: bv32)
    requires Fits(kind, c) && Fits(kind, d)
    ensures Xor(Half(c), Poly(kind)) != Half(d)
  {
  }

  lemma {:induction false} DivideInjective(kind: Kind, c: bv32, d: bv32, bits: seq<bool>)
    requires Fits(kind, c) && Fits(kind, d) && c != d
    ensures Divide(Poly(kind), c, bits) != Divide(Poly(kind), d, bits)
    decreases |bits|
  {
    hide Bit, Fits, Poly;
    if bits != [] {
      var c', d' := Bit(Poly(kind), c, bits[0]), Bit(Poly(kind), d, bits[0]);
      BitFits(kind, c, bits[0]);
      BitFits(kind, d, bits[0]);
      if c' == d' { BitInjective(kind, c, d, bits[0]); }
      DivideInjective(kind, c', d', bits[1..]);
    }
  }

  /** From the same state, different bytes lead to different states. */
  lemma StepSeesByte(kind: Kind, crc: bv32, b: bv8, b': bv8)
    requires Fits(kind, crc) && b != b'
    ensures Step(kind, crc, b) != Step(kind, crc, b')
  {
    hide Step, Zeros, Fits, Poly, Xor, Wide;
    StepIsZeros(kind, crc, b);
    StepIsZeros(kind, crc, b');
    MixedFits(kind, crc, b);
    MixedFits(kind, crc, b');
    if Xor(crc, Wide(b)) == Xor(crc, Wide(b')) { XorSame(crc, b, b'); }
    ZerosInjective(kind, Xor(crc, Wide(b)), Xor(crc, Wide(b')), 8);
  }

  lemma XorSame(crc: bv32, b: bv8, b': bv8)
    requires Xor(crc, Wide(b)) == Xor(crc, Wide(b'))
    ensures b == b'
  {
  }

  lemma MixedFits(kind: Kind, crc: bv32, b: bv8)
    requires Fits(kind, crc)
    ensures Fits(kind, Xor(crc, Wide(b)))
  {
  }

  lemma {:induction false} ZerosInjective(kind: Kind, c: bv32, d: bv32, k: nat)
    requires Fits(kind, c) && Fits(kind, d) && c != d
    ensures Zeros(Poly(kind), c, k) != Zeros(Poly(kind), d, k)
    decreases k
  {
    hide Bit, Fits, Poly;
    if k > 0 {
      var c', d' := Bit(Poly(kind), c, false), Bit(Poly(kind), d, false);
      BitFits(kind, c, false);
      BitFits(kind, d, false);
      if c' == d' { BitInjective(kind, c, d, false); }
      ZerosInjective(kind, c', d', k - 1);
    }
  }

  /** Changing any single byte of a message changes its CRC, whatever the length. */
  lemma ByteChangeSeen(kind: Kind, crc: bv32, data: seq<bv8>, i: nat, b: bv8)
    requires Fits(kind, crc) && i < |data| && b != data[i]
    ensures Crc(kind, crc, data[i := b]) != Crc(kind, crc, data)
  {
    hide Step, Bits, Crc, Divide, Fits, Poly;
    var before, after := data[..i], data[i + 1..];
    var c := Crc(kind, crc, before);
    assert data == before + [data[i]] + after && data[i := b] == before + [b] + after;
    Split(kind, crc, before, data[i], after);
    Split(kind, crc, before, b, after);
    CrcFits(kind, crc, before);
    StepSeesByte(kind, c, data[i], b);
    StepFits(kind, c, data[i]);
    StepFits(kind, c, b);
    CrcIsDivision(kind, Step(kind, c, data[i]), after);
    CrcIsDivision(kind, Step(kind, c, b), after);
    DivideInjective(kind, Step(kind, c, data[i]), Step(kind, c, b), Stream(after));
  }

  lemma StepFits(kind: Kind, crc: bv32, b: bv8)
    requires Fits(kind, crc)
    ensures Fits(kind, Step(kind, crc, b))
  {
    hide Step, Fits;
    CrcOne(kind, crc, b);
    CrcFits(kind, crc, [b]);
  }

  lemma Split(kind: Kind, crc: bv32, before: seq<bv8>, b: bv8, after: seq<bv8>)
    ensures Crc(kind, crc, before + [b] + after) == Crc(kind, Step(kind, Crc(kind, crc, before), b), after)
  {
    hide Step, Crc;
    CrcConcat(kind, crc, before + [b], after);
    CrcAnd(kind, crc, before, b);
  }

  // ---------------------------------------------------------------- the residue

  /** CRC8_GOOD_VALUE and its like. */
  function Good(kind: Kind): bv32 {
    match kind
    case Eight => 0x9F
    case Sixteen => 0xF0B8
    case ThirtyTwo => 0xDEBB_20E3
  }

  /** The register moved down by `k` bytes. */
  function Down(c: bv32, k: nat): bv32 { if k == 0 then c else Shr8(Down(c, k - 1)) }

  /** Byte `k` of the complement. */
  function NotByte(c: bv32, k: nat): bv8 { !Narrow8(Down(c, k)) }

  /** The bytes of a complemented CRC, low byte first. */
  function Trailer(kind: Kind, c: bv32): seq<bv8> {
    match kind
    case Eight => [NotByte(c, 0)]
    case Sixteen => [NotByte(c, 0), NotByte(c, 1)]
    case ThirtyTwo => [NotByte(c, 0), NotByte(c, 1), NotByte(c, 2), NotByte(c, 3)]
  }

  lemma Shr8Xor(a: bv32, b: bv32)
    ensures Shr8(Xor(a, b)) == Xor(Shr8(a), Shr8(b))
  {
  }

  /** A complemented byte meets its original, so the table is entered at a constant. */
  lemma TrailerIndex(x: bv32, before: bv32)
    ensures Lower(Xor(x, before), !Narrow8(x)) == !Narrow8(before)
  {
  }

  /** One complemented byte: what is left of the CRC moves down, and a constant comes in. */
  lemma TrailerStep(kind: Kind, c: bv32, k: nat, before: bv32)
    ensures Step(kind, Xor(Down(c, k), before), NotByte(c, k))
            == Xor(Down(c, k + 1), Xor(Shr8(before), Table(kind, !Narrow8(before))))
  {
    hide Xor, Lower, Table, Shr8, Narrow8;
    TrailerIndex(Down(c, k), before);
    Shr8Xor(Down(c, k), before);
    Assoc(Down(c, k + 1), Shr8(before), Table(kind, !Narrow8(before)));
  }

  lemma XorNothing(x: bv32)
    ensures Xor(x, 0) == x && Xor(0, x) == x
  {
  }

  lemma DownNone(c: bv32)
    ensures Xor(Down(c, 0), 0) == c
  {
  }

  /** The register runs empty after as many bytes as it has. */
  lemma RunsEmpty(kind: Kind, c: bv32)
    requires Fits(kind, c)
    ensures match kind
            case Eight => Down(c, 1) == 0
            case Sixteen => Down(c, 2) == 0
            case ThirtyTwo => Down(c, 4) == 0
  {
    var d1 := Shr8(c);
    var d2 := Shr8(d1);
    var d3 := Shr8(d2);
    assert Down(c, 1) == d1 && Down(c, 2) == d2 && Down(c, 3) == d3 && Down(c, 4) == Shr8(d3);
    FourDown(c);
  }

  lemma FourDown(c: bv32)
    ensures Shr8(Shr8(Shr8(Shr8(c)))) == 0
  {
  }

  /** The entries that the trailers meet. */
  lemma Lookups()
    ensures Table8(0xFF) == 0x9F && Table16(0xFF) == 0xF78 && Table16(0x87) == 0xF0B7
    ensures Table32(0xFF) == 0x2D02EF8D && Table32(0x72) == 0xBE0B1010 && Table32(0x00) == 0x0 && Table32(0xED) == 0xDEBB9EC5
  {
  }

  lemma TrailerNext(kind: Kind, c: bv32, k: nat, before: bv32, i: bv8, after: bv32)
    requires !Narrow8(before) == i && Xor(Shr8(before), Table(kind, i)) == after
    ensures Step(kind, Xor(Down(c, k), before), NotByte(c, k)) == Xor(Down(c, k + 1), after)
  {
    hide Step, Xor, Down, NotByte, Table, Shr8, Narrow8;
    TrailerStep(kind, c, k, before);
  }

  /** A message followed by its complemented CRC, low byte first, always leaves the same residue. */
  lemma Residue(kind: Kind, crc: bv32, data: seq<bv8>)
    requires Fits(kind, crc)
    ensures Crc(kind, crc, data + Trailer(kind, Crc(kind, crc, data))) == Good(kind)
  {
    hide Crc, Step, Trailer, Fits;
    var c := Crc(kind, crc, data);
    CrcFits(kind, crc, data);
    CrcConcat(kind, crc, data, Trailer(kind, c));
    match kind
    case Eight => Residue8(c);
    case Sixteen => Residue16(c);
    case ThirtyTwo => Residue32(c);
  }

  lemma Residue8(c: bv32)
    requires Fits(Eight, c)
    ensures Crc(Eight, c, Trailer(Eight, c)) == Good(Eight)
  {
    hide Crc, Step, Fits, Down, NotByte, Table8, Table16, Table32;
    Lookups();
    DownNone(c);
    CrcOne(Eight, c, NotByte(c, 0));
    TrailerNext(Eight, c, 0, 0x0, 0xFF, 0x9F);
    RunsEmpty(Eight, c);
    XorNothing(0x9F);
  }

  lemma Residue16(c: bv32)
    requires Fits(Sixteen, c)
    ensures Crc(Sixteen, c, Trailer(Sixteen, c)) == Good(Sixteen)
  {
    hide Crc, Step, Fits, Down, NotByte, Table8, Table16, Table32;
    Lookups();
    DownNone(c);
    CrcOne(Sixteen, c, NotByte(c, 0));
    CrcAnd(Sixteen, c, [NotByte(c, 0)], NotByte(c, 1));
    assert [NotByte(c, 0)] + [NotByte(c, 1)] == Trailer(Sixteen, c);
    TrailerNext(Sixteen, c, 0, 0x0, 0xFF, 0xF78);
    TrailerNext(Sixteen, c, 1, 0xF78, 0x87, 0xF0B8);
    RunsEmpty(Sixteen, c);
    XorNothing(0xF0B8);
  }

  lemma Residue32(c: bv32)
    requires Fits(ThirtyTwo, c)
    ensures Crc(ThirtyTwo, c, Trailer(ThirtyTwo, c)) == Good(ThirtyTwo)
  {
    hide Crc, Step, Fits, Down, NotByte, Table8, Table16, Table32;
    Lookups();
    DownNone(c);
    FourSteps(ThirtyTwo, c, Trailer(ThirtyTwo, c));
    TrailerNext(ThirtyTwo, c, 0, 0x0, 0xFF, 0x2D02EF8D);
    TrailerNext(ThirtyTwo, c, 1, 0x2D02EF8D, 0x72, 0xBE2612FF);
    TrailerNext(ThirtyTwo, c, 2, 0xBE2612FF, 0x00, 0xBE2612);
    TrailerNext(ThirtyTwo, c, 3, 0xBE2612, 0xED, 0xDEBB20E3);
    RunsEmpty(ThirtyTwo, c);
    XorNothing(0xDEBB20E3);
  }

  lemma FourSteps(kind: Kind, crc: bv32, w: seq<bv8>)
    requires |w| == 4
    ensures Crc(kind, crc, w) == Step(kind, Step(kind, Step(kind, Step(kind, crc, w[0]), w[1]), w[2]), w[3])
  {
    hide Step, Crc;
    CrcOne(kind, crc, w[0]);
    CrcAnd(kind, crc, [w[0]], w[1]);
    CrcAnd(kind, crc, [w[0], w[1]], w[2]);
    CrcAnd(kind, crc, [w[0], w[1], w[2]], w[3]);
    assert [w[0]] + [w[1]] == [w[0], w[1]] && [w[0], w[1]] + [w[2]] == [w[0], w[1], w[2]];
    assert [w[0], w[1], w[2]] + [w[3]] == w;
  }

  // ---------------------------------------------------------------- the loops

  function Narrow8(x: bv32): bv8 { (x & 0xFF) as bv8 }

  function Narrow16(x: bv32): bv16 { (x & 0xFFFF) as bv16 }

  function Wide16(x: bv16): bv32 { x as bv32 }

  lemma Widened(c: bv8, d: bv16)
    ensures Fits(Eight, Wide(c)) && Fits(Sixteen, Wide16(d)) && Narrow8(Wide(c)) == c && Narrow16(Wide16(d)) == d
  {
  }

  lemma Narrowed(x: bv32)
    ensures Fits(Eight, x) ==> Wide(Narrow8(x)) == x
    ensures Fits(Sixteen, x) ==> Wide16(Narrow16(x)) == x
  {
  }

  /** CRC-8 in eight bits. */
  function Checksum8(start: bv8, data: seq<bv8>): bv8 { Narrow8(Crc(Eight, Wide(start), data)) }

  lemma Checksum8Is(start: bv8, data: seq<bv8>)
    ensures Wide(Checksum8(start, data)) == Crc(Eight, Wide(start), data)
    ensures forall crc :: Wide(crc) == Crc(Eight, Wide(start), data) ==> crc == Checksum8(start, data)
  {
    hide Crc, Fits;
    Widened(start, 0);
    CrcFits(Eight, Wide(start), data);
    Narrowed(Crc(Eight, Wide(start), data));
  }

  lemma Checksum8Concat(start: bv8, a: seq<bv8>, b: seq<bv8>)
    ensures Checksum8(start, a + b) == Checksum8(Checksum8(start, a), b)
  {
    hide Crc, Wide, Narrow8;
    CrcConcat(Eight, Wide(start), a, b);
    Checksum8Is(start, a);
  }

  /** Changing any single byte changes the checksum of an image. */
  lemma Checksum8SeesByte(start: bv8, data: seq<bv8>, i: nat, b: bv8)
    requires i < |data| && b != data[i]
    ensures Checksum8(start, data[i := b]) != Checksum8(start, data)
  {
    hide Crc, Wide, Narrow8, Fits;
    Widened(start, 0);
    ByteChangeSeen(Eight, Wide(start), data, i, b);
    Checksum8Is(start, data);
    Checksum8Is(start, data[i := b]);
  }

  /** In eight bits the loop body is the table alone. */
  lemma StepEight(crc: bv8, b: bv8)
    ensures Step(Eight, Wide(crc), b) == Table8(crc ^ b)
  {
    hide Table8;
    assert Lower(Wide(crc), b) == crc ^ b;
    assert Shr8(Wide(crc)) == 0;
  }

  /** hndcrc8 */
  method Hndcrc8(data: seq<bv8>, start: bv8) returns (crc: bv8)
    ensures crc == Checksum8(start, data)
  {
    hide Step, Wide, Narrow8, Fits, Crc, Table8, Checksum8;
    Checksum8Is(start, data);
    crc := start;
    var i := 0;
    CrcEmpty(Eight, Wide(start));
    assert data[..0] == [] && data[..|data|] == data;
    while i < |data|
      invariant 0 <= i <= |data| && Wide(crc) == Crc(Eight, Wide(start), data[..i])
    {
      assert data[..i + 1] == data[..i] + [data[i]];
      CrcAnd(Eight, Wide(start), data[..i], data[i]);
      StepEight(crc, data[i]);
      Widened(crc, 0);
      StepFits(Eight, Wide(crc), data[i]);
      Narrowed(Table8(crc ^ data[i]));
      crc := Narrow8(Table8(crc ^ data[i]));
      i := i + 1;
    }
  }

  /** hndcrc16 */
  method Hndcrc16(data: seq<bv8>, start: bv16) returns (crc: bv16)
    ensures Wide16(crc) == Crc(Sixteen, Wide16(start), data)
  {
    hide Step, Wide16, Narrow16, Fits, Crc;
    crc := start;
    var i := 0;
    CrcEmpty(Sixteen, Wide16(start));
    assert data[..0] == [] && data[..|data|] == data;
    while i < |data|
      invariant 0 <= i <= |data| && Wide16(crc) == Crc(Sixteen, Wide16(start), data[..i])
    {
      assert data[..i + 1] == data[..i] + [data[i]];
      CrcAnd(Sixteen, Wide16(start), data[..i], data[i]);
      Widened(0, crc);
      StepFits(Sixteen, Wide16(crc), data[i]);
      Narrowed(Step(Sixteen, Wide16(crc), data[i]));
      crc := Narrow16(Step(Sixteen, Wide16(crc), data[i]));
      i := i + 1;
    }
  }

  /** The byte loop of hndcrc32, from `from` up to `to`. */
  method Bytewise(data: seq<bv8>, from: nat, to: nat, start: bv32) returns (crc: bv32)
    requires from <= to <= |data|
    ensures crc == Crc(ThirtyTwo, start, data[from..to])
  {
    hide Step, Crc;
    crc := start;
    var i := from;
    CrcEmpty(ThirtyTwo, start);
    assert data[from..from] == [];
    while i < to
      invariant from <= i <= to && crc == Crc(ThirtyTwo, start, data[from..i])
    {
      assert data[from..i + 1] == data[from..i] + [data[i]];
      CrcAnd(ThirtyTwo, start, data[from..i], data[i]);
      crc := Step(ThirtyTwo, crc, data[i]);
      i := i + 1;
    }
  }

  /** Whole words: four table steps per word. */
  method Wordwise(data: seq<bv8>, from: nat, words: nat, start: bv32) returns (crc: bv32)
    requires from + 4 * words <= |data|
    ensures crc == Crc(ThirtyTwo, start, data[from..from + 4 * words])
  {
    hide Step, Crc;
    crc := start;
    var k := 0;
    CrcEmpty(ThirtyTwo, start);
    assert data[from..from + 4 * 0] == [];
    while k < words
      invariant 0 <= k <= words && crc == Crc(ThirtyTwo, start, data[from..from + 4 * k])
    {
      var p := from + 4 * k;
      var tmp := data[p..p + 4];
      FourSteps(ThirtyTwo, crc, tmp);
      CrcConcat(ThirtyTwo, start, data[from..p], tmp);
      assert data[from..p] + tmp == data[from..p + 4];
      crc := Step(ThirtyTwo, crc, tmp[0]);
      crc := Step(ThirtyTwo, crc, tmp[1]);
      crc := Step(ThirtyTwo, crc, tmp[2]);
      crc := Step(ThirtyTwo, crc, tmp[3]);
      k := k + 1;
    }
  }

  /** hndcrc32 as compiled for MIPS: bytes up to the first word boundary, whole words, the
      remaining bytes. `address` is where the data starts; only its low two bits matter. */
  method Hndcrc32(data: seq<bv8>, address: nat, start: bv32) returns (crc: bv32)
    ensures crc == Crc(ThirtyTwo, start, data)
  {
    hide Step, Crc;
    crc := start;
    var p, nbytes := 0, |data|;
    CrcEmpty(ThirtyTwo, start);
    assert data[..0] == [];
    if nbytes > 3 {
      var pend := (address + 3) / 4 * 4 - address;
      assert 0 <= pend <= 3;
      nbytes := nbytes - pend;
      crc := Bytewise(data, 0, pend, crc);
      p := pend;
      assert data[0..p] == data[..p];
    }
    assert p + nbytes == |data| && crc == Crc(ThirtyTwo, start, data[..p]);
    if nbytes > 3 {
      var words := nbytes / 4;
      assert 4 * words + nbytes % 4 == nbytes;
      ghost var q := p;
      crc := Wordwise(data, p, words, crc);
      p := p + 4 * words;
      CrcConcat(ThirtyTwo, start, data[..q], data[q..p]);
      assert data[..q] + data[q..p] == data[..p];
    }
    var rest := nbytes % 4;
    assert p + rest == |data|;
    crc := Bytewise(data, p, p + rest, crc);
    CrcConcat(ThirtyTwo, start, data[..p], data[p..]);
    assert data[..p] + data[p..] == data && data[p..p + rest] == data[p..];
  }
}

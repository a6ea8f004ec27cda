/** What the assembler accepts, and what the word that it makes holds, in numbers. */
module BedBugCoding {
  import opened BitField
  import opened SignedField
  import opened BedBug

  // ---------------------------------------------------------------- when assembly succeeds

  /** What each kind of operand takes: registers up to 31 (a negative number passes as well), a special
      register whose ten bits are not 0, one of the two time base registers, and any other number. */
  predicate Acceptable(role: Role, x: Word) {
    match role
    case Register => x <= 31 || x >= 0x8000_0000
    case Spr => x % 1024 != 0
    case Tbr => x == 268 || x == 269
    case _ => true
  }

  /** The number of the error for a kind of operand. */
  function Refusal(role: Role): nat {
    match role
    case Register => 3
    case Spr => 4
    case Tbr => 5
    case _ => 2
  }

  /** The two halves of ten bits change places. */
  lemma SwapIs(x: Word)
    ensures Swap(x) == x % 32 * 32 + x / 32 % 32
    ensures Swap(x) == 0 <==> x % 1024 == 0
    ensures Swap(x) <= 0x3FF
  {
  }

  lemma BadRegisterIs(x: Word)
    ensures BadRegister(x) <==> !(x <= 31 || x >= 0x8000_0000)
  {
  }

  lemma DataIff(base: Word, relative: bool, o: Operand, x: Word)
    requires Sound(o)
    ensures Data(base, relative, o, x) == Error(Refusal(o.role)) || Data(base, relative, o, x).Value?
    ensures Data(base, relative, o, x).Value? <==> Acceptable(o.role, x)
  {
    hide Swap, BadRegister, PackOffset, Minus;
    SwapIs(x);
    BadRegisterIs(x);
  }

  /** A field of the opcode that has an argument and takes it. */
  predicate Passes(table: seq<Operand>, fields: seq<nat>, args: seq<Word>, i: nat)
    requires Known(table, fields) && i < |fields|
  {
    var role, k := table[fields[i] - 1].role, Rank(table, fields, i);
    role == Silent || (k < |args| && Acceptable(role, args[k]))
  }

  /** The first field that does not pass decides the error: too few operands, or the error of its kind. */
  lemma {:induction false} FirstRefusal(base: Word, relative: bool, table: seq<Operand>, fields: seq<nat>, args: seq<Word>, instr: Word, i: nat)
    requires Known(table, fields) && i <= |fields|
    requires forall j :: 0 <= j < i ==> Passes(table, fields, args, j)
    requires i < |fields| ==> !Passes(table, fields, args, i)
    ensures i == |fields| ==> Assemble(base, relative, table, fields, args, instr).Instruction?
    ensures i < |fields| ==>
              Assemble(base, relative, table, fields, args, instr)
              == Failed(if Rank(table, fields, i) >= |args| then 2 else Refusal(table[fields[i] - 1].role))
    decreases |fields|
  {
    hide Data, Sound, Placing, Or, Acceptable;
    if fields != [] {
      var o, rest := table[fields[0] - 1], fields[1..];
      var silent := o.role == Silent;
      if !silent && args != [] { DataIff(base, relative, o, args[0]); }
      if i > 0 {
        assert Passes(table, fields, args, 0);
        var more := if silent then args else args[1..];
        forall j | 0 <= j <= i - 1 && j < |rest|
          ensures Passes(table, rest, more, j) == Passes(table, fields, args, j + 1)
        {
          LaterPasses(table, fields, args, j);
        }
        var next := if silent then instr else Or(instr, Placing(Data(base, relative, o, args[0]).data, o));
        FirstRefusal(base, relative, table, rest, more, next, i - 1);
      }
    }
  }

  lemma LaterPasses(table: seq<Operand>, fields: seq<nat>, args: seq<Word>, j: nat)
    requires Known(table, fields) && j + 1 < |fields| && (table[fields[0] - 1].role == Silent || args != [])
    ensures var more := if table[fields[0] - 1].role == Silent then args else args[1..];
            Passes(table, fields[1..], more, j) == Passes(table, fields, args, j + 1)
            && Rank(table, fields, j + 1) == Rank(table, fields[1..], j) + |args| - |more|
  {
    hide Sound, Acceptable;
    assert fields[1..][j] == fields[j + 1];
  }

  /** Assembly succeeds if and only if every field that is not silent has an argument that it takes. */
  lemma AssemblesIff(base: Word, relative: bool, table: seq<Operand>, fields: seq<nat>, args: seq<Word>, instr: Word)
    requires Known(table, fields)
    ensures Assemble(base, relative, table, fields, args, instr).Instruction?
            <==> forall i :: 0 <= i < |fields| ==> Passes(table, fields, args, i)
  {
    hide Assemble, Passes, Sound;
    var i := 0;
    while i < |fields| && Passes(table, fields, args, i)
      invariant 0 <= i <= |fields| && forall j :: 0 <= j < i ==> Passes(table, fields, args, j)
    {
      i := i + 1;
    }
    FirstRefusal(base, relative, table, fields, args, instr, i);
  }

  // ---------------------------------------------------------------- what the word holds

  /** A register, an immediate or any other plain number is in its field as it is. */
  lemma NumberInField(base: Word, relative: bool, table: seq<Operand>, fields: seq<nat>, args: seq<Word>, instr: Word, used: Word, i: nat)
    requires Known(table, fields) && Apart(table, fields, used) && Inside(instr, used)
    requires Assemble(base, relative, table, fields, args, instr).Instruction?
    requires i < |fields| && (table[fields[i] - 1].role == Plain || table[fields[i] - 1].role == Register)
    ensures var o, k := table[fields[i] - 1], Rank(table, fields, i);
            k < |args| && Field(Assemble(base, relative, table, fields, args, instr).w, Mask(o.bits), o.shift) == And(args[k], Mask(o.bits))
  {
    hide And, Mask, Assemble, Rank, Apart, Inside, Sound, Shr, BadRegister, Swap;
    EachFieldBack(base, relative, table, fields, args, instr, used, i);
  }

  /** A special or time base register is in its field with its low five bits above its high five. */
  lemma HalvesInField(base: Word, relative: bool, table: seq<Operand>, fields: seq<nat>, args: seq<Word>, instr: Word, used: Word, i: nat)
    requires Known(table, fields) && Apart(table, fields, used) && Inside(instr, used)
    requires Assemble(base, relative, table, fields, args, instr).Instruction?
    requires i < |fields| && (table[fields[i] - 1].role == Spr || table[fields[i] - 1].role == Tbr)
    ensures var o, k, w := table[fields[i] - 1], Rank(table, fields, i), Assemble(base, relative, table, fields, args, instr).w;
            k < |args| && Field(w, 0x1F, o.shift + 5) == args[k] % 32 && Field(w, 0x1F, o.shift) == args[k] / 32 % 32
  {
    hide And, Mask, Assemble, Rank, Apart, Inside, Sound, Shr, TimeBase, Swap;
    EachFieldBack(base, relative, table, fields, args, instr, used, i);
    var o, x, w := table[fields[i] - 1], args[Rank(table, fields, i)], Assemble(base, relative, table, fields, args, instr).w;
    TenBits(o);
    Mask10();
    Halves(Shr(w, o.shift), x);
    ShrAdd(w, o.shift, 5);
  }

  lemma TenBits(o: Operand)
    requires Sound(o) && (o.role == Spr || o.role == Tbr)
    ensures o.bits == 10
  {
  }

  lemma Halves(w: Word, x: Word)
    requires And(w, 0x3FF) == And(Swap(x), 0x3FF)
    ensures And(w, 0x1F) == x / 32 % 32 && And(Shr(w, 5), 0x1F) == x % 32
  {
    hide Shr, Halve, Down5;
    Shr5(w);
    HalvesIn(w, x);
  }

  lemma HalvesIn(w: Word, x: Word)
    requires And(w, 0x3FF) == And(Swap(x), 0x3FF)
    ensures And(w, 0x1F) == x / 32 % 32 && And(Down5(w), 0x1F) == x % 32
  {
  }

  lemma Shr5(w: Word)
    ensures Shr(w, 5) == Down5(w) && Shr(w, 1) == Halve(w)
  {
    hide Halve, Down5;
    var three := Halve(Halve(Halve(w)));
    assert Shr(w, 3) == Shr(Halve(w), 2) == Shr(Halve(Halve(w)), 1) == three;
    assert Shr(three, 2) == Shr(Halve(three), 1) == Halve(Halve(three));
    ShrAdd(w, 3, 2);
    HalveFive(w);
  }

  lemma HalveFive(w: Word)
    ensures Halve(Halve(Halve(Halve(Halve(w))))) == Down5(w)
  {
  }

  lemma {:induction false} ShrAdd(w: Word, a: nat, b: nat)
    ensures Shr(Shr(w, a), b) == Shr(w, a + b)
    decreases a
  {
    hide Halve;
    if a > 0 {
      ShrAdd(Halve(w), a - 1, b);
    }
  }

  function Joined(high: Word, low: Word): Word { high * 32 + low }

  /** What is shown for such a field: its low five bits times 32, and its high five bits. */
  lemma HalvesShown(base: Word, relative: bool, o: Operand, w: Word)
    requires Sound(o) && (o.role == Spr || o.role == Tbr)
    ensures Shown(base, relative, o, ValueOf(w, o)) == Joined(Field(w, 0x1F, o.shift), Field(w, 0x1F, o.shift + 5))
  {
    hide And, Mask, Shr, Swap, Joined, Down5;
    Mask10();
    ShrAdd(w, o.shift, 5);
    Shr5(Shr(w, o.shift));
    SwapShown(Shr(w, o.shift));
  }

  lemma SwapShown(v: Word)
    ensures Swap(And(v, 0x3FF)) == Joined(And(v, 0x1F), And(Down5(v), 0x1F))
  {
  }

  /** Four times a branch field is the distance, modulo what the field can hold. */
  lemma DistanceInField(base: Word, relative: bool, table: seq<Operand>, fields: seq<nat>, args: seq<Word>, instr: Word, used: Word, i: nat)
    requires Known(table, fields) && Apart(table, fields, used) && Inside(instr, used)
    requires Assemble(base, relative, table, fields, args, instr).Instruction?
    requires i < |fields| && table[fields[i] - 1].role == Address && Rank(table, fields, i) < |args|
    requires var d := args[Rank(table, fields, i)]; InReach(if relative then Minus(d, base) else d, table[fields[i] - 1].bits)
    ensures var o, x := table[fields[i] - 1], args[Rank(table, fields, i)];
            Times4(Field(Assemble(base, relative, table, fields, args, instr).w, Mask(o.bits), o.shift))
            == And(if relative then Minus(x, base) else x, Mask(o.bits + 2))
  {
    hide And, Mask, Assemble, Rank, Apart, Inside, Shr, Times4, InReach, PackOffset, Minus;
    EachFieldBack(base, relative, table, fields, args, instr, used, i);
    var o, x := table[fields[i] - 1], args[Rank(table, fields, i)];
    PackedIs(if relative then Minus(x, base) else x, o.bits);
  }

  lemma PackedIs(d: Word, bits: nat)
    requires 1 <= bits <= 29 && InReach(d, bits)
    ensures Times4(And(PackOffset(d, bits), Mask(bits))) == And(d, Mask(bits + 2))
  {
    hide Mask, Bit, Times4, Quarter, Negative, Power, And, Or, Halve, Minus, Twice, Pred, Less, NoMore;
    SignBit(bits);
    var h := Bit(bits - 1);
    Aligned(d);
    if Less(d, Times4(h)) {
      QuarterLow(d, h);
      SmallKept(Quarter(d), h);
    } else {
      PowerNonzero(h);
      QuarterHigh(d, h);
      HighKept(Quarter(d), h);
      AndTwice(Quarter(d), Pred(Twice(h)));
    }
    assert And(PackOffset(d, bits), Mask(bits)) == And(Quarter(d), Mask(bits));
    WiderMask(bits);
    FourTimes(Quarter(d), Mask(bits));
  }

  lemma FourTimes(q: Word, m: Word)
    ensures Times4(And(q, m)) == And(Times4(q), Plus(Times4(m), 3))
  {
  }

  lemma WiderMask(bits: nat)
    ensures Mask(bits + 2) == Plus(Times4(Mask(bits)), 3)
  {
    hide Double, Pred, Plus, Times4;
    assert Bit(bits + 1) == Double(Bit(bits)) && Bit(bits + 2) == Double(Bit(bits + 1));
    PredTimes4(Bit(bits));
  }

  lemma PredTimes4(a: Word)
    ensures Pred(Double(Double(a))) == Plus(Times4(Pred(a)), 3)
  {
  }

  // ---------------------------------------------------------------- instructions

  /** One operand at a time, into the word and out of it. */
  lemma OneOperand(base: Word, relative: bool, f: nat, o: Operand, fields: seq<nat>, x: Word, args: seq<Word>, instr: Word, data: Word, w: Word)
    requires Known(Operands(), [f] + fields) && 1 <= f <= |Operands()| && Operands()[f - 1] == o && o.role != Silent
    requires Sound(o) && Data(base, relative, o, x) == Value(data)
    ensures Known(Operands(), fields)
    ensures Assemble(base, relative, Operands(), [f] + fields, [x] + args, instr)
            == Assemble(base, relative, Operands(), fields, args, Or(instr, Placing(data, o)))
    ensures Disassemble(base, relative, Operands(), [f] + fields, w)
            == [Shown(base, relative, o, ValueOf(w, o))] + Disassemble(base, relative, Operands(), fields, w)
  {
    hide Operands, Sound, Data, Placing, Or, Shown, ValueOf;
    var all, given := [f] + fields, [x] + args;
    assert all[1..] == fields && given[1..] == args;
    assert forall i :: 0 <= i < |fields| ==> fields[i] == all[i + 1];
  }

  lemma NoOperand(base: Word, relative: bool, instr: Word)
    ensures Assemble(base, relative, Operands(), [], [], instr) == Instruction(instr) && Disassemble(base, relative, Operands(), [], instr) == []
  {
  }

  lemma KnownOnes(fields: seq<nat>)
    requires forall i :: 0 <= i < |fields| ==> 1 <= fields[i] <= 34
    ensures Known(Operands(), fields)
  {
    hide Sound, Operands;
    TableSize();
    forall i | 0 <= i < |fields| ensures Sound(Operands()[fields[i] - 1]) {
      OperandsAreSound(fields[i] - 1);
    }
  }

  lemma TableSize()
    ensures |Operands()| == 34
  {
  }

  // The shifts of the register fields, as the machine has them.

  function Up5(x: Word): Word { x << (5 as bv6) }

  function Up11(x: Word): Word { x << (11 as bv6) }

  function Up16(x: Word): Word { x << (16 as bv6) }

  function Up21(x: Word): Word { x << (21 as bv6) }

  function Down5(x: Word): Word { x >> (5 as bv6) }

  function Down11(x: Word): Word { x >> (11 as bv6) }

  function Down16(x: Word): Word { x >> (16 as bv6) }

  function Down21(x: Word): Word { x >> (21 as bv6) }

  lemma UpTo11(x: Word)
    ensures Double(Up5(Up5(x))) == Up11(x)
  {
  }

  lemma UpTo16(x: Word)
    ensures Up5(Up11(x)) == Up16(x)
  {
  }

  lemma UpTo21(x: Word)
    ensures Up5(Up16(x)) == Up21(x)
  {
  }

  lemma DownTo11(x: Word)
    ensures Halve(Down5(Down5(x))) == Down11(x)
  {
  }

  lemma DownTo16(x: Word)
    ensures Down5(Down11(x)) == Down16(x)
  {
  }

  lemma DownTo21(x: Word)
    ensures Down5(Down16(x)) == Down21(x)
  {
  }

  lemma Shl5(x: Word)
    ensures Shl(x, 5) == Up5(x) && Shl(x, 1) == Double(x)
  {
    hide Double, Up5;
    assert Shl(x, 1) == Double(x) && Shl(x, 2) == Double(Shl(x, 1)) && Shl(x, 3) == Double(Shl(x, 2)) && Shl(x, 4) == Double(Shl(x, 3));
    DoubleFive(x);
  }

  lemma DoubleFive(x: Word)
    ensures Double(Double(Double(Double(Double(x))))) == Up5(x)
  {
  }

  lemma ShiftsUp(x: Word)
    ensures Shl(x, 11) == Up11(x) && Shl(x, 16) == Up16(x) && Shl(x, 21) == Up21(x)
  {
    hide Shl, Up5, Up11, Up16, Up21, Double;
    UpTo11(x);
    UpTo16(x);
    UpTo21(x);
    Shl5(x);
    Shl5(Up5(x));
    Shl5(Up5(Up5(x)));
    Shl5(Up11(x));
    Shl5(Up16(x));
    ShiftsAdd(x, 5, 5);
    ShiftsAdd(x, 10, 1);
    ShiftsAdd(x, 11, 5);
    ShiftsAdd(x, 16, 5);
  }

  lemma ShiftsDown(x: Word)
    ensures Shr(x, 11) == Down11(x) && Shr(x, 16) == Down16(x) && Shr(x, 21) == Down21(x)
  {
    hide Shr, Down5, Down11, Down16, Down21, Halve;
    DownTo11(x);
    DownTo16(x);
    DownTo21(x);
    Shr5(x);
    Shr5(Down5(x));
    Shr5(Down5(Down5(x)));
    Shr5(Down11(x));
    Shr5(Down16(x));
    ShrAdd(x, 5, 5);
    ShrAdd(x, 10, 1);
    ShrAdd(x, 11, 5);
    ShrAdd(x, 16, 5);
  }

  /** `mtspr 8,r0`, which sets the link register. */
  lemma MoveToLinkRegister(base: Word)
    ensures Known(Operands(), [33, 24])
    ensures Assemble(base, false, Operands(), [33, 24], [8, 0], 0x7C00_03A6) == Instruction(0x7C08_03A6)
    ensures Disassemble(base, false, Operands(), [33, 24], 0x7C08_03A6) == [8, 0]
  {
    hide Assemble, Disassemble, Known, Sound, Placing, ValueOf, Or, Swap, And;
    KnownOnes([33, 24]);
    var spr, rs := Operand(10, 11, Spr), Operand(5, 21, Register);
    LinkRegister(spr, rs);
    var args: seq<Word>, last: seq<Word> := [8, 0], [0];
    assert [33, 24] == [33] + [24] && [24] == [24] + [] && args == [8] + last && last == [0] + [];
    OneOperand(base, false, 33, spr, [24], 8, last, 0x7C00_03A6, 0x100, 0x7C08_03A6);
    OneOperand(base, false, 24, rs, [], 0, [], 0x7C08_03A6, 0, 0x7C08_03A6);
    NoOperand(base, false, 0x7C08_03A6);
    assert Disassemble(base, false, Operands(), [24], 0x7C08_03A6) == [0];
  }

  lemma LinkRegister(spr: Operand, rs: Operand)
    requires spr == Operand(10, 11, Spr) && rs == Operand(5, 21, Register)
    ensures Sound(spr) && Sound(rs) && Operands()[32] == spr && Operands()[23] == rs
    ensures Swap(8) == 0x100 && Swap(0x100) == 8 && And(0, 0xFFFF) == 0
    ensures Or(0x7C00_03A6, Placing(0x100, spr)) == 0x7C08_03A6 && Or(0x7C08_03A6, Placing(0, rs)) == 0x7C08_03A6
    ensures ValueOf(0x7C08_03A6, spr) == 0x100 && ValueOf(0x7C08_03A6, rs) == 0
  {
    hide Shl, Shr, Mask;
    Mask10();
    Mask5();
    ShiftsUp(0x100);
    ShiftsUp(0);
    ShiftsDown(0x7C08_03A6);
  }

  /** `addi r3,r4,5`. */
  lemma AddImmediate(base: Word)
    ensures Known(Operands(), [23, 20, 26])
    ensures Assemble(base, false, Operands(), [23, 20, 26], [3, 4, 5], 0x3800_0000) == Instruction(0x3864_0005)
    ensures Disassemble(base, false, Operands(), [23, 20, 26], 0x3864_0005) == [3, 4, 5]
  {
    hide Assemble, Disassemble, Known, Sound, Placing, ValueOf, Or, Swap, And;
    KnownOnes([23, 20, 26]);
    var rd, ra, simm := Operand(5, 21, Register), Operand(5, 16, Register), Operand(16, 0, Plain);
    Registers(rd, ra, simm);
    assert [23, 20, 26] == [23] + [20, 26] && [20, 26] == [20] + [26] && [26] == [26] + [];
    var args: seq<Word>, two: seq<Word>, last: seq<Word> := [3, 4, 5], [4, 5], [5];
    assert args == [3] + two && two == [4] + last && last == [5] + [];
    OneOperand(base, false, 23, rd, [20, 26], 3, two, 0x3800_0000, 3, 0x3864_0005);
    OneOperand(base, false, 20, ra, [26], 4, last, 0x3860_0000, 4, 0x3864_0005);
    OneOperand(base, false, 26, simm, [], 5, [], 0x3864_0000, 5, 0x3864_0005);
    NoOperand(base, false, 0x3864_0005);
    assert Disassemble(base, false, Operands(), [26], 0x3864_0005) == [5];
    assert Disassemble(base, false, Operands(), [20, 26], 0x3864_0005) == [4, 5];
  }

  lemma Registers(rd: Operand, ra: Operand, simm: Operand)
    requires rd == Operand(5, 21, Register) && ra == Operand(5, 16, Register) && simm == Operand(16, 0, Plain)
    ensures Sound(rd) && Sound(ra) && Sound(simm) && Operands()[22] == rd && Operands()[19] == ra && Operands()[25] == simm
    ensures And(3, 0xFFFF) == 3 && And(4, 0xFFFF) == 4 && And(5, 0xFFFF) == 5
    ensures Or(0x3800_0000, Placing(3, rd)) == 0x3860_0000 && Or(0x3860_0000, Placing(4, ra)) == 0x3864_0000
    ensures Or(0x3864_0000, Placing(5, simm)) == 0x3864_0005
    ensures ValueOf(0x3864_0005, rd) == 3 && ValueOf(0x3864_0005, ra) == 4 && ValueOf(0x3864_0005, simm) == 5
  {
    hide Shl, Shr, Mask;
    Mask16();
    Mask5();
    ShiftsUp(3);
    ShiftsUp(4);
    ShiftsDown(0x3864_0005);
    NoShift(5, 0x3864_0005);
  }

  lemma NoShift(x: Word, w: Word)
    ensures Shl(x, 0) == x && Shr(w, 0) == w
  {
  }

  lemma Mask5()
    ensures Mask(5) == 0x1F
  {
  }

  /** A branch sixteen bytes back, from any address. */
  lemma BranchBack(base: Word)
    ensures Known(Operands(), [14, 1, 15])
    ensures Assemble(base, true, Operands(), [14, 1, 15], [Minus(base, 16)], 0x4800_0000) == Instruction(0x4BFF_FFF0)
    ensures Disassemble(base, true, Operands(), [14, 1, 15], 0x4BFF_FFF0) == [Minus(base, 16)]
  {
    hide Assemble, Disassemble, Known, Sound, Placing, ValueOf, Or, Swap, And, Minus, Plus, PackOffset, UnpackOffset;
    KnownOnes([14, 1, 15]);
    var li := Operand(24, 2, Address);
    Back(base, li);
    var x := Minus(base, 16);
    assert [14, 1, 15] == [14] + [1, 15] && [x] == [x] + [];
    OneOperand(base, true, 14, li, [1, 15], x, [], 0x4800_0000, 0xFF_FFFC, 0x4BFF_FFF0);
    SilentOnes(base, 0x4BFF_FFF0);
  }

  lemma SilentOnes(base: Word, w: Word)
    requires Known(Operands(), [1, 15])
    ensures Assemble(base, true, Operands(), [1, 15], [], w) == Instruction(w) && Disassemble(base, true, Operands(), [1, 15], w) == []
  {
    hide Sound, Operands, Data, Shown, ValueOf, Placing;
    SilentBits();
    assert [1, 15][1..] == [15] && [15][1..] == [];
    assert Assemble(base, true, Operands(), [15], [], w) == Instruction(w) && Disassemble(base, true, Operands(), [15], w) == [];
  }

  lemma SilentBits()
    ensures |Operands()| == 34 && Operands()[0].role == Silent && Operands()[14].role == Silent
  {
  }

  lemma Back(base: Word, li: Operand)
    requires li == Operand(24, 2, Address)
    ensures Sound(li) && Operands()[13] == li
    ensures PackOffset(Minus(Minus(base, 16), base), 24) == 0xFF_FFFC
    ensures Plus(UnpackOffset(0xFF_FFFC, 24), base) == Minus(base, 16)
    ensures Or(0x4800_0000, Placing(0xFF_FFFC, li)) == 0x4BFF_FFF0 && ValueOf(0x4BFF_FFF0, li) == 0xFF_FFFC
  {
    Mask24();
    BackBy16(base);
    assert Shl(0xFF_FFFC, 2) == 0x3FF_FFF0 && Shr(0x4BFF_FFF0, 2) == 0x12FF_FFFC;
  }

  lemma Mask24()
    ensures Bit(23) == 0x80_0000 && Bit(24) == 0x100_0000 && Mask(24) == 0xFF_FFFF
  {
    assert Bit(12) == 0x1000 && Shl(0x1000, 11) == 0x80_0000 && Shl(0x1000, 12) == 0x100_0000;
    ShiftsAdd(1, 12, 11);
    ShiftsAdd(1, 12, 12);
  }

  lemma BackBy16(base: Word)
    ensures Minus(Minus(base, 16), base) == 0xFFFF_FFF0 && Plus(0xFFFF_FFF0, base) == Minus(base, 16)
  {
  }
}

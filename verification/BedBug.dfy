/** Operand coding of the BedBug assembler and disassembler. */
module BedBug {
  import opened BitField
  import opened SignedField
  import opened Bytes

  datatype Role = Silent | Address | Register | Spr | Tbr | Plain

  datatype Operand = Operand(bits: nat, shift: nat, role: Role)

  /** The fields of an opcode are numbers of operands, counted from 1. */
  datatype Opcode = Opcode(opcode: Word, mask: Word, fields: seq<nat>, relative: bool)

  const E_NUM_OPERANDS: nat := 2
  const E_BAD_REGISTER: nat := 3
  const E_BAD_SPR: nat := 4
  const E_BAD_TBR: nat := 5

  /** An operand that lies inside the word and that its way of printing can show. */
  predicate Sound(o: Operand) {
    && o.bits + o.shift <= 32 && o.bits < 32
    && match o.role
       case Silent => true
       case Address => 1 <= o.bits <= 29
       case Spr => o.bits == 10
       case Tbr => o.bits == 10
       case _ => o.bits <= 16
  }

  predicate Known(table: seq<Operand>, fields: seq<nat>) {
    forall i :: 0 <= i < |fields| ==> 1 <= fields[i] <= |table| && Sound(table[fields[i] - 1])
  }

  /** The operands of the instruction set, in the order of their numbers. */
  function Operands(): seq<Operand> {
    [
      Operand(1, 1, Silent), Operand(14, 2, Address), Operand(5, 16, Plain), Operand(5, 21, Plain),
      Operand(5, 21, Plain), Operand(5, 16, Plain), Operand(5, 11, Plain), Operand(8, 12, Plain),
      Operand(15, 0, Plain), Operand(5, 6, Plain), Operand(5, 21, Plain), Operand(5, 21, Plain),
      Operand(4, 12, Plain), Operand(24, 2, Address), Operand(1, 0, Silent), Operand(5, 6, Plain),
      Operand(5, 1, Plain), Operand(5, 11, Plain), Operand(1, 10, Silent), Operand(5, 16, Register),
      Operand(5, 11, Register), Operand(1, 0, Silent), Operand(5, 21, Register), Operand(5, 21, Register),
      Operand(5, 11, Plain), Operand(16, 0, Plain), Operand(4, 16, Plain), Operand(5, 21, Plain),
      Operand(16, 0, Plain), Operand(3, 23, Plain), Operand(3, 18, Plain), Operand(1, 21, Plain),
      Operand(10, 11, Spr), Operand(10, 11, Tbr)
    ]
  }

  lemma OperandsAreSound(i: nat)
    requires i < |Operands()|
    ensures Sound(Operands()[i])
  {
  }

  // ---------------------------------------------------------------- one operand

  /** The two halves of a special register number change places. */
  function Swap(n: Word): Word {
    ((n >> (5 as bv6)) & 0x1F) | ((n & 0x1F) << (5 as bv6))
  }

  predicate BadRegister(x: Word) { 31 < x < 0x8000_0000 }

  predicate TimeBase(x: Word) { x == 268 || x == 269 }

  datatype Parsed = Value(data: Word) | Error(code: nat)

  /** What parse_operand makes of a number before masking and shifting it. */
  function Data(base: Word, relative: bool, o: Operand, x: Word): Parsed
    requires Sound(o)
  {
    match o.role
    case Address => Value(PackOffset(if relative then Minus(x, base) else x, o.bits))
    case Register => if BadRegister(x) then Error(E_BAD_REGISTER) else Value(x)
    case Spr => if Swap(x) == 0 then Error(E_BAD_SPR) else Value(Swap(x))
    case Tbr => if TimeBase(x) then Value(Swap(x)) else Error(E_BAD_TBR)
    case _ => Value(x)
  }

  /** What print_operands shows of the value of a field. */
  function Shown(base: Word, relative: bool, o: Operand, v: Word): Word
    requires Sound(o)
  {
    match o.role
    case Address => if relative then Plus(UnpackOffset(v, o.bits), base) else UnpackOffset(v, o.bits)
    case Spr => Swap(v)
    case Tbr => Swap(v)
    case _ => And(v, 0xFFFF)
  }

  /** The numbers that an operand can hold. */
  predicate InRange(base: Word, relative: bool, o: Operand, x: Word)
    requires Sound(o)
  {
    match o.role
    case Address => InReach(if relative then Minus(x, base) else x, o.bits)
    case _ => NoMore(x, Mask(o.bits))
  }

  lemma SwapTwice(n: Word)
    ensures Swap(And(Swap(n), 0x3FF)) == And(n, 0x3FF)
  {
  }

  lemma Mask10()
    ensures Mask(10) == 0x3FF
  {
  }

  lemma Mask16()
    ensures Mask(16) == 0xFFFF
  {
    assert Bit(8) == 0x100;
    ShiftsAdd(1, 8, 8);
    assert Shl(0x100, 8) == 0x1_0000;
  }

  lemma PlusMinus(x: Word, base: Word)
    ensures Plus(Minus(x, base), base) == x
  {
    hide Minus;
    assert Plus(x - base, base) == x;
    MinusIs(x, base);
  }

  lemma MinusPlusBack(d: Word, base: Word)
    ensures Minus(Plus(d, base), base) == d
  {
    hide Plus;
    assert Minus(d + base, base) == d;
    PlusIs(d, base);
  }

  lemma PlusIs(a: Word, b: Word)
    ensures Plus(a, b) == a + b
  {
  }

  lemma NarrowMask(x: Word, bits: nat)
    requires bits <= 16
    ensures And(And(x, Mask(bits)), 0xFFFF) == And(x, Mask(bits))
  {
    hide And, Mask;
    MaskGrows(bits, 16);
    Mask16();
    AndWithin(x, Mask(bits), 0xFFFF);
  }

  lemma AndWithin(a: Word, b: Word, c: Word)
    requires And(b, c) == b
    ensures And(And(a, b), c) == And(a, b)
  {
  }

  lemma {:induction false} MaskGrows(bits: nat, n: nat)
    requires bits <= n < 31
    ensures And(Mask(bits), Mask(n)) == Mask(bits)
    decreases n
  {
    hide And, Double, Pred, Power;
    if bits < n {
      MaskGrows(bits, n - 1);
      BitBelow(n - 1);
      assert Bit(n) == Double(Bit(n - 1));
      PredDouble(Bit(n - 1));
      AndWithin(Mask(bits), Mask(n - 1), Mask(n));
    } else {
      AndTwice(0xFFFF_FFFF, Mask(n));
      AndAll(Mask(n));
    }
  }

  lemma AndAll(a: Word)
    ensures And(0xFFFF_FFFF, a) == a
  {
  }

  lemma PredDouble(h: Word)
    requires Power(h) && h <= 0x4000_0000
    ensures And(Pred(h), Pred(Double(h))) == Pred(h)
  {
  }

  /** Coding an operand and showing it again gives the number back exactly when it is in range. */
  lemma ShownBackIff(base: Word, relative: bool, o: Operand, x: Word)
    requires Sound(o) && o.role != Silent && Data(base, relative, o, x).Value?
    ensures Shown(base, relative, o, And(Data(base, relative, o, x).data, Mask(o.bits))) == x <==> InRange(base, relative, o, x)
  {
    hide And, Mask, NoMore, Swap, PackOffset, UnpackOffset, InReach, Minus, Plus, BadRegister, TimeBase;
    match o.role
    case Address => BranchBackIff(base, relative, o.bits, x);
    case Spr => SwappedBackIff(x);
    case Tbr => SwappedBackIff(x);
    case _ =>
      NarrowMask(x, o.bits);
      MaskKeepsIff(x, o.bits);
  }

  lemma BranchBackIff(base: Word, relative: bool, bits: nat, x: Word)
    requires 1 <= bits <= 29
    ensures var d := if relative then Minus(x, base) else x;
            var back := UnpackOffset(And(PackOffset(d, bits), Mask(bits)), bits);
            (if relative then Plus(back, base) else back) == x <==> InReach(d, bits)
  {
    hide And, Mask, PackOffset, UnpackOffset, InReach, Minus, Plus;
    var d := if relative then Minus(x, base) else x;
    OffsetComesBackIff(d, bits);
    PlusMinus(x, base);
    MinusPlusBack(UnpackOffset(And(PackOffset(d, bits), Mask(bits)), bits), base);
  }

  lemma SwappedBackIff(x: Word)
    ensures Swap(And(Swap(x), Mask(10))) == x <==> NoMore(x, Mask(10))
  {
    hide And, Mask, NoMore, Swap;
    Mask10();
    SwapTwice(x);
    MaskKeepsIff(x, 10);
  }

  // ---------------------------------------------------------------- a whole instruction

  function Span(o: Operand): Word
    requires Sound(o)
  {
    Shl(Mask(o.bits), o.shift)
  }

  function ValueOf(w: Word, o: Operand): Word
    requires Sound(o)
  {
    Field(w, Mask(o.bits), o.shift)
  }

  function Placing(data: Word, o: Operand): Word
    requires Sound(o)
  {
    At(data, Mask(o.bits), o.shift)
  }

  datatype Assembled = Instruction(w: Word) | Failed(code: nat)

  /** asmppc once the words of the line have been read as numbers; words left over are not
      looked at. */
  function Assemble(base: Word, relative: bool, table: seq<Operand>, fields: seq<nat>, args: seq<Word>, instr: Word): Assembled
    requires Known(table, fields)
    decreases |fields|
  {
    if fields == [] then Instruction(instr)
    else
      var o := table[fields[0] - 1];
      if o.role == Silent then Assemble(base, relative, table, fields[1..], args, instr)
      else if args == [] then Failed(E_NUM_OPERANDS)
      else
        match Data(base, relative, o, args[0])
        case Error(code) => Failed(code)
        case Value(data) => Assemble(base, relative, table, fields[1..], args[1..], Or(instr, Placing(data, o)))
  }

  /** The numbers that print_operands shows. */
  function Disassemble(base: Word, relative: bool, table: seq<Operand>, fields: seq<nat>, instr: Word): seq<Word>
    requires Known(table, fields)
    decreases |fields|
  {
    if fields == [] then []
    else
      var o := table[fields[0] - 1];
      var rest := Disassemble(base, relative, table, fields[1..], instr);
      if o.role == Silent then rest else [Shown(base, relative, o, ValueOf(instr, o))] + rest
  }

  /** Operands that a line must give. */
  function Wanted(table: seq<Operand>, fields: seq<nat>): nat
    requires Known(table, fields)
    decreases |fields|
  {
    if fields == [] then 0
    else Wanted(table, fields[1..]) + if table[fields[0] - 1].role == Silent then 0 else 1
  }

  /** The bits that they fill. */
  function Spans(table: seq<Operand>, fields: seq<nat>): Word
    requires Known(table, fields)
    decreases |fields|
  {
    if fields == [] then 0
    else
      var o, rest := table[fields[0] - 1], Spans(table, fields[1..]);
      if o.role == Silent then rest else Or(Span(o), rest)
  }

  /** They overlap neither each other nor the bits in use. */
  predicate Apart(table: seq<Operand>, fields: seq<nat>, used: Word)
    requires Known(table, fields)
    decreases |fields|
  {
    fields == [] ||
    var o := table[fields[0] - 1];
    if o.role == Silent then Apart(table, fields[1..], used)
    else And(used, Span(o)) == 0 && Apart(table, fields[1..], Or(used, Span(o)))
  }

  predicate AllInRange(base: Word, relative: bool, table: seq<Operand>, fields: seq<nat>, args: seq<Word>)
    requires Known(table, fields) && |args| >= Wanted(table, fields)
    decreases |fields|
  {
    fields == [] ||
    var o := table[fields[0] - 1];
    if o.role == Silent then AllInRange(base, relative, table, fields[1..], args)
    else InRange(base, relative, o, args[0]) && AllInRange(base, relative, table, fields[1..], args[1..])
  }

  lemma {:induction false} ApartFromUsed(table: seq<Operand>, fields: seq<nat>, used: Word)
    requires Known(table, fields) && Apart(table, fields, used)
    ensures And(used, Spans(table, fields)) == 0
    decreases |fields|
  {
    hide And, Or, Span, Sound;
    if fields == [] {
      AndNothing(used);
    } else {
      var o, rest := table[fields[0] - 1], fields[1..];
      if o.role == Silent {
        ApartFromUsed(table, rest, used);
      } else {
        ApartFromUsed(table, rest, Or(used, Span(o)));
        OrApart(used, Span(o), Spans(table, rest));
        AndOr(used, Span(o), Spans(table, rest));
      }
    }
  }

  lemma AndNothing(a: Word)
    ensures And(a, 0) == 0
  {
  }

  lemma OrApart(a: Word, b: Word, p: Word)
    requires And(Or(a, b), p) == 0
    ensures And(a, p) == 0 && And(b, p) == 0
  {
  }

  /** Assembling an operand list changes no bit outside its fields. */
  lemma {:induction false} OtherBitsKept(base: Word, relative: bool, table: seq<Operand>, fields: seq<nat>, args: seq<Word>, instr: Word, p: Word)
    requires Known(table, fields) && And(p, Spans(table, fields)) == 0
    requires Assemble(base, relative, table, fields, args, instr).Instruction?
    ensures And(Assemble(base, relative, table, fields, args, instr).w, p) == And(instr, p)
    decreases |fields|
  {
    hide And, Or, Data, Sound, At, Shl, Mask;
    if fields != [] {
      var o, rest := table[fields[0] - 1], fields[1..];
      if o.role == Silent {
        OtherBitsKept(base, relative, table, rest, args, instr, p);
      } else {
        var data := Data(base, relative, o, args[0]).data;
        AndOfOr(p, Span(o), Spans(table, rest));
        Elsewhere(data, Mask(o.bits), o.shift, p);
        OrKeeps(instr, Placing(data, o), p);
        OtherBitsKept(base, relative, table, rest, args[1..], Or(instr, Placing(data, o)), p);
      }
    }
  }

  /** Every bit of `a` is in `b`. */
  predicate Inside(a: Word, b: Word) { And(a, b) == a }

  lemma InsideApart(a: Word, b: Word, p: Word)
    requires Inside(a, b) && And(b, p) == 0
    ensures And(a, p) == 0
  {
  }

  lemma InsideOr(a: Word, b: Word, y: Word, q: Word)
    requires Inside(a, b) && Inside(y, q)
    ensures Inside(Or(a, y), Or(b, q))
  {
  }

  lemma PlacingInside(data: Word, o: Operand)
    requires Sound(o)
    ensures Inside(Placing(data, o), Span(o))
  {
    hide And, Mask, Shl;
    AndTwice(data, Mask(o.bits));
    ShlAnd(And(data, Mask(o.bits)), Mask(o.bits), o.shift);
  }

  /** The first operand of a list is read back from the finished word. */
  lemma FirstFieldBack(base: Word, relative: bool, table: seq<Operand>, fields: seq<nat>, args: seq<Word>, instr: Word, used: Word)
    requires Known(table, fields) && fields != [] && table[fields[0] - 1].role != Silent
    requires Apart(table, fields, used) && Inside(instr, used)
    requires Assemble(base, relative, table, fields, args, instr).Instruction?
    ensures var o := table[fields[0] - 1];
            && args != [] && Data(base, relative, o, args[0]).Value?
            && ValueOf(Assemble(base, relative, table, fields, args, instr).w, o)
               == And(Data(base, relative, o, args[0]).data, Mask(o.bits))
            && Inside(Or(instr, Placing(Data(base, relative, o, args[0]).data, o)), Or(used, Span(o)))
  {
    hide And, Or, Data, Sound, At, Shl, Mask, Inside, Spans, Field;
    var o, rest := table[fields[0] - 1], fields[1..];
    var data := Data(base, relative, o, args[0]).data;
    var next := Or(instr, Placing(data, o));
    var w := Assemble(base, relative, table, fields, args, instr).w;
    SoundFits(o);
    MaskPlaced(o.bits, o.shift);
    InsideApart(instr, used, Span(o));
    OwnField(instr, data, Mask(o.bits), o.shift);
    ApartFromUsed(table, rest, Or(used, Span(o)));
    OrApart(used, Span(o), Spans(table, rest));
    OtherBitsKept(base, relative, table, rest, args[1..], next, Span(o));
    FieldIsItsBits(w, next, Mask(o.bits), o.shift);
    PlacingInside(data, o);
    InsideOr(instr, used, Placing(data, o), Span(o));
  }

  lemma SoundFits(o: Operand)
    requires Sound(o)
    ensures o.bits + o.shift <= 32 && o.bits < 32
  {
  }

  /** What was assembled is disassembled to the same operands, if and only if each of them is
      in range. */
  lemma {:induction false} DisassembledBackIff(base: Word, relative: bool, table: seq<Operand>, fields: seq<nat>, args: seq<Word>, instr: Word, used: Word)
    requires Known(table, fields) && Apart(table, fields, used) && Inside(instr, used)
    requires Assemble(base, relative, table, fields, args, instr).Instruction?
    ensures Wanted(table, fields) <= |args|
    ensures Disassemble(base, relative, table, fields, Assemble(base, relative, table, fields, args, instr).w) == args[..Wanted(table, fields)]
            <==> AllInRange(base, relative, table, fields, args)
    decreases |fields|
  {
    hide And, Or, Data, Sound, Placing, Span, Inside, Spans, ValueOf, InRange, Shown, Mask;
    if fields != [] {
      var o, rest := table[fields[0] - 1], fields[1..];
      if o.role == Silent {
        DisassembledBackIff(base, relative, table, rest, args, instr, used);
      } else {
        FirstFieldBack(base, relative, table, fields, args, instr, used);
        var data := Data(base, relative, o, args[0]).data;
        DisassembledBackIff(base, relative, table, rest, args[1..], Or(instr, Placing(data, o)), Or(used, Span(o)));
        ShownBackIff(base, relative, o, args[0]);
        var n := Wanted(table, rest);
        assert args[..n + 1] == [args[0]] + args[1..][..n];
        var w := Assemble(base, relative, table, fields, args, instr).w;
        HeadTail(Shown(base, relative, o, ValueOf(w, o)), Disassemble(base, relative, table, rest, w), args[0], args[1..][..n]);
      }
    }
  }

  lemma HeadTail(a: Word, s: seq<Word>, b: Word, t: seq<Word>)
    ensures [a] + s == [b] + t <==> a == b && s == t
  {
    assert ([a] + s)[0] == a && ([a] + s)[1..] == s;
    assert ([b] + t)[0] == b && ([b] + t)[1..] == t;
  }

  /** The bits that identify an opcode are still its own, so the disassembler recognises it. */
  lemma StillMatches(base: Word, table: seq<Operand>, op: Opcode, args: seq<Word>)
    requires Known(table, op.fields) && And(op.mask, Spans(table, op.fields)) == 0 && And(op.opcode, op.mask) == op.opcode
    requires Assemble(base, op.relative, table, op.fields, args, op.opcode).Instruction?
    ensures And(Assemble(base, op.relative, table, op.fields, args, op.opcode).w, op.mask) == op.opcode
  {
    hide And, Spans, Assemble;
    OtherBitsKept(base, op.relative, table, op.fields, args, op.opcode, op.mask);
  }

  /** The number of the argument that goes with a field. */
  function Rank(table: seq<Operand>, fields: seq<nat>, i: nat): nat
    requires Known(table, fields) && i < |fields|
    decreases |fields|
  {
    if i == 0 then 0
    else Rank(table, fields[1..], i - 1) + if table[fields[0] - 1].role == Silent then 0 else 1
  }

  /** Every field gives back its own argument, masked. */
  lemma {:induction false} EachFieldBack(base: Word, relative: bool, table: seq<Operand>, fields: seq<nat>, args: seq<Word>, instr: Word, used: Word, i: nat)
    requires Known(table, fields) && Apart(table, fields, used) && Inside(instr, used)
    requires Assemble(base, relative, table, fields, args, instr).Instruction?
    requires i < |fields| && table[fields[i] - 1].role != Silent
    ensures var o, k := table[fields[i] - 1], Rank(table, fields, i);
            && k < |args| && Data(base, relative, o, args[k]).Value?
            && ValueOf(Assemble(base, relative, table, fields, args, instr).w, o)
               == And(Data(base, relative, o, args[k]).data, Mask(o.bits))
    decreases |fields|
  {
    hide And, Or, Data, Sound, Placing, Span, Inside, Spans, ValueOf, Mask;
    var o, rest := table[fields[0] - 1], fields[1..];
    if o.role == Silent {
      assert rest[i - 1] == fields[i];
      EachFieldBack(base, relative, table, rest, args, instr, used, i - 1);
    } else {
      FirstFieldBack(base, relative, table, fields, args, instr, used);
      if i > 0 {
        var data := Data(base, relative, o, args[0]).data;
        assert rest[i - 1] == fields[i];
        EachFieldBack(base, relative, table, rest, args[1..], Or(instr, Placing(data, o)), Or(used, Span(o)), i - 1);
      }
    }
  }

  // ---------------------------------------------------------------- the loops

  /** get_operand_value */
  method GetOperandValue(table: seq<Operand>, op: Opcode, instr: Word, field: nat) returns (r: Option<Word>)
    requires Known(table, op.fields)
    ensures r.Some? <==> field in op.fields
    ensures r.Some? ==> r.value == ValueOf(instr, table[field - 1])
  {
    if field > |table| {
      return None;
    }
    var i := 0;
    while i < |op.fields|
      invariant 0 <= i <= |op.fields| && field !in op.fields[..i]
    {
      if op.fields[i] == field {
        var o := table[op.fields[i] - 1];
        return Some(Field(instr, Mask(o.bits), o.shift));
      }
      i := i + 1;
    }
    r := None;
  }

  /** parse_operand: a value in its place, or an error. */
  method ParseOperand(base: Word, relative: bool, o: Operand, x: Word) returns (r: Parsed)
    requires Sound(o)
    ensures r == match Data(base, relative, o, x)
                 case Value(data) => Value(Placing(data, o))
                 case Error(code) => Error(code)
  {
    hide And, Mask, Swap, Shl, Minus, BadRegister, TimeBase, PackOffset;
    var data := x;
    match o.role {
      case Address =>
        data := ParseAddress(if relative then Minus(x, base) else x, o.bits);
      case Register =>
        if BadRegister(x) {
          return Error(E_BAD_REGISTER);
        }
      case Spr =>
        data := Swap(x);
        if data == 0 {
          return Error(E_BAD_SPR);
        }
      case Tbr =>
        if !TimeBase(x) {
          return Error(E_BAD_TBR);
        }
        data := Swap(x);
      case _ =>
    }
    r := Value(Shl(And(data, Mask(o.bits)), o.shift));
  }

  /** A branch distance, whose sign is kept aside while the rest is cut to size. */
  method ParseAddress(d: Word, bits: nat) returns (data: Word)
    requires bits > 0
    ensures data == PackOffset(d, bits)
  {
    hide And, Or, Mask, Bit, Halve, Quarter, Negative;
    data := d;
    var negative := Negative(data);
    data := Quarter(data);
    data := And(data, Halve(Mask(bits)));
    if negative {
      data := Or(data, Bit(bits - 1));
    }
  }

  /** asmppc on an opcode that has been found. */
  method Asmppc(base: Word, table: seq<Operand>, op: Opcode, args: seq<Word>) returns (r: Assembled)
    requires Known(table, op.fields)
    ensures r == Assemble(base, op.relative, table, op.fields, args, op.opcode)
  {
    hide Data, Placing, Or, Sound;
    var instr, n, k := op.opcode, 0, 0;
    assert op.fields[0..] == op.fields && args[0..] == args;
    while n < |op.fields|
      invariant 0 <= n <= |op.fields| && 0 <= k <= |args|
      invariant Assemble(base, op.relative, table, op.fields[n..], args[k..], instr) == Assemble(base, op.relative, table, op.fields, args, op.opcode)
    {
      var o := table[op.fields[n] - 1];
      assert op.fields[n..][0] == op.fields[n] && op.fields[n..][1..] == op.fields[n + 1..];
      if o.role == Silent {
        n := n + 1;
        continue;
      }
      if k == |args| {
        break;
      }
      assert args[k..][0] == args[k] && args[k..][1..] == args[k + 1..];
      var param := ParseOperand(base, op.relative, o, args[k]);
      if param.Error? {
        return Failed(param.code);
      }
      instr := Or(instr, param.data);
      n, k := n + 1, k + 1;
    }
    if n < |op.fields| {
      return Failed(E_NUM_OPERANDS);
    }
    r := Instruction(instr);
  }

  /** print_operands, as the numbers that it prints. */
  method PrintOperands(base: Word, table: seq<Operand>, op: Opcode, instr: Word) returns (out: seq<Word>)
    requires Known(table, op.fields)
    ensures out == Disassemble(base, op.relative, table, op.fields, instr)
  {
    hide Sound, ValueOf, Shown, Disassemble;
    out := [];
    var field := 0;
    assert op.fields[0..] == op.fields;
    while field < |op.fields|
      invariant 0 <= field <= |op.fields|
      invariant out + Disassemble(base, op.relative, table, op.fields[field..], instr) == Disassemble(base, op.relative, table, op.fields, instr)
    {
      var o := table[op.fields[field] - 1];
      OneShown(base, op.relative, table, op.fields, field, instr);
      ghost var rest := Disassemble(base, op.relative, table, op.fields[field + 1..], instr);
      if o.role != Silent {
        var shown := ShowOperand(base, op.relative, o, instr);
        assert out + ([shown] + rest) == out + [shown] + rest;
        out := out + [shown];
      }
      field := field + 1;
    }
    NoneShown(base, op.relative, table, instr);
    assert out + [] == out;
  }

  lemma OneShown(base: Word, relative: bool, table: seq<Operand>, fields: seq<nat>, i: nat, instr: Word)
    requires Known(table, fields) && i < |fields|
    ensures Known(table, fields[i..]) && Known(table, fields[i + 1..])
    ensures var o, rest := table[fields[i] - 1], Disassemble(base, relative, table, fields[i + 1..], instr);
            Disassemble(base, relative, table, fields[i..], instr)
            == if o.role == Silent then rest else [Shown(base, relative, o, ValueOf(instr, o))] + rest
  {
    hide Sound, ValueOf, Shown;
    assert fields[i..][0] == fields[i] && fields[i..][1..] == fields[i + 1..];
  }

  lemma NoneShown(base: Word, relative: bool, table: seq<Operand>, instr: Word)
    ensures Disassemble(base, relative, table, [], instr) == []
  {
  }

  /** The value of one field, sign-extended and made absolute for a branch. */
  method ShowOperand(base: Word, relative: bool, o: Operand, instr: Word) returns (operand: Word)
    requires Sound(o) && o.role != Silent
    ensures operand == Shown(base, relative, o, ValueOf(instr, o))
  {
    hide And, Bit, Minus, Times4, Plus, Swap, Mask, Shr;
    operand := And(Shr(instr, o.shift), Mask(o.bits));
    if o.role == Address {
      if And(operand, Bit(o.bits - 1)) != 0 {
        operand := Minus(operand, Bit(o.bits));
      }
      operand := if relative then Plus(Times4(operand), base) else Times4(operand);
    } else if o.role == Spr || o.role == Tbr {
      operand := Swap(operand);
    } else {
      operand := And(operand, 0xFFFF);
    }
  }
}

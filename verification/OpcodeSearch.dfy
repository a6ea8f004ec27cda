/** The binary search for the opcode of an instruction, over entries that each have their own
    mask: when it finds the opcode that a word was assembled from. */
module OpcodeSearch {
  import opened Bytes
  import opened BitField
  import opened BedBug
  import opened WordOrder

  /** How a word compares with one entry, under that entry's mask. */
  function Side(instr: Word, op: Opcode): int {
    var masked := And(instr, op.mask);
    if Less(masked, op.opcode) then -1 else if Less(op.opcode, masked) then 1 else 0
  }

  lemma SideZero(instr: Word, op: Opcode)
    ensures Side(instr, op) == 0 <==> And(instr, op.mask) == op.opcode
  {
    hide And, Less;
    OneOfThree(And(instr, op.mask), op.opcode);
  }

  lemma OneOfThree(x: Word, y: Word)
    ensures x == y <==> !Less(x, y) && !Less(y, x)
  {
    Ordered32(x, y);
  }

  function Search(table: seq<Opcode>, instr: Word, top: int, bottom: int): Option<nat>
    requires 0 <= top && bottom < |table|
    decreases bottom - top
  {
    if top > bottom then None
    else
      var idx := (top + bottom) / 2;
      var side := Side(instr, table[idx]);
      if side < 0 then Search(table, instr, top, idx - 1)
      else if side > 0 then Search(table, instr, idx + 1, bottom)
      else Some(idx)
  }

  /** find_opcode */
  method FindOpcode(table: seq<Opcode>, instr: Word) returns (r: Option<nat>)
    ensures r == Search(table, instr, 0, |table| - 1)
    ensures r.Some? ==> r.value < |table| && And(instr, table[r.value].mask) == table[r.value].opcode
  {
    hide Side, And;
    var top, bottom := 0, |table| - 1;
    while top <= bottom
      invariant 0 <= top && bottom < |table|
      invariant Search(table, instr, top, bottom) == Search(table, instr, 0, |table| - 1)
      decreases bottom - top
    {
      var idx := (top + bottom) / 2;
      SideZero(instr, table[idx]);
      var side := Side(instr, table[idx]);
      if side < 0 {
        bottom := idx - 1;
      } else if side > 0 {
        top := idx + 1;
      } else {
        return Some(idx);
      }
    }
    r := None;
  }

  /** Each entry that lies on the way to entry `j`, which depends only on `j` and the size of the
      table, sends the search towards it. */
  predicate LedTo(table: seq<Opcode>, instr: Word, j: int, top: int, bottom: int)
    requires 0 <= top <= j <= bottom < |table|
    decreases bottom - top
  {
    var idx := (top + bottom) / 2;
    if idx == j then true
    else if idx < j then Side(instr, table[idx]) > 0 && LedTo(table, instr, j, idx + 1, bottom)
    else Side(instr, table[idx]) < 0 && LedTo(table, instr, j, top, idx - 1)
  }

  lemma {:induction false} SearchWithin(table: seq<Opcode>, instr: Word, top: int, bottom: int)
    requires 0 <= top && bottom < |table|
    ensures Search(table, instr, top, bottom).Some? ==> top <= Search(table, instr, top, bottom).value <= bottom
    decreases bottom - top
  {
    hide Side;
    if top <= bottom {
      var idx := (top + bottom) / 2;
      SearchWithin(table, instr, top, idx - 1);
      SearchWithin(table, instr, idx + 1, bottom);
    }
  }

  /** Exactly when the search finds an entry: the word matches it, and every entry on the way
      points to it. */
  lemma {:induction false} FindsIff(table: seq<Opcode>, instr: Word, j: int, top: int, bottom: int)
    requires 0 <= top <= j <= bottom < |table|
    ensures Search(table, instr, top, bottom) == Some(j) <==> Side(instr, table[j]) == 0 && LedTo(table, instr, j, top, bottom)
    decreases bottom - top
  {
    hide Side;
    var idx := (top + bottom) / 2;
    SearchWithin(table, instr, top, idx - 1);
    SearchWithin(table, instr, idx + 1, bottom);
    if idx < j {
      FindsIff(table, instr, j, idx + 1, bottom);
    } else if idx > j {
      FindsIff(table, instr, j, top, idx - 1);
    }
  }

  lemma {:induction false} OrderLeads(table: seq<Opcode>, instr: Word, j: int, top: int, bottom: int)
    requires 0 <= top <= j <= bottom < |table|
    requires forall i :: 0 <= i < j ==> Side(instr, table[i]) > 0
    requires forall i :: j < i < |table| ==> Side(instr, table[i]) < 0
    ensures LedTo(table, instr, j, top, bottom)
    decreases bottom - top
  {
    hide Side;
    var idx := (top + bottom) / 2;
    if idx < j {
      OrderLeads(table, instr, j, idx + 1, bottom);
    } else if idx > j {
      OrderLeads(table, instr, j, top, idx - 1);
    }
  }

  // ---------------------------------------------------------------- a table by primary opcode

  /** The bits of the primary opcode. */
  const PRIMARY: Word := 0xFC00_0000

  /** The entry's opcode lies within its mask, and the mask has the primary opcode. */
  predicate Masked(op: Opcode) { And(op.mask, PRIMARY) == PRIMARY && And(op.opcode, op.mask) == op.opcode }

  /** The first entry belongs before the second: a lower primary opcode, or the same one and
      the same mask. */
  predicate Before(a: Opcode, b: Opcode) {
    || Less(And(a.opcode, PRIMARY), And(b.opcode, PRIMARY))
    || (a.mask == b.mask && Less(a.opcode, b.opcode))
  }

  predicate InOrder(table: seq<Opcode>) {
    && (forall i :: 0 <= i < |table| ==> Masked(table[i]))
    && (forall i, j :: 0 <= i < j < |table| ==> Before(table[i], table[j]))
  }

  lemma PrimaryKept(w: Word, m: Word)
    requires And(m, PRIMARY) == PRIMARY
    ensures And(And(w, m), PRIMARY) == And(w, PRIMARY)
  {
  }

  lemma PrimaryDecides(x: Word, y: Word)
    requires Less(And(x, PRIMARY), And(y, PRIMARY))
    ensures Less(x, y)
  {
  }

  lemma LessOneWay(x: Word, y: Word)
    ensures Less(x, y) ==> !Less(y, x)
  {
  }

  /** A word that matches an entry lies above the entries before it and below those after it. */
  lemma SideBefore(a: Opcode, b: Opcode, w: Word)
    requires Masked(a) && Masked(b) && Before(a, b)
    ensures And(w, b.mask) == b.opcode ==> Side(w, a) > 0
    ensures And(w, a.mask) == a.opcode ==> Side(w, b) < 0
  {
    hide And, Less;
    if a.mask == b.mask && Less(a.opcode, b.opcode) {
      LessOneWay(a.opcode, b.opcode);
    } else {
      LowerPrimary(a, b, w);
      LessOneWay(a.opcode, And(w, a.mask));
    }
  }

  lemma LowerPrimary(a: Opcode, b: Opcode, w: Word)
    requires Masked(a) && Masked(b) && Less(And(a.opcode, PRIMARY), And(b.opcode, PRIMARY))
    ensures And(w, b.mask) == b.opcode ==> Less(a.opcode, And(w, a.mask))
    ensures And(w, a.mask) == a.opcode ==> Less(And(w, b.mask), b.opcode)
  {
    hide And, Less;
    PrimaryKept(w, a.mask);
    PrimaryKept(w, b.mask);
    if And(w, b.mask) == b.opcode { PrimaryDecides(a.opcode, And(w, a.mask)); }
    if And(w, a.mask) == a.opcode { PrimaryDecides(And(w, b.mask), b.opcode); }
  }

  /** In such a table the search finds exactly the entry that a word matches. */
  lemma MatchIsFound(table: seq<Opcode>, w: Word, j: nat)
    requires InOrder(table) && j < |table| && And(w, table[j].mask) == table[j].opcode
    ensures Search(table, w, 0, |table| - 1) == Some(j)
  {
    hide And, Side, Search, LedTo, Masked, Before;
    forall i | 0 <= i < j ensures Side(w, table[i]) > 0 { SideBefore(table[i], table[j], w); }
    forall i | j < i < |table| ensures Side(w, table[i]) < 0 { SideBefore(table[j], table[i], w); }
    SideZero(w, table[j]);
    OrderLeads(table, w, j, 0, |table| - 1);
    FindsIff(table, w, j, 0, |table| - 1);
  }

  /** From mnemonic to mnemonic: the word assembled from an entry is recognised as that entry,
      and shows the operands it was given if and only if each was in range. */
  lemma RecognisedBack(base: Word, operands: seq<Operand>, table: seq<Opcode>, j: nat, args: seq<Word>)
    requires InOrder(table) && j < |table| && Known(operands, table[j].fields)
    requires Apart(operands, table[j].fields, table[j].opcode) && And(table[j].mask, Spans(operands, table[j].fields)) == 0
    requires Assemble(base, table[j].relative, operands, table[j].fields, args, table[j].opcode).Instruction?
    ensures var op := table[j];
            var w := Assemble(base, op.relative, operands, op.fields, args, op.opcode).w;
            && Search(table, w, 0, |table| - 1) == Some(j)
            && Wanted(operands, op.fields) <= |args|
            && (Disassemble(base, op.relative, operands, op.fields, w) == args[..Wanted(operands, op.fields)]
                <==> AllInRange(base, op.relative, operands, op.fields, args))
  {
    hide And, Search, Assemble, Disassemble, Spans, Wanted, AllInRange, Known, Apart, Before;
    var op := table[j];
    StillMatches(base, operands, op, args);
    MatchIsFound(table, Assemble(base, op.relative, operands, op.fields, args, op.opcode).w, j);
    InsideItself(op.opcode);
    DisassembledBackIff(base, op.relative, operands, op.fields, args, op.opcode, op.opcode);
  }

  lemma InsideItself(a: Word)
    ensures Inside(a, a)
  {
  }
}

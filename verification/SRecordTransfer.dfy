/** The two commands that move memory as S-records: `saves` writes it, `loads` reads it back. */
module SRecordTransfer {
  import opened Arith
  import opened Bytes
  import opened SRecord

  const PER_RECORD: nat := 16
  const MAX_RECORD: nat := 516
  const SREC_EMPTY: int := 10

  // ---------------------------------------------------------------- what is written

  function Line(kind: int, payload: seq<Byte>): (s: seq<Byte>)
    requires 0 <= kind <= 9 && |payload| < 255
    ensures |s| == 7 + 2 * |payload|
  {
    Encode(kind, payload) + [LINE_FEED]
  }

  function DataLine(address: Word, bytes: seq<Byte>): (s: seq<Byte>)
    requires |bytes| < 251
    ensures |s| == 15 + 2 * |bytes|
  {
    Line(DATA4, AddressBytes(address) + bytes)
  }

  function Chunk(n: nat): nat { if n < PER_RECORD then n else PER_RECORD }

  /** The data records of a stretch of memory. */
  function DataLines(bytes: seq<Byte>, address: nat): seq<seq<Byte>>
    requires address + |bytes| <= M32
    decreases |bytes|
  {
    if bytes == [] then []
    else
      var n := Chunk(|bytes|);
      [DataLine(address, bytes[..n])] + DataLines(bytes[n..], address + n)
  }

  function FirstLine(): seq<Byte> { Line(START, [0, 0]) }

  function LastLine(): seq<Byte> { Line(END4, [0, 0, 0, 0]) }

  function Upload(bytes: seq<Byte>, address: nat): seq<seq<Byte>>
    requires address + |bytes| <= M32
  {
    [FirstLine()] + DataLines(bytes, address) + [LastLine()]
  }

  function Flat(lines: seq<seq<Byte>>): seq<Byte> {
    if lines == [] then [] else lines[0] + Flat(lines[1..])
  }

  // ---------------------------------------------------------------- what is read

  datatype Reading = Silent | Stopped | Got(text: seq<Byte>, rest: seq<Byte>)

  /** read_record with room for so many characters. */
  function ReadLine(input: seq<Byte>, room: nat): (r: Reading)
    ensures r.Got? && room > 0 ==> |r.rest| < |input|
    decreases |input|
  {
    if room == 0 then Got([], input)
    else if input == [] then Silent
    else if input[0] == RETURN || input[0] == LINE_FEED then Got([], input[1..])
    else if input[0] == 0 || input[0] == BREAK then Stopped
    else match ReadLine(input[1..], room - 1)
         case Got(text, rest) => Got([input[0]] + text, rest)
         case other => other
  }

  /** Started: an end record gave this address. Faulted: a copy fell outside memory.
      Waiting: the line went silent. */
  datatype Outcome = Started(addr: nat) | Aborted | Faulted | Waiting

  datatype Loading = Loading(outcome: Outcome, mem: seq<Byte>, first: nat, last: nat)

  function Wrap(x: int): (w: Word) { x % M32 }

  function Put(mem: seq<Byte>, at: nat, bytes: seq<Byte>): (r: seq<Byte>)
    requires at + |bytes| <= |mem|
    ensures |r| == |mem|
  {
    mem[..at] + bytes + mem[at + |bytes|..]
  }

  function Lower(a: nat, b: nat): nat { if a < b then a else b }

  function Higher(a: nat, b: nat): nat { if a > b then a else b }

  /** load_serial: `first` and `last` are the lowest and highest address stored so far. */
  function Load(mem: seq<Byte>, first: nat, last: nat, input: seq<Byte>, offset: int): Loading
    decreases |input|
  {
    match ReadLine(input, MAX_RECORD)
    case Silent => Loading(Waiting, mem, first, last)
    case Stopped => Loading(Aborted, mem, first, last)
    case Got(text, rest) =>
      match Decode(text)
      case Bad(_) => Loading(Aborted, mem, first, last)
      case Empty => Load(mem, first, last, rest, offset)
      case Good(kind, count, addr, data) =>
        if 1 <= kind <= 3 then
          var store := Wrap(addr + offset);
          if count < 0 || store + count > |mem| then Loading(Faulted, mem, first, last)
          else
            Load(Put(mem, store, data), Lower(store, first), Higher(Wrap(store + count - 1), last), rest, offset)
        else if 7 <= kind <= 9 then Loading(Started(addr), mem, first, last)
        else Load(mem, first, last, rest, offset)
  }

  // ---------------------------------------------------------------- loading what was saved

  /** Characters that a line may be made of. */
  predicate Plain(s: seq<Byte>) { forall i :: 0 <= i < |s| ==> s[i] >= 0x20 }

  lemma {:induction false} ReadLineWhole(text: seq<Byte>, rest: seq<Byte>, room: nat)
    requires Plain(text) && |text| < room
    ensures ReadLine(text + [LINE_FEED] + rest, room) == Got(text, rest)
    decreases |text|
  {
    var input := text + [LINE_FEED] + rest;
    if text == [] {
      assert input[1..] == rest;
    } else {
      assert input[1..] == text[1..] + [LINE_FEED] + rest && input[0] == text[0];
      ReadLineWhole(text[1..], rest, room - 1);
      assert [text[0]] + text[1..] == text;
    }
  }

  lemma {:induction false} HexIsPlain(bs: seq<Byte>)
    ensures Plain(HexAll(bs))
  {
    if bs != [] {
      HexIsPlain(bs[1..]);
      PairIsPlain(bs[0]);
    }
  }

  lemma PairIsPlain(b: Byte)
    ensures Plain(Pair(b))
  {
    hide Digit;
    DigitReads(High(b));
    DigitReads(Low(b));
  }

  lemma EncodeIsPlain(kind: int, payload: seq<Byte>)
    requires 0 <= kind <= 9 && |payload| < 255
    ensures Plain(Encode(kind, payload))
  {
    hide HexAll, Pair, Checksum;
    PairIsPlain(|payload| + 1);
    HexIsPlain(payload + [Checksum(payload)]);
  }

  /** A written line is read whole, and decodes to its record. */
  lemma LineReads(kind: int, payload: seq<Byte>, rest: seq<Byte>)
    requires 0 <= kind <= 9 && kind != COUNT && 0 < Width(kind) <= |payload| < 251
    ensures var w := Width(kind);
            var r := ReadLine(Line(kind, payload) + rest, MAX_RECORD);
            && r.Got? && r.rest == rest
            && Decode(r.text) == Good(kind, |payload| - w, BigEndian(payload[..w]), payload[w..])
  {
    hide Encode, Decode, Width, ReadLine, BigEndian, Plain;
    EncodeIsPlain(kind, payload);
    ReadLineWhole(Encode(kind, payload), rest, MAX_RECORD);
    EncodeReads(kind, payload);
  }

  lemma DataLineReads(address: Word, bytes: seq<Byte>, rest: seq<Byte>)
    requires |bytes| <= PER_RECORD
    ensures var r := ReadLine(DataLine(address, bytes) + rest, MAX_RECORD);
            r.Got? && r.rest == rest && Decode(r.text) == Good(DATA4, |bytes|, address, bytes)
  {
    hide Line, Decode, ReadLine, BigEndian, AddressBytes;
    var payload := AddressBytes(address) + bytes;
    LineReads(DATA4, payload, rest);
    assert payload[..4] == AddressBytes(address) && payload[4..] == bytes;
    AddressReads(address);
  }

  lemma PutPut(mem: seq<Byte>, at: nat, a: seq<Byte>, b: seq<Byte>)
    requires at + |a| + |b| <= |mem|
    ensures Put(Put(mem, at, a), at + |a|, b) == Put(mem, at, a + b)
  {
  }

  lemma InRange(x: int)
    requires 0 <= x < M32
    ensures Wrap(x) == x
  {
  }

  lemma LoadRecord(mem: seq<Byte>, first: nat, last: nat, address: Word, bytes: seq<Byte>, offset: int, rest: seq<Byte>)
    requires 0 < |bytes| <= PER_RECORD
    requires 0 <= address + offset && address + offset + |bytes| <= |mem| <= M32
    ensures var at := address + offset;
            Load(mem, first, last, DataLine(address, bytes) + rest, offset)
            == Load(Put(mem, at, bytes), Lower(at, first), Higher(at + |bytes| - 1, last), rest, offset)
  {
    hide Decode, ReadLine, DataLine, Put, Wrap;
    DataLineReads(address, bytes, rest);
    InRange(address + offset);
    InRange(address + offset + |bytes| - 1);
  }

  /** The data records, one after the other, store the whole stretch once and in order. */
  lemma {:induction false} LoadData(mem: seq<Byte>, first: nat, last: nat, bytes: seq<Byte>, address: nat, offset: int, tail: seq<Byte>)
    requires bytes != [] && address + |bytes| <= M32
    requires 0 <= address + offset && address + offset + |bytes| <= |mem| <= M32
    ensures var at := address + offset;
            Load(mem, first, last, Flat(DataLines(bytes, address)) + tail, offset)
            == Load(Put(mem, at, bytes), Lower(at, first), Higher(at + |bytes| - 1, last), tail, offset)
    decreases |bytes|
  {
    hide Load, DataLine, Put;
    var n, at := Chunk(|bytes|), address + offset;
    var head, more := bytes[..n], bytes[n..];
    var lines := DataLines(bytes, address);
    var rest := Flat(DataLines(more, address + n)) + tail;
    assert Flat(lines) + tail == DataLine(address, head) + rest by {
      assert lines[0] == DataLine(address, head) && lines[1..] == DataLines(more, address + n);
      assert DataLine(address, head) + Flat(lines[1..]) + tail == DataLine(address, head) + (Flat(lines[1..]) + tail);
    }
    LoadRecord(mem, first, last, address, head, offset, rest);
    var mem', first', last' := Put(mem, at, head), Lower(at, first), Higher(at + n - 1, last);
    if more == [] {
      assert head == bytes && rest == tail;
    } else {
      LoadData(mem', first', last', more, address + n, offset, tail);
      PutPut(mem, at, head, more);
      assert head + more == bytes;
    }
  }

  lemma WrapNothing()
    ensures Wrap(0 - (M32 - 1) + 1) == 2
  {
  }

  lemma LoadFirst(mem: seq<Byte>, first: nat, last: nat, rest: seq<Byte>, offset: int)
    ensures Load(mem, first, last, FirstLine() + rest, offset) == Load(mem, first, last, rest, offset)
  {
    hide Decode, ReadLine, Line;
    LineReads(START, [0, 0], rest);
  }

  lemma LoadLast(mem: seq<Byte>, first: nat, last: nat, rest: seq<Byte>, offset: int)
    ensures Load(mem, first, last, LastLine() + rest, offset) == Loading(Started(0), mem, first, last)
  {
    hide Decode, ReadLine, Line, BigEndian;
    LineReads(END4, [0, 0, 0, 0], rest);
    assert [0, 0, 0, 0][..4] == [0, 0, 0, 0];
    BigEndian4(0, 0, 0, 0);
  }

  lemma {:induction false} FlatAnd(lines: seq<seq<Byte>>, more: seq<Byte>)
    ensures Flat(lines + [more]) == Flat(lines) + more
  {
    var all := lines + [more];
    if lines == [] {
      assert all[1..] == [] && all[0] == more;
      assert more + [] == more;
    } else {
      assert all[1..] == lines[1..] + [more] && all[0] == lines[0];
      FlatAnd(lines[1..], more);
    }
  }

  lemma UploadText(bytes: seq<Byte>, address: nat, tail: seq<Byte>)
    requires address + |bytes| <= M32
    ensures Flat(Upload(bytes, address)) + tail == FirstLine() + (Flat(DataLines(bytes, address)) + (LastLine() + tail))
  {
    hide Line, DataLines;
    var data := DataLines(bytes, address);
    var body := [FirstLine()] + data;
    FlatAnd(body, LastLine());
    assert body[1..] == data && body[0] == FirstLine();
  }

  /** Loading what was saved, at any offset that stays inside memory, stores exactly the saved
      bytes, changes nothing else and starts at 0. The size it reports is the number of bytes,
      except that saving nothing is reported as 2. */
  lemma LoadUndoesSave(mem: seq<Byte>, bytes: seq<Byte>, address: nat, offset: int, tail: seq<Byte>)
    requires address + |bytes| <= M32 && |bytes| < M32
    requires 0 <= address + offset && address + offset + |bytes| <= |mem| <= M32
    ensures var r := Load(mem, M32 - 1, 0, Flat(Upload(bytes, address)) + tail, offset);
            && r.outcome == Started(0)
            && r.mem == mem[..address + offset] + bytes + mem[address + offset + |bytes|..]
            && Wrap(r.last - r.first + 1) == (if bytes == [] then 2 else |bytes|)
  {
    hide Decode, ReadLine, Line, Wrap, Load;
    var at, data := address + offset, DataLines(bytes, address);
    var rest := LastLine() + tail;
    UploadText(bytes, address, tail);
    LoadFirst(mem, M32 - 1, 0, Flat(data) + rest, offset);
    if bytes == [] {
      LoadLast(mem, M32 - 1, 0, tail, offset);
      assert Flat(data) + rest == rest && Put(mem, at, bytes) == mem;
      WrapNothing();
    } else {
      LoadData(mem, M32 - 1, 0, bytes, address, offset, rest);
      var first, last := Lower(at, M32 - 1), Higher(at + |bytes| - 1, 0);
      LoadLast(Put(mem, at, bytes), first, last, tail, offset);
      InRange(|bytes|);
    }
  }

  // ---------------------------------------------------------------- the commands

  /** Fields of a record, one pair more. */
  lemma PairsNext(s: seq<Byte>, n: nat)
    requires Pairs(s, n).Some?
    ensures var v := Hex2(s[2 * n..]);
            && Pairs(s, n + 1) == (if v < 0 then None else Some(Pairs(s, n).value + [v as Byte]))
  {
    hide Hex2;
    PairsSplit(s, n, 1);
    var t := s[2 * n..];
    assert Pairs(t, 1) == if Hex2(t) < 0 then None else Some([Hex2(t) as Byte]) by {
      if Hex2(t) >= 0 {
        assert Pairs(t[2..], 1 - 1) == Some([]) && [Hex2(t) as Byte] + [] == [Hex2(t) as Byte];
      }
    }
  }

  /** The running sum and address take the next pair in. */
  lemma FieldsNext(length: nat, bs: seq<Byte>, v: Byte)
    ensures Low8(Low8(length + Sum(bs)) + v) == Low8(length + Sum(bs + [v]))
    ensures BigEndian(bs + [v]) == BigEndian(bs) * 256 + v
  {
    SumConcat(bs, [v]);
    SumOne(v);
    LowAdds(length + Sum(bs), v);
    assert (bs + [v])[..|bs|] == bs;
  }

  lemma LowAdds(t: nat, v: int)
    ensures Low8(Low8(t) + v) == Low8(t + v)
  {
    DivMod(t, 256);
    DivShift(t % 256 + v, 256, t / 256);
  }

  /** What is left to check once `n` of the pairs have been read. */
  ghost predicate ReadSoFar(s: seq<Byte>, length: nat, n: nat, chksum: Byte) {
    && Pairs(s, n).Some? && chksum == Low8(length + Sum(Pairs(s, n).value))
  }

  /** Reads one more pair of a record into the sum. */
  method NextPair(s: seq<Byte>, p: nat, chksum: Byte, ghost from: nat, ghost length: nat, ghost n: nat) returns (v: int, sum: Byte)
    requires from <= |s| && p == from + 2 * n && p <= |s| && ReadSoFar(s[from..], length, n, chksum)
    ensures -1 <= v < 256
    ensures v < 0 ==> sum == chksum && Pairs(s[from..], n + 1).None?
    ensures v >= 0 ==> p + 2 <= |s| && ReadSoFar(s[from..], length, n + 1, sum)
    ensures v >= 0 ==> var bs := Pairs(s[from..], n).value;
                       Pairs(s[from..], n + 1) == Some(bs + [v as Byte]) && BigEndian(bs + [v as Byte]) == BigEndian(bs) * 256 + v
  {
    hide Pairs, Hex2, Low8, Sum, BigEndian;
    assert s[from..][2 * n..] == s[p..];
    PairsNext(s[from..], n);
    v, sum := Hex2(s[p..]), chksum;
    if v >= 0 {
      FieldsNext(length, Pairs(s[from..], n).value, v);
      sum := Low8(chksum as int + v);
    }
  }

  method SkipToS(input: seq<Byte>) returns (p: nat)
    ensures p <= |input| && input[p..] == AfterS(input)
  {
    p := 0;
    while p < |input|
      invariant 0 <= p <= |input| && AfterS(input) == AfterS(input[p..])
    {
      assert input[p..][1..] == input[p + 1..];
      if input[p] == LETTER_S {
        p := p + 1;
        return;
      }
      p := p + 1;
    }
  }

  /** srec_decode: the step-by-step reading agrees with what the line means. */
  method SrecDecode(input: seq<Byte>, data: array<Byte>) returns (type_: int, count: int, addr: nat)
    requires data.Length >= 255
    modifies data
    ensures match Decode(input)
            case Bad(code) => type_ == code
            case Empty => type_ == SREC_EMPTY
            case Good(kind, n, a, bs) => type_ == kind && count == n && addr == a && |bs| <= data.Length && data[..|bs|] == bs
  {
    hide AfterS, Hex2, Pairs, Check, Width;
    count, addr := 0, 0;
    var p := SkipToS(input);
    if p == |input| {
      return SREC_EMPTY, count, addr;
    }
    var kind := input[p] - DIGIT_0;
    ghost var s := input[p..];
    p := p + 1;
    assert s[1..] == input[p..];
    count := Hex2(input[p..]);
    if count < 0 {
      return E_NOSREC, count, addr;
    }
    p := p + 2;
    if Width(kind) == 0 {
      return E_BADTYPE, count, addr;
    }
    assert s[3..] == input[p..];
    type_, addr := ReadFields(input, p, kind, count, data);
    count := DataCount(kind, count);
  }

  /** Address, data and checksum of a record of this type and length. */
  method ReadFields(input: seq<Byte>, from: nat, kind: int, length: Byte, data: array<Byte>) returns (type_: int, addr: nat)
    requires from <= |input| && Width(kind) > 0 && data.Length >= 255
    modifies data
    ensures match Check(kind, length, Pairs(input[from..], Width(kind) + AtLeast0(DataCount(kind, length)) + 1))
            case Bad(code) => type_ == code
            case Empty => false
            case Good(k, n, a, bs) => type_ == k && n == DataCount(kind, length) && addr == a && |bs| <= data.Length && data[..|bs|] == bs
  {
    hide Pairs, Sum, BigEndian, Low8, ReadSoFar, Width;
    var w, n := Width(kind), AtLeast0(DataCount(kind, length));
    ghost var rest, all := input[from..], w + n + 1;
    NoneRead(rest, length);
    var ok, chksum, v, sum;
    ok, addr, chksum := ReadAddress(input, from, w, length, length);
    if !ok {
      CutShort(rest, w, all);
      return E_NOSREC, addr;
    }
    ghost var head := FieldsRead(rest, length, w, chksum);
    ok, chksum := ReadData(input, from, w, n, chksum, data, length);
    if !ok {
      CutShort(rest, w + n, all);
      return E_NOSREC, addr;
    }
    v, sum := NextPair(input, from + 2 * (w + n), chksum, from, length, w + n);
    if v < 0 {
      return E_NOSREC, addr;
    }
    Closed(rest, length, w + n, chksum, v);
    ghost var fields := head + data[..n] + [v as Byte];
    assert fields[..w] == head && fields[w..w + n] == data[..n];
    if v != 255 - chksum {
      return E_BADCHKS, addr;
    }
    return kind, addr;
  }

  /** The address field, high byte first. */
  method ReadAddress(input: seq<Byte>, from: nat, w: nat, chksum: Byte, ghost length: nat) returns (ok: bool, addr: nat, sum: Byte)
    requires from <= |input| && ReadSoFar(input[from..], length, 0, chksum)
    ensures ok ==> from + 2 * w <= |input| && ReadSoFar(input[from..], length, w, sum)
                   && addr == BigEndian(FieldsRead(input[from..], length, w, sum))
    ensures !ok ==> Pairs(input[from..], w).None?
  {
    hide Pairs, Sum, BigEndian, Low8, ReadSoFar;
    ghost var rest := input[from..];
    NothingRead(rest, length, chksum);
    addr, sum := 0, chksum;
    var i := 0;
    while i < w
      invariant 0 <= i <= w && from + 2 * i <= |input| && ReadSoFar(rest, length, i, sum)
      invariant addr == BigEndian(FieldsRead(rest, length, i, sum))
    {
      var v;
      v, sum := NextPair(input, from + 2 * i, sum, from, length, i);
      if v < 0 {
        CutShort(rest, i + 1, w);
        return false, addr, sum;
      }
      addr := addr * 256 + v;
      i := i + 1;
    }
    ok := true;
  }

  /** The data field, into the buffer. */
  method ReadData(input: seq<Byte>, from: nat, w: nat, n: nat, chksum: Byte, data: array<Byte>, ghost length: nat) returns (ok: bool, sum: Byte)
    requires from + 2 * w <= |input| && ReadSoFar(input[from..], length, w, chksum) && n <= data.Length
    modifies data
    ensures ok ==> from + 2 * (w + n) <= |input| && ReadSoFar(input[from..], length, w + n, sum)
                   && FieldsRead(input[from..], length, w + n, sum) == FieldsRead(input[from..], length, w, chksum) + data[..n]
    ensures !ok ==> Pairs(input[from..], w + n).None?
  {
    hide Pairs, Sum, BigEndian, Low8, ReadSoFar;
    ghost var rest := input[from..];
    ghost var head := FieldsRead(rest, length, w, chksum);
    sum := chksum;
    assert head + data[..0] == head;
    var i := 0;
    while i < n
      invariant 0 <= i <= n && from + 2 * (w + i) <= |input| && ReadSoFar(rest, length, w + i, sum)
      invariant FieldsRead(rest, length, w + i, sum) == head + data[..i]
    {
      ghost var before := data[..i];
      var v;
      v, sum := NextPair(input, from + 2 * (w + i), sum, from, length, w + i);
      if v < 0 {
        CutShort(rest, w + i + 1, w + n);
        return false, sum;
      }
      data[i] := v;
      assert data[..i + 1] == before + [v as Byte];
      assert head + before + [v as Byte] == head + (before + [v as Byte]);
      i := i + 1;
    }
    ok := true;
  }

  lemma NothingRead(s: seq<Byte>, length: nat, chksum: Byte)
    requires ReadSoFar(s, length, 0, chksum)
    ensures FieldsRead(s, length, 0, chksum) == [] && BigEndian([]) == 0
  {
  }

  ghost function FieldsRead(s: seq<Byte>, length: nat, n: nat, chksum: Byte): (bs: seq<Byte>)
    requires ReadSoFar(s, length, n, chksum)
    ensures Pairs(s, n) == Some(bs)
  {
    Pairs(s, n).value
  }

  lemma NoneRead(s: seq<Byte>, length: Byte)
    ensures ReadSoFar(s, length, 0, length) && FieldsRead(s, length, 0, length) == []
  {
  }

  lemma CutShort(s: seq<Byte>, n: nat, all: nat)
    requires Pairs(s, n).None? && n <= all
    ensures Pairs(s, all).None?
  {
    PairsSplit(s, n, all - n);
  }

  lemma Closed(s: seq<Byte>, length: nat, n: nat, sum: Byte, v: Byte)
    requires ReadSoFar(s, length, n, sum)
    ensures Low8(length + Sum(Pairs(s, n).value + [v])) == 255 <==> v == 255 - sum
  {
    hide Pairs, Sum, Low8;
    var bs := Pairs(s, n).value;
    SumConcat(bs, [v]);
    SumOne(v);
    ComplementIff(length + Sum(bs), v);
  }

  /** read_record, into a buffer that is given as the text it holds. */
  method ReadRecord(input: seq<Byte>, len: nat) returns (r: Reading)
    requires len > 0
    ensures r == ReadLine(input, len - 1)
  {
    var buf: seq<Byte>, p := [], 0;
    while p < len - 1
      invariant 0 <= p <= len - 1 && p <= |input| && buf == input[..p]
      invariant ReadLine(input, len - 1) == Ahead(buf, ReadLine(input[p..], len - 1 - p))
    {
      if p == |input| {
        return Silent;
      }
      ghost var rest := input[p..];
      var c := input[p];
      assert rest[0] == c && rest[1..] == input[p + 1..];
      if c == RETURN || c == LINE_FEED {
        assert buf + [] == buf;
        return Got(buf, input[p + 1..]);
      }
      if c == 0 || c == BREAK {
        return Stopped;
      }
      AheadOne(buf, c, ReadLine(input[p + 1..], len - 2 - p));
      buf := buf + [c];
      p := p + 1;
    }
    assert buf + [] == buf;
    r := Got(buf, input[p..]);
  }

  /** A reading, with the characters that came before it. */
  function Ahead(buf: seq<Byte>, r: Reading): Reading {
    match r
    case Got(text, rest) => Got(buf + text, rest)
    case other => other
  }

  lemma AheadOne(buf: seq<Byte>, c: Byte, r: Reading)
    ensures Ahead(buf, Ahead([c], r)) == Ahead(buf + [c], r)
  {
    if r.Got? {
      assert buf + ([c] + r.text) == buf + [c] + r.text;
    }
  }

  /** memcpy */
  method Copy(mem: array<Byte>, at: nat, data: array<Byte>, n: nat)
    requires at + n <= mem.Length && n <= data.Length && mem != data
    modifies mem
    ensures mem[..] == Put(old(mem[..]), at, data[..n])
  {
    var i := 0;
    while i < n
      invariant 0 <= i <= n
      invariant forall k :: 0 <= k < mem.Length ==> mem[k] == if at <= k < at + i then data[k - at] else old(mem[k])
    {
      mem[at + i] := data[i];
      i := i + 1;
    }
    assert mem[..] == Put(old(mem[..]), at, data[..n]);
  }

  /** load_serial on memory; `size` is what it reports and keeps as the file size. */
  method LoadSerial(mem: array<Byte>, input: seq<Byte>, offset: int) returns (outcome: Outcome, size: nat)
    modifies mem
    ensures var r := Load(old(mem[..]), M32 - 1, 0, input, offset);
            && outcome == r.outcome && mem[..] == r.mem && size == Wrap(r.last - r.first + 1)
  {
    hide Decode, ReadLine, Put, Wrap;
    var binbuf := new Byte[255];
    var first, last, rest := M32 - 1, 0, input;
    while true
      invariant 0 <= first && 0 <= last
      invariant Load(mem[..], first, last, rest, offset) == Load(old(mem[..]), M32 - 1, 0, input, offset)
      decreases |rest|
    {
      var r := ReadRecord(rest, MAX_RECORD + 1);
      size := Wrap(last - first + 1);
      if r.Silent? {
        return Waiting, size;
      }
      if r.Stopped? {
        return Aborted, size;
      }
      var kind, count, addr := SrecDecode(r.text, binbuf);
      if kind < 0 {
        return Aborted, size;
      }
      if 1 <= kind <= 3 {
        var store := Wrap(addr + offset);
        if count < 0 || store + count > mem.Length {
          return Faulted, size;
        }
        Copy(mem, store, binbuf, count);
        first := Lower(store, first);
        last := Higher(Wrap(store + count - 1), last);
      } else if 7 <= kind <= 9 {
        return Started(addr), size;
      }
      rest := r.rest;
    }
  }

  // ---------------------------------------------------------------- writing

  /** The low `n` bytes of a word, summed. */
  function SumLow(x: Word, n: nat): nat
    requires n <= 4
  {
    if n == 0 then 0 else SumLow(x, n - 1) + ByteOf(x, n - 1) as int
  }

  method AddBytes(checksum: nat, x: Word, n: nat) returns (sum: nat)
    requires n <= 4
    ensures sum == checksum + SumLow(x, n)
  {
    sum := checksum;
    for i := 0 to n
      invariant sum == checksum + SumLow(x, i)
    {
      sum := sum + ByteOf(x, i) as int;
    }
  }

  lemma SumOfAddress(a: Word)
    ensures SumLow(a, 4) == Sum(AddressBytes(a))
  {
    hide ByteOf;
    var bs := AddressBytes(a);
    assert bs[1..][1..] == bs[2..] && bs[2..][1..] == bs[3..] && bs[3..][1..] == [];
    assert Sum(bs) == bs[0] as int + (bs[1] as int + (bs[2] as int + (bs[3] as int + 0))) by {
      assert Sum(bs[3..]) == bs[3] as int + Sum([]);
      assert Sum(bs[2..]) == bs[2] as int + Sum(bs[3..]);
      assert Sum(bs[1..]) == bs[1] as int + Sum(bs[2..]);
    }
    assert SumLow(a, 1) == ByteOf(a, 0);
    assert SumLow(a, 2) == SumLow(a, 1) + ByteOf(a, 1) as int;
    assert SumLow(a, 3) == SumLow(a, 2) + ByteOf(a, 2) as int;
  }

  lemma SumOfLength(n: Byte)
    ensures SumLow(n, 2) == n
  {
    assert SumLow(n, 1) == ByteOf(n, 0) == n;
  }

  /** The characters that %s prints. */
  method PrintString(data: array<Byte>, ghost n: nat) returns (s: seq<Byte>)
    requires n < data.Length && data[n] == 0 && forall k :: 0 <= k < n ==> data[k] != 0
    ensures s == data[..n]
  {
    s := [];
    var i := 0;
    while data[i] != 0
      invariant 0 <= i <= n && s == data[..i]
      decreases n - i
    {
      s := s + [data[i]];
      i := i + 1;
    }
  }

  /** %08lX */
  function PrintWord(a: Word): (s: seq<Byte>)
    ensures |s| == 8
  {
    Pair(ByteOf(a, 3)) + Pair(ByteOf(a, 2)) + Pair(ByteOf(a, 1)) + Pair(ByteOf(a, 0))
  }

  lemma PrintWordIs(a: Word)
    ensures PrintWord(a) == HexAll(AddressBytes(a))
  {
    hide ByteOf, Pair;
    var bs := AddressBytes(a);
    assert bs[1..][1..] == bs[2..] && bs[2..][1..] == bs[3..] && bs[3..][1..] == [];
    assert HexAll(bs[3..]) == Pair(bs[3]) + [] == Pair(bs[3]);
    assert HexAll(bs[2..]) == Pair(bs[2]) + HexAll(bs[3..]);
    assert HexAll(bs[1..]) == Pair(bs[1]) + HexAll(bs[2..]);
    assert HexAll(bs) == Pair(bs[0]) + HexAll(bs[1..]);
  }

  /** The pieces of the format are the record. */
  lemma PiecesAreLine(address: Word, bytes: seq<Byte>)
    requires |bytes| <= PER_RECORD
    ensures var payload := AddressBytes(address) + bytes;
            DataLine(address, bytes) == Mark(DATA4) + Pair(5 + |bytes|) + PrintWord(address) + HexAll(bytes)
                                        + Pair(Checksum(payload)) + [LINE_FEED]
  {
    hide HexAll, Pair, AddressBytes, PrintWord, Checksum;
    var payload := AddressBytes(address) + bytes;
    var c := Checksum(payload);
    var head: seq<Byte> := Mark(DATA4) + Pair(5 + |bytes|);
    assert Encode(DATA4, payload) == head + HexAll(payload + [c]);
    assert HexAll(payload + [c]) == PrintWord(address) + HexAll(bytes) + Pair(c) by {
      PrintWordIs(address);
      HexConcat(AddressBytes(address), bytes);
      HexConcat(payload, [c]);
      HexOne(c);
    }
    Flatten(head, PrintWord(address), HexAll(bytes), Pair(c));
  }

  lemma Flatten(a: seq<Byte>, b: seq<Byte>, c: seq<Byte>, d: seq<Byte>)
    ensures a + (b + c + d) == a + b + c + d
  {
  }

  lemma HexOne(b: Byte)
    ensures HexAll([b]) == Pair(b)
  {
    hide Pair;
    assert Pair(b) + [] == Pair(b);
  }

  /** Closes the checksum and prints one data record; the line and its NUL fit the buffer. */
  method BuildRecord(address: Word, data: array<Byte>, sum: nat, ghost bytes: seq<Byte>, reclen: nat) returns (record: seq<Byte>)
    requires reclen == |bytes| <= PER_RECORD && sum == Sum(bytes)
    requires data.Length == 2 * PER_RECORD + 1 && data[..2 * reclen] == HexAll(bytes) && data[2 * reclen] == 0
    ensures record == DataLine(address, bytes) && |record| + 1 <= 2 * PER_RECORD + 16
  {
    hide HexAll, Sum, AddressBytes, PrintWord, Complement, SumLow, Plain, DataLine, Pair;
    var length := 4 + reclen + 1;
    var checksum := AddBytes(sum, length, 2);
    SumOfLength(length);
    checksum := AddBytes(checksum, address, 4);
    SumOfAddress(address);
    SumConcat(AddressBytes(address), bytes);
    HexHasNoNul(bytes);
    assert forall k :: 0 <= k < 2 * reclen ==> data[k] == data[..2 * reclen][k];
    var text := PrintString(data, 2 * reclen);
    PiecesAreLine(address, bytes);
    record := Mark(DATA4) + Pair(length) + PrintWord(address) + text + Pair(Complement(checksum)) + [LINE_FEED];
  }

  lemma HexHasNoNul(bs: seq<Byte>)
    ensures forall k :: 0 <= k < 2 * |bs| ==> HexAll(bs)[k] != 0
  {
    HexIsPlain(bs);
  }

  /** One byte into the text of a record. */
  method Collect(data: array<Byte>, reclen: nat, c: Byte, ghost bytes: seq<Byte>)
    requires reclen == |bytes| < PER_RECORD && data.Length == 2 * PER_RECORD + 1 && data[..2 * reclen] == HexAll(bytes)
    modifies data
    ensures data[..2 * reclen + 2] == HexAll(bytes + [c]) && data[2 * reclen + 2] == 0
    ensures Sum(bytes + [c]) == Sum(bytes) + c
  {
    hide HexAll, Digit, Sum;
    data[2 * reclen] := Digit(High(c));
    data[2 * reclen + 1] := Digit(Low(c));
    data[2 * reclen + 2] := 0;
    assert data[..2 * reclen] == old(data[..2 * reclen]);
    assert data[..2 * reclen + 2] == data[..2 * reclen] + Pair(c);
    HexConcat(bytes, [c]);
    HexOne(c);
    SumConcat(bytes, [c]);
    SumOne(c);
  }

  /** The two fixed lines are records like the others. */
  lemma FixedLines()
    ensures FirstLine() == [0x53, 0x30, 0x30, 0x33, 0x30, 0x30, 0x30, 0x30, 0x46, 0x43, LINE_FEED]
    ensures LastLine() == [0x53, 0x37, 0x30, 0x35, 0x30, 0x30, 0x30, 0x30, 0x30, 0x30, 0x30, 0x30, 0x46, 0x41, LINE_FEED]
  {
    assert Checksum([0, 0]) == 0xFC;
    assert Checksum([0, 0, 0, 0]) == 0xFA;
    assert Pair(0) == [0x30, 0x30] && Pair(3) == [0x30, 0x33] && Pair(5) == [0x30, 0x35];
    assert Pair(0xFC) == [0x46, 0x43] && Pair(0xFA) == [0x46, 0x41];
    HexZeros();
    HexConcat([0, 0], [0xFC]);
    HexConcat([0, 0, 0, 0], [0xFA]);
    HexOne(0xFC);
    HexOne(0xFA);
  }

  lemma HexZeros()
    ensures HexAll([0, 0]) == [0x30, 0x30, 0x30, 0x30]
    ensures HexAll([0, 0, 0, 0]) == [0x30, 0x30, 0x30, 0x30, 0x30, 0x30, 0x30, 0x30]
  {
    assert Pair(0) == [0x30, 0x30];
    HexOne(0);
    HexConcat([0], [0]);
    HexConcat([0, 0], [0, 0]);
    assert [0] + [0] == [0, 0] && [0, 0] + [0, 0] == [0, 0, 0, 0];
  }

  function StartText(): (s: seq<Byte>)
    ensures s == FirstLine()
  {
    FixedLines();
    [0x53, 0x30, 0x30, 0x33, 0x30, 0x30, 0x30, 0x30, 0x46, 0x43, LINE_FEED]
  }

  function EndText(): (s: seq<Byte>)
    ensures s == LastLine()
  {
    FixedLines();
    [0x53, 0x37, 0x30, 0x35, 0x30, 0x30, 0x30, 0x30, 0x30, 0x30, 0x30, 0x30, 0x46, 0x41, LINE_FEED]
  }

  /** The console was there after each of the first `n` records. */
  predicate Unbroken(ctrlc: nat -> bool, n: nat) { forall i :: 0 <= i < n ==> !ctrlc(i) }

  lemma PrefixOf(a: seq<seq<Byte>>, b: seq<seq<Byte>>, c: seq<Byte>)
    ensures a <= a + b + [c]
  {
  }

  /** A full record, or the last one, comes off the front of what is left. */
  lemma DataLinesStep(lines: seq<seq<Byte>>, left: seq<Byte>, address: nat, held: seq<Byte>, goal: seq<seq<Byte>>)
    requires address + |left| <= M32 && 0 < |held| <= |left| && |held| == Chunk(|left|) && left[..|held|] == held
    requires lines + DataLines(left, address) == goal
    ensures lines + [DataLine(address, held)] + DataLines(left[|held|..], address + |held|) == goal
  {
    hide DataLine;
    var rest := DataLines(left[|held|..], address + |held|);
    assert lines + [DataLine(address, held)] + rest == lines + ([DataLine(address, held)] + rest);
  }

  /** save_serial: the records of a stretch of memory, in order, until the console hangs up
      after one of them. */
  method SaveSerial(mem: array<Byte>, from: nat, size: nat, ctrlc: nat -> bool) returns (code: int, lines: seq<seq<Byte>>)
    requires from + size <= mem.Length <= M32
    ensures lines <= Upload(mem[from..from + size], from) && lines != []
    ensures code == 0 || code == -1
    ensures code == 0 ==> lines == Upload(mem[from..from + size], from) && Unbroken(ctrlc, |lines|)
    ensures code == -1 ==> ctrlc(|lines| - 1) && Unbroken(ctrlc, |lines| - 1)
  {
    hide HexAll, Sum, DataLine, DataLines, FirstLine, LastLine, Upload, StartText, EndText, Chunk;
    ghost var goal := [FirstLine()] + DataLines(mem[from..from + size], from);
    UploadIs(mem[from..from + size], from);
    lines := [StartText()];
    if ctrlc(0) {
      PrefixOf(lines, DataLines(mem[from..from + size], from), LastLine());
      return -1, lines;
    }
    var data := new Byte[2 * PER_RECORD + 1];
    var address, count, reclen, checksum := from, size, 0, 0;
    ghost var left := mem[from..from + size];
    NothingHeld();
    var more := true;
    while more
      invariant 0 <= count && 0 <= reclen < PER_RECORD && |left| == reclen + count && address + |left| == from + size
      invariant from <= address && mem[address..from + size] == left && checksum == Sum(left[..reclen])
      invariant data[..2 * reclen] == HexAll(left[..reclen]) && (!more ==> count == 0) && (count == 0 ==> reclen == 0)
      invariant lines + DataLines(left, address) == goal && lines != [] && Unbroken(ctrlc, |lines|)
      decreases count, more
    {
      if count > 0 {
        assert mem[address + reclen] == left[reclen];
        assert left[..reclen] + [left[reclen]] == left[..reclen + 1];
        Collect(data, reclen, mem[address + reclen], left[..reclen]);
        checksum := checksum + mem[address + reclen] as int;
        reclen := reclen + 1;
        count := count - 1;
      }
      if reclen == PER_RECORD || count == 0 {
        if reclen > 0 {
          ChunkIs(reclen, count);
          lines := EmitRecord(lines, address, data, checksum, reclen, left, goal);
          if ctrlc(|lines| - 1) {
            return -1, lines;
          }
        }
        assert left[reclen..] == mem[address + reclen..from + size];
        left := left[reclen..];
        address := address + reclen;
        checksum, reclen := 0, 0;
        NothingHeld();
      }
      more := count > 0;
    }
    NoDataLines(from + size);
    lines := lines + [EndText()];
    code := if ctrlc(|lines| - 1) then -1 else 0;
  }

  lemma ChunkIs(reclen: nat, count: nat)
    requires reclen == PER_RECORD || (count == 0 && reclen <= PER_RECORD)
    ensures Chunk(reclen + count) == reclen
  {
  }

  method EmitRecord(lines: seq<seq<Byte>>, address: nat, data: array<Byte>, checksum: nat, reclen: nat, ghost left: seq<Byte>, ghost goal: seq<seq<Byte>>)
    returns (r: seq<seq<Byte>>)
    requires 0 < reclen <= PER_RECORD && reclen <= |left| && reclen == Chunk(|left|) && address + |left| <= M32
    requires checksum == Sum(left[..reclen]) && lines + DataLines(left, address) == goal
    requires data.Length == 2 * PER_RECORD + 1 && data[..2 * reclen] == HexAll(left[..reclen]) && data[2 * reclen] == 0
    ensures |r| == |lines| + 1 && r[..|lines|] == lines && r <= goal + [LastLine()]
    ensures r + DataLines(left[reclen..], address + reclen) == goal
  {
    hide HexAll, Sum, DataLine, DataLines, LastLine, Chunk;
    var record := BuildRecord(address, data, checksum, left[..reclen], reclen);
    DataLinesStep(lines, left, address, left[..reclen], goal);
    r := lines + [record];
    PrefixOf(r, DataLines(left[reclen..], address + reclen), LastLine());
  }

  lemma UploadIs(bytes: seq<Byte>, address: nat)
    requires address + |bytes| <= M32
    ensures Upload(bytes, address) == [FirstLine()] + DataLines(bytes, address) + [LastLine()]
  {
  }

  lemma NothingHeld()
    ensures HexAll([]) == [] && Sum([]) == 0
  {
  }

  lemma NoDataLines(address: nat)
    requires address <= M32
    ensures DataLines([], address) == []
  {
  }
}

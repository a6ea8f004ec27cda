/** The receiver itself, with its globals, its loops over getc() and its in-place
    reply buffer. A character read with nothing left on the line means that the
    receiver is still waiting; the methods then return with `more == false`. */
module KermitReceiver {
  import opened Bytes
  import opened KermitWire
  import opened KermitSession
  import Runs = KermitRuns

  function Image(mem: map<int, Byte>, lo: int, hi: int): (s: seq<Byte>)
    requires lo <= hi && forall a :: lo <= a < hi ==> a in mem
    ensures |s| == hi - lo
  {
    seq(hi - lo, i requires 0 <= i < hi - lo => mem[lo + i])
  }

  /** Two memories agree below `lo`. */
  ghost predicate Below(m: map<int, Byte>, m': map<int, Byte>, lo: int) {
    forall a :: a < lo ==> (a in m <==> a in m') && (a in m ==> m[a] == m'[a])
  }

  datatype Status = Starving | HeaderBad | Bad | Good

  datatype Result = StillWaiting | Aborted | Received(size: int)

  class Receiver {
    var mem: map<int, Byte>
    var binStartAddress: int
    var osDataAddr: int
    var osDataAddrSaved: int
    var escape: bool
    var escapeSaved: bool
    var hisEol: Byte
    var hisPadCount: nat
    var hisPadChar: Byte
    var hisQuote: Byte
    var sendParms: seq<Byte>
    var sendPtr: nat
    var out: seq<Byte>
    const ab: array<Byte>

    ghost predicate Valid()
      reads this
    {
      && ab.Length == 24
      && |sendParms| == SEND_DATA_SIZE
      && binStartAddress <= osDataAddrSaved <= osDataAddr
      && forall a :: binStartAddress <= a < osDataAddr ==> a in mem
    }

    ghost function Current(): Point
      requires Valid()
      reads this
    {
      Point(escape, Image(mem, binStartAddress, osDataAddr))
    }

    ghost function Saved(): Point
      requires Valid()
      reads this
    {
      Point(escapeSaved, Image(mem, binStartAddress, osDataAddrSaved))
    }

    ghost function HisParms(): Parms
      reads this
    {
      Parms(hisEol, hisPadCount, hisPadChar, hisQuote)
    }

    /** The globals stand for the session `s`. */
    ghost predicate Represents(s: Session)
      reads this
    {
      Valid() && Current() == s.cur && Saved() == s.saved && HisParms() == s.parms && out == s.out
    }

    constructor (address: int, memory: map<int, Byte>)
      ensures Valid() && fresh(ab)
      ensures binStartAddress == address && mem == memory && out == []
    {
      binStartAddress, osDataAddr, osDataAddrSaved := address, address, address;
      mem := memory;
      escape, escapeSaved := false, false;
      hisEol, hisPadCount, hisPadChar, hisQuote := END_CHAR, 0, 0, K_ESCAPE;
      sendParms := seq(SEND_DATA_SIZE, _ => 0);
      sendPtr := 0;
      out := [];
      ab := new Byte[24](_ => 0);
    }

    // -------------------------------------------------------------- data layer

    method KDataInit()
      modifies this`escape, this`osDataAddr
      ensures !escape && osDataAddr == binStartAddress
    {
      escape := false;
      osDataAddr := binStartAddress;
    }

    method KDataSave()
      requires ab.Length == 24 && |sendParms| == SEND_DATA_SIZE
      requires binStartAddress <= osDataAddr && forall a :: binStartAddress <= a < osDataAddr ==> a in mem
      modifies this`escapeSaved, this`osDataAddrSaved
      ensures Valid() && Saved() == Current()
    {
      escapeSaved := escape;
      osDataAddrSaved := osDataAddr;
    }

    method KDataRestore()
      requires Valid()
      modifies this`escape, this`osDataAddr
      ensures Valid() && Saved() == Current() == old(Saved())
    {
      escape := escapeSaved;
      osDataAddr := osDataAddrSaved;
    }

    method BinDataChar(c: Byte)
      requires Valid()
      modifies this`mem, this`osDataAddr
      ensures Valid() && Saved() == old(Saved()) && Below(mem, old(mem), binStartAddress)
      ensures Current() == Point(escape, old(Current()).bytes + [c])
    {
      mem := mem[osDataAddr := c];
      osDataAddr := osDataAddr + 1;
    }

    method KDataChar(c: Byte)
      requires Valid()
      modifies this`mem, this`osDataAddr, this`escape
      ensures Valid() && Saved() == old(Saved()) && Below(mem, old(mem), binStartAddress)
      ensures Current() == DecodeChar(hisQuote, old(Current()), c)
    {
      if escape {
        BinDataChar(KTrans(c));
        escape := false;
      } else if c == hisQuote {
        escape := true;
      } else {
        BinDataChar(c);
      }
    }

    // -------------------------------------------------------------- replies

    method SendPad()
      modifies this`out
      ensures out == old(out) + Pads(hisPadCount, hisPadChar)
    {
      var count := hisPadCount;
      while count > 0
        invariant 0 <= count <= hisPadCount
        invariant out == old(out) + Pads(hisPadCount - count, hisPadChar)
      {
        out := out + [hisPadChar];
        count := count - 1;
      }
    }

    /** Sums the NUL-terminated text from index 1 on. */
    method Chk1(ghost body: seq<Byte>) returns (r: Small)
      requires |body| + 1 < ab.Length && ab[1 + |body|] == 0
      requires forall k :: 1 <= k <= |body| ==> ab[k] == body[k - 1] && ab[k] != 0
      ensures r == Fold6(Sum(body))
    {
      var total: nat, i: nat := 0, 1;
      while ab[i] != 0
        invariant 1 <= i <= 1 + |body|
        invariant total == Sum(body[..i - 1])
        invariant forall k :: 1 <= k <= |body| ==> ab[k] == body[k - 1] && ab[k] != 0
        decreases 1 + |body| - i
      {
        assert body[..i] == body[..i - 1] + [body[i - 1]];
        SumSnoc(body[..i - 1], body[i - 1]);
        total := total + ab[i];
        i := i + 1;
      }
      assert i == 1 + |body| && body[..|body|] == body;
      r := Fold6(total);
    }

    method S1SendPacket(ghost text: seq<Byte>)
      requires |text| < ab.Length && ab[|text|] == 0
      requires forall i :: 0 <= i < |text| ==> ab[i] == text[i] && ab[i] != 0
      modifies this`out
      ensures out == old(out) + Pads(hisPadCount, hisPadChar) + text
    {
      SendPad();
      var i := 0;
      while ab[i] != 0
        invariant 0 <= i <= |text|
        invariant out == old(out) + Pads(hisPadCount, hisPadChar) + text[..i]
        invariant forall k :: 0 <= k < |text| ==> ab[k] == text[k]
        decreases |text| - i
      {
        assert ab[i] == text[i];
        out := out + [ab[i]];
        i := i + 1;
      }
      assert text[..|text|] == text;
    }

    /** Fills in the frame around `data`, already in place from index 4 on, and sends it. */
    method Finish(n: Small, kind: Byte, ghost data: seq<Byte>, length: Small)
      requires Valid() && length == 3 + |data| && |data| <= 13
      requires kind != 0
      requires forall k :: 4 <= k <= length ==> ab[k] == data[k - 4] && ab[k] != 0
      modifies this`out, ab
      ensures out == old(out) + Reply(HisParms(), n, kind, data)
    {
      hide Fold6, Sum, Image;
      ghost var body := [ToChar(length), ToChar(n), kind] + data;
      SetHeader(n, kind, length);
      ab[length + 1] := 0;
      var chk := Chk1(body);
      ab[length + 1] := ToChar(chk);
      ab[length + 2] := hisEol;
      ab[length + 3] := 0;
      ghost var text := [START_CHAR] + body + [ToChar(chk)] + (if hisEol == 0 then [] else [hisEol]);
      S1SendPacket(text);
    }

    method SetHeader(n: Small, kind: Byte, length: Small)
      requires ab.Length == 24
      modifies ab
      ensures ab[0] == START_CHAR && ab[1] == ToChar(length) && ab[2] == ToChar(n) && ab[3] == kind
      ensures forall i :: 4 <= i < ab.Length ==> ab[i] == old(ab[i])
    {
      ab[0] := START_CHAR;
      ab[1] := ToChar(length);
      ab[2] := ToChar(n);
      ab[3] := kind;
    }

    method SendAck(n: Small)
      requires Valid()
      modifies this`out, ab
      ensures out == old(out) + Reply(HisParms(), n, ACK_TYPE, [])
    {
      Finish(n, ACK_TYPE, [], 3);
    }

    method SendNack(n: Small)
      requires Valid()
      modifies this`out, ab
      ensures out == old(out) + Reply(HisParms(), n, NACK_TYPE, [])
    {
      Finish(n, NACK_TYPE, [], 3);
    }

    /** Goes through the Send-Init fields one by one, stopping after the last one he sent:
        notes what he asks for and puts the answers into the reply buffer. */
    method FillParms(count: nat) returns (length: nat)
      requires Valid() && count < SEND_DATA_SIZE - 1
      modifies this`hisEol, this`hisPadCount, this`hisPadChar, this`hisQuote, ab
      ensures HisParms() == ParmsFrom(sendParms[..count])
      ensures length == 3 + |ParmReply(count)|
      ensures forall k :: 4 <= k <= length ==> ab[k] == ParmReply(count)[k - 4] && ab[k] != 0
    {
      hisEol, hisPadCount, hisPadChar, hisQuote := END_CHAR, 0, 0, K_ESCAPE;
      length := FillWhatHeNeeds(count);
      if count > 6 {
        length := FillRefusals(count);
      }
    }

    method FillWhatHeNeeds(count: nat) returns (length: nat)
      requires Valid() && count < SEND_DATA_SIZE - 1 && HisParms() == DEFAULT_PARMS
      modifies this`hisEol, this`hisPadCount, this`hisPadChar, this`hisQuote, ab
      ensures HisParms() == ParmsFrom(sendParms[..count])
      ensures length == (if count < 6 then 3 + count else 9)
      ensures forall k :: 4 <= k <= length ==> ab[k] == MY_PARMS[k - 4]
    {
      length := 3;
      label fields: {
        if count <= 0 { break fields; }
        ab[4] := ToChar(94);                                  // MAXL
        length := 4;
        if count <= 1 { break fields; }
        ab[5] := ToChar(1);                                   // TIME
        length := 5;
        if count <= 2 { break fields; }
        hisPadCount := UnToChar(sendParms[2]);                // NPAD
        ab[6] := ToChar(0);
        length := 6;
        if count <= 3 { break fields; }
        hisPadChar := KTrans(sendParms[3]);                   // PADC
        ab[7] := 0x40;
        length := 7;
        if count <= 4 { break fields; }
        hisEol := UnToChar(sendParms[4]);                     // EOL
        ab[8] := ToChar(END_CHAR);
        length := 8;
        if count <= 5 { break fields; }
        hisQuote := sendParms[5];                             // QCTL
        ab[9] := 0x23;
        length := 9;
      }
    }

    method FillRefusals(count: nat) returns (length: nat)
      requires ab.Length == 24 && 6 < count < SEND_DATA_SIZE - 1
      modifies ab
      ensures length == 3 + |ParmReply(count)|
      ensures forall i :: 4 <= i < 10 ==> ab[i] == old(ab[i])
      ensures forall k :: 10 <= k <= length ==> ab[k] == MY_PARMS[k - 4]
    {
      label fields: {
        ab[10] := 0x4E;                                       // QBIN
        length := 10;
        if count <= 7 { break fields; }
        ab[11] := 0x31;                                       // CHKT
        length := 11;
        if count <= 8 { break fields; }
        ab[12] := 0x4E;                                       // REPT
        length := 12;
        if count <= 9 { break fields; }
        ab[13] := ToChar(2);                                  // CAPAS
        ab[14] := ToChar(0);
        ab[15] := ToChar(94);
        ab[16] := ToChar(94);
        length := 16;
      }
    }

    method HandleSendPacket(n: Small, ghost data: seq<Byte>)
      requires Valid() && Buffered(data)
      modifies this`hisEol, this`hisPadCount, this`hisPadChar, this`hisQuote, this`sendPtr, this`out, ab
      ensures HisParms() == ParmsFrom(data)
      ensures out == old(out) + Reply(ParmsFrom(data), n, ACK_TYPE, ParmReply(|data|))
    {
      if sendPtr == SEND_DATA_SIZE - 1 {
        sendPtr := sendPtr - 1;
      }
      var length := FillParms(sendPtr);
      ghost var count := sendPtr;
      assert ParmBytes(count) == count == ParmBytes(|data|);
      assert forall i :: 0 <= i < count ==> sendParms[..count][i] == data[i];
      Finish(n, ACK_TYPE, ParmReply(count), length);
    }

    /** The Send-Init buffer holds `data`, as far as it fits; its last cell takes the overflow. */
    ghost predicate Buffered(data: seq<Byte>)
      reads this
    {
      && |sendParms| == SEND_DATA_SIZE
      && sendPtr == (if |data| < SEND_DATA_SIZE then |data| else SEND_DATA_SIZE - 1)
      && forall i :: 0 <= i < |data| && i < SEND_DATA_SIZE - 1 ==> sendParms[i] == data[i]
    }

    method SaveSendChar(c: Byte, ghost data: seq<Byte>)
      requires Buffered(data)
      modifies this`sendParms, this`sendPtr
      ensures Buffered(data + [c])
    {
      sendParms := sendParms[sendPtr := c];
      sendPtr := sendPtr + 1;
      if sendPtr >= SEND_DATA_SIZE {
        sendPtr := sendPtr - 1;
      }
    }

    // -------------------------------------------------------------- the receive loop

    /** The rest of the packet, its check and END_CHAR. */
    method ReceiveData(line: seq<Byte>, p: nat, count: int, sumSoFar: nat, ghost n: Small, kState: Byte)
      returns (status: Status, pos: nat, ghost data: seq<Byte>)
      requires Valid() && Buffered([])
      modifies this`mem, this`osDataAddr, this`escape, this`sendParms, this`sendPtr
      ensures Valid() && Saved() == old(Saved()) && Below(mem, old(mem), binStartAddress)
      ensures status == Verdict(ParseData(line, p, count, sumSoFar, n, kState, []))
      ensures status != Starving ==> pos == ParseData(line, p, count, sumSoFar, n, kState, []).next
      ensures status == Good ==>
                && data == ParseData(line, p, count, sumSoFar, n, kState, []).data
                && Current() == (if kState == DATA_TYPE then DecodeAll(hisQuote, old(Current()), data) else old(Current()))
                && (kState == SEND_TYPE ==> Buffered(data))
    {
      var sum: nat, length := sumSoFar, count;
      pos := p;
      data := [];
      while length > 1
        invariant Valid() && Saved() == old(Saved()) && Below(mem, old(mem), binStartAddress)
        invariant Current() == if kState == DATA_TYPE then DecodeAll(hisQuote, old(Current()), data) else old(Current())
        invariant |sendParms| == SEND_DATA_SIZE
        invariant kState == SEND_TYPE ==> Buffered(data)
        invariant ParseData(line, p, count, sumSoFar, n, kState, []) == ParseData(line, pos, length, sum, n, kState, data)
      {
        if pos >= |line| { return Starving, pos, data; }
        var newChar := line[pos];
        pos := pos + 1;
        if IsControl(newChar) { return Bad, pos, data; }
        sum := sum + newChar;
        length := length - 1;
        if kState == DATA_TYPE {
          KDataChar(newChar);
          assert (data + [newChar])[..|data|] == data;
        } else if kState == SEND_TYPE {
          SaveSendChar(newChar, data);
        }
        data := data + [newChar];
      }
      if pos >= |line| { return Starving, pos, data; }
      if IsControl(line[pos]) || line[pos] != CheckChar(sum) { return Bad, pos + 1, data; }
      pos := pos + 1;
      if pos >= |line| { return Starving, pos, data; }
      status := if line[pos] != END_CHAR then Bad else Good;
      pos := pos + 1;
    }

    /** Length, sequence number and type, with the checkpoint or rollback that the
        sequence number calls for; then the body. */
    method ReceivePacket(line: seq<Byte>, p: nat, lastSeen: int, nBefore: Small)
      returns (status: Status, pos: nat, lastN: int, n: Small, kState: Byte, ghost data: seq<Byte>)
      requires Valid() && sendPtr == 0
      modifies this`mem, this`osDataAddr, this`osDataAddrSaved, this`escape, this`escapeSaved, this`sendParms, this`sendPtr
      ensures Valid() && Below(mem, old(mem), binStartAddress)
      ensures status == Verdict(Parse(line, p))
      ensures status == Starving ==> Saved() == old(Saved()) || Saved() == old(Current())
      ensures status != Starving ==> pos == Parse(line, p).next
      ensures status == HeaderBad ==> Saved() == old(Saved()) && lastN == lastSeen && n == nBefore
      ensures status == Bad || status == Good ==>
                && n == lastN == Parse(line, p).n
                && Saved() == (if n == lastSeen then old(Saved()) else old(Current()))
      ensures status == Good ==>
                && kState == Parse(line, p).kind && data == Parse(line, p).data
                && Current() == (if kState == DATA_TYPE then DecodeAll(hisQuote, Saved(), data) else Saved())
                && (kState == SEND_TYPE ==> Buffered(data))
    {
      pos, lastN, n, kState, data := p, lastSeen, nBefore, 0, [];
      if pos >= |line| { status := Starving; return; }
      var newChar := line[pos];
      pos := pos + 1;
      if IsControl(newChar) { status := HeaderBad; return; }
      var sum: nat := newChar;
      var length: int := UnToChar(newChar);
      if pos >= |line| { status := Starving; return; }
      newChar := line[pos];
      pos := pos + 1;
      if IsControl(newChar) { status := HeaderBad; return; }
      sum := sum + newChar;
      n := UnToChar(newChar);
      length := length - 1;
      if n == lastN {
        KDataRestore();
      } else {
        lastN := n;
        KDataSave();
      }
      if pos >= |line| { status := Starving; return; }
      newChar := line[pos];
      pos := pos + 1;
      if IsControl(newChar) { status := Bad; return; }
      sum := sum + newChar;
      kState := newChar;
      length := length - 1;
      if length == -2 {
        var ok;
        ok, pos, length, sum := ExtendedLength(line, pos, sum, n, kState);
        if ok != Good { status := ok; return; }
      }
      ParseDataAdvances(line, pos, length, sum, n, kState, []);
      status, pos, data := ReceiveData(line, pos, length, sum, n, kState);
    }

    method ExtendedLength(line: seq<Byte>, p: nat, sumSoFar: nat, ghost n: Small, ghost kState: Byte)
      returns (ok: Status, pos: nat, length: nat, sum: nat)
      ensures ok != HeaderBad
      ensures ok != Good ==> ok == Verdict(ParseExtended(line, p, sumSoFar, n, kState))
      ensures ok == Bad ==> ParseExtended(line, p, sumSoFar, n, kState) == Rejected(pos, n)
      ensures ok == Good ==> ParseExtended(line, p, sumSoFar, n, kState) == ParseData(line, pos, length, sum, n, kState, [])
    {
      pos, length, sum := p, 0, sumSoFar;
      if pos >= |line| { return Starving, pos, length, sum; }
      var newChar := line[pos];
      pos := pos + 1;
      if IsControl(newChar) { return Bad, pos, length, sum; }
      sum := sum + newChar;
      var lenHi := UnToChar(newChar);
      if pos >= |line| { return Starving, pos, length, sum; }
      newChar := line[pos];
      pos := pos + 1;
      if IsControl(newChar) { return Bad, pos, length, sum; }
      sum := sum + newChar;
      var lenLo := UnToChar(newChar);
      length := lenHi as int * 95 + lenLo;
      if pos >= |line| { return Starving, pos, length, sum; }
      newChar := line[pos];
      pos := pos + 1;
      if IsControl(newChar) || newChar != CheckChar(sum) { return Bad, pos, length, sum; }
      sum := sum + newChar;
      ok := Good;
    }

    /** Waits for START, or for ^C. */
    method WaitForStart(line: seq<Byte>, p: nat) returns (pos: nat)
      requires p <= |line|
      ensures pos == Scan(line, p)
    {
      pos := p;
      while pos < |line| && line[pos] != START_CHAR && line[pos] != ETX_CHAR
        invariant p <= pos <= |line|
        invariant Scan(line, p) == Scan(line, pos)
      {
        pos := pos + 1;
      }
    }

    /** What follows a packet: roll back and NAK a damaged one, answer a good one. */
    method Respond(status: Status, n: Small, kState: Byte, ghost data: seq<Byte>,
                   ghost lastN: int, ghost s: Session, ghost e: Parsed)
      returns (done: bool)
      requires Valid() && HisParms() == s.parms && out == s.out
      requires !e.Starved? && status == Verdict(e)
      requires if status == HeaderBad then Saved() == s.saved && n == s.n && lastN == s.lastN
               else n == lastN == e.n && Saved() == Base(s, n)
      requires status == Good ==>
                 && kState == e.kind && data == e.data
                 && Current() == (if kState == DATA_TYPE then DecodeAll(hisQuote, Saved(), data) else Saved())
                 && (kState == SEND_TYPE ==> Buffered(data))
      modifies this`escape, this`osDataAddr, this`hisEol, this`hisPadCount, this`hisPadChar, this`hisQuote,
               this`sendPtr, this`out, ab
      ensures Represents(Step(s, e)) && n == Step(s, e).n && lastN == Step(s, e).lastN
      ensures done <==> e.Accepted? && e.kind == BREAK_TYPE
    {
      done := false;
      if status != Good {
        KDataRestore();
        SendNack(n);
      } else if kState == SEND_TYPE {
        HandleSendPacket(n, data);
      } else {
        SendAck(n);
        if kState == BREAK_TYPE { done := true; }
      }
    }

    method Initialize()
      requires ab.Length == 24 && |sendParms| == SEND_DATA_SIZE && out == []
      modifies this`hisEol, this`hisPadCount, this`hisPadChar, this`hisQuote, this`escape, this`escapeSaved,
               this`osDataAddr, this`osDataAddrSaved
      ensures Represents(INITIAL)
    {
      hisEol, hisPadCount, hisPadChar, hisQuote := END_CHAR, 0, 0, K_ESCAPE;
      KDataInit();
      KDataSave();
    }

    /** The whole receive loop. What is on the line decides everything: the globals end up
        standing for the session that `Run` describes, whatever they held before. */
    method KRecv(line: seq<Byte>) returns (r: Result)
      requires ab.Length == 24 && |sendParms| == SEND_DATA_SIZE && out == []
      modifies this, ab
      ensures Valid() && binStartAddress == old(binStartAddress) && Below(mem, old(mem), binStartAddress)
      ensures var o := Run(INITIAL, line, 0);
              match o
              case Waiting(s, inside) =>
                && r == StillWaiting && out == s.out && (!inside ==> Represents(s))
                && (inside ==> Saved() == s.saved || Saved() == s.cur)
              case Interrupted(s) => r == Aborted && Represents(s)
              case Finished(s) => r == Received(|s.cur.bytes|) && Represents(s)
    {
      hide Reply, ParmsFrom, ParmReply, DecodeAll, Parse, Step, Run, Image, Below;
      Initialize();
      BelowSame(mem, binStartAddress);
      var n: Small, lastN := 0, -1;
      var pos, done := 0, false;
      ghost var s := INITIAL;
      while !done
        invariant pos <= |line| && binStartAddress == old(binStartAddress) && Below(mem, old(mem), binStartAddress)
        invariant Represents(s) && lastN == s.lastN && n == s.n
        invariant Run(INITIAL, line, 0) == if done then Finished(s) else Run(s, line, pos)
        decreases if done then 0 else 1, |line| - pos
      {
        sendPtr := 0;
        ghost var from := pos;
        pos := WaitForStart(line, pos);
        RunUnfolds(s, line, from);
        if pos == |line| { return StillWaiting; }
        if line[pos] == ETX_CHAR { return Aborted; }
        pos := pos + 1;
        ghost var e := Parse(line, pos);
        var status, kState;
        ghost var data;
        ghost var before := mem;
        status, pos, lastN, n, kState, data := ReceivePacket(line, pos, lastN, n);
        BelowThen(mem, before, old(mem), binStartAddress);
        if status == Starving { return StillWaiting; }
        done := Respond(status, n, kState, data, lastN, s, e);
        s := Step(s, e);
      }
      r := Received(osDataAddr - binStartAddress);
    }

    /** `loadb`: sets the load address and receives. A file sent by a stop-and-wait sender is
        in memory when it returns, exactly once and in order, and its size is reported. */
    method LoadSerialBin(offset: int, line: seq<Byte>, ghost f: Runs.Transfer, ghost chunks: seq<seq<Byte>>, ghost rest: seq<Byte>)
      returns (r: Result)
      requires ab.Length == 24 && |sendParms| == SEND_DATA_SIZE && out == []
      requires Runs.ValidTransfer(f, chunks) && line == Runs.LineOf(f) + rest
      modifies this, ab
      ensures Valid() && binStartAddress == offset && Below(mem, old(mem), offset)
      ensures r == Received(|Runs.Concat(chunks)|)
      ensures osDataAddr == offset + |Runs.Concat(chunks)|
      ensures Image(mem, offset, osDataAddr) == Runs.Concat(chunks)
    {
      binStartAddress := offset;
      r := KRecv(line);
      Runs.TransferStoresFile(f, chunks, rest);
    }

    static ghost function Verdict(e: Parsed): Status {
      match e
      case Starved => Starving
      case HeaderError(_) => HeaderBad
      case Rejected(_, _) => Bad
      case Accepted(_, _, _, _) => Good
    }
  }

  lemma BelowThen(m: map<int, Byte>, m': map<int, Byte>, m'': map<int, Byte>, lo: int)
    requires Below(m, m', lo) && Below(m', m'', lo)
    ensures Below(m, m'', lo)
  {
  }

  lemma BelowSame(m: map<int, Byte>, lo: int)
    ensures Below(m, m, lo)
  {
  }
}

/** The replies, character by character: which one goes out after each packet, and what a
    Send-Init agrees on. Characters and positions are those of the packet layout itself. */
module KermitReplies {
  import opened Bytes
  import opened KermitWire
  import opened KermitSession

  /** The characters of a packet, added up from the front. */
  function Total(s: seq<Byte>): (t: nat) { if s == [] then 0 else s[0] as int + Total(s[1..]) }

  /** The block check of a sum: its low six bits and the two above them, folded into a
      printable character. */
  function Check(t: nat): (c: int)
    ensures 0x20 <= c < 0x60
  {
    0x20 + (t % 64 + t / 64 % 4) % 64
  }

  /** A reply of type `kind` with the number `n`, as it goes out after its padding. */
  function Chars(n: Small, kind: Byte, data: seq<Byte>, eol: Byte): seq<Byte>
    requires |data| <= 91
  {
    var body: seq<Byte> := [0x23 + |data|, 0x20 + n, kind] + data;
    [0x01] + body + [Check(Total(body))] + (if eol == 0 then [] else [eol])
  }

  /** Everything said so far ends with this. */
  predicate EndsIn(out: seq<Byte>, tail: seq<Byte>) {
    |tail| <= |out| && out[|out| - |tail|..] == tail
  }

  lemma {:induction false} TotalSnoc(s: seq<Byte>, b: Byte)
    ensures Total(s + [b]) == Total(s) + b
  {
    if s == [] {
      assert s + [b] == [b] && [b][1..] == [];
    } else {
      assert (s + [b])[1..] == s[1..] + [b];
      TotalSnoc(s[1..], b);
    }
  }

  lemma {:induction false} TotalIsSum(s: seq<Byte>)
    ensures Total(s) == Sum(s)
    decreases |s|
  {
    if s != [] {
      var k := |s| - 1;
      assert s == s[..k] + [s[k]];
      TotalSnoc(s[..k], s[k]);
      TotalIsSum(s[..k]);
    }
  }

  lemma CheckIs(t: nat)
    ensures CheckChar(t) == Check(t)
  {
    FoldSplit(t / 64, t % 64);
  }

  lemma ReplyIs(parms: Parms, n: Small, kind: Byte, data: seq<Byte>)
    requires |data| <= 91
    ensures Reply(parms, n, kind, data) == Pads(parms.padCount, parms.padChar) + Chars(n, kind, data, parms.eol)
  {
    hide Sum, Total, CheckChar, Check, Pads;
    var body: seq<Byte> := [0x23 + |data|, 0x20 + n, kind] + data;
    TotalIsSum(body);
    CheckIs(Total(body));
  }

  // ---------------------------------------------------------------- which reply to what

  /** What is offered in answer to the fields of a Send-Init: 94 characters, one second, no
      padding, CR, '#', no eighth-bit prefix, check type 1, no repeats, and long packets of up to
      94 * 95 + 94 characters. */
  const OFFER: seq<Byte> := [0x7E, 0x21, 0x20, 0x40, 0x2D, 0x23, 0x4E, 0x31, 0x4E, 0x22, 0x20, 0x7E, 0x7E]

  /** As many fields as were sent, the tenth bringing three more. */
  function Offered(count: nat): (r: seq<Byte>)
    ensures |r| <= 13
  {
    if count >= 10 then OFFER else OFFER[..count]
  }

  lemma OfferIs(count: nat)
    ensures ParmReply(count) == Offered(count)
  {
  }

  /** The number a reply carries: that of the packet, or the last one seen if the packet broke
      before its number. */
  function Number(s: Session, e: Parsed): Small
    requires !e.Starved?
  {
    if e.HeaderError? then s.n else e.n
  }

  /** Every packet attempt is answered by exactly one reply, behind the padding that was asked for:
      START, a length, the number, and Y if and only if the packet was accepted, N otherwise. */
  lemma StepSays(s: Session, e: Parsed)
    requires !e.Starved?
    ensures var s' := Step(s, e);
            && s.out <= s'.out
            && var r, p := s'.out[|s.out|..], s'.parms.padCount;
            && |r| >= p + 5 && (forall i :: 0 <= i < p ==> r[i] == s'.parms.padChar)
            && r[p] == 0x01 && r[p + 1] >= 0x23 && r[p + 2] == 0x20 + Number(s, e)
            && r[p + 3] == (if e.Accepted? then 0x59 else 0x4E)
            && r[p..] == Chars(Number(s, e), if e.Accepted? then 0x59 else 0x4E,
                               if e.Accepted? && e.kind == 0x53 then Offered(|e.data|) else [], s'.parms.eol)
  {
    hide Step, Chars, Offered, Pads;
    var s', n := Step(s, e), Number(s, e);
    var kind: Byte := if e.Accepted? then 0x59 else 0x4E;
    var data := if e.Accepted? && e.kind == 0x53 then Offered(|e.data|) else [];
    StepAdds(s, e);
    CharsShape(n, kind, data, s'.parms.eol);
    Behind(s.out, s'.parms.padCount, s'.parms.padChar, Chars(n, kind, data, s'.parms.eol));
  }

  lemma StepAdds(s: Session, e: Parsed)
    requires !e.Starved?
    ensures var s' := Step(s, e);
            var chars := Chars(Number(s, e), if e.Accepted? then 0x59 else 0x4E,
                               if e.Accepted? && e.kind == 0x53 then Offered(|e.data|) else [], s'.parms.eol);
            s'.out == s.out + (Pads(s'.parms.padCount, s'.parms.padChar) + chars)
  {
    hide Chars, DecodeAll, ParmsFrom, Reply, ParmReply, Offered, Pads;
    var kind: Byte := if e.Accepted? then 0x59 else 0x4E;
    var init := e.Accepted? && e.kind == 0x53;
    if init { OfferIs(|e.data|); }
    ReplyIs(Step(s, e).parms, Number(s, e), kind, if init then Offered(|e.data|) else []);
  }

  lemma Behind(out: seq<Byte>, count: nat, c: Byte, chars: seq<Byte>)
    requires |chars| >= 5
    ensures var all := out + (Pads(count, c) + chars);
            && out <= all
            && var r := all[|out|..];
            && |r| == count + |chars| && r[count..] == chars && (forall i :: 0 <= i < count ==> r[i] == c)
            && r[count] == chars[0] && r[count + 1] == chars[1] && r[count + 2] == chars[2] && r[count + 3] == chars[3]
  {
    var pads := Pads(count, c);
    assert (out + (pads + chars))[|out|..] == pads + chars;
    assert (pads + chars)[count..] == chars;
    forall i | 0 <= i < |chars| ensures (pads + chars)[count + i] == chars[i] {}
  }

  lemma CharsShape(n: Small, kind: Byte, data: seq<Byte>, eol: Byte)
    requires |data| <= 91
    ensures var c := Chars(n, kind, data, eol);
            |c| >= 5 && c[0] == 0x01 && c[1] == 0x23 + |data| && c[2] == 0x20 + n && c[3] == kind
  {
    hide Check, Total;
  }

  /** The two answers cannot be taken for each other. */
  lemma AckIsNotNak(out: seq<Byte>, n: Small, m: Small, eol: Byte)
    ensures !(EndsIn(out, Chars(n, 0x59, [], eol)) && EndsIn(out, Chars(m, 0x4E, [], eol)))
  {
    hide Check, Total;
    CharsShape(n, 0x59, [], eol);
    CharsShape(m, 0x4E, [], eol);
    var a, b := Chars(n, 0x59, [], eol), Chars(m, 0x4E, [], eol);
    assert |a| == |b| && a[3] != b[3];
  }

  // ---------------------------------------------------------------- what a Send-Init asks for

  /** A character without its bias of 0x20. */
  function Unbiased(c: Byte): nat { if c >= 0x20 then c - 0x20 else c + 0xE0 }

  /** A control character sent as the printable one 0x40 above or below it. */
  function Control(c: Byte): Byte {
    if 0x40 <= c < 0x60 || 0xC0 <= c < 0xE0 then c - 0x40
    else if c == 0x3F || c == 0xBF then c + 0x40
    else c
  }

  lemma ControlIs(c: Byte)
    ensures KTrans(c) == Control(c)
  {
  }

  /** After an accepted Send-Init: the third field is the number of padding characters, the fourth
      the padding character, the fifth the end of line and the sixth the control prefix; a field
      that was not sent keeps its default of no padding, NUL, CR and '#'. */
  lemma SendInitAgrees(s: Session, next: nat, n: Small, data: seq<Byte>)
    ensures var p := Step(s, Accepted(next, n, 0x53, data)).parms;
            && p.padCount == (if |data| >= 3 then Unbiased(data[2]) else 0)
            && p.padChar == (if |data| >= 4 then Control(data[3]) else 0)
            && p.eol == (if |data| >= 5 then Unbiased(data[4]) else 0x0D)
            && p.quote == (if |data| >= 6 then data[5] else 0x23)
  {
    hide Reply, KTrans, Control;
    if |data| >= 4 { ControlIs(data[3]); }
  }

  /** Only an accepted Send-Init changes what was agreed. */
  lemma ParmsKept(s: Session, e: Parsed)
    requires !e.Starved? && !(e.Accepted? && e.kind == 0x53)
    ensures Step(s, e).parms == s.parms
  {
  }

  // ---------------------------------------------------------------- the packet format

  /** A packet after its START, character by character: length, number, type, for a long packet two
      more length characters and a header check, then data, block check and CR. */
  predicate OnWire(line: seq<Byte>, n: Small, kind: Byte, data: seq<Byte>) {
    var k := |line| - 2;
    && k >= 3 && (forall i :: 0 <= i <= k ==> line[i] >= 0x20) && line[k + 1] == 0x0D
    && line[1] == 0x20 + n && line[2] == kind && line[k] == Check(Total(line[..k]))
    && if line[0] != 0x20 then
         data == line[3..k] && |data| == if line[0] > 0x23 then line[0] - 0x23 else 0
       else
         && k >= 6 && data == line[6..k] && line[5] == Check(Total(line[..5]))
         && var m := (line[3] as int - 0x20) * 95 + (line[4] as int - 0x20);
            |data| == if m > 1 then m - 1 else 0
  }

  /** Exactly the lines of that form are accepted, and as what they say. */
  lemma AcceptedIff(line: seq<Byte>, n: Small, kind: Byte, data: seq<Byte>)
    ensures Parse(line, 0) == Accepted(|line|, n, kind, data) <==> OnWire(line, n, kind, data)
  {
    hide Parse, Total, Check, Sum, CheckChar, OnWire;
    if Parse(line, 0) == Accepted(|line|, n, kind, data) { AcceptedOnWire(line); }
    if OnWire(line, n, kind, data) { OnWireAccepted(line, n, kind, data); }
  }

  lemma AcceptedOnWire(line: seq<Byte>)
    requires Parse(line, 0).Accepted? && Parse(line, 0).next == |line|
    ensures OnWire(line, Parse(line, 0).n, Parse(line, 0).kind, Parse(line, 0).data)
  {
    hide Parse, Total, Check, Sum, CheckChar;
    AcceptedIsWellFormed(line);
    AcceptedHeader(line);
    var e, k := Parse(line, 0), |line| - 2;
    FramedEnd(line, if line[0] != 0x20 then 3 else 6, e.data, e.next);
    TotalIsSum(line[..k]);
    CheckIs(Total(line[..k]));
    if line[0] != 0x20 {
      assert k >= 3 && e.data == line[3..k];
    } else {
      TotalIsSum(line[..5]);
      CheckIs(Total(line[..5]));
      assert k >= 6 && e.data == line[6..k] && line[5] == Check(Total(line[..5]));
    }
    assert forall i :: 0 <= i <= k ==> line[i] >= 0x20;
    assert line[k + 1] == 0x0D && line[1] == 0x20 + e.n && line[k] == Check(Total(line[..k]));
  }

  lemma OnWireAccepted(line: seq<Byte>, n: Small, kind: Byte, data: seq<Byte>)
    requires OnWire(line, n, kind, data)
    ensures Parse(line, 0) == Accepted(|line|, n, kind, data)
  {
    hide Parse, Total, Check, Sum, CheckChar, ParseData;
    var k, at := |line| - 2, if line[0] != 0x20 then 3 else 6;
    TotalIsSum(line[..k]);
    CheckIs(Total(line[..k]));
    assert line[..at] + data == line[..k];
    assert line[at..] == data + [CheckChar(Sum(line[..at] + data)), 0x0D];
    if line[0] != 0x20 {
      ShortHeader(line);
      ParseDataTail(line, 3, line[0] as int - 0x22, n, kind, [], data, 0x0D);
    } else {
      TotalIsSum(line[..5]);
      CheckIs(Total(line[..5]));
      LongHeader(line);
      ParseDataTail(line, 6, (line[3] as int - 0x20) * 95 + (line[4] as int - 0x20), n, kind, [], data, 0x0D);
    }
    assert [] + data == data;
  }

  /** A header is broken exactly if its length or its number is a control character. */
  lemma HeaderErrorIff(line: seq<Byte>)
    ensures Parse(line, 0).HeaderError?
            <==> (|line| >= 1 && line[0] < 0x20) || (|line| >= 2 && line[1] < 0x20)
  {
    hide ParseKind;
    if |line| >= 2 && line[0] >= 0x20 && line[1] >= 0x20 {
      ParseAdvances(line, 0);
      KindIsNoHeader(line);
    }
  }

  lemma KindIsNoHeader(line: seq<Byte>)
    requires |line| >= 2
    ensures forall length: int, sum: nat, n: Small :: !ParseKind(line, 2, length, sum, n).HeaderError?
  {
    forall length: int, sum: nat, n: Small ensures !ParseKind(line, 2, length, sum, n).HeaderError? {
      if |line| > 2 {
        ParseDataAdvances(line, 3, length - 1, sum + line[2], n, line[2], []);
        if |line| > 5 {
          var t := sum + line[2] + line[3] + line[4];
          ParseDataAdvances(line, 6, UnToChar(line[3]) * 95 + UnToChar(line[4]), t + line[5], n, line[2], []);
        }
      }
    }
  }

  lemma {:induction false} DataPrompt(line: seq<Byte>, m: nat, p: nat, length: int, sum: nat, n: Small, kind: Byte, data: seq<Byte>)
    requires m <= |line| && !ParseData(line, p, length, sum, n, kind, data).Starved?
    ensures var e := ParseData(line, p, length, sum, n, kind, data);
            ParseData(line[..m], p, length, sum, n, kind, data) == if m >= e.next then e else Starved
    decreases length
  {
    hide CheckChar;
    ParseDataAdvances(line, p, length, sum, n, kind, data);
    if p < m && !IsControl(line[p]) && length > 1 {
      DataPrompt(line, m, p + 1, length - 1, sum + line[p], n, kind, data + [line[p]]);
    }
    if p >= m && !IsControl(line[p]) && length > 1 {
      ParseDataAdvances(line, p + 1, length - 1, sum + line[p], n, kind, data + [line[p]]);
    }
  }

  /** The verdict on a packet falls at the first character that allows it: cut off before that
      character the packet is still unfinished, cut off after it nothing changes. */
  lemma VerdictIsPrompt(line: seq<Byte>, m: nat)
    requires m <= |line| && !Parse(line, 0).Starved?
    ensures Parse(line[..m], 0) == if m >= Parse(line, 0).next then Parse(line, 0) else Starved
  {
    hide CheckChar, ParseData;
    ParseAdvances(line, 0);
    if |line| > 2 && !IsControl(line[0]) && !IsControl(line[1]) && !IsControl(line[2]) {
      var n, kind := UnToChar(line[1]), line[2];
      var sum := line[0] as int + line[1] + line[2];
      if UnToChar(line[0]) == 0 {
        if |line| > 5 && !IsControl(line[3]) && !IsControl(line[4]) {
          var t: nat := sum + line[3] + line[4];
          if !IsControl(line[5]) && line[5] == CheckChar(t) {
            var length := UnToChar(line[3]) * 95 + UnToChar(line[4]);
            DataPrompt(line, m, 6, length, t + line[5], n, kind, []);
            ParseDataAdvances(line, 6, length, t + line[5], n, kind, []);
          }
        }
      } else {
        DataPrompt(line, m, 3, UnToChar(line[0]) - 2, sum, n, kind, []);
        ParseDataAdvances(line, 3, UnToChar(line[0]) - 2, sum, n, kind, []);
      }
    }
  }
}

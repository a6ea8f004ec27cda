/** What the receiver guarantees over whole runs: control prefixing is undone exactly,
    replies are packets, and a stop-and-wait transfer stores every payload exactly once,
    in order, whatever was damaged or repeated on the way. */
module KermitRuns {
  import opened Bytes
  import opened KermitWire
  import opened KermitSession
  import opened KermitReplies

  // ---------------------------------------------------------------- control prefixing

  /** The prefix characters the Kermit manual allows: 33..62 and 96..126. */
  predicate LegalQuote(q: Byte) { 33 <= q <= 62 || 96 <= q <= 126 }

  /** A byte whose low seven bits are a control code, or are the prefix, needs prefixing. */
  predicate NeedsPrefix(quote: Byte, b: Byte) {
    b % 128 < 32 || b % 128 == 127 || b % 128 == quote
  }

  /** Exclusive-or with 0x40. */
  function Ctl(b: Byte): Byte { if (b / 64) % 2 == 0 then b + 64 else b - 64 }

  function QuoteByte(quote: Byte, b: Byte): seq<Byte> {
    if !NeedsPrefix(quote, b) then [b]
    else if b % 128 == quote then [quote, b]
    else [quote, Ctl(b)]
  }

  function Quote(quote: Byte, bytes: seq<Byte>): seq<Byte> {
    if bytes == [] then []
    else Quote(quote, bytes[..|bytes| - 1]) + QuoteByte(quote, bytes[|bytes| - 1])
  }

  lemma {:induction false} DecodeConcat(quote: Byte, p: Point, a: seq<Byte>, b: seq<Byte>)
    ensures DecodeAll(quote, p, a + b) == DecodeAll(quote, DecodeAll(quote, p, a), b)
    decreases |b|
  {
    if b == [] {
      assert a + b == a;
    } else {
      assert (a + b)[..|a + b| - 1] == a + b[..|b| - 1];
      DecodeConcat(quote, p, a, b[..|b| - 1]);
    }
  }

  lemma QuoteByteRoundTrip(quote: Byte, b: Byte)
    requires LegalQuote(quote)
    ensures b % 128 != quote && NeedsPrefix(quote, b) ==> KTrans(Ctl(b)) == b && !IsControl(Ctl(b))
    ensures b % 128 == quote ==> KTrans(b) == b && !IsControl(b)
    ensures !NeedsPrefix(quote, b) ==> b != quote && !IsControl(b)
  {
    hide KTrans, Ctl;
    if b % 128 < 32 || b % 128 == 127 { ControlRoundTrip(b); }
    if b % 128 == quote { PrefixRoundTrip(b); }
  }

  lemma ControlRoundTrip(b: Byte)
    requires b % 128 < 32 || b % 128 == 127
    ensures KTrans(Ctl(b)) == b && !IsControl(Ctl(b))
  {
    if b % 128 < 32 {
      assert b < 32 || 128 <= b < 160;
      assert Ctl(b) == b + 64;
    } else {
      assert b == 127 || b == 255;
    }
  }

  lemma PrefixRoundTrip(b: Byte)
    requires LegalQuote(b % 128)
    ensures KTrans(b) == b && !IsControl(b)
  {
    assert b % 128 == if b < 128 then b else b - 128;
  }

  /** Quoting: every byte string, sent under every legal prefix character, is stored as it
      was, leaves no prefix pending, and travels as characters the receive loop never
      rejects. */
  lemma {:induction false} QuoteRoundTrip(quote: Byte, bytes: seq<Byte>, before: seq<Byte>)
    requires LegalQuote(quote)
    ensures DecodeAll(quote, Point(false, before), Quote(quote, bytes)) == Point(false, before + bytes)
    ensures Printable(Quote(quote, bytes))
    decreases |bytes|
  {
    hide QuoteByte, DecodeChar;
    if bytes == [] {
      assert before + bytes == before;
    } else {
      var most, b := bytes[..|bytes| - 1], bytes[|bytes| - 1];
      QuoteRoundTrip(quote, most, before);
      DecodeConcat(quote, Point(false, before), Quote(quote, most), QuoteByte(quote, b));
      UnitDecodes(quote, Point(false, before + most), b);
      assert before + most + [b] == before + bytes;
    }
  }

  lemma UnitDecodes(quote: Byte, p: Point, b: Byte)
    requires LegalQuote(quote) && !p.escape
    ensures DecodeAll(quote, p, QuoteByte(quote, b)) == Point(false, p.bytes + [b])
    ensures Printable(QuoteByte(quote, b))
  {
    hide KTrans, Ctl;
    QuoteByteRoundTrip(quote, b);
    var unit := QuoteByte(quote, b);
    assert unit[..0] == [];
    if |unit| == 2 {
      assert unit[..1] == [quote] && [quote][..0] == [];
      assert DecodeAll(quote, p, [quote]) == Point(true, p.bytes);
    }
  }

  // ---------------------------------------------------------------- replies

  /** What the receiver's own parser makes of a reply after its padding and START: the packet that
      was meant, with its number, type and parameters, if and only if the end-of-line character
      that the other side asked for is the carriage return this format ends with. */
  lemma ReplyParsesIff(parms: Parms, n: Small, kind: Byte, data: seq<Byte>)
    requires !IsControl(kind) && Printable(data) && |data| <= MAX_SHORT_DATA
    ensures var r := Reply(parms, n, kind, data);
            && parms.padCount < |r| && r[parms.padCount] == START_CHAR
            && (Parse(r, parms.padCount + 1) == Accepted(|r|, n, kind, data) <==> parms.eol == END_CHAR)
            && (Parse(r, parms.padCount + 1).Accepted? <==> parms.eol == END_CHAR)
  {
    hide Fold6, Sum, Parse;
    var r := Reply(parms, n, kind, data);
    var head: seq<Byte> := [ToChar(|data| + 3), ToChar(n), kind] + data;
    var body := head + [CheckChar(Sum(head))] + (if parms.eol == 0 then [] else [parms.eol]);
    var before := Pads(parms.padCount, parms.padChar) + [START_CHAR];
    assert r == before + body + [];
    ReplyBody(n, kind, data, parms.eol);
    ParseLocal(before, body, []);
  }

  lemma ReplyBody(n: Small, kind: Byte, data: seq<Byte>, eol: Byte)
    requires !IsControl(kind) && Printable(data) && |data| <= MAX_SHORT_DATA
    ensures var head: seq<Byte> := [ToChar(|data| + 3), ToChar(n), kind] + data;
            var body := head + [CheckChar(Sum(head))] + (if eol == 0 then [] else [eol]);
            && (eol == END_CHAR ==> Parse(body, 0) == Accepted(|body|, n, kind, data))
            && (eol != END_CHAR ==> !Parse(body, 0).Accepted?)
  {
    hide Fold6, Sum, Parse;
    var head: seq<Byte> := [ToChar(|data| + 3), ToChar(n), kind] + data;
    var body := head + [CheckChar(Sum(head))] + (if eol == 0 then [] else [eol]);
    assert body[..3] == head[..3] && body[0] == ToChar(|data| + 3) && body[1] == ToChar(n) && body[2] == kind;
    if eol == 0 {
      if Parse(body, 0).Accepted? { AcceptedLength(body); }
    } else {
      assert body[..3] + data == head;
      assert body[3..] == data + [CheckChar(Sum(body[..3] + data)), eol];
      ShortHeader(body);
      ParseDataTail(body, 3, |data| + 1, n, kind, [], data, eol);
      assert [] + data == data;
    }
  }

  /** An accepted short packet is all there: header, data, check and end. */
  lemma AcceptedLength(line: seq<Byte>)
    requires Parse(line, 0).Accepted? && UnToChar(line[0]) != 0
    ensures |line| >= 5 + DataLength(UnToChar(line[0]) - 2)
  {
    hide Parse, Framed;
    AcceptedIsWellFormed(line);
    FramedEnd(line, 3, Parse(line, 0).data, Parse(line, 0).next);
    ParseAdvances(line, 0);
  }

  // ---------------------------------------------------------------- runs as events

  function Steps(s: Session, events: seq<Parsed>): Session
    requires forall i :: 0 <= i < |events| ==> !events[i].Starved?
  {
    if events == [] then s else Step(Steps(s, events[..|events| - 1]), events[|events| - 1])
  }

  /** What happened to one packet of the sender: everything the receiver saw from the
      first transmission of `pkt` until the first transmission of the next one. */
  datatype Turn = Turn(pkt: Packet, events: seq<Parsed>)

  /** The assumption stated at the sequence check of the source: sequence numbers arrive
      intact, so every event carries the number of the packet being sent; a damaged packet
      is noticed, so only the packet itself is accepted. A header that breaks before its
      sequence number is allowed, except as the very first thing seen of a packet. */
  predicate Attempt(pkt: Packet, e: Parsed) {
    match e
    case Starved => false
    case HeaderError(_) => true
    case Rejected(_, n) => n == pkt.n
    case Accepted(_, n, kind, data) => n == pkt.n && kind == pkt.kind && data == pkt.data
  }

  predicate ValidTurn(t: Turn) {
    && t.events != [] && !t.events[0].HeaderError?
    && forall i :: 0 <= i < |t.events| ==> Attempt(t.pkt, t.events[i])
  }

  /** The last attempt was accepted; the sender sees it as an ACK (TurnDelivers). */
  predicate Confirmed(t: Turn)
    requires t.events != []
  {
    t.events[|t.events| - 1].Accepted?
  }

  /** What a packet contributes, on its own. */
  function Deliver(quote: Byte, p: Point, pkt: Packet): Point {
    if pkt.kind == DATA_TYPE then DecodeAll(quote, p, pkt.data) else p
  }

  /** How the last thing said looks on the line: an ACK for the packet's number if its last
      attempt was accepted, else a NAK for it, and never both. */
  ghost predicate Answered(s: Session, t: Turn)
    requires t.events != []
  {
    var n, eol := t.pkt.n, s.parms.eol;
    if t.pkt.kind == SEND_TYPE && Confirmed(t) then EndsIn(s.out, Chars(n, 0x59, Offered(|t.pkt.data|), eol))
    else
      && (Confirmed(t) <==> EndsIn(s.out, Chars(n, 0x59, [], eol)))
      && (!Confirmed(t) <==> EndsIn(s.out, Chars(n, 0x4E, [], eol)))
  }

  lemma LastAnswer(s: Session, t: Turn, e: Parsed)
    requires t.events != [] && !e.Starved? && e == t.events[|t.events| - 1] && Attempt(t.pkt, e) && Number(s, e) == t.pkt.n
    ensures Answered(Step(s, e), t)
  {
    hide Step, Chars, EndsIn, Offered, Pads;
    var s' := Step(s, e);
    StepAdds(s, e);
    AckIsNotNak(s'.out, t.pkt.n, t.pkt.n, s'.parms.eol);
    var kind: Byte := if e.Accepted? then 0x59 else 0x4E;
    var data := if e.Accepted? && e.kind == 0x53 then Offered(|e.data|) else [];
    EndsInTail(s.out, Pads(s'.parms.padCount, s'.parms.padChar), Chars(t.pkt.n, kind, data, s'.parms.eol));
  }

  lemma EndsInTail(out: seq<Byte>, pads: seq<Byte>, chars: seq<Byte>)
    ensures EndsIn(out + (pads + chars), chars)
  {
  }

  /** One turn, however long: the checkpoint is what was there before the packet, the packet
      is in exactly when its last event accepted it, and that is what the sender was told. */
  lemma {:induction false} TurnDelivers(s: Session, t: Turn)
    requires ValidTurn(t) && t.pkt.n != s.lastN
    ensures var s' := Steps(s, t.events);
            && s'.lastN == s'.n == t.pkt.n && s'.saved == s.cur && Answered(s', t)
            && s'.cur == (if Confirmed(t) then Deliver(s.parms.quote, s.cur, t.pkt) else s.cur)
            && (t.pkt.kind != SEND_TYPE ==> s'.parms == s.parms)
            && (t.pkt.kind == SEND_TYPE && Confirmed(t) ==> s'.parms == ParmsFrom(t.pkt.data))
    decreases |t.events|
  {
    hide Answered, Reply, ParmsFrom, DecodeAll;
    var k := |t.events| - 1;
    if k > 0 {
      var shorter := Turn(t.pkt, t.events[..k]);
      TurnDelivers(s, shorter);
    } else {
      assert t.events[..0] == [];
      assert Steps(s, []) == s;
    }
    LastAnswer(Steps(s, t.events[..k]), t, t.events[k]);
  }

  // ---------------------------------------------------------------- whole runs

  function Flatten(turns: seq<Turn>): seq<Parsed> {
    if turns == [] then [] else Flatten(turns[..|turns| - 1]) + turns[|turns| - 1].events
  }

  /** Consecutive packets carry different numbers. */
  predicate ValidTurns(turns: seq<Turn>) {
    && (forall i :: 0 <= i < |turns| ==> ValidTurn(turns[i]))
    && (forall i :: 0 <= i < |turns| - 1 ==> turns[i].pkt.n != turns[i + 1].pkt.n)
  }

  lemma {:induction false} FlattenHeard(turns: seq<Turn>)
    requires forall i :: 0 <= i < |turns| ==> ValidTurn(turns[i])
    ensures forall i :: 0 <= i < |Flatten(turns)| ==> !Flatten(turns)[i].Starved?
  {
    if turns != [] { FlattenHeard(turns[..|turns| - 1]); }
  }

  lemma {:induction false} StepsConcat(s: Session, a: seq<Parsed>, b: seq<Parsed>)
    requires forall i :: 0 <= i < |a| ==> !a[i].Starved?
    requires forall i :: 0 <= i < |b| ==> !b[i].Starved?
    ensures Steps(s, a + b) == Steps(Steps(s, a), b)
    decreases |b|
  {
    if b == [] {
      assert a + b == a;
    } else {
      assert (a + b)[..|a + b| - 1] == a + b[..|b| - 1];
      StepsConcat(s, a, b[..|b| - 1]);
    }
  }

  /** Reference: the payloads of the confirmed turns, decoded one after the other. */
  function Delivered(quote: Byte, p: Point, turns: seq<Turn>): Point
    requires forall i :: 0 <= i < |turns| ==> turns[i].events != []
  {
    if turns == [] then p
    else
      var before := Delivered(quote, p, turns[..|turns| - 1]);
      var t := turns[|turns| - 1];
      if Confirmed(t) then Deliver(quote, before, t.pkt) else before
  }

  /** Exact delivery, for every run: the image holds the payloads of precisely the
      confirmed packets, each once and in order; the checkpoint lacks only the last. */
  lemma {:induction false} RunDelivers(s: Session, turns: seq<Turn>)
    requires ValidTurns(turns) && (turns != [] ==> turns[0].pkt.n != s.lastN)
    requires forall i :: 0 <= i < |turns| ==> turns[i].pkt.kind != SEND_TYPE
    ensures forall i :: 0 <= i < |Flatten(turns)| ==> !Flatten(turns)[i].Starved?
    ensures Steps(s, Flatten(turns)).cur == Delivered(s.parms.quote, s.cur, turns)
    ensures Steps(s, Flatten(turns)).parms == s.parms
    ensures turns != [] ==>
              && Steps(s, Flatten(turns)).lastN == turns[|turns| - 1].pkt.n
              && Steps(s, Flatten(turns)).saved == Delivered(s.parms.quote, s.cur, turns[..|turns| - 1])
    decreases |turns|
  {
    FlattenHeard(turns);
    if turns != [] {
      var most, last := turns[..|turns| - 1], turns[|turns| - 1];
      RunDelivers(s, most);
      StepsConcat(s, Flatten(most), last.events);
      if most != [] { assert most[|most| - 1] == turns[|turns| - 2]; }
      TurnDelivers(Steps(s, Flatten(most)), last);
    }
  }

  // ---------------------------------------------------------------- payloads

  /** A data packet carries one chunk of the file under control prefixing; the others carry none. */
  predicate Carries(quote: Byte, pkt: Packet, chunk: seq<Byte>) {
    if pkt.kind == DATA_TYPE then pkt.data == Quote(quote, chunk) else chunk == []
  }

  predicate CarriesAll(quote: Byte, turns: seq<Turn>, chunks: seq<seq<Byte>>) {
    |chunks| == |turns| && forall i :: 0 <= i < |turns| ==> Carries(quote, turns[i].pkt, chunks[i])
  }

  function Concat(chunks: seq<seq<Byte>>): seq<Byte> {
    if chunks == [] then [] else Concat(chunks[..|chunks| - 1]) + chunks[|chunks| - 1]
  }

  /** The chunks of the confirmed turns only. */
  function ConfirmedChunks(turns: seq<Turn>, chunks: seq<seq<Byte>>): seq<Byte>
    requires |turns| == |chunks| && forall i :: 0 <= i < |turns| ==> turns[i].events != []
  {
    if turns == [] then []
    else
      var k := |turns| - 1;
      ConfirmedChunks(turns[..k], chunks[..k]) + (if Confirmed(turns[k]) then chunks[k] else [])
  }

  lemma {:induction false} DeliveredChunks(quote: Byte, before: seq<Byte>, turns: seq<Turn>, chunks: seq<seq<Byte>>)
    requires LegalQuote(quote) && CarriesAll(quote, turns, chunks)
    requires forall i :: 0 <= i < |turns| ==> turns[i].events != []
    ensures Delivered(quote, Point(false, before), turns) == Point(false, before + ConfirmedChunks(turns, chunks))
    decreases |turns|
  {
    hide Quote, DecodeAll;
    if turns == [] {
      assert before + [] == before;
    } else {
      var k := |turns| - 1;
      DeliveredChunks(quote, before, turns[..k], chunks[..k]);
      var sofar := ConfirmedChunks(turns[..k], chunks[..k]);
      if Confirmed(turns[k]) {
        QuoteRoundTrip(quote, chunks[k], before + sofar);
        assert before + sofar + chunks[k] == before + (sofar + chunks[k]);
      } else {
        assert sofar + [] == sofar;
      }
    }
  }

  lemma {:induction false} ConfirmedLength(turns: seq<Turn>, chunks: seq<seq<Byte>>)
    requires |turns| == |chunks| && forall i :: 0 <= i < |turns| ==> turns[i].events != []
    ensures |ConfirmedChunks(turns, chunks)| <= |Concat(chunks)|
    ensures (forall i :: 0 <= i < |turns| && chunks[i] != [] ==> Confirmed(turns[i]))
            ==> ConfirmedChunks(turns, chunks) == Concat(chunks)
    ensures (exists i :: 0 <= i < |turns| && chunks[i] != [] && !Confirmed(turns[i]))
            ==> |ConfirmedChunks(turns, chunks)| < |Concat(chunks)|
    decreases |turns|
  {
    if turns != [] {
      var k := |turns| - 1;
      ConfirmedLength(turns[..k], chunks[..k]);
      if i :| 0 <= i < |turns| && chunks[i] != [] && !Confirmed(turns[i]) {
        if i < k { assert turns[..k][i] == turns[i] && chunks[..k][i] == chunks[i]; }
      }
    }
  }

  /** Everything said up to the end of a turn. */
  ghost function SaidBy(s: Session, turns: seq<Turn>, i: nat): seq<Byte>
    requires i < |turns| && forall k :: 0 <= k < |turns| ==> ValidTurn(turns[k])
  {
    FlattenHeard(turns[..i + 1]);
    Steps(s, Flatten(turns[..i + 1])).out
  }

  /** When the sender went on from a packet, the last thing it had been told was an ACK for it. */
  ghost predicate Acked(s: Session, turns: seq<Turn>, i: nat)
    requires i < |turns| && forall k :: 0 <= k < |turns| ==> ValidTurn(turns[k])
  {
    EndsIn(SaidBy(s, turns, i), Chars(turns[i].pkt.n, 0x59, [], s.parms.eol))
  }

  lemma AckedIff(s: Session, turns: seq<Turn>, i: nat)
    requires ValidTurns(turns) && turns != [] && turns[0].pkt.n != s.lastN && i < |turns|
    requires forall k :: 0 <= k < |turns| ==> turns[k].pkt.kind != SEND_TYPE
    ensures Acked(s, turns, i) <==> Confirmed(turns[i])
  {
    hide Step, Delivered, Chars, EndsIn, Deliver;
    var most, t := turns[..i], turns[i];
    var upto := turns[..i + 1];
    assert upto[..i] == most && upto[i] == t;
    FlattenHeard(upto);
    RunDelivers(s, most);
    StepsConcat(s, Flatten(most), t.events);
    assert i > 0 ==> most[i - 1] == turns[i - 1];
    TurnDelivers(Steps(s, Flatten(most)), t);
  }

  /** Exactly once: after any run of a stop-and-wait sender, the image is the file if and
      only if the sender never went on from a data-bearing packet unless the last thing it had
      been told was an ACK for it. Repeats never duplicate and damage never leaks in. */
  lemma ExactlyOnce(s: Session, turns: seq<Turn>, chunks: seq<seq<Byte>>)
    requires ValidTurns(turns) && (turns != [] ==> turns[0].pkt.n != s.lastN)
    requires forall i :: 0 <= i < |turns| ==> turns[i].pkt.kind != SEND_TYPE
    requires LegalQuote(s.parms.quote) && !s.cur.escape && CarriesAll(s.parms.quote, turns, chunks)
    ensures forall i :: 0 <= i < |Flatten(turns)| ==> !Flatten(turns)[i].Starved?
    ensures var after := Steps(s, Flatten(turns)).cur;
            && !after.escape
            && after.bytes == s.cur.bytes + ConfirmedChunks(turns, chunks)
            && (after.bytes == s.cur.bytes + Concat(chunks)
                <==> forall i :: 0 <= i < |turns| && chunks[i] != [] ==> Acked(s, turns, i))
    ensures forall i :: 0 <= i < |turns| ==> (Acked(s, turns, i) <==> Confirmed(turns[i]))
  {
    hide Acked, Steps, Delivered, ConfirmedChunks, CarriesAll, Concat;
    RunDelivers(s, turns);
    assert s.cur == Point(false, s.cur.bytes);
    DeliveredChunks(s.parms.quote, s.cur.bytes, turns, chunks);
    CarriesCount(s.parms.quote, turns, chunks);
    ConfirmedLength(turns, chunks);
    forall i | 0 <= i < |turns| ensures Acked(s, turns, i) <==> Confirmed(turns[i]) { AckedIff(s, turns, i); }
  }

  lemma CarriesCount(quote: Byte, turns: seq<Turn>, chunks: seq<seq<Byte>>)
    requires CarriesAll(quote, turns, chunks)
    ensures |chunks| == |turns|
  {
  }

  /** The assumption is needed: once a packet has been acknowledged, a broken header (which
      may be line noise that looks like a START) rolls it back, and when the sender goes on
      to its next packet the acknowledged bytes are gone for good. */
  lemma HeaderErrorLosesPacket(s: Session, first: Packet, second: Packet, a: nat, b: nat, c: nat)
    requires first.n != s.lastN && first.n != second.n && first.kind == second.kind == DATA_TYPE
    ensures Steps(s, [Accepted(a, first.n, DATA_TYPE, first.data), HeaderError(b),
                      Accepted(c, second.n, DATA_TYPE, second.data)]).cur
            == DecodeAll(s.parms.quote, s.cur, second.data)
  {
    var lost := Turn(first, [Accepted(a, first.n, DATA_TYPE, first.data), HeaderError(b)]);
    var kept := Turn(second, [Accepted(c, second.n, DATA_TYPE, second.data)]);
    var turns := [lost, kept];
    assert turns[..1] == [lost] && [lost][..0] == [];
    assert Flatten([lost]) == [] + lost.events == lost.events;
    assert Flatten(turns) == lost.events + kept.events
        == [Accepted(a, first.n, DATA_TYPE, first.data), HeaderError(b), Accepted(c, second.n, DATA_TYPE, second.data)];
    RunDelivers(s, turns);
    assert Delivered(s.parms.quote, s.cur, [lost]) == s.cur;
  }

  // ---------------------------------------------------------------- runs on the line

  /** One transmission as it arrived: line noise without START or ^C, then START, then what
      the receiver took as the packet. */
  datatype Shot = Shot(noise: seq<Byte>, body: seq<Byte>)

  predicate Quiet(noise: seq<Byte>) {
    forall i :: 0 <= i < |noise| ==> noise[i] != START_CHAR && noise[i] != ETX_CHAR
  }

  predicate ValidShot(shot: Shot) {
    var e := Parse(shot.body, 0);
    Quiet(shot.noise) && !e.Starved? && e.next == |shot.body|
  }

  /** An undamaged transmission of any packet the format can carry is a shot, and is accepted. */
  lemma CleanShot(pkt: Packet, noise: seq<Byte>)
    requires Sendable(pkt) && Quiet(noise)
    ensures ValidShot(Shot(noise, Encode(pkt)))
    ensures Parse(Encode(pkt), 0).Accepted? && Attempt(pkt, Parse(Encode(pkt), 0))
  {
    EncodeParses(pkt);
  }

  function Wire(shots: seq<Shot>): seq<Byte> {
    if shots == [] then []
    else Wire(shots[..|shots| - 1]) + OnLine(shots[|shots| - 1])
  }

  function OnLine(shot: Shot): seq<Byte> { shot.noise + [START_CHAR] + shot.body }

  function Heard(shots: seq<Shot>): seq<Parsed> {
    seq(|shots|, i requires 0 <= i < |shots| => Parse(shots[i].body, 0))
  }

  predicate IsBreak(e: Parsed) { e.Accepted? && e.kind == BREAK_TYPE }

  lemma ScanFinds(line: seq<Byte>, p: nat, at: nat)
    requires p <= at < |line| && line[at] == START_CHAR && Quiet(line[p..at])
    ensures Scan(line, p) == at
  {
    assert forall i :: p <= i < at ==> line[i] == line[p..at][i - p];
  }

  lemma StepShift(s: Session, e: Parsed, d: nat)
    requires !e.Starved?
    ensures Step(s, Shift(e, d)) == Step(s, e)
  {
  }

  lemma RunFrom(s: Session, line: seq<Byte>, p: nat, at: nat)
    requires p <= at < |line| && line[at] == START_CHAR && Quiet(line[p..at])
    requires !Parse(line, at + 1).Starved?
    ensures var e := Parse(line, at + 1);
            e.next <= |line| && Run(s, line, p) == if IsBreak(e) then Finished(Step(s, e)) else Run(Step(s, e), line, e.next)
  {
    hide Parse, Step, Run;
    ScanFinds(line, p, at);
    RunUnfolds(s, line, p);
  }

  /** Between packets ^C ends the session as it stands, and everything but START and ^C is
      skipped. */
  lemma BetweenPackets(s: Session, line: seq<Byte>, p: nat, k: nat)
    requires p <= k <= |line| && forall i :: p <= i < k ==> line[i] != 0x01 && line[i] != 0x03
    ensures k == |line| ==> Run(s, line, p) == Waiting(s, false)
    ensures k < |line| && line[k] == 0x03 ==> Run(s, line, p) == Interrupted(s)
    ensures k < |line| && line[k] == 0x01 && Parse(line, k + 1).Starved? ==> Run(s, line, p) == Waiting(s, true)
  {
    hide Parse, Step, Run;
    RunUnfolds(s, line, p);
    assert k == |line| || line[k] == 0x01 || line[k] == 0x03 ==> Scan(line, p) == k;
  }

  lemma RunOneShot(s: Session, before: seq<Byte>, shot: Shot, after: seq<Byte>)
    requires ValidShot(shot)
    ensures var line, e := before + OnLine(shot) + after, Parse(shot.body, 0);
            Run(s, line, |before|) == if IsBreak(e) then Finished(Step(s, e))
                                      else Run(Step(s, e), line, |before| + |OnLine(shot)|)
  {
    hide Parse, Step, Run;
    var line, e := before + OnLine(shot) + after, Parse(shot.body, 0);
    var at := |before| + |shot.noise|;
    assert line[|before|..at] == shot.noise;
    var head := before + shot.noise + [START_CHAR];
    assert line == head + shot.body + after;
    ParseLocal(head, shot.body, after);
    assert Parse(line, at + 1) == Shift(e, |head|);
    StepShift(s, e, |head|);
    RunFrom(s, line, |before|, at);
  }

  /** A line made of transmissions is processed one event after the other. */
  lemma {:induction false} RunShots(s: Session, shots: seq<Shot>, after: seq<Byte>)
    requires forall i :: 0 <= i < |shots| ==> ValidShot(shots[i]) && !IsBreak(Parse(shots[i].body, 0))
    ensures forall i :: 0 <= i < |Heard(shots)| ==> !Heard(shots)[i].Starved?
    ensures Run(s, Wire(shots) + after, 0) == Run(Steps(s, Heard(shots)), Wire(shots) + after, |Wire(shots)|)
    decreases |shots|
  {
    hide Parse, Step, Run, OnLine;
    if shots == [] {
      assert Heard(shots) == [];
    } else {
      var most, last := shots[..|shots| - 1], shots[|shots| - 1];
      var s1 := Steps(s, Heard(most));
      RunShots(s, most, OnLine(last) + after);
      assert Wire(most) + (OnLine(last) + after) == Wire(most) + OnLine(last) + after == Wire(shots) + after;
      RunOneShot(s1, Wire(most), last, after);
      assert Heard(shots)[..|shots| - 1] == Heard(most);
    }
  }

  /** The same loss on the characters of a line: two undamaged packets, and between them noise that
      looks like a START followed by any control character. Both packets are acknowledged, and
      only the second is in the image. */
  lemma NoiseLosesPacket(s: Session, first: Packet, second: Packet, noise: seq<Byte>, c: Byte, after: seq<Byte>)
    requires Sendable(first) && Sendable(second) && Quiet(noise) && IsControl(c)
    requires first.n != s.lastN && first.n != second.n && first.kind == second.kind == DATA_TYPE
    ensures var shots := [Shot([], Encode(first)), Shot(noise, [c]), Shot([], Encode(second))];
            var line := Wire(shots) + after;
            && Heard(shots)[0].Accepted? && Heard(shots)[2].Accepted?
            && exists s' :: Run(s, line, 0) == Run(s', line, |Wire(shots)|) && s'.cur == DecodeAll(s.parms.quote, s.cur, second.data)
  {
    hide Parse, Run, Step, Encode, DecodeAll, Wire;
    var shots := [Shot([], Encode(first)), Shot(noise, [c]), Shot([], Encode(second))];
    EncodeParses(first);
    EncodeParses(second);
    ControlIsHeaderError(c);
    var a, b := |Encode(first)|, |Encode(second)|;
    assert Heard(shots) == [Accepted(a, first.n, DATA_TYPE, first.data), HeaderError(1), Accepted(b, second.n, DATA_TYPE, second.data)];
    RunShots(s, shots, after);
    HeaderErrorLosesPacket(s, first, second, a, 1, b);
  }

  lemma ControlIsHeaderError(c: Byte)
    requires IsControl(c)
    ensures Parse([c], 0) == HeaderError(1)
  {
  }

  // ---------------------------------------------------------------- a whole file transfer

  /** Everything that arrived while the sender was busy with one packet. */
  datatype Sending = Sending(pkt: Packet, shots: seq<Shot>)

  function TurnOf(x: Sending): Turn { Turn(x.pkt, Heard(x.shots)) }

  function TurnsOf(xs: seq<Sending>): seq<Turn> {
    seq(|xs|, i requires 0 <= i < |xs| => TurnOf(xs[i]))
  }

  function ShotsOf(xs: seq<Sending>): seq<Shot> {
    if xs == [] then [] else ShotsOf(xs[..|xs| - 1]) + xs[|xs| - 1].shots
  }

  /** Send-Init, then file header, data and end-of-file packets, then Break. */
  datatype Transfer = Transfer(init: Sending, body: seq<Sending>, end: Sending)

  predicate ValidSending(x: Sending) {
    ValidTurn(TurnOf(x)) && Confirmed(TurnOf(x)) && forall i :: 0 <= i < |x.shots| ==> ValidShot(x.shots[i])
  }

  /** A stop-and-wait transfer of the chunks: any damage after the sequence character, any
      number of repeats, and the sender moves on only from a packet whose last transmission
      was acknowledged. The receiver stops at the first Break it accepts. */
  predicate ValidTransfer(f: Transfer, chunks: seq<seq<Byte>>) {
    && ValidSending(f.init) && f.init.pkt.kind == SEND_TYPE
    && (forall i :: 0 <= i < |f.body| ==> ValidSending(f.body[i]))
    && (forall i :: 0 <= i < |f.body| ==> f.body[i].pkt.kind != SEND_TYPE && f.body[i].pkt.kind != BREAK_TYPE)
    && ValidTurns(TurnsOf(f.body))
    && ValidSending(f.end) && f.end.pkt.kind == BREAK_TYPE
    && (forall i :: 0 <= i < |f.end.shots| - 1 ==> !Parse(f.end.shots[i].body, 0).Accepted?)
    && (f.body == [] ==> f.init.pkt.n != f.end.pkt.n)
    && (f.body != [] ==> f.init.pkt.n != f.body[0].pkt.n && f.body[|f.body| - 1].pkt.n != f.end.pkt.n)
    && LegalQuote(ParmsFrom(f.init.pkt.data).quote)
    && CarriesAll(ParmsFrom(f.init.pkt.data).quote, TurnsOf(f.body), chunks)
  }

  function LineOf(f: Transfer): seq<Byte> {
    Wire(f.init.shots + ShotsOf(f.body) + f.end.shots)
  }

  lemma {:induction false} HeardBody(xs: seq<Sending>)
    ensures Heard(ShotsOf(xs)) == Flatten(TurnsOf(xs))
  {
    if xs != [] {
      var k := |xs| - 1;
      HeardBody(xs[..k]);
      assert TurnsOf(xs)[..k] == TurnsOf(xs[..k]);
    }
  }

  /** Shots of packets that are not Break never end the session. */
  lemma {:induction false} BodyShotsGoOn(xs: seq<Sending>)
    requires forall i :: 0 <= i < |xs| ==> ValidSending(xs[i]) && xs[i].pkt.kind != BREAK_TYPE
    ensures forall i :: 0 <= i < |ShotsOf(xs)| ==> ValidShot(ShotsOf(xs)[i]) && !IsBreak(Parse(ShotsOf(xs)[i].body, 0))
  {
    hide Parse;
    if xs != [] {
      var k := |xs| - 1;
      BodyShotsGoOn(xs[..k]);
      forall i | 0 <= i < |xs[k].shots| ensures !IsBreak(Parse(xs[k].shots[i].body, 0)) {
        assert Attempt(xs[k].pkt, Heard(xs[k].shots)[i]);
      }
    }
  }

  /** The body of a transfer, as the turns it is made of. */
  predicate BodyTurns(turns: seq<Turn>, chunks: seq<seq<Byte>>, quote: Byte, before: Small, after: Small) {
    && ValidTurns(turns) && LegalQuote(quote) && CarriesAll(quote, turns, chunks)
    && (forall i :: 0 <= i < |turns| ==> turns[i].pkt.kind != SEND_TYPE && Confirmed(turns[i]))
    && (if turns == [] then before != after else turns[0].pkt.n != before && turns[|turns| - 1].pkt.n != after)
  }

  lemma BodyIsTurns(f: Transfer, chunks: seq<seq<Byte>>)
    requires ValidTransfer(f, chunks)
    ensures BodyTurns(TurnsOf(f.body), chunks, ParmsFrom(f.init.pkt.data).quote, f.init.pkt.n, f.end.pkt.n)
  {
    hide ValidTurn, ParmsFrom, Heard, LegalQuote, Carries;
    var turns := TurnsOf(f.body);
    forall i | 0 <= i < |turns|
      ensures turns[i].events != [] && turns[i].pkt.kind != SEND_TYPE && Confirmed(turns[i])
    {
      assert turns[i] == TurnOf(f.body[i]) && ValidSending(f.body[i]);
      SomethingHeard(turns[i]);
    }
  }

  lemma SomethingHeard(t: Turn)
    requires ValidTurn(t)
    ensures t.events != []
  {
  }

  /** The body, each turn confirmed, brings the whole file. */
  lemma BodySteps(s: Session, turns: seq<Turn>, chunks: seq<seq<Byte>>, before: Small, after: Small)
    requires BodyTurns(turns, chunks, s.parms.quote, before, after) && s.lastN == before
    requires s.cur == Point(false, [])
    ensures forall i :: 0 <= i < |Flatten(turns)| ==> !Flatten(turns)[i].Starved?
    ensures Steps(s, Flatten(turns)).cur == Point(false, Concat(chunks)) && Steps(s, Flatten(turns)).lastN != after
  {
    hide Step, Delivered, DecodeAll, ConfirmedChunks, LegalQuote, Carries;
    if turns != [] {
      ExactlyOnce(s, turns, chunks);
      RunDelivers(s, turns);
      assert s.cur.bytes + Concat(chunks) == Concat(chunks);
    }
  }

  /** What the transfer's events, all together, amount to. */
  lemma TransferSteps(f: Transfer, chunks: seq<seq<Byte>>)
    requires ValidTransfer(f, chunks)
    ensures var events := Heard(f.init.shots) + Flatten(TurnsOf(f.body)) + Heard(f.end.shots);
            && (forall i :: 0 <= i < |events| ==> !events[i].Starved?)
            && Steps(INITIAL, events).cur == Point(false, Concat(chunks))
  {
    hide Step, Steps, Flatten, TurnsOf, Heard, Concat, ValidTransfer;
    var a, b, c := Heard(f.init.shots), Flatten(TurnsOf(f.body)), Heard(f.end.shots);
    TransferTurns(f, chunks);
    StepsConcat(INITIAL, a, b);
    StepsConcat(INITIAL, a + b, c);
  }

  /** The three parts one after the other. */
  lemma TransferTurns(f: Transfer, chunks: seq<seq<Byte>>)
    requires ValidTransfer(f, chunks)
    ensures var a, b, c := Heard(f.init.shots), Flatten(TurnsOf(f.body)), Heard(f.end.shots);
            && (forall i :: 0 <= i < |a| ==> !a[i].Starved?) && (forall i :: 0 <= i < |b| ==> !b[i].Starved?)
            && (forall i :: 0 <= i < |c| ==> !c[i].Starved?)
            && Steps(Steps(Steps(INITIAL, a), b), c).cur == Point(false, Concat(chunks))
  {
    hide Step, Steps, Flatten, TurnsOf, Heard, Concat, ParmsFrom, LegalQuote, CarriesAll, ValidTurns;
    var turns := TurnsOf(f.body);
    BodyIsTurns(f, chunks);
    TurnDelivers(INITIAL, TurnOf(f.init));
    var s1 := Steps(INITIAL, Heard(f.init.shots));
    BodySteps(s1, turns, chunks, f.init.pkt.n, f.end.pkt.n);
    TurnDelivers(Steps(s1, Flatten(turns)), TurnOf(f.end));
  }

  predicate GoesOn(shot: Shot) { ValidShot(shot) && !IsBreak(Parse(shot.body, 0)) }

  /** A line that ends in an accepted Break finishes after exactly its events. */
  lemma RunToBreak(s: Session, pre: seq<Shot>, final: Shot, rest: seq<Byte>)
    requires AllGoOn(pre)
    requires ValidShot(final) && IsBreak(Parse(final.body, 0))
    ensures forall i :: 0 <= i < |Heard(pre + [final])| ==> !Heard(pre + [final])[i].Starved?
    ensures Run(s, Wire(pre + [final]) + rest, 0) == Finished(Steps(s, Heard(pre + [final])))
  {
    hide Parse, Step, Run, OnLine;
    assert (pre + [final])[..|pre|] == pre;
    RunShots(s, pre, OnLine(final) + rest);
    assert Wire(pre) + (OnLine(final) + rest) == Wire(pre) + OnLine(final) + rest;
    RunOneShot(Steps(s, Heard(pre)), Wire(pre), final, rest);
    assert Heard(pre + [final])[..|pre|] == Heard(pre);
  }

  predicate AllGoOn(shots: seq<Shot>) { forall i :: 0 <= i < |shots| ==> GoesOn(shots[i]) }

  lemma TransferGoesOn(f: Transfer, chunks: seq<seq<Byte>>)
    requires ValidTransfer(f, chunks)
    ensures var k := |f.end.shots| - 1;
            && k >= 0 && ValidShot(f.end.shots[k]) && IsBreak(Parse(f.end.shots[k].body, 0))
            && AllGoOn(f.init.shots) && AllGoOn(ShotsOf(f.body)) && AllGoOn(f.end.shots[..k])
  {
    hide Parse, ParmsFrom, Quote, LegalQuote, CarriesAll, Concat;
    var k := |f.end.shots| - 1;
    assert |Heard(f.end.shots)| == k + 1;
    assert Attempt(f.end.pkt, Heard(f.end.shots)[k]);
    BodyShotsGoOn([f.init]);
    assert [f.init][..0] == [] && ShotsOf([f.init]) == [] + f.init.shots == f.init.shots;
    BodyShotsGoOn(f.body);
  }

  /** End to end: whatever was damaged, NAKed or sent again on the way, the session ends at
      the Break packet with exactly the file, byte for byte. */
  lemma TransferStoresFile(f: Transfer, chunks: seq<seq<Byte>>, rest: seq<Byte>)
    requires ValidTransfer(f, chunks)
    ensures var o := Run(INITIAL, LineOf(f) + rest, 0);
            o.Finished? && o.s.cur == Point(false, Concat(chunks))
  {
    hide Parse, ParmsFrom, Quote, Step, Run, Wire, ValidTransfer, Steps;
    TransferGoesOn(f, chunks);
    var k := |f.end.shots| - 1;
    var pre := f.init.shots + ShotsOf(f.body) + f.end.shots[..k];
    var all := f.init.shots + ShotsOf(f.body) + f.end.shots;
    assert pre + [f.end.shots[k]] == all;
    RunToBreak(INITIAL, pre, f.end.shots[k], rest);
    HeardBody(f.body);
    TransferSteps(f, chunks);
    assert Heard(all) == Heard(f.init.shots) + Heard(ShotsOf(f.body)) + Heard(f.end.shots);
  }
}

/** What one `loadb` session does, packet by packet, as a function of the characters on
    the line. The imperative receiver is proved equal to it in KermitReceiver; what it
    guarantees over whole runs is proved in KermitRuns. */
module KermitSession {
  import opened Bytes
  import opened KermitWire

  // ---------------------------------------------------------------- control prefixing

  /** Undoes the control prefixing of one character. The three cases are the tests
      `(c & 0x60) == 0x40` and `(c & 0x7f) == 0x3f` written on the value. */
  function KTrans(c: Byte): Byte {
    if (c / 32) % 4 == 2 then c - 64
    else if c % 128 == 63 then c + 64
    else c
  }

  /** How far a download has come: whether a prefix character is pending, and the bytes stored. */
  datatype Point = Point(escape: bool, bytes: seq<Byte>)

  function DecodeChar(quote: Byte, p: Point, c: Byte): Point {
    if p.escape then Point(false, p.bytes + [KTrans(c)])
    else if c == quote then Point(true, p.bytes)
    else Point(false, p.bytes + [c])
  }

  function DecodeAll(quote: Byte, p: Point, data: seq<Byte>): Point {
    if data == [] then p
    else DecodeChar(quote, DecodeAll(quote, p, data[..|data| - 1]), data[|data| - 1])
  }

  // ---------------------------------------------------------------- replies

  /** What the other side asked for. */
  datatype Parms = Parms(eol: Byte, padCount: nat, padChar: Byte, quote: Byte)

  const DEFAULT_PARMS := Parms(END_CHAR, 0, 0, K_ESCAPE)

  const SEND_DATA_SIZE: nat := 20

  /** How many characters of a Send-Init data field are looked at. */
  function ParmBytes(count: nat): nat {
    if count >= SEND_DATA_SIZE - 1 then SEND_DATA_SIZE - 2 else count
  }

  function ParmsFrom(data: seq<Byte>): Parms {
    var k := ParmBytes(|data|);
    Parms(if k > 4 then UnToChar(data[4]) else END_CHAR,
          if k > 2 then UnToChar(data[2]) else 0,
          if k > 3 then KTrans(data[3]) else 0,
          if k > 5 then data[5] else K_ESCAPE)
  }

  /** The receiver's own parameters, in the order the Send-Init fields ask for them;
      the last field (capabilities) answers with four characters at once. */
  const MY_PARMS: seq<Byte> :=
    [ToChar(94), ToChar(1), ToChar(0), 0x40, ToChar(END_CHAR), 0x23, 0x4E, 0x31, 0x4E,
     ToChar(2), ToChar(0), ToChar(94), ToChar(94)]

  function ParmReply(count: nat): seq<Byte> {
    if ParmBytes(count) >= 10 then MY_PARMS else MY_PARMS[..ParmBytes(count)]
  }

  function Pads(count: nat, c: Byte): seq<Byte> { seq(count, _ => c) }

  /** A reply on the line: padding, then the packet. Characters are sent up to the first
      NUL, so an end-of-line character of 0 is not sent. */
  function Reply(parms: Parms, n: Small, kind: Byte, data: seq<Byte>): seq<Byte>
    requires |data| <= MAX_SHORT_DATA
  {
    var body := [ToChar(|data| + 3), ToChar(n), kind] + data;
    Pads(parms.padCount, parms.padChar) + [START_CHAR] + body + [CheckChar(Sum(body))]
      + (if parms.eol == 0 then [] else [parms.eol])
  }

  // ---------------------------------------------------------------- the session

  /** `saved` is the checkpoint taken at the last change of sequence number, `cur` the
      present state, `n` the last sequence number seen, `out` everything sent. */
  datatype Session = Session(saved: Point, cur: Point, lastN: int, n: Small, parms: Parms, out: seq<Byte>)

  const INITIAL := Session(Point(false, []), Point(false, []), -1, 0, DEFAULT_PARMS, [])

  /** Where a packet numbered `n` starts from: a repeated number starts over at the
      checkpoint, a new one goes on from the present state. */
  function Base(s: Session, n: Small): Point {
    if n == s.lastN then s.saved else s.cur
  }

  function Step(s: Session, e: Parsed): Session
    requires !e.Starved?
  {
    match e
    case HeaderError(_) =>
      s.(cur := s.saved, out := s.out + Reply(s.parms, s.n, NACK_TYPE, []))
    case Rejected(_, n) =>
      Session(Base(s, n), Base(s, n), n, n, s.parms, s.out + Reply(s.parms, n, NACK_TYPE, []))
    case Accepted(_, n, kind, data) =>
      if kind == SEND_TYPE then
        Session(Base(s, n), Base(s, n), n, n, ParmsFrom(data),
                s.out + Reply(ParmsFrom(data), n, ACK_TYPE, ParmReply(|data|)))
      else
        var cur := if kind == DATA_TYPE then DecodeAll(s.parms.quote, Base(s, n), data) else Base(s, n);
        Session(Base(s, n), cur, n, n, s.parms, s.out + Reply(s.parms, n, ACK_TYPE, []))
  }

  /** Position of the first START or ETX at or after `p`, or the end of the line. */
  function Scan(line: seq<Byte>, p: nat): (k: nat)
    requires p <= |line|
    ensures p <= k <= |line|
    ensures forall i :: p <= i < k ==> line[i] != START_CHAR && line[i] != ETX_CHAR
    ensures k < |line| ==> line[k] == START_CHAR || line[k] == ETX_CHAR
    decreases |line| - p
  {
    if p == |line| || line[p] == START_CHAR || line[p] == ETX_CHAR then p else Scan(line, p + 1)
  }

  /** How a session stands once the line has been read from `p` on: still waiting (for a
      packet, or inside one), interrupted by ^C, or finished by a Break packet. */
  datatype Outcome =
    | Waiting(s: Session, inside: bool)
    | Interrupted(s: Session)
    | Finished(s: Session)

  function Run(s: Session, line: seq<Byte>, p: nat): Outcome
    requires p <= |line|
    decreases |line| - p
  {
    var k := Scan(line, p);
    if k == |line| then Waiting(s, false)
    else if line[k] == ETX_CHAR then Interrupted(s)
    else
      var e := Parse(line, k + 1);
      if e.Starved? then Waiting(s, true)
      else
        ParseAdvances(line, k + 1);
        if e.Accepted? && e.kind == BREAK_TYPE then Finished(Step(s, e))
        else Run(Step(s, e), line, e.next)
  }

  /** One round of the receive loop. */
  lemma RunUnfolds(s: Session, line: seq<Byte>, p: nat)
    requires p <= |line|
    ensures var k := Scan(line, p);
            if k == |line| then Run(s, line, p) == Waiting(s, false)
            else if line[k] == ETX_CHAR then Run(s, line, p) == Interrupted(s)
            else
              var e := Parse(line, k + 1);
              if e.Starved? then Run(s, line, p) == Waiting(s, true)
              else if e.Accepted? && e.kind == BREAK_TYPE then k + 1 < e.next <= |line| && Run(s, line, p) == Finished(Step(s, e))
              else k + 1 < e.next <= |line| && Run(s, line, p) == Run(Step(s, e), line, e.next)
  {
    hide Parse, Step;
    var k := Scan(line, p);
    if k < |line| { ParseAdvances(line, k + 1); }
  }
}

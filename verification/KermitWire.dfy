/** The Kermit packet format as the receiver of `loadb` understands it: what one
    packet on the line parses to, what a sender puts on the line, and the proof
    that the two agree. */
module KermitWire {
  import opened Bytes

  const START_CHAR: Byte := 0x01
  const ETX_CHAR: Byte := 0x03
  const END_CHAR: Byte := 0x0D
  const SPACE: Byte := 0x20
  const K_ESCAPE: Byte := 0x23
  const SEND_TYPE: Byte := 0x53
  const DATA_TYPE: Byte := 0x44
  const ACK_TYPE: Byte := 0x59
  const NACK_TYPE: Byte := 0x4E
  const BREAK_TYPE: Byte := 0x42

  /** Sequence numbers, lengths and checks: what a printable character can carry. */
  type Small = x: int | 0 <= x < 224

  /** Adding the bias that makes small numbers printable (8 bits never overflow), and
      removing it modulo 256. */
  function ToChar(x: Small): Byte { x + SPACE }

  function UnToChar(b: Byte): Byte { if b >= SPACE then b - SPACE else b - SPACE + 256 }

  /** The test `(c & 0xE0) == 0`: a control character, never legal inside a packet. */
  predicate IsControl(b: Byte) { b < SPACE }

  function Fold6(sum: nat): (r: Small)
    ensures r < 64
  {
    (sum + (sum / 64) % 4) % 64
  }

  /** The one-character block check. */
  function CheckChar(sum: nat): Byte { ToChar(Fold6(sum)) }

  /** What the receiver makes of the characters following a START; `next` is the
      position after the last character it took. */
  datatype Parsed =
    | Starved                                   // the line ran dry inside the packet
    | HeaderError(next: nat)                    // bad length or sequence character
    | Rejected(next: nat, n: Small)              // damaged after the sequence character
    | Accepted(next: nat, n: Small, kind: Byte, data: seq<Byte>)

  function Parse(line: seq<Byte>, p: nat): Parsed {
    if p >= |line| then Starved
    else if IsControl(line[p]) then HeaderError(p + 1)
    else if p + 1 >= |line| then Starved
    else if IsControl(line[p + 1]) then HeaderError(p + 2)
    else ParseKind(line, p + 2, UnToChar(line[p]) - 1, line[p] as int + line[p + 1], UnToChar(line[p + 1]))
  }

  /** From the type character on: `length` still counts it. */
  function ParseKind(line: seq<Byte>, p: nat, length: int, sum: nat, n: Small): Parsed {
    if p >= |line| then Starved
    else if IsControl(line[p]) then Rejected(p + 1, n)
    else if length == -1 then ParseExtended(line, p + 1, sum + line[p], n, line[p])
    else ParseData(line, p + 1, length - 1, sum + line[p], n, line[p], [])
  }

  /** A long packet: two more length characters and a header check. */
  function ParseExtended(line: seq<Byte>, p: nat, sum: nat, n: Small, kind: Byte): Parsed {
    if p >= |line| then Starved
    else if IsControl(line[p]) then Rejected(p + 1, n)
    else if p + 1 >= |line| then Starved
    else if IsControl(line[p + 1]) then Rejected(p + 2, n)
    else if p + 2 >= |line| then Starved
    else
      var headerSum := sum + line[p] + line[p + 1];
      if IsControl(line[p + 2]) || line[p + 2] != CheckChar(headerSum) then Rejected(p + 3, n)
      else ParseData(line, p + 3, UnToChar(line[p]) * 95 + UnToChar(line[p + 1]),
                     headerSum + line[p + 2], n, kind, [])
  }

  /** Data characters while more than the block check remains, then check and END. */
  function ParseData(line: seq<Byte>, p: nat, length: int, sum: nat, n: Small, kind: Byte, data: seq<Byte>): Parsed
    decreases length
  {
    if p >= |line| then Starved
    else if IsControl(line[p]) then Rejected(p + 1, n)
    else if length > 1 then
      ParseData(line, p + 1, length - 1, sum + line[p], n, kind, data + [line[p]])
    else if line[p] != CheckChar(sum) then Rejected(p + 1, n)
    else if p + 1 >= |line| then Starved
    else if line[p + 1] != END_CHAR then Rejected(p + 2, n)
    else Accepted(p + 2, n, kind, data)
  }

  lemma {:induction false} ParseDataAdvances(line: seq<Byte>, p: nat, length: int, sum: nat, n: Small, kind: Byte, data: seq<Byte>)
    ensures var e := ParseData(line, p, length, sum, n, kind, data);
            e.Starved? || (p < e.next <= |line| && !e.HeaderError? && e.n == n && (e.Accepted? ==> e.kind == kind))
    decreases length
  {
    if p < |line| && !IsControl(line[p]) && length > 1 {
      ParseDataAdvances(line, p + 1, length - 1, sum + line[p], n, kind, data + [line[p]]);
    }
  }

  /** Every parse takes at least one character and stays on the line. */
  lemma ParseAdvances(line: seq<Byte>, p: nat)
    ensures var e := Parse(line, p); e.Starved? || p < e.next <= |line|
    ensures var e := Parse(line, p); e.Rejected? || e.Accepted? ==> p + 2 < e.next && e.n == UnToChar(line[p + 1])
  {
    if p + 2 < |line| && !IsControl(line[p]) && !IsControl(line[p + 1]) && !IsControl(line[p + 2]) {
      var n, kind := UnToChar(line[p + 1]), line[p + 2];
      var sum := line[p] as int + line[p + 1] + line[p + 2];
      if UnToChar(line[p]) == 0 {
        if p + 5 < |line| {
          var headerSum := sum + line[p + 3] + line[p + 4];
          ParseDataAdvances(line, p + 6, UnToChar(line[p + 3]) * 95 + UnToChar(line[p + 4]),
                            headerSum + line[p + 5], n, kind, []);
        }
      } else {
        ParseDataAdvances(line, p + 3, UnToChar(line[p]) - 2, sum, n, kind, []);
      }
    }
  }

  // ---------------------------------------------------------------- locality

  /** Moves a parse result `d` characters along the line. */
  function Shift(e: Parsed, d: nat): Parsed {
    match e
    case Starved => Starved
    case HeaderError(next) => HeaderError(next + d)
    case Rejected(next, n) => Rejected(next + d, n)
    case Accepted(next, n, kind, data) => Accepted(next + d, n, kind, data)
  }

  lemma {:induction false} ParseDataLocal(before: seq<Byte>, body: seq<Byte>, after: seq<Byte>,
                                          p: nat, length: int, sum: nat, n: Small, kind: Byte, data: seq<Byte>)
    requires after == [] || !ParseData(body, p, length, sum, n, kind, data).Starved?
    ensures ParseData(before + body + after, |before| + p, length, sum, n, kind, data)
            == Shift(ParseData(body, p, length, sum, n, kind, data), |before|)
    decreases length
  {
    var line := before + body + after;
    assert forall k :: 0 <= k < |body| ==> line[|before| + k] == body[k];
    if p < |body| && !IsControl(body[p]) && length > 1 {
      assert line[|before| + p] == body[p];
      ParseDataLocal(before, body, after, p + 1, length - 1, sum + body[p], n, kind, data + [body[p]]);
    } else if p < |body| {
      assert line[|before| + p] == body[p];
      if p + 1 < |body| { assert line[|before| + (p + 1)] == body[p + 1]; }
    }
  }

  /** A completed parse depends only on the characters it took: neither what came
      before on the line nor what follows changes it. One that ran dry at the end of the line
      does not depend on what came before either. */
  lemma ParseLocal(before: seq<Byte>, body: seq<Byte>, after: seq<Byte>)
    requires after == [] || !Parse(body, 0).Starved?
    ensures Parse(before + body + after, |before|) == Shift(Parse(body, 0), |before|)
  {
    var line := before + body + after;
    assert forall k :: 0 <= k < |body| ==> line[|before| + k] == body[k];
    if |body| > 2 && !IsControl(body[0]) && !IsControl(body[1]) && !IsControl(body[2]) {
      var n, kind := UnToChar(body[1]), body[2];
      var sum := body[0] as int + body[1] + body[2];
      if UnToChar(body[0]) == 0 {
        if |body| > 5 && !IsControl(body[3]) && !IsControl(body[4]) {
          var headerSum: nat := sum + body[3] + body[4];
          if !IsControl(body[5]) && body[5] == CheckChar(headerSum) {
            ParseDataLocal(before, body, after, 6, UnToChar(body[3]) * 95 + UnToChar(body[4]),
                           headerSum + body[5], n, kind, []);
          }
        }
      } else {
        ParseDataLocal(before, body, after, 3, UnToChar(body[0]) - 2, sum, n, kind, []);
      }
    }
  }

  // ---------------------------------------------------------------- what a sender sends

  datatype Packet = Packet(n: Small, kind: Byte, data: seq<Byte>)

  const MAX_SHORT_DATA: nat := 91
  const MAX_DATA: nat := 94 * 95 + 94 - 1

  predicate Printable(s: seq<Byte>) { forall i :: 0 <= i < |s| ==> !IsControl(s[i]) }

  /** What the format can carry: printable characters
      and no more data than the two length characters can count. */
  predicate Sendable(pkt: Packet) {
    !IsControl(pkt.kind) && Printable(pkt.data) && |pkt.data| <= MAX_DATA
  }

  function Sum(s: seq<Byte>): nat {
    if s == [] then 0 else Sum(s[..|s| - 1]) + s[|s| - 1]
  }

  /** Length, sequence and type characters; a long packet has length 0 and adds two
      length characters and a header check. */
  function Header(pkt: Packet): seq<Byte>
    requires |pkt.data| <= MAX_DATA
  {
    if |pkt.data| <= MAX_SHORT_DATA then
      [ToChar(|pkt.data| + 3), ToChar(pkt.n), pkt.kind]
    else
      var counted := |pkt.data| + 1;
      var h := [ToChar(0), ToChar(pkt.n), pkt.kind, ToChar(counted / 95), ToChar(counted % 95)];
      h + [CheckChar(Sum(h))]
  }

  /** Everything after START. */
  function Encode(pkt: Packet): seq<Byte>
    requires |pkt.data| <= MAX_DATA
  {
    var body := Header(pkt) + pkt.data;
    body + [CheckChar(Sum(body)), END_CHAR]
  }

  lemma SumSnoc(s: seq<Byte>, b: Byte)
    ensures Sum(s + [b]) == Sum(s) + b
  {
    assert (s + [b])[..|s|] == s;
  }

  /** The data phase accepts a printable tail that ends in the right check and END. */
  lemma {:induction false} ParseDataTail(line: seq<Byte>, p: nat, length: int, n: Small, kind: Byte,
                                         data: seq<Byte>, rest: seq<Byte>, end: Byte)
    requires p <= |line| && Printable(rest)
    requires line[p..] == rest + [CheckChar(Sum(line[..p] + rest)), end]
    requires length == |rest| + 1 || (rest == [] && length <= 1)
    ensures ParseData(line, p, length, Sum(line[..p]), n, kind, data)
            == if end == END_CHAR then Accepted(|line|, n, kind, data + rest) else Rejected(|line|, n)
    decreases |rest|
  {
    hide Fold6, Sum;
    assert |line| == p + |rest| + 2;
    if rest == [] {
      assert line[..p] + rest == line[..p];
      assert line[p] == line[p..][0] && line[p + 1] == line[p..][1];
      assert data + rest == data;
    } else {
      assert line[p] == line[p..][0] == rest[0];
      assert line[..p + 1] == line[..p] + [rest[0]];
      SumSnoc(line[..p], rest[0]);
      assert line[..p] + rest == line[..p + 1] + rest[1..];
      assert line[p + 1..] == line[p..][1..] == rest[1..] + [CheckChar(Sum(line[..p + 1] + rest[1..])), end];
      ParseDataTail(line, p + 1, length - 1, n, kind, data + [rest[0]], rest[1..], end);
      assert data + [rest[0]] + rest[1..] == data + rest;
    }
  }

  lemma SumFew(s: seq<Byte>)
    ensures |s| == 3 ==> Sum(s) == s[0] as int + s[1] + s[2]
    ensures |s| == 5 ==> Sum(s) == s[0] as int + s[1] + s[2] + s[3] + s[4]
  {
    if |s| == 3 || |s| == 5 {
      forall k | 0 <= k < |s| ensures Sum(s[..k + 1]) == Sum(s[..k]) + s[k] {
        SumSnoc(s[..k], s[k]);
        assert s[..k + 1] == s[..k] + [s[k]];
      }
      assert s[..|s|] == s && s[..0] == [];
      assert Sum(s[..1]) == s[0] && Sum(s[..2]) == s[0] as int + s[1] && Sum(s[..3]) == s[0] as int + s[1] + s[2];
      if |s| == 5 { assert Sum(s[..4]) == Sum(s[..3]) + s[3]; }
    }
  }

  /** A short header leads to the data phase, with the running sum so far. */
  lemma ShortHeader(line: seq<Byte>)
    requires |line| > 3 && Printable(line[..3]) && UnToChar(line[0]) != 0
    ensures Parse(line, 0) == ParseData(line, 3, UnToChar(line[0]) - 2, Sum(line[..3]), UnToChar(line[1]), line[2], [])
  {
    SumFew(line[..3]);
    assert forall k :: 0 <= k < 3 ==> line[k] == line[..3][k];
  }

  /** A long header with a good header check does too. */
  lemma LongHeader(line: seq<Byte>)
    requires |line| > 6 && Printable(line[..6]) && UnToChar(line[0]) == 0
    requires line[5] == CheckChar(Sum(line[..5]))
    ensures Parse(line, 0)
            == ParseData(line, 6, UnToChar(line[3]) * 95 + UnToChar(line[4]), Sum(line[..6]), UnToChar(line[1]), line[2], [])
  {
    assert forall k :: 0 <= k < 6 ==> line[k] == line[..6][k];
    var sum := line[0] as int + line[1] + line[2];
    var headerSum := sum + line[3] + line[4];
    assert headerSum == Sum(line[..5]) && headerSum + line[5] == Sum(line[..6]) by {
      SumFew(line[..5]);
      SumSnoc(line[..5], line[5]);
      assert line[..5] + [line[5]] == line[..6];
    }
  }

  /** The lead-in of every accepted packet. */
  lemma AcceptedHeader(line: seq<Byte>)
    requires Parse(line, 0).Accepted?
    ensures |line| > 3 && Printable(line[..3])
    ensures UnToChar(line[0]) == 0 ==> |line| > 6 && Printable(line[..6]) && line[5] == CheckChar(Sum(line[..5]))
  {
    if UnToChar(line[0]) == 0 {
      SumFew(line[..5]);
    } else {
      ParseDataAdvances(line, 3, UnToChar(line[0]) - 2, line[0] as int + line[1] + line[2], UnToChar(line[1]), line[2], []);
    }
  }

  lemma EncodeParsesShort(pkt: Packet)
    requires Sendable(pkt) && |pkt.data| <= MAX_SHORT_DATA
    ensures Parse(Encode(pkt), 0) == Accepted(|Encode(pkt)|, pkt.n, pkt.kind, pkt.data)
  {
    hide Fold6, Sum, Parse, ParseData;
    var line, h := Encode(pkt), Header(pkt);
    assert line[..3] == h;
    assert line[3..] == pkt.data + [CheckChar(Sum(h + pkt.data)), END_CHAR];
    ShortHeader(line);
    ParseDataTail(line, 3, |pkt.data| + 1, pkt.n, pkt.kind, [], pkt.data, END_CHAR);
    assert [] + pkt.data == pkt.data;
  }

  lemma EncodeParsesLong(pkt: Packet)
    requires Sendable(pkt) && |pkt.data| > MAX_SHORT_DATA
    ensures Parse(Encode(pkt), 0) == Accepted(|Encode(pkt)|, pkt.n, pkt.kind, pkt.data)
  {
    hide Fold6, Sum, Parse, ParseData;
    var line, h, counted := Encode(pkt), Header(pkt), |pkt.data| + 1;
    assert line[..6] == h && line[..5] == h[..5];
    assert line[6..] == pkt.data + [CheckChar(Sum(h + pkt.data)), END_CHAR];
    var hi, lo := counted / 95, counted % 95;
    assert hi * 95 + lo == counted;
    assert line[3] == h[3] == ToChar(hi) && line[4] == h[4] == ToChar(lo);
    LongHeader(line);
    ParseDataTail(line, 6, counted, pkt.n, pkt.kind, [], pkt.data, END_CHAR);
    assert [] + pkt.data == pkt.data;
  }

  /** Round trip: the receiver reads back every sendable packet, short or long,
      taking exactly its characters. */
  lemma EncodeParses(pkt: Packet)
    requires Sendable(pkt)
    ensures Parse(Encode(pkt), 0) == Accepted(|Encode(pkt)|, pkt.n, pkt.kind, pkt.data)
  {
    if |pkt.data| <= MAX_SHORT_DATA { EncodeParsesShort(pkt); } else { EncodeParsesLong(pkt); }
  }

  // ---------------------------------------------------------------- nothing else is accepted

  lemma {:induction false} ParseDataSound(line: seq<Byte>, p: nat, length: int, n: Small, kind: Byte, data: seq<Byte>)
    requires p <= |line|
    requires ParseData(line, p, length, Sum(line[..p]), n, kind, data).Accepted?
    ensures var e := ParseData(line, p, length, Sum(line[..p]), n, kind, data);
            && p + 2 <= e.next <= |line|
            && e.data == data + line[p..e.next - 2]
            && Printable(line[p..e.next - 2])
            && e.next - 2 - p == (if length > 1 then length - 1 else 0)
            && line[e.next - 2] == CheckChar(Sum(line[..e.next - 2])) && line[e.next - 1] == END_CHAR
            && e.kind == kind && e.n == n
    decreases length
  {
    var e := ParseData(line, p, length, Sum(line[..p]), n, kind, data);
    if length > 1 {
      assert line[..p + 1] == line[..p] + [line[p]];
      SumSnoc(line[..p], line[p]);
      ParseDataSound(line, p + 1, length - 1, n, kind, data + [line[p]]);
      assert [line[p]] + line[p + 1..e.next - 2] == line[p..e.next - 2];
      assert data + [line[p]] + line[p + 1..e.next - 2] == data + line[p..e.next - 2];
    }
  }

  /** The characters up to `end` are a packet carrying `data` from position `at` on,
      under a check over everything before it. */
  predicate Framed(line: seq<Byte>, at: nat, data: seq<Byte>, end: nat) {
    && end == at + |data| + 2 <= |line|
    && data == line[at..end - 2]
    && Printable(line[..at]) && Printable(data)
    && line[end - 2] == CheckChar(Sum(line[..end - 2])) && line[end - 1] == END_CHAR
  }

  function DataLength(counted: int): nat { if counted > 1 then counted - 1 else 0 }

  /** Soundness: whatever is accepted is a framed packet whose length field counts its
      data; a long one also passed its header check. */
  lemma AcceptedIsWellFormed(line: seq<Byte>)
    requires Parse(line, 0).Accepted?
    ensures |line| > 5 || UnToChar(line[0]) != 0
    ensures var e := Parse(line, 0);
            && e.n == UnToChar(line[1]) && e.kind == line[2]
            && if UnToChar(line[0]) != 0 then
                 Framed(line, 3, e.data, e.next) && |e.data| == DataLength(UnToChar(line[0]) - 2)
               else
                 && Framed(line, 6, e.data, e.next)
                 && |e.data| == DataLength(UnToChar(line[3]) * 95 + UnToChar(line[4]))
                 && line[5] == CheckChar(Sum(line[..5]))
  {
    AcceptedHeader(line);
    if UnToChar(line[0]) == 0 {
      LongHeader(line);
      ParseDataSound(line, 6, UnToChar(line[3]) * 95 + UnToChar(line[4]), UnToChar(line[1]), line[2], []);
    } else {
      ShortHeader(line);
      ParseDataSound(line, 3, UnToChar(line[0]) - 2, UnToChar(line[1]), line[2], []);
    }
  }

  // ---------------------------------------------------------------- what the check catches

  /** Powers of two up to 128: what flipping one bit adds or takes away. */
  predicate OneBit(d: int) { d in {1, 2, 4, 8, 16, 32, 64, 128} }

  lemma CheckSeesBit(sum: nat, d: nat)
    requires OneBit(d)
    ensures Fold6(sum) != Fold6(sum + d)
  {
    var high, low := sum / 64, sum % 64;
    var high', low' := (sum + d) / 64, (sum + d) % 64;
    assert (sum + d) == 64 * high' + low' && sum == 64 * high + low;
    assert high' == high || high' == high + 1 || high' == high + 2;
    FoldSplit(high, low);
    FoldSplit(high', low');
  }

  lemma FoldSplit(high: nat, low: nat)
    requires low < 64
    ensures var r := low + high % 4; Fold6(64 * high + low) == if r < 64 then r else r - 64
  {
    assert (64 * high + low) / 64 == high;
    assert (64 * high + low + high % 4) == 64 * high + (low + high % 4);
  }

  lemma {:induction false} SumUpdate(s: seq<Byte>, i: nat, b: Byte)
    requires i < |s|
    ensures Sum(s[i := b]) == Sum(s) - s[i] + b
    decreases |s|
  {
    var k := |s| - 1;
    if i < k {
      assert s[i := b][..k] == s[..k][i := b];
      SumUpdate(s[..k], i, b);
    } else {
      assert s[i := b][..k] == s[..k];
    }
  }

  /** Two packets that differ in one bit of their data cannot both pass the check. */
  lemma OneCheckFails(line: seq<Byte>, at: nat, data: seq<Byte>, data': seq<Byte>, end: nat, i: nat, b: Byte)
    requires Framed(line, at, data, end) && at <= i < end - 2
    requires OneBit(b - line[i]) || OneBit(line[i] - b)
    ensures !Framed(line[i := b], at, data', end)
  {
    hide Fold6, Sum;
    var bad := line[i := b];
    if Framed(bad, at, data', end) {
      var sum, sum' := Sum(line[..end - 2]), Sum(bad[..end - 2]);
      assert bad[..end - 2] == line[..end - 2][i := b];
      SumUpdate(line[..end - 2], i, b);
      assert Fold6(sum) == Fold6(sum');
      if b > line[i] { CheckSeesBit(sum, b - line[i]); } else { CheckSeesBit(sum', line[i] - b); }
    }
  }

  /** A single flipped bit anywhere in the data of a packet is never accepted. */
  lemma DataBitFlipNotAccepted(pkt: Packet, i: nat, b: Byte)
    requires Sendable(pkt) && i < |pkt.data|
    requires OneBit(b - pkt.data[i]) || OneBit(pkt.data[i] - b)
    ensures !Parse(Encode(pkt)[|Header(pkt)| + i := b], 0).Accepted?
  {
    hide Fold6, Parse, Sum, Printable, Framed;
    var line, at := Encode(pkt), |Header(pkt)|;
    var bad := line[at + i := b];
    EncodeParses(pkt);
    AcceptedIsWellFormed(line);
    if Parse(bad, 0).Accepted? {
      assert forall k :: 0 <= k < at ==> bad[k] == line[k];
      AcceptedIsWellFormed(bad);
      assert Framed(line, at, pkt.data, |line|);
      var e := Parse(bad, 0);
      assert Framed(bad, at, e.data, e.next);
      FramedEnd(bad, at, e.data, e.next);
      OneCheckFails(line, at, pkt.data, e.data, |line|, at + i, b);
    }
  }

  lemma FramedEnd(line: seq<Byte>, at: nat, data: seq<Byte>, end: nat)
    requires Framed(line, at, data, end)
    ensures end == at + |data| + 2
  {
  }
}

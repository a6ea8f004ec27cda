/** The log ring: two record layouts of one buffer, and the level prefixes of its lines. */
module LogBuffer {
  import opened Arith
  import opened Bytes

  const NEWLINE: Byte := 10
  const SPACE: Byte := 0x20
  const OPEN: Byte := 0x3C
  const CLOSE: Byte := 0x3E
  const ZERO: Byte := 0x30

  /** default_message_loglevel */
  const DEFAULT_LEVEL: int := 4

  // ---------------------------------------------------------------- what is logged

  /** The text starts with <0> to <7>. */
  predicate HasPrefix(s: seq<Byte>) {
    |s| >= 3 && s[0] == OPEN && ZERO <= s[1] <= ZERO + 7 && s[2] == CLOSE
  }

  /** Length of the first line of a text, with its newline if it has one. */
  function LineLength(s: seq<Byte>): (n: nat)
    ensures n <= |s| && (s != [] ==> n > 0)
    ensures n < |s| ==> s[n - 1] == NEWLINE
    ensures forall i :: 0 <= i < n - 1 ==> s[i] != NEWLINE
  {
    if s == [] then 0 else if s[0] == NEWLINE then 1 else 1 + LineLength(s[1..])
  }

  /** The level in force once a line has begun with this text; negative means that no line
      has begun. */
  function LineLevel(level: int, s: seq<Byte>): int {
    if level >= 0 then level else if HasPrefix(s) then s[1] - ZERO else DEFAULT_LEVEL
  }

  /** What goes in front of it. */
  function Prefix(level: int, s: seq<Byte>): (pre: seq<Byte>)
    ensures forall i :: 0 <= i < |pre| ==> pre[i] != NEWLINE
  {
    if level >= 0 || HasPrefix(s) then [] else [OPEN, DEFAULT_LEVEL + ZERO, CLOSE]
  }

  function LevelAfter(level: int, s: seq<Byte>): int
    decreases |s|
  {
    if s == [] then level
    else
      var n := LineLength(s);
      LevelAfter(if s[n - 1] == NEWLINE then -1 else LineLevel(level, s), s[n..])
  }

  /** What a message adds to the log. */
  function Logged(level: int, s: seq<Byte>): seq<Byte>
    decreases |s|
  {
    if s == [] then []
    else
      var n := LineLength(s);
      Prefix(level, s) + s[..n] + Logged(if s[n - 1] == NEWLINE then -1 else LineLevel(level, s), s[n..])
  }

  /** What a run of calls logs. */
  function LoggedAll(level: int, messages: seq<seq<Byte>>): seq<Byte>
    decreases |messages|
  {
    if messages == [] then []
    else Logged(level, messages[0]) + LoggedAll(LevelAfter(level, messages[0]), messages[1..])
  }

  // ---------------------------------------------------------------- every line has a level

  predicate LineStart(s: seq<Byte>, i: int)
    requires 0 <= i <= |s|
  {
    i == 0 || s[i - 1] == NEWLINE
  }

  /** Every line of the text begins with <0> to <7>. */
  predicate Marked(s: seq<Byte>) {
    forall i :: 0 <= i < |s| && LineStart(s, i) ==> HasPrefix(s[i..])
  }

  /** The level is unset exactly between lines. */
  predicate InStep(level: int, s: seq<Byte>) {
    level < 0 <==> LineStart(s, |s|)
  }

  /** One line more. */
  lemma MarkedLine(stream: seq<Byte>, line: seq<Byte>)
    requires Marked(stream) && line != [] && (LineStart(stream, |stream|) ==> HasPrefix(line))
    requires forall i :: 0 <= i < |line| - 1 ==> line[i] != NEWLINE
    ensures Marked(stream + line)
  {
    hide HasPrefix;
    var s, n := stream + line, |stream|;
    assert forall j :: n <= j < |s| - 1 ==> s[j] == line[j - n] != NEWLINE;
    forall i | 0 <= i < |s| && LineStart(s, i)
      ensures HasPrefix(s[i..])
    {
      if i < n {
        assert LineStart(stream, i);
        PrefixExtends(stream[i..], line);
        assert stream[i..] + line == s[i..];
      } else {
        assert i == n && s[i..] == line;
      }
    }
  }

  lemma PrefixExtends(s: seq<Byte>, t: seq<Byte>)
    requires HasPrefix(s)
    ensures HasPrefix(s + t)
  {
  }

  /** The line that is logged first has a level if it opens one. */
  lemma FirstLine(level: int, s: seq<Byte>)
    requires s != []
    ensures var n := LineLength(s);
            var line := Prefix(level, s) + s[..n];
            && (level < 0 ==> HasPrefix(line)) && line != [] && line[|line| - 1] == s[n - 1]
            && (forall i :: 0 <= i < |line| - 1 ==> line[i] != NEWLINE)
            && LineLevel(level, s) >= 0
  {
    var n := LineLength(s);
    if HasPrefix(s) {
      assert n >= 3;
    }
  }

  /** Whatever a call logs, every line keeps its level, even one that spans calls. */
  lemma {:induction false} LoggedIsMarked(stream: seq<Byte>, level: int, s: seq<Byte>)
    requires Marked(stream) && InStep(level, stream)
    ensures Marked(stream + Logged(level, s)) && InStep(LevelAfter(level, s), stream + Logged(level, s))
    decreases |s|
  {
    hide HasPrefix, LineLevel, Prefix, Marked;
    if s == [] {
      assert stream + [] == stream;
    } else {
      var n := LineLength(s);
      var line := Prefix(level, s) + s[..n];
      FirstLine(level, s);
      MarkedLine(stream, line);
      var next := if s[n - 1] == NEWLINE then -1 else LineLevel(level, s);
      LoggedIsMarked(stream + line, next, s[n..]);
      assert stream + (line + Logged(next, s[n..])) == stream + line + Logged(next, s[n..]);
    }
  }

  /** Over every run of calls from the start, every line of the stream begins with its level. */
  lemma {:induction false} EveryLineHasLevel(stream: seq<Byte>, level: int, messages: seq<seq<Byte>>)
    requires Marked(stream) && InStep(level, stream)
    ensures Marked(stream + LoggedAll(level, messages))
    decreases |messages|
  {
    hide Marked, InStep, Logged, LevelAfter;
    if messages == [] {
      assert stream + [] == stream;
    } else {
      var first := Logged(level, messages[0]);
      LoggedIsMarked(stream, level, messages[0]);
      EveryLineHasLevel(stream + first, LevelAfter(level, messages[0]), messages[1..]);
      var rest := LoggedAll(LevelAfter(level, messages[0]), messages[1..]);
      assert stream + (first + rest) == stream + first + rest;
    }
  }

  /** A reset in mid-line loses the level of what follows, unless that text brings one. */
  lemma ResetMidLine(level: int, s: seq<Byte>)
    requires level >= 0 && s != []
    ensures Marked(Logged(level, s)) <==> HasPrefix(s)
  {
    hide Logged, LevelAfter, Prefix, LineLevel;
    var n := LineLength(s);
    LoggedLine(level, s);
    NoPrefix(level, s);
    var next := if s[n - 1] == NEWLINE then -1 else LineLevel(level, s);
    var line, all := s[..n], Logged(level, s);
    assert all == line + Logged(next, s[n..]);
    FirstLine(level, s);
    if HasPrefix(s) {
      FirstLineOwn(s);
      assert Marked([]);
      assert [] + line == line;
      MarkedLine([], line);
      LoggedIsMarked(line, next, s[n..]);
    } else if Marked(all) {
      assert LineStart(all, 0) && all[0..] == all;
      LoggedNothing(next);
      assert n == |s| ==> s[n..] == [];
      PrefixOfLine(s, Logged(next, s[n..]));
    }
  }

  lemma NoPrefix(level: int, s: seq<Byte>)
    requires level >= 0
    ensures Prefix(level, s) == [] && forall t: seq<Byte> :: [] + t == t
  {
  }

  lemma FirstLineOwn(s: seq<Byte>)
    requires HasPrefix(s)
    ensures HasPrefix(s[..LineLength(s)])
  {
    assert LineLength(s) >= 3;
  }

  /** A level cannot be put together across the end of a line. */
  lemma PrefixOfLine(s: seq<Byte>, more: seq<Byte>)
    requires s != [] && HasPrefix(s[..LineLength(s)] + more)
    requires LineLength(s) == |s| ==> more == []
    ensures HasPrefix(s)
  {
    var n := LineLength(s);
    var all := s[..n] + more;
    assert forall i :: 0 <= i < n ==> all[i] == s[i];
    if n < |s| {
      assert n >= 3;
    }
  }

  // ---------------------------------------------------------------- character by character

  /** A level mark, <0> to <7>. */
  predicate Mark(s: seq<Byte>) {
    |s| >= 3 && s[0] == 0x3C && (s[1] in {0x30, 0x31, 0x32, 0x33, 0x34, 0x35, 0x36, 0x37}) && s[2] == 0x3E
  }

  /** The text with <4> put in where a line begins without a mark. */
  function Inserted(begins: bool, s: seq<Byte>): seq<Byte>
    decreases |s|
  {
    if s == [] then []
    else (if begins && !Mark(s) then [0x3C, 0x34, 0x3E] else []) + [s[0]] + Inserted(s[0] == 0x0A, s[1..])
  }

  /** The level of the line that is under way after a text: the digit of its mark, 4 without one, and
      -1 between lines. */
  function LevelOf(level: int, s: seq<Byte>): int
    decreases |s|
  {
    if s == [] then level
    else if s[0] == 0x0A then LevelOf(-1, s[1..])
    else LevelOf(if level >= 0 then level else if Mark(s) then s[1] - 0x30 else 4, s[1..])
  }

  lemma MarkIs(s: seq<Byte>)
    ensures HasPrefix(s) <==> Mark(s)
  {
  }

  /** Inside a line characters are copied. */
  lemma {:induction false} Copied(level: int, s: seq<Byte>)
    requires s != [] && level >= 0
    ensures var n := LineLength(s);
            && Inserted(false, s) == s[..n] + Inserted(s[n - 1] == 0x0A, s[n..])
            && LevelOf(level, s) == LevelOf(if s[n - 1] == 0x0A then -1 else level, s[n..])
    decreases |s|
  {
    hide Inserted, LevelOf, LineLength;
    var n, rest := LineLength(s), s[1..];
    CharCopied(level, s);
    if s[0] == 0x0A || rest == [] {
      assert s[..1] == [s[0]];
    } else {
      Copied(level, rest);
      assert rest[n - 1..] == s[n..] && rest[n - 2] == s[n - 1] && [s[0]] + rest[..n - 1] == s[..n];
      var more := Inserted(s[n - 1] == 0x0A, s[n..]);
      assert [s[0]] + (rest[..n - 1] + more) == [s[0]] + rest[..n - 1] + more;
    }
  }

  lemma CharCopied(level: int, s: seq<Byte>)
    requires s != [] && level >= 0
    ensures Inserted(false, s) == [s[0]] + Inserted(s[0] == 0x0A, s[1..])
    ensures LevelOf(level, s) == LevelOf(if s[0] == 0x0A then -1 else level, s[1..])
    ensures LineLength(s) == if s[0] == 0x0A || s[1..] == [] then 1 else 1 + LineLength(s[1..])
  {
    hide Mark;
    assert [] + [s[0]] == [s[0]];
  }

  /** What begins a line, before the copying. */
  lemma Begun(level: int, s: seq<Byte>)
    requires s != []
    ensures Inserted(level < 0, s) == Prefix(level, s) + Inserted(false, s)
    ensures LevelOf(level, s) == LevelOf(LineLevel(level, s), s) && LineLevel(level, s) >= 0
  {
    MarkIs(s);
    var more := [s[0]] + Inserted(s[0] == 0x0A, s[1..]);
    assert Inserted(false, s) == [] + [s[0]] + Inserted(s[0] == 0x0A, s[1..]) == more;
    assert [0x3C, 0x34, 0x3E] + [s[0]] + Inserted(s[0] == 0x0A, s[1..]) == [0x3C, 0x34, 0x3E] + more;
  }

  /** A message is logged whole and in order, with nothing but the missing marks put in, and leaves
      the level of its last line behind. */
  lemma {:induction false} LoggedIsInserted(level: int, s: seq<Byte>)
    ensures Logged(level, s) == Inserted(level < 0, s) && LevelAfter(level, s) == LevelOf(level, s)
    decreases |s|
  {
    hide Prefix, LineLevel, Inserted, LevelOf, Logged, LevelAfter, LineLength;
    if s == [] {
      NoneInserted(level);
      LoggedNothing(level);
    } else {
      LoggedLine(level, s);
      var n := LineLength(s);
      var next := if s[n - 1] == NEWLINE then -1 else LineLevel(level, s);
      Begun(level, s);
      Copied(LineLevel(level, s), s);
      LoggedIsInserted(next, s[n..]);
      var more := Inserted(s[n - 1] == NEWLINE, s[n..]);
      assert Prefix(level, s) + (s[..n] + more) == Prefix(level, s) + s[..n] + more;
    }
  }

  lemma NoneInserted(level: int)
    ensures Inserted(level < 0, []) == [] && LevelOf(level, []) == level
  {
  }

  // ---------------------------------------------------------------- the ring

  /** A buffer length that the index mask can serve: a power of two that fits a word. */
  predicate ValidLength(n: nat) { n > 0 && M32 % n == 0 }

  /** The counters are 32 bits wide, but positions modulo the buffer length never notice. */
  lemma MaskIgnoresWrap(x: int, y: int, n: nat)
    requires ValidLength(n)
    ensures (x % M32 + y) % M32 % n == (x + y) % n
    ensures x % M32 % n == x % n
  {
    var k := M32 / n;
    DivMod(M32, n);
    Multiple(x, n, k);
    Multiple(x % M32 + y, n, k);
    DivMod(x, M32);
    var c := x / M32;
    assert x + y == (x % M32 + y) + (c * k) * n by { assert c * (k * n) == (c * k) * n; }
    DivShift(x % M32 + y, n, c * k);
  }

  lemma Multiple(x: int, n: nat, k: int)
    requires n > 0 && k * n == M32
    ensures x % M32 % n == x % n
  {
    DivMod(x, M32);
    var c := x / M32;
    assert x == x % M32 + (c * k) * n by { assert c * (k * n) == (c * k) * n; }
    DivShift(x % M32, n, c * k);
  }

  /** Unsigned 32-bit arithmetic, and the masked index of a counter. */
  function Wrap(x: int): (w: nat)
    ensures w < M32
  {
    x % M32
  }

  function Slot(x: int, n: nat): (k: nat)
    requires n > 0
    ensures k < n
  {
    Wrap(x) % n
  }

  function Min(a: nat, b: nat): nat { if a < b then a else b }

  /** The ring holds the last characters of the stream, each at its position modulo the length. */
  ghost predicate Holds(ring: seq<Byte>, stream: seq<Byte>) {
    && |ring| > 0
    && forall p :: |stream| - Min(|stream|, |ring|) <= p < |stream| ==> ring[p % |ring|] == stream[p]
  }

  /** Storing the next character overwrites exactly the one that falls out. */
  lemma HoldsNext(ring: seq<Byte>, stream: seq<Byte>, c: Byte)
    requires Holds(ring, stream)
    ensures Holds(ring[|stream| % |ring| := c], stream + [c])
  {
    var n, t := |ring|, |stream|;
    forall p | t + 1 - Min(t + 1, n) <= p < t + 1
      ensures ring[t % n := c][p % n] == (stream + [c])[p]
    {
      if p < t { Apart(p, t, n); }
    }
  }

  lemma Apart(p: nat, t: nat, n: nat)
    requires p < t < p + n
    ensures p % n != t % n
  {
    if p % n == t % n {
      DivMod(p, n);
      DivMod(t, n);
      var d := t / n - p / n;
      assert t - p == d * n by { assert (t / n) * n - (p / n) * n == d * n; }
      if d >= 1 { MulMono(1, d, n); } else { MulMono(d, 0, n); }
    }
  }

  /** What is left of a stream in a ring of `n` characters. */
  function Tail(stream: seq<Byte>, n: nat): seq<Byte> {
    stream[|stream| - Min(|stream|, n)..]
  }

  class Log {
    const lbuf: array<Byte>
    const buf: array<Byte>
    var version: nat
    var v1Start: nat
    var v1Size: nat
    var v2Start: nat
    var v2End: nat
    var chars: nat
    var msgLevel: int
    ghost var stream: seq<Byte>

    /** `stream` is everything logged since the last reset; the counters of the layout in use
        delimit what the ring still holds of it. */
    ghost predicate Valid()
      reads this, lbuf
    {
      && ValidLength(lbuf.Length) && lbuf.Length < M32 && buf.Length == 1024 && buf != lbuf
      && -1 <= msgLevel <= 7
      && Holds(lbuf[..], stream) && Counted()
    }

    ghost predicate Counted()
      reads this`version, this`v1Start, this`v1Size, this`v2Start, this`v2End, this`chars, this`stream
    {
      var t, m := |stream|, Min(|stream|, lbuf.Length);
      && chars == Wrap(t)
      && (version == 2 ==> v2End == Wrap(t) && v2Start == Wrap(t - m))
      && (version != 2 ==> v1Size == m && v1Start == Wrap(t - m))
    }

    constructor (length: nat, logVersion: nat)
      requires ValidLength(length) && length < M32
      ensures Valid() && stream == [] && msgLevel == -1 && version == logVersion && lbuf.Length == length
      ensures fresh(lbuf) && fresh(buf)
    {
      lbuf := new Byte[length](_ => 0);
      buf := new Byte[1024](_ => 0);
      version, v1Start, v1Size, v2Start, v2End, chars := logVersion, 0, 0, 0, 0, 0;
      msgLevel := -1;
      stream := [];
    }

    /** logbuff_reset: forgets the text, but not that a line has begun. */
    method Reset()
      requires Valid()
      modifies this`v1Start, this`v1Size, this`v2Start, this`v2End, this`chars, this`stream
      ensures Valid() && stream == []
    {
      v1Start, v1Size, v2Start, v2End, chars := 0, 0, 0, 0, 0;
      stream := [];
    }

    /** One character into the ring, in either layout. */
    method PutChar(c: Byte)
      requires Valid()
      modifies this`v1Start, this`v1Size, this`v2Start, this`v2End, this`chars, this`stream, lbuf
      ensures Valid() && stream == old(stream) + [c]
    {
      hide Holds, Wrap, Slot, ValidLength;
      var n := lbuf.Length;
      ghost var t := |stream|;
      HoldsNext(lbuf[..], stream, c);
      Counters(t, n);
      if version == 2 {
        lbuf[Slot(v2End, n)] := c;
        v2End := Wrap(v2End + 1);
        if Wrap(v2End - v2Start) > n {
          v2Start := Wrap(v2Start + 1);
        }
      } else {
        lbuf[Slot(v1Start + v1Size, n)] := c;
        if v1Size < n {
          v1Size := v1Size + 1;
        } else {
          v1Start := Wrap(v1Start + 1);
        }
      }
      chars := Wrap(chars + 1);
      assert lbuf[..] == old(lbuf[..])[t % n := c];
      stream := stream + [c];
    }

    /** `log show`: exactly what is left of the stream. */
    method Show() returns (out: seq<Byte>)
      requires Valid()
      ensures out == Tail(stream, lbuf.Length)
    {
      hide ValidLength, Holds, Wrap, Slot;
      var n := lbuf.Length;
      ghost var t, m := |stream|, Min(|stream|, n);
      var start, size := v1Start, v1Size;
      if version == 2 {
        start, size := v2Start, Wrap(v2End - v2Start);
        Spread(t, m, n);
      }
      if size > n {
        size := n;
      }
      out := [];
      var i := 0;
      while i < size
        invariant 0 <= i <= size
        invariant out == stream[t - m..t - m + i]
      {
        RingAt(lbuf[..], stream, i);
        assert stream[t - m..t - m + i + 1] == stream[t - m..t - m + i] + [stream[t - m + i]];
        out := out + [lbuf[Slot(start + i, n)]];
        i := i + 1;
      }
    }
    /** strcpy(buf + 3, line) */
    method CopyIn(line: seq<Byte>)
      requires buf.Length == 1024 && |line| + 4 <= 1024
      modifies buf
      ensures buf[3..3 + |line|] == line && buf[3 + |line|] == 0
    {
      var i := 0;
      while i < |line|
        invariant 0 <= i <= |line|
        invariant forall k :: 3 <= k < 3 + i ==> buf[k] == line[k - 3]
      {
        buf[3 + i] := line[i];
        i := i + 1;
      }
      buf[3 + i] := 0;
    }

    /** Logs from `p` up to the next newline, or to the end of the text. */
    method PutLine(p: nat, end: nat) returns (q: nat, lineFeed: bool)
      requires Valid() && p < end <= buf.Length
      modifies this`v1Start, this`v1Size, this`v2Start, this`v2End, this`chars, this`stream, lbuf
      ensures var text := buf[p..end];
              var n := LineLength(text);
              && Valid() && stream == old(stream) + text[..n]
              && lineFeed == (text[n - 1] == NEWLINE) && q == if lineFeed then p + n - 1 else end
    {
      hide Holds, Counted, ValidLength, LineLength;
      q := p;
      ghost var text := buf[p..end];
      assert text[0..] == text && old(stream) + text[..0] == old(stream);
      while q < end
        invariant p <= q <= end && Valid() && buf[p..end] == text
        invariant stream == old(stream) + text[..q - p]
        invariant LineLength(text) == q - p + LineLength(text[q - p..])
        invariant q > p ==> text[q - p - 1] != NEWLINE
      {
        ghost var k := q - p;
        LineStep(text, k);
        assert buf[q] == text[k];
        Regroup(old(stream), text[..k], [text[k]]);
        PutChar(buf[q]);
        assert stream == old(stream) + text[..k + 1];
        if buf[q] == NEWLINE {
          return q, true;
        }
        q := q + 1;
      }
      lineFeed := false;
      assert text[q - p..] == [];
    }

    /** Starts a line: unless the text brings its own level, one is put in front of it, over
        what has been logged already. */
    method StartLine(p: nat, ghost rest: seq<Byte>) returns (q: nat)
      requires Valid() && 3 <= p && rest != [] && p + |rest| < buf.Length
      requires buf[p..p + |rest|] == rest && buf[p + |rest|] == 0
      modifies this`msgLevel, buf
      ensures Valid() && msgLevel == LineLevel(old(msgLevel), rest)
      ensures q <= p && buf[q..p + |rest|] == Prefix(old(msgLevel), rest) + rest && buf[p + |rest|] == 0
    {
      hide Holds, Counted, ValidLength, HasPrefix, LineLevel, Prefix;
      q := p;
      Opening(msgLevel, rest);
      if msgLevel < 0 {
        var own := BringsLevel(p, rest);
        if !own {
          q := p - 3;
          WriteLevel(q, p + |rest|);
        }
        assert own ==> buf[p + 1] == buf[p..p + |rest|][1];
        msgLevel := buf[q + 1] - ZERO;
      }
      assert lbuf[..] == old(lbuf[..]);
    }

    /** The test on the text at `p`; its final NUL ends the reading of a short one. */
    method BringsLevel(p: nat, ghost rest: seq<Byte>) returns (own: bool)
      requires rest != [] && p + |rest| < buf.Length && buf[p..p + |rest|] == rest && buf[p + |rest|] == 0
      ensures own == HasPrefix(rest)
    {
      assert forall i :: p <= i < p + |rest| ==> buf[i] == rest[i - p];
      own := !(buf[p] != OPEN || buf[p + 1] < ZERO || buf[p + 1] > ZERO + 7 || buf[p + 2] != CLOSE);
    }

    method WriteLevel(q: nat, ghost end: nat)
      requires q + 3 <= end < buf.Length
      modifies buf
      ensures buf[q..end] == [OPEN, DEFAULT_LEVEL + ZERO, CLOSE] + old(buf[q + 3..end])
      ensures buf[q + 1] == DEFAULT_LEVEL + ZERO && buf[end] == old(buf[end])
    {
      buf[q] := OPEN;
      buf[q + 1] := DEFAULT_LEVEL + ZERO;
      buf[q + 2] := CLOSE;
      assert buf[q + 3..end] == old(buf[q + 3..end]);
      assert buf[q..end] == buf[q..q + 3] + buf[q + 3..end];
    }

    /** One turn of the loop over the lines of a message. */
    method LogLine(p: nat, end: nat, ghost rest: seq<Byte>) returns (next: nat)
      requires Valid() && 3 <= p && rest != [] && end == p + |rest| < buf.Length
      requires buf[p..end] == rest && buf[end] == 0
      modifies this`v1Start, this`v1Size, this`v2Start, this`v2End, this`chars, this`stream, this`msgLevel, lbuf, buf
      ensures Valid() && buf[end] == 0
      ensures var k := LineLength(rest);
              && stream == old(stream) + (Prefix(old(msgLevel), rest) + rest[..k])
              && msgLevel == (if rest[k - 1] == NEWLINE then -1 else LineLevel(old(msgLevel), rest))
              && (k < |rest| ==> next == p + k && buf[next..end] == rest[k..])
              && (k == |rest| ==> next >= end)
    {
      hide Holds, Counted, ValidLength, LineLevel, Prefix, LineLength;
      ghost var k, pre := LineLength(rest), Prefix(msgLevel, rest);
      PrefixedLine(pre, rest);
      var q := StartLine(p, rest);
      ghost var whole := buf[q..end];
      var lineFeed;
      q, lineFeed := PutLine(q, end);
      if lineFeed {
        msgLevel := -1;
      }
      assert whole == pre + rest;
      next := q + 1;
      assert k < |rest| ==> buf[next..end] == whole[|pre| + k..];
    }

    /** logbuff_printk on a message that fits the scratch buffer. */
    method Printk(line: seq<Byte>) returns (n: nat)
      requires Valid() && Fits(line)
      modifies this`v1Start, this`v1Size, this`v2Start, this`v2End, this`chars, this`stream, this`msgLevel, lbuf, buf
      ensures Valid() && n == |line|
      ensures stream == old(stream) + Logged(old(msgLevel), line) && msgLevel == LevelAfter(old(msgLevel), line)
    {
      hide Holds, Counted, ValidLength, Logged, LevelAfter, LineLevel, Prefix, LineLength;
      CopyIn(line);
      var end := 3 + |line|;
      var p := 3;
      ghost var rest := line;
      while p < end
        invariant 3 <= p && Valid() && |rest| == (if p < end then end - p else 0)
        invariant p < end ==> buf[p..end] == rest && buf[end] == 0
        invariant stream + Logged(msgLevel, rest) == old(stream) + Logged(old(msgLevel), line)
        invariant LevelAfter(msgLevel, rest) == LevelAfter(old(msgLevel), line)
        decreases end - p
      {
        ghost var level, before, k := msgLevel, stream, LineLength(rest);
        LoggedLine(level, rest);
        p := LogLine(p, end, rest);
        Regroup(before, Prefix(level, rest) + rest[..k], Logged(msgLevel, rest[k..]));
        rest := rest[k..];
      }
      assert rest == [];
      LoggedNothing(msgLevel);
      n := |line|;
    }

    /** `log append`: the arguments, with a space after each but the last, which ends the line. */
    method Append(args: seq<seq<Byte>>)
      requires Valid() && forall i :: 0 <= i < |args| ==> Fits(args[i])
      modifies this`v1Start, this`v1Size, this`v2Start, this`v2End, this`chars, this`stream, this`msgLevel, lbuf, buf
      ensures Valid() && stream == old(stream) + LoggedAll(old(msgLevel), Spaced(args))
      ensures args != [] ==> msgLevel == -1
    {
      hide Holds, Counted, ValidLength, Logged, LevelAfter, LoggedAll, Spaced;
      LoggedAllNothing(msgLevel);
      var i := 0;
      ghost var done: seq<seq<Byte>> := [];
      assert args[0..] == args && done + Spaced(args) == Spaced(args);
      while i < |args|
        invariant 0 <= i <= |args| && Valid()
        invariant done + Spaced(args[i..]) == Spaced(args)
        invariant stream == old(stream) + LoggedAll(old(msgLevel), done)
        invariant msgLevel == LevelAfterAll(old(msgLevel), done)
        invariant 0 < i == |args| ==> msgLevel == -1
      {
        hide LevelAfterAll;
        var c := if i < |args| - 1 then SPACE else NEWLINE;
        ghost var before, now := stream, done;
        SpacedStep(args, i);
        LoggedAllAnd(old(msgLevel), done, args[i]);
        LoggedAllAnd(old(msgLevel), done + [args[i]], [c]);
        assert done + [args[i]] + [[c]] == done + [args[i], [c]];
        var n := Printk(args[i]);
        Regroup(old(stream), LoggedAll(old(msgLevel), done), Logged(LevelAfterAll(old(msgLevel), done), args[i]));
        LineEnds(msgLevel);
        ghost var level := msgLevel;
        n := Printk([c]);
        Regroup(old(stream), LoggedAll(old(msgLevel), done + [args[i]]), Logged(level, [c]));
        i, done := i + 1, done + [args[i], [c]];
      }
      assert args[|args|..] == [];
      SpacedNothing();
      assert done + [] == done;
    }
  }

  /** What the scratch buffer takes: a C string with room for a level in front. */
  predicate Fits(line: seq<Byte>) {
    |line| + 4 <= 1024 && forall i :: 0 <= i < |line| ==> line[i] != 0
  }

  function Spaced(args: seq<seq<Byte>>): seq<seq<Byte>>
    decreases |args|
  {
    if args == [] then [] else [args[0], [if |args| == 1 then NEWLINE else SPACE]] + Spaced(args[1..])
  }

  /** Every argument is logged as it is, with a space behind it, or a newline behind the last. */
  lemma {:induction false} SpacedAt(args: seq<seq<Byte>>, i: nat)
    requires i < |args|
    ensures |Spaced(args)| == 2 * |args| && Spaced(args)[2 * i] == args[i]
    ensures Spaced(args)[2 * i + 1] == if i == |args| - 1 then [0x0A] else [0x20]
    decreases |args|
  {
    if |args| > 1 {
      SpacedAt(args[1..], if i > 0 then i - 1 else 0);
    } else {
      SpacedNothing();
    }
  }

  lemma SpacedNothing()
    ensures Spaced([]) == []
  {
  }

  lemma SpacedStep(args: seq<seq<Byte>>, i: nat)
    requires i < |args|
    ensures Spaced(args[i..]) == [args[i], [if i < |args| - 1 then SPACE else NEWLINE]] + Spaced(args[i + 1..])
    ensures forall done: seq<seq<Byte>>, a: seq<Byte>, b: seq<Byte>, c: seq<seq<Byte>> :: done + ([a, b] + c) == done + [a, b] + c
  {
    assert args[i..][1..] == args[i + 1..];
  }

  function LevelAfterAll(level: int, messages: seq<seq<Byte>>): int
    decreases |messages|
  {
    if messages == [] then level else LevelAfterAll(LevelAfter(level, messages[0]), messages[1..])
  }

  lemma LoggedAllNothing(level: int)
    ensures LoggedAll(level, []) == [] && LevelAfterAll(level, []) == level
  {
  }

  lemma LineEnds(level: int)
    ensures LevelAfter(level, [NEWLINE]) == -1
  {
  }

  /** One call more. */
  lemma {:induction false} LoggedAllAnd(level: int, messages: seq<seq<Byte>>, more: seq<Byte>)
    ensures LoggedAll(level, messages + [more]) == LoggedAll(level, messages) + Logged(LevelAfterAll(level, messages), more)
    ensures LevelAfterAll(level, messages + [more]) == LevelAfter(LevelAfterAll(level, messages), more)
    decreases |messages|
  {
    hide Logged, LevelAfter;
    var all := messages + [more];
    if messages == [] {
      assert all[1..] == [] && all[0] == more;
      LoggedAllNothing(LevelAfter(level, more));
    } else {
      assert all[0] == messages[0] && all[1..] == messages[1..] + [more];
      LoggedAllAnd(LevelAfter(level, messages[0]), messages[1..], more);
    }
  }

  /** The first line of a message, and what remains. */
  lemma LoggedLine(level: int, rest: seq<Byte>)
    requires rest != []
    ensures var k := LineLength(rest);
            var next := if rest[k - 1] == NEWLINE then -1 else LineLevel(level, rest);
            && Logged(level, rest) == Prefix(level, rest) + rest[..k] + Logged(next, rest[k..])
            && LevelAfter(level, rest) == LevelAfter(next, rest[k..])
            && (k < |rest| ==> rest[k - 1] == NEWLINE)
  {
    hide LineLevel, Prefix;
  }

  /** A prefix lengthens the first line and nothing else. */
  lemma PrefixedLine(pre: seq<Byte>, rest: seq<Byte>)
    requires rest != [] && forall i :: 0 <= i < |pre| ==> pre[i] != NEWLINE
    ensures var k := LineLength(rest);
            && LineLength(pre + rest) == |pre| + k && (pre + rest)[..|pre| + k] == pre + rest[..k]
            && (pre + rest)[|pre| + k..] == rest[k..] && (pre + rest)[|pre| + k - 1] == rest[k - 1]
  {
    if pre == [] {
      assert pre + rest == rest;
    } else {
      assert (pre + rest)[1..] == pre[1..] + rest;
      PrefixedLine(pre[1..], rest);
    }
  }

  /** Passing over one character of a line. */
  lemma LineStep(text: seq<Byte>, k: nat)
    requires k < |text|
    ensures text[..k] + [text[k]] == text[..k + 1]
    ensures LineLength(text[k..]) == if text[k] == NEWLINE then 1 else 1 + LineLength(text[k + 1..])
  {
    assert text[k..][0] == text[k] && text[k..][1..] == text[k + 1..];
  }

  /** The three ways to go on. */
  lemma Opening(level: int, rest: seq<Byte>)
    ensures level >= 0 ==> LineLevel(level, rest) == level && Prefix(level, rest) + rest == rest
    ensures level < 0 && HasPrefix(rest) ==>
              |rest| >= 3 && LineLevel(level, rest) == rest[1] - ZERO && 0 <= rest[1] - ZERO <= 7 && Prefix(level, rest) + rest == rest
    ensures level < 0 && !HasPrefix(rest) ==>
              LineLevel(level, rest) == DEFAULT_LEVEL && Prefix(level, rest) == [OPEN, DEFAULT_LEVEL + ZERO, CLOSE]
  {
    assert [] + rest == rest;
  }

  lemma Regroup(a: seq<Byte>, b: seq<Byte>, c: seq<Byte>)
    ensures a + b + c == a + (b + c)
  {
  }

  lemma LoggedNothing(level: int)
    ensures Logged(level, []) == [] && LevelAfter(level, []) == level
  {
  }

  /** The i-th character shown is the i-th of what the ring holds. */
  lemma RingAt(ring: seq<Byte>, stream: seq<Byte>, i: nat)
    requires ValidLength(|ring|) && Holds(ring, stream) && i < Min(|stream|, |ring|)
    ensures var first := |stream| - Min(|stream|, |ring|);
            ring[Slot(Wrap(first) + i, |ring|)] == stream[first + i]
  {
    var first := |stream| - Min(|stream|, |ring|);
    MaskIgnoresWrap(first, i, |ring|);
    assert Slot(Wrap(first) + i, |ring|) == (first + i) % |ring|;
  }

  lemma Spread(t: nat, m: nat, n: nat)
    requires m <= n < M32 && m <= t
    ensures Wrap(Wrap(t) - Wrap(t - m)) == m
  {
    DivMod(t, M32);
    DivMod(t - m, M32);
  }

  /** What one more character does to the counters of a ring of length `n`. */
  lemma Counters(t: nat, n: nat)
    requires ValidLength(n) && n < M32
    ensures var m, m' := Min(t, n), Min(t + 1, n);
            && Slot(Wrap(t), n) == t % n && Slot(Wrap(t - m) + m, n) == t % n
            && Wrap(Wrap(t) + 1) == Wrap(t + 1)
            && (Wrap(Wrap(t + 1) - Wrap(t - m)) > n <==> m == n)
            && (m == n ==> Wrap(Wrap(t - m) + 1) == Wrap(t + 1 - m'))
            && (m < n ==> m' == m + 1 && t - m == t + 1 - m')
  {
    var m := Min(t, n);
    MaskIgnoresWrap(t, 0, n);
    MaskIgnoresWrap(t - m, m, n);
    Succ(t);
    Succ(t - m);
    Shorter(n);
    Spread(t + 1, m + 1, n + 1);
  }

  lemma Shorter(n: nat)
    requires ValidLength(n) && n < M32
    ensures n + 1 < M32
  {
  }

  lemma Succ(t: nat)
    ensures Wrap(Wrap(t) + 1) == Wrap(t + 1)
  {
    DivMod(t, M32);
    DivShift(t % M32 + 1, M32, t / M32);
  }
}

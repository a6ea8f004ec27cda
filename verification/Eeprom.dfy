/** EEPROM transfers in chunks: the device's address counter wraps inside a page, the
    caller must see one flat copy. */
module Eeprom {
  import opened Arith
  import opened Bytes

  const BLOCK: nat := 0x100

  /** A write page: a power of two of at most one block, so it divides the block. */
  predicate ValidPage(page: nat) { page in {1, 2, 4, 8, 16, 32, 64, 128, 256} }

  /** Where the counter is after `j` steps from `at`, in a device that wraps every `page` bytes. */
  function Counter(at: nat, j: nat, page: nat): nat
    requires ValidPage(page)
  {
    at - at % page + (at + j) % page
  }

  /** What the device does with one write command. */
  function DeviceWrite(cells: seq<Byte>, at: nat, data: seq<Byte>, page: nat): (r: seq<Byte>)
    requires ValidPage(page) && forall j :: 0 <= j < |data| ==> Counter(at, j, page) < |cells|
    ensures |r| == |cells|
  {
    if data == [] then cells
    else
      var k := |data| - 1;
      DeviceWrite(cells, at, data[..k], page)[Counter(at, k, page) := data[k]]
  }

  /** The flat copy that the caller asks for. */
  function Flat(cells: seq<Byte>, at: nat, data: seq<Byte>): seq<Byte>
    requires at + |data| <= |cells|
  {
    cells[..at] + data + cells[at + |data|..]
  }

  lemma CounterFlat(at: nat, j: nat, page: nat)
    requires ValidPage(page) && at % page + j < page
    ensures Counter(at, j, page) == at + j
  {
    DivMod(at, page);
    DivModIs(at + j, page, at / page, at % page + j);
  }

  /** Inside one page a device write is a flat copy. */
  lemma {:induction false} WriteInPage(cells: seq<Byte>, at: nat, data: seq<Byte>, page: nat)
    requires ValidPage(page) && at % page + |data| <= page && at + |data| <= |cells|
    ensures forall j :: 0 <= j < |data| ==> Counter(at, j, page) == at + j
    ensures DeviceWrite(cells, at, data, page) == Flat(cells, at, data)
    decreases |data|
  {
    hide Counter;
    forall j | 0 <= j < |data| ensures Counter(at, j, page) == at + j { CounterFlat(at, j, page); }
    if data == [] {
      assert cells[..at] + [] + cells[at..] == cells;
    } else {
      var k := |data| - 1;
      WriteInPage(cells, at, data[..k], page);
      assert Flat(cells, at, data[..k])[at + k := data[k]] == Flat(cells, at, data);
    }
  }

  /** What was written flat is read back flat. */
  lemma FlatReadsBack(cells: seq<Byte>, at: nat, data: seq<Byte>)
    requires at + |data| <= |cells|
    ensures Flat(cells, at, data)[at..at + |data|] == data
  {
  }

  /** The low eight bits of the offset say where in its page it is. */
  lemma PageRoom(offset: nat, page: nat)
    requires ValidPage(page)
    ensures offset % BLOCK % page == offset % page
  {
    var q, r, m := offset / BLOCK, offset % BLOCK, BLOCK / page;
    assert offset == BLOCK * q + r && BLOCK == m * page;
    assert offset == r + (m * q) * page by { assert (m * page) * q == (m * q) * page; }
    DivShift(r, page, m * q);
  }

  function Min(a: nat, b: nat): nat { if a < b then a else b }

  /** How much goes into one command: not past the end, the unit or the I2C limit, and as much as these allow. */
  method ChunkLength(offset: nat, end: nat, page: nat, rxtx: nat) returns (len: nat)
    requires ValidPage(page) && rxtx > 0 && offset < end
    ensures 0 < len && Longest(len, offset, end, page, rxtx)
  {
    var blkOff := offset % BLOCK;
    PageRoom(offset, page);
    DivMod(offset, page);
    var maxlen := Min(page - blkOff % page, rxtx);
    len := Min(end - offset, maxlen);
  }

  /** The longest length within all three limits. */
  predicate Longest(len: nat, at: nat, end: nat, unit: nat, rxtx: nat)
    requires unit > 0
  {
    && len <= rxtx && at + len <= end && at % unit + len <= unit
    && (len == rxtx || at + len == end || at % unit + len == unit)
  }

  // ---------------------------------------------------------------- commands

  /** One I2C transfer. */
  datatype Command = Command(at: nat, len: nat)

  /** Where the commands so far have come to. */
  function Reached(log: seq<Command>, start: nat): nat {
    if log == [] then start else log[|log| - 1].at + log[|log| - 1].len
  }

  /** The commands follow each other without a gap from `start` on, each as long as it can be. */
  predicate InLine(log: seq<Command>, start: nat, end: nat, unit: nat, rxtx: nat)
    requires unit > 0
  {
    forall i :: 0 <= i < |log| ==>
      log[i].len > 0 && log[i].at == Reached(log[..i], start) && Longest(log[i].len, log[i].at, end, unit, rxtx)
  }

  /** The bytes of acknowledged commands are the new ones, those of the others the old. */
  predicate ByCommand(log: seq<Command>, ok: nat -> bool, start: nat, now: seq<Byte>, was: seq<Byte>, new_: seq<Byte>) {
    |now| == |was| == |new_| &&
    forall i, k :: 0 <= i < |log| && 0 <= k < |now| && log[i].at <= start + k < log[i].at + log[i].len ==>
      now[k] == if ok(i) then new_[k] else was[k]
  }

  lemma InLineNext(log: seq<Command>, start: nat, end: nat, unit: nat, rxtx: nat, c: Command)
    requires unit > 0 && InLine(log, start, end, unit, rxtx)
    requires c.len > 0 && c.at == Reached(log, start) && Longest(c.len, c.at, end, unit, rxtx)
    ensures InLine(log + [c], start, end, unit, rxtx) && Reached(log + [c], start) == c.at + c.len
  {
    hide Longest;
    var all := log + [c];
    forall i | 0 <= i < |all|
      ensures all[i].len > 0 && all[i].at == Reached(all[..i], start) && Longest(all[i].len, all[i].at, end, unit, rxtx)
    {
      if i < |log| {
        assert all[..i] == log[..i] && all[i] == log[i];
      } else {
        assert all[..i] == log;
      }
    }
  }

  lemma {:induction false} ReachedGrows(log: seq<Command>, start: nat, end: nat, unit: nat, rxtx: nat, i: nat)
    requires unit > 0 && InLine(log, start, end, unit, rxtx) && i < |log|
    ensures start <= log[i].at && log[i].at + log[i].len <= Reached(log, start)
    decreases |log|
  {
    hide Longest;
    var n := |log| - 1;
    var front := log[..n];
    assert InLine(front, start, end, unit, rxtx) by {
      forall j | 0 <= j < n ensures front[j].len > 0 && front[j].at == Reached(front[..j], start) && Longest(front[j].len, front[j].at, end, unit, rxtx) {
        assert front[..j] == log[..j] && front[j] == log[j];
      }
    }
    if n > 0 { ReachedGrows(front, start, end, unit, rxtx, if i < n then i else n - 1); }
  }

  /** One more command, acknowledged or not. */
  lemma CommandDone(log: seq<Command>, ok: nat -> bool, start: nat, end: nat, unit: nat, rxtx: nat, c: Command,
                    now: seq<Byte>, now': seq<Byte>, was: seq<Byte>, new_: seq<Byte>)
    requires unit > 0 && InLine(log, start, end, unit, rxtx) && c.at == Reached(log, start) && |now'| == |now|
    requires ByCommand(log, ok, start, now, was, new_)
    requires forall k :: 0 <= k < |now| ==>
               now'[k] == if c.at <= start + k < c.at + c.len then (if ok(|log|) then new_[k] else was[k]) else now[k]
    ensures ByCommand(log + [c], ok, start, now', was, new_)
  {
    hide InLine;
    var all := log + [c];
    forall i, k | 0 <= i < |all| && 0 <= k < |now'| && all[i].at <= start + k < all[i].at + all[i].len
      ensures now'[k] == if ok(i) then new_[k] else was[k]
    {
      if i < |log| {
        assert all[i] == log[i];
        ReachedGrows(log, start, end, unit, rxtx, i);
      }
    }
  }

  /** The device, written and read through I2C commands; `ok(n)` says whether the n-th
      command is acknowledged. */
  class Device {
    var cells: seq<Byte>
    const page: nat

    constructor (contents: seq<Byte>, writePage: nat)
      ensures cells == contents && page == writePage
    {
      cells, page := contents, writePage;
    }

    /** eeprom_write: the whole range is sent, whatever is acknowledged, in the fewest commands that
        the limits allow; the device then holds the new bytes of the acknowledged commands, and
        the old ones elsewhere. An end address beyond 32 bits writes nothing at all, and says nothing
        either. */
    method Write(start: nat, buffer: seq<Byte>, rxtx: nat, ok: nat -> bool) returns (rcode: int, log: seq<Command>)
      requires ValidPage(page) && rxtx > 0 && start < M32 && |buffer| < M32 && start + |buffer| <= |cells|
      modifies this
      ensures |cells| == |old(cells)| && Outside(cells, old(cells), start, start + |buffer|)
      ensures rcode == if forall n :: 0 <= n < |log| ==> ok(n) then 0 else 1
      ensures start + |buffer| < M32 ==>
                && InLine(log, start, start + |buffer|, page, rxtx) && Reached(log, start) == start + |buffer|
                && ByCommand(log, ok, start, cells[start..start + |buffer|], old(cells)[start..start + |buffer|], buffer)
      ensures start + |buffer| < M32 && rcode == 0 ==> cells == Flat(old(cells), start, buffer)
      ensures start + |buffer| >= M32 ==> log == [] && cells == old(cells)
    {
      hide ValidPage, InLine, ByCommand, Longest, Reached, Flat, Sent, ChunkSent, Outside, Wrap;
      var end := Wrap(start + |buffer|);
      EndIs(start, |buffer|);
      var offset, p := start, 0;
      rcode, log := 0, [];
      ghost var before := cells;
      PageUnit(page);
      NoCommands(start, end, page, rxtx, ok, cells[start..start + |buffer|], buffer);
      NothingSent(ok, start, cells, buffer);
      while offset < end
        invariant offset == start + p && p <= |buffer| && (start + |buffer| >= M32 ==> p == 0) && |cells| == |before|
        invariant rcode == if forall n :: 0 <= n < |log| ==> ok(n) then 0 else 1
        invariant p == 0 ==> log == [] && cells == before
        invariant InLine(log, start, end, page, rxtx) && Reached(log, start) == offset
        invariant Sent(log, ok, start, cells, before, buffer, p)
        decreases |buffer| - p
      {
        var len := ChunkLength(offset, end, page, rxtx);
        LongestIs(len, offset, end, page, rxtx);
        ghost var held, c := cells, Command(offset, len);
        SendChunk(offset, buffer[p..p + len], ok(|log|));
        SentNext(log, ok, start, end, page, rxtx, c, held, cells, before, buffer, p);
        InLineNext(log, start, end, page, rxtx, c);
        if !ok(|log|) {
          rcode := 1;
        }
        log := log + [Command(offset, len)];
        offset, p := offset + len, p + len;
      }
      SentAll(log, ok, start, cells, before, buffer, p);
    }

    /** One i2c_write, inside a page. */
    method SendChunk(offset: nat, chunk: seq<Byte>, acknowledged: bool)
      requires ValidPage(page) && offset % page + |chunk| <= page && offset + |chunk| <= |cells|
      modifies this
      ensures ChunkSent(old(cells), cells, offset, chunk, acknowledged)
    {
      hide ValidPage, DeviceWrite, Counter, Flat;
      if acknowledged {
        WriteInPage(cells, offset, chunk, page);
        FlatAt(cells, offset, chunk);
        cells := DeviceWrite(cells, offset, chunk, page);
      }
    }

    /** eeprom_read into a buffer that held `before`: block by block, all of the range is asked for; the
        buffer then holds the bytes of the acknowledged commands, and its own elsewhere. */
    method Read(start: nat, before: seq<Byte>, rxtx: nat, ok: nat -> bool) returns (rcode: int, buffer: seq<Byte>, log: seq<Command>)
      requires rxtx > 0 && start < M32 && |before| < M32 && start + |before| <= |cells|
      ensures |buffer| == |before|
      ensures rcode == if forall n :: 0 <= n < |log| ==> ok(n) then 0 else 1
      ensures start + |before| < M32 ==>
                && InLine(log, start, start + |before|, BLOCK, rxtx) && Reached(log, start) == start + |before|
                && ByCommand(log, ok, start, buffer, before, cells[start..start + |before|])
      ensures start + |before| < M32 && rcode == 0 ==> buffer == cells[start..start + |before|]
      ensures start + |before| >= M32 ==> log == [] && buffer == before
    {
      hide InLine, ByCommand, Longest, Reached, Wrap;
      var end := Wrap(start + |before|);
      EndIs(start, |before|);
      var offset, p := start, 0;
      rcode, buffer, log := 0, before, [];
      ghost var cells' := cells[start..start + |before|];
      NoCommands(start, end, BLOCK, rxtx, ok, before, cells');
      while offset < end
        invariant offset == start + p && p <= |buffer| == |before| && (start + |before| >= M32 ==> p == 0 && log == [] && buffer == before)
        invariant rcode == if forall n :: 0 <= n < |log| ==> ok(n) then 0 else 1
        invariant rcode == 0 ==> buffer[..p] == cells'[..p]
        invariant InLine(log, start, end, BLOCK, rxtx) && Reached(log, start) == offset
        invariant ByCommand(log, ok, start, buffer, before, cells')
        invariant forall k :: p <= k < |before| ==> buffer[k] == before[k]
        decreases |before| - p
      {
        var blkOff := offset % BLOCK;
        var maxlen := Min(BLOCK - blkOff, rxtx);
        var len := Min(end - offset, maxlen);
        LongestBlock(len, offset, end, rxtx);
        ghost var held := buffer;
        if ok(|log|) {
          buffer := buffer[..p] + cells[offset..offset + len] + buffer[p + len..];
        } else {
          rcode := 1;
        }
        CommandDone(log, ok, start, end, BLOCK, rxtx, Command(offset, len), held, buffer, before, cells');
        InLineNext(log, start, end, BLOCK, rxtx, Command(offset, len));
        log := log + [Command(offset, len)];
        offset, p := offset + len, p + len;
      }
    }
  }

  lemma LongestIs(len: nat, at: nat, end: nat, page: nat, rxtx: nat)
    requires page > 0 && Longest(len, at, end, page, rxtx)
    ensures at + len <= end && at % page + len <= page
  {
  }

  lemma LongestBlock(len: nat, at: nat, end: nat, rxtx: nat)
    requires at < end && rxtx > 0 && len == Min(end - at, Min(BLOCK - at % BLOCK, rxtx))
    ensures len > 0 && Longest(len, at, end, BLOCK, rxtx) && at + len <= end
  {
  }

  lemma NoCommands(start: nat, end: nat, unit: nat, rxtx: nat, ok: nat -> bool, was: seq<Byte>, new_: seq<Byte>)
    requires unit > 0 && |was| == |new_|
    ensures InLine([], start, end, unit, rxtx) && Reached([], start) == start && ByCommand([], ok, start, was, was, new_)
  {
  }

  lemma FlatAt(cells: seq<Byte>, at: nat, data: seq<Byte>)
    requires at + |data| <= |cells|
    ensures |Flat(cells, at, data)| == |cells|
    ensures forall k :: 0 <= k < |cells| ==> Flat(cells, at, data)[k] == if at <= k < at + |data| then data[k - at] else cells[k]
  {
  }

  /** Two contents agree outside [lo, hi). */
  predicate Outside(a: seq<Byte>, b: seq<Byte>, lo: nat, hi: nat) {
    |a| == |b| && forall i :: 0 <= i < |a| && !(lo <= i < hi) ==> a[i] == b[i]
  }

  lemma FlatIs(cells: seq<Byte>, before: seq<Byte>, at: nat, data: seq<Byte>)
    requires |cells| == |before| && at + |data| <= |cells|
    requires forall k :: 0 <= k < |cells| && !(at <= k < at + |data|) ==> cells[k] == before[k]
    requires forall k :: at <= k < at + |data| ==> cells[k] == data[k - at]
    ensures cells == Flat(before, at, data)
  {
    FlatAt(before, at, data);
  }

  /** An acknowledged chunk is in its place, and nothing else has changed. */
  predicate ChunkSent(held: seq<Byte>, cells: seq<Byte>, at: nat, chunk: seq<Byte>, acknowledged: bool) {
    |cells| == |held| && forall k :: 0 <= k < |cells| ==>
      cells[k] == if acknowledged && at <= k < at + |chunk| then chunk[k - at] else held[k]
  }

  /** The state of a write after its first `p` bytes. */
  predicate Sent(log: seq<Command>, ok: nat -> bool, start: nat, cells: seq<Byte>, before: seq<Byte>, buffer: seq<Byte>, p: nat) {
    && p <= |buffer| && start + |buffer| <= |cells| == |before| && Outside(cells, before, start, start + p)
    && ByCommand(log, ok, start, cells[start..start + |buffer|], before[start..start + |buffer|], buffer)
    && ((forall n :: 0 <= n < |log| ==> ok(n)) ==> forall k :: start <= k < start + p ==> cells[k] == buffer[k - start])
  }

  lemma NothingSent(ok: nat -> bool, start: nat, cells: seq<Byte>, buffer: seq<Byte>)
    requires start + |buffer| <= |cells|
    ensures Sent([], ok, start, cells, cells, buffer, 0)
  {
  }

  lemma SentAll(log: seq<Command>, ok: nat -> bool, start: nat, cells: seq<Byte>, before: seq<Byte>, buffer: seq<Byte>, p: nat)
    requires Sent(log, ok, start, cells, before, buffer, p)
    ensures start + |buffer| <= |cells| == |before| && Outside(cells, before, start, start + |buffer|)
    ensures ByCommand(log, ok, start, cells[start..start + |buffer|], before[start..start + |buffer|], buffer)
    ensures p == |buffer| && (forall n :: 0 <= n < |log| ==> ok(n)) ==> cells == Flat(before, start, buffer)
  {
    hide ByCommand;
    if p == |buffer| && (forall n :: 0 <= n < |log| ==> ok(n)) { FlatIs(cells, before, start, buffer); }
  }

  lemma SentNext(log: seq<Command>, ok: nat -> bool, start: nat, end: nat, page: nat, rxtx: nat, c: Command,
                 held: seq<Byte>, cells: seq<Byte>, before: seq<Byte>, buffer: seq<Byte>, p: nat)
    requires page > 0 && InLine(log, start, end, page, rxtx) && Reached(log, start) == c.at == start + p && p + c.len <= |buffer|
    requires Sent(log, ok, start, held, before, buffer, p) && ChunkSent(held, cells, c.at, buffer[p..p + c.len], ok(|log|))
    ensures Sent(log + [c], ok, start, cells, before, buffer, p + c.len) && |cells| == |before|
  {
    hide InLine, Reached, ByCommand;
    var stop, acknowledged := start + |buffer|, ok(|log|);
    forall k | 0 <= k < |buffer|
      ensures cells[start..stop][k] == if c.at <= start + k < c.at + c.len then (if acknowledged then buffer[k] else before[start..stop][k]) else held[start..stop][k]
    {
      assert cells[start..stop][k] == cells[start + k] && held[start..stop][k] == held[start + k] && before[start..stop][k] == before[start + k];
    }
    CommandDone(log, ok, start, end, page, rxtx, c, held[start..stop], cells[start..stop], before[start..stop], buffer);
    if forall n :: 0 <= n < |log + [c]| ==> ok(n) {
      assert forall n :: 0 <= n < |log| ==> ok(n);
      assert ok(|log|);
    }
  }

  /** Addresses are 32 bits wide. */
  function Wrap(a: nat): nat { a % M32 }

  lemma EndIs(start: nat, n: nat)
    requires start < M32 && n < M32
    ensures Wrap(start + n) == if start + n < M32 then start + n else start + n - M32
  {
  }

  lemma PageUnit(page: nat)
    requires ValidPage(page)
    ensures page > 0
  {
  }
}

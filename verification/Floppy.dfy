/** Floppy reads: one READ command per track side, two levels of retries, one buffer. */
module Floppy {
  import opened Arith
  import opened Bytes

  const FDC_RW_RETRIES: nat := 3
  const FDC_CAL_RETRIES: nat := 3

  /** Sectors per track side, heads, and bytes per sector. */
  datatype Geometry = Geometry(sect: nat, head: nat, size: nat)

  predicate ValidGeometry(g: Geometry) { 1 <= g.sect < 256 && 1 <= g.head <= 2 && g.size > 0 }

  /** The address part of a READ command. */
  datatype Command = Command(track: nat, head: nat, sector: nat)

  /** A track number in the eight bits of the command. */
  function Low8(track: nat): nat { track % 256 }

  /** Blocks that such a track number can tell apart. */
  function Blocks(g: Geometry): nat
    requires ValidGeometry(g)
  {
    256 * PerTrack(g)
  }

  function TrackOf(g: Geometry, blnr: nat): nat
    requires ValidGeometry(g)
  {
    hide PerTrack;
    blnr / PerTrack(g)
  }

  /** The block-to-track/head/sector split of fdc_issue_cmd. */
  function Split(g: Geometry, blnr: nat): Command
    requires ValidGeometry(g)
  {
    hide PerTrack;
    var rest := blnr % PerTrack(g);
    Command(Low8(TrackOf(g, blnr)), rest / g.sect, rest % g.sect + 1)
  }

  /** Blocks per track, over all heads. */
  function PerTrack(g: Geometry): (n: nat)
    requires ValidGeometry(g)
    ensures n > 0
  {
    MulMono(1, g.sect, g.head);
    g.sect * g.head
  }

  /** The block at which the drive, told track, head and sector, starts reading. */
  function BlockAt(g: Geometry, c: Command): int {
    (c.track * g.head + c.head) * g.sect + (c.sector - 1)
  }

  lemma Regroup(t: int, s: int, h: int, k: int)
    ensures t * (s * h) + k * s == (t * h + k) * s
  {
  }

  lemma HeadExists(k: nat, s: nat, h: nat, r: nat)
    requires k * s + r < s * h && s > 0
    ensures k < h
  {
    if k >= h { MulMono(h, k, s); }
  }

  /** The command names an existing head and sector, the one that `blnr % sect` says; the drive
      finds the block that was asked for if and only if it is on one of the first 256 tracks. */
  lemma SplitFinds(g: Geometry, blnr: nat)
    requires ValidGeometry(g)
    ensures var c := Split(g, blnr);
            && (BlockAt(g, c) == blnr <==> blnr < Blocks(g)) && c.head < g.head && 1 <= c.sector <= g.sect
            && c.sector - 1 == blnr % g.sect
  {
    hide Split, PerTrack, Low8, TrackOf, Blocks;
    var c, track := Split(g, blnr), TrackOf(g, blnr);
    SplitShape(g, blnr);
    PerTrackIs(g);
    Found(blnr, g.sect, g.head, PerTrack(g), track, c.head, c.sector - 1);
    Found(c.track * PerTrack(g) + (c.head * g.sect + (c.sector - 1)), g.sect, g.head, PerTrack(g), c.track, c.head, c.sector - 1);
    FewTracks(g, blnr);
    if c.track != track { Elsewhere(c.track, track, PerTrack(g)); }
  }

  lemma SplitShape(g: Geometry, blnr: nat)
    requires ValidGeometry(g)
    ensures var c := Split(g, blnr);
            && 1 <= c.sector <= g.sect && c.head * g.sect + (c.sector - 1) < PerTrack(g) && c.track == Low8(TrackOf(g, blnr))
            && blnr == TrackOf(g, blnr) * PerTrack(g) + (c.head * g.sect + (c.sector - 1))
  {
    hide PerTrack, Low8;
    DivMod(blnr, PerTrack(g));
    DivMod(blnr % PerTrack(g), g.sect);
  }

  lemma FewTracks(g: Geometry, blnr: nat)
    requires ValidGeometry(g)
    ensures Low8(TrackOf(g, blnr)) == TrackOf(g, blnr) <==> blnr < Blocks(g)
  {
    hide PerTrack;
    var t, side := TrackOf(g, blnr), PerTrack(g);
    DivMod(blnr, side);
    if t >= 256 { MulMono(256, t, side); } else { MulMono(t, 255, side); }
  }

  lemma Elsewhere(t: nat, t': nat, side: nat)
    requires t != t' && side > 0
    ensures t * side != t' * side
  {
    if t < t' { MulMono(t + 1, t', side); } else { MulMono(t' + 1, t, side); }
  }

  lemma PerTrackIs(g: Geometry)
    requires ValidGeometry(g)
    ensures PerTrack(g) == g.sect * g.head
  {
  }

  lemma Found(blnr: nat, sect: nat, head: nat, side: nat, track: nat, h: nat, s: nat)
    requires side == sect * head && sect > 0 && s < sect && h * sect + s < side
    requires blnr == track * side + (h * sect + s)
    ensures (track * head + h) * sect + s == blnr && h < head && blnr % sect == s
  {
    Regroup(track, sect, head, h);
    HeadExists(h, sect, head, s);
    DivModIs(blnr, sect, track * head + h, s);
  }

  // ---------------------------------------------------------------- one READ

  /** The drive shows a transfer error before `len` bytes have come. */
  predicate Breaks(fault: Option<nat>, len: nat) { fault.Some? && fault.value < len }

  /** One READ as the log shows it: where, how many blocks, and whether it failed. */
  datatype Read = Read(command: Command, blocks: nat, failed: bool)

  /** Bytes arrive one by one from the drive until all have come or a transfer error shows up
      in place of byte `fault`. */
  method Transfer(buffer: array<Byte>, offset: nat, disk: seq<Byte>, from: nat, len: nat, fault: Option<nat>) returns (ok: bool)
    requires offset + len <= buffer.Length && from + len <= |disk|
    modifies buffer
    ensures ok <==> fault == None || fault.value >= len
    ensures ok ==> buffer[offset..offset + len] == disk[from..from + len]
    ensures forall i :: 0 <= i < buffer.Length && !(offset <= i < offset + len) ==> buffer[i] == old(buffer[i])
  {
    var i := 0;
    while i < len
      invariant 0 <= i <= len && (fault == None || i <= fault.value)
      invariant forall k :: 0 <= k < buffer.Length && !(offset <= k < offset + i) ==> buffer[k] == old(buffer[k])
      invariant forall k :: offset <= k < offset + i ==> buffer[k] == disk[from + (k - offset)]
    {
      if fault == Some(i) {
        return false;
      }
      buffer[offset + i] := disk[from + i];
      i := i + 1;
    }
    ok := true;
  }

  function Failures(log: seq<Read>): nat {
    if log == [] then 0 else Failures(log[..|log| - 1]) + if log[|log| - 1].failed then 1 else 0
  }

  function BlocksRead(log: seq<Read>): nat {
    if log == [] then 0
    else BlocksRead(log[..|log| - 1]) + if log[|log| - 1].failed then 0 else log[|log| - 1].blocks
  }

  /** No READ runs over the end of its track side. */
  predicate OnOneSide(g: Geometry, r: Read) {
    1 <= r.command.sector && r.command.sector - 1 + r.blocks <= g.sect && r.command.head < g.head
  }

  /** The i-th READ asks for the first block that has not come yet, and for as many as the track
      side and the request still have. */
  predicate AsksNext(g: Geometry, start: nat, total: nat, log: seq<Read>, i: nat)
    requires ValidGeometry(g) && i < |log|
  {
    var done := BlocksRead(log[..i]);
    var side := g.sect - (start + done) % g.sect;
    && done <= total && log[i].command == Split(g, start + done)
    && log[i].blocks == if side < total - done then side else total - done
  }

  predicate AllAskNext(g: Geometry, start: nat, total: nat, log: seq<Read>)
    requires ValidGeometry(g)
  {
    forall i :: 0 <= i < |log| ==> AsksNext(g, start, total, log, i)
  }

  lemma AsksNextToo(g: Geometry, start: nat, total: nat, log: seq<Read>, r: Read)
    requires ValidGeometry(g) && AllAskNext(g, start, total, log)
    requires var done := BlocksRead(log);
             var side := g.sect - (start + done) % g.sect;
             && done <= total && r.command == Split(g, start + done)
             && r.blocks == if side < total - done then side else total - done
    ensures AllAskNext(g, start, total, log + [r])
  {
    hide Split, BlocksRead, ValidGeometry;
    var all := log + [r];
    forall i | 0 <= i < |all| ensures AsksNext(g, start, total, all, i) {
      if i < |log| {
        assert AsksNext(g, start, total, log, i) && all[..i] == log[..i] && all[i] == log[i];
      } else {
        assert all[..i] == log;
      }
    }
  }

  lemma {:induction false} NoFailures(log: seq<Read>)
    requires forall i :: 0 <= i < |log| ==> !log[i].failed
    ensures Failures(log) == 0
    decreases |log|
  {
    if log != [] { NoFailures(log[..|log| - 1]); }
  }

  lemma LogNext(log: seq<Read>, r: Read)
    ensures Failures(log + [r]) == Failures(log) + if r.failed then 1 else 0
    ensures BlocksRead(log + [r]) == BlocksRead(log) + if r.failed then 0 else r.blocks
  {
    assert (log + [r])[..|log|] == log;
  }

  /** The 25th error: five attempts for each of the initial try and four recalibrations. */
  const LIMIT: nat := (FDC_RW_RETRIES + 2) * (FDC_CAL_RETRIES + 2)

  // ---------------------------------------------------------------- the whole transfer

  /** What is in the buffer once `done` blocks have been read. */
  ghost predicate Copied(buffer: array<Byte>, disk: seq<Byte>, g: Geometry, blnr: nat, done: nat)
    reads buffer
  {
    && done * g.size <= buffer.Length && blnr * g.size + done * g.size <= |disk|
    && buffer[..done * g.size] == disk[blnr * g.size..blnr * g.size + done * g.size]
  }

  /** One READ of `readblk` blocks behind the `done` that are in the buffer already. */
  method Attempt(buffer: array<Byte>, disk: seq<Byte>, g: Geometry, start: nat, total: nat, done: nat, readblk: nat, fault: Option<nat>)
    returns (good: bool, r: Read)
    requires ValidGeometry(g) && total * g.size <= buffer.Length && (start + total) * g.size <= |disk|
    requires done + readblk <= total && (start + done) % g.sect + readblk <= g.sect && start + done < Blocks(g)
    requires Copied(buffer, disk, g, start, done)
    modifies buffer
    ensures r.blocks == readblk && r.failed == !good && OnOneSide(g, r) && r.command == Split(g, start + done)
    ensures good <==> !Breaks(fault, readblk * g.size)
    ensures Copied(buffer, disk, g, start, done) && (good ==> Copied(buffer, disk, g, start, done + readblk))
    ensures forall i :: total * g.size <= i < buffer.Length ==> buffer[i] == old(buffer[i])
  {
    hide Split, BlockAt, Blocks;
    var blnr := start + done;
    SplitFinds(g, blnr);
    Room(g, start, total, done, readblk, |disk|, buffer.Length);
    var command := Split(g, blnr);
    var offset, from, len := done * g.size, BlockAt(g, command) * g.size, g.size * readblk;
    good := Append(buffer, offset, disk, start * g.size, from, len, fault);
    r := Read(command, readblk, !good);
  }

  /** Extends a copy by what one READ brings; a broken-off READ leaves the copy as it was. */
  method Append(buffer: array<Byte>, offset: nat, disk: seq<Byte>, base: nat, from: nat, len: nat, fault: Option<nat>) returns (good: bool)
    requires offset + len <= buffer.Length && from == base + offset && from + len <= |disk|
    requires buffer[..offset] == disk[base..base + offset]
    modifies buffer
    ensures buffer[..offset] == disk[base..base + offset]
    ensures good <==> fault == None || fault.value >= len
    ensures good ==> buffer[..offset + len] == disk[base..base + offset + len]
    ensures forall i :: offset + len <= i < buffer.Length ==> buffer[i] == old(buffer[i])
  {
    ghost var before := buffer[..offset];
    good := Transfer(buffer, offset, disk, from, len, fault);
    assert buffer[..offset] == before;
    if good {
      assert buffer[..offset + len] == buffer[..offset] + buffer[offset..offset + len];
      assert disk[base..base + offset] + disk[from..from + len] == disk[base..base + offset + len];
    }
  }

  /** fdc_read_data with seeks that succeed and a drive that answers every poll: `faults`
      says, for each READ in turn, at which byte it breaks off, if at all. */
  method ReadData(buffer: array<Byte>, total: nat, start: nat, g: Geometry, disk: seq<Byte>, faults: nat -> Option<nat>)
    returns (ok: bool, log: seq<Read>)
    requires ValidGeometry(g) && total * g.size <= buffer.Length && (start + total) * g.size <= |disk|
    requires start < Blocks(g) && start + total <= Blocks(g)
    modifies buffer
    ensures BlocksRead(log) <= total && Copied(buffer, disk, g, start, BlocksRead(log)) && (ok ==> BlocksRead(log) == total)
    ensures forall i :: total * g.size <= i < buffer.Length ==> buffer[i] == old(buffer[i])
    ensures forall i :: 0 <= i < |log| ==> OnOneSide(g, log[i])
    ensures forall i :: 0 <= i < |log| ==> (log[i].failed <==> Breaks(faults(i), log[i].blocks * g.size))
    ensures AllAskNext(g, start, total, log)
    ensures Failures(log) <= 25 && (!ok <==> Failures(log) == 25)
    ensures (forall i :: faults(i) == None) ==> ok
  {
    hide Copied, OnOneSide, Failures, BlocksRead, Blocks, Split, AllAskNext;
    var blnr, blocks, done := start, total, 0;
    var retriesrw, retriescal := 0, 0;
    log := [];
    NothingYet(buffer, disk, g, start, total);
    NothingAsked(g, start, total);
    var readblk := g.sect - blnr % g.sect;
    if readblk > blocks {
      readblk := blocks;
    }
    while true
      invariant blnr == start + done && blocks == total - done && 0 <= done <= total
      invariant readblk <= blocks && (readblk == 0 ==> blocks == 0) && blnr % g.sect + readblk <= g.sect
      invariant readblk < blocks ==> blnr % g.sect + readblk == g.sect
      invariant Copied(buffer, disk, g, start, done) && start + done < Blocks(g)
      invariant forall i :: total * g.size <= i < buffer.Length ==> buffer[i] == old(buffer[i])
      invariant forall i :: 0 <= i < |log| ==> OnOneSide(g, log[i])
      invariant forall i :: 0 <= i < |log| ==> (log[i].failed <==> Breaks(faults(i), log[i].blocks * g.size))
      invariant AllAskNext(g, start, total, log)
      invariant Failures(log) == 5 * retriescal + retriesrw && BlocksRead(log) == done
      invariant 0 <= retriesrw <= FDC_RW_RETRIES + 1 && 0 <= retriescal <= FDC_CAL_RETRIES + 1
      decreases blocks, LIMIT - Failures(log)
    {
      var good, r := Attempt(buffer, disk, g, start, total, done, readblk, faults(|log|));
      AsksNextToo(g, start, total, log, r);
      LogNext(log, r);
      log := log + [r];
      if !good {
        retriesrw := retriesrw + 1;
        if retriesrw - 1 > FDC_RW_RETRIES {
          retriescal := retriescal + 1;
          if retriescal - 1 > FDC_CAL_RETRIES {
            if forall i :: faults(i) == None { NoFailures(log); }
            return false, log;
          }
          retriesrw := 0;
        }
      } else {
        NextTrack(blnr, readblk, g.sect);
        blnr := blnr + readblk;
        blocks := blocks - readblk;
        done := done + readblk;
        if blocks == 0 {
          break;
        }
        readblk := g.sect;
        if readblk > blocks {
          readblk := blocks;
        }
      }
    }
    ok := true;
  }

  lemma NothingAsked(g: Geometry, start: nat, total: nat)
    requires ValidGeometry(g)
    ensures AllAskNext(g, start, total, [])
  {
  }

  lemma NothingYet(buffer: array<Byte>, disk: seq<Byte>, g: Geometry, start: nat, total: nat)
    requires (start + total) * g.size <= |disk|
    ensures Copied(buffer, disk, g, start, 0) && Failures([]) == 0 && BlocksRead([]) == 0
  {
    MulMono(start, start + total, g.size);
  }

  /** After reading to the end of a track side the next block starts one. */
  lemma NextTrack(blnr: nat, readblk: nat, sect: nat)
    requires sect > 0 && blnr % sect + readblk <= sect
    ensures blnr % sect + readblk == sect ==> (blnr + readblk) % sect == 0
  {
    if blnr % sect + readblk == sect {
      DivMod(blnr, sect);
      assert blnr + readblk == (blnr / sect + 1) * sect;
      DivModIs(blnr + readblk, sect, blnr / sect + 1, 0);
    }
  }

  lemma Room(g: Geometry, start: nat, total: nat, done: nat, readblk: nat, disk: nat, buffer: nat)
    requires done + readblk <= total && total * g.size <= buffer && (start + total) * g.size <= disk
    ensures done * g.size + g.size * readblk == (done + readblk) * g.size <= total * g.size
    ensures (start + done) * g.size + g.size * readblk <= disk
    ensures (start + done) * g.size == start * g.size + done * g.size
  {
    MulMono(done + readblk, total, g.size);
    MulMono(start + done + readblk, start + total, g.size);
  }
}

/** The five file operations of the character device on values: a ring, one pending string
    shared by every open file, and the position of the file the call is made on. */
module Driver {
  import opened Machine
  import opened Lines
  import opened LineRing
  import opened CommitLog

  /** `pending` is None for a NULL pointer; otherwise the bytes counted by its size field. */
  datatype Dev = Dev(ring: Ring, pending: Option<bytes>)

  const FRESH := Dev(EMPTY, None)

  /** What the kernel lets succeed during one call. */
  datatype Faults = Faults(lockOk: bool, allocOk: bool, copyOk: bool)

  const NO_FAULTS := Faults(true, true, true)

  function PendingBytes(d: Dev): bytes
  {
    if d.pending.None? then [] else d.pending.value
  }

  /** Whether kmalloc grants a request, given as a `size_t`. */
  predicate Granted(request: int, f: Faults)
  {
    f.allocOk && request <= MAX_BLOCK
  }

  // ---------------------------------------------------------------- write

  function Commit(ring: Ring, pending: bytes): Dev
    requires WellFormed(ring)
  {
    var cr := FirstNewline(pending);
    if 0 <= cr && cr == |pending| - 1 then Dev(Add(ring, pending), None) else Dev(ring, Some(pending))
  }

  /** `stored` says that the payload was copied in; `ret` is what the caller sees. */
  datatype WriteReply = WriteReply(dev: Dev, ret: int, stored: bool)

  function Write(d: Dev, payload: bytes, f: Faults): WriteReply
    requires WellFormed(d.ring)
  {
    if !f.lockOk then
      WriteReply(d, -ERESTARTSYS, false)
    else if d.pending.Some? then
      var size := ToInt32(|payload| + |d.pending.value|);
      if !Granted(ToSizeT(size), f) || !f.copyOk then WriteReply(d, -EINVAL, false)
      else WriteReply(Commit(d.ring, d.pending.value + payload), -ENOMEM, true)
    else
      if !Granted(|payload|, f) then WriteReply(d, -EINVAL, false)
      else if !f.copyOk then WriteReply(Dev(d.ring, Some([])), -EINVAL, false)
      else WriteReply(Commit(d.ring, payload), -ENOMEM, true)
  }

  /** The device state a log stands for, with every block within the allocator's limit. */
  predicate Tracks(d: Dev, log: Log)
  {
    && Represents(d.ring, log.history)
    && PendingBytes(d) == log.pending
    && |log.pending| <= MAX_BLOCK
    && forall k :: 0 <= k < SLOTS ==> |d.ring.slots[k]| <= MAX_BLOCK
  }

  lemma FreshTracksNothing()
    ensures Tracks(FRESH, NOTHING)
  {
    RingRefinesHistory([]);
  }

  /** The commit test of the driver, on the first newline, recognises exactly the lines. */
  lemma CommitTestIsIsLine(s: bytes)
    ensures 0 <= FirstNewline(s) && FirstNewline(s) == |s| - 1 <==> IsLine(s)
  {
    if IsLine(s) {
      FirstNewlineIs(s, |s| - 1);
    }
  }

  lemma CommitRefinesFeed(ring: Ring, log: Log, payload: bytes)
    requires Tracks(Dev(ring, Some(log.pending)), log)
    requires |log.pending| + |payload| <= MAX_BLOCK
    ensures Tracks(Commit(ring, log.pending + payload), Feed(log, payload))
  {
    CommitTestIsIsLine(log.pending + payload);
    if IsLine(log.pending + payload) {
      AddRefinesAppend(ring, log.history, log.pending + payload);
    }
  }

  /** The `int` in which the driver adds up a block size never passes for a smaller one: a sum
      that does not fit comes out as a request no allocator grants. */
  lemma BlockRequestIsExact(stored: nat, count: nat, f: Faults)
    requires stored <= MAX_BLOCK && count <= MAX_RW_COUNT
    ensures Granted(ToSizeT(ToInt32(count + stored)), f) <==> f.allocOk && count + stored <= MAX_BLOCK
  {
    if 0x8000_0000 <= count + stored {
      assert ToInt32(count + stored) == count + stored - 0x1_0000_0000;
    }
  }

  /** A write refines Feed when it stores and changes nothing a reader or a later write can see
      when it does not. It stores exactly when nothing fails and the new string fits a block,
      and its return value is an error every time. */
  lemma WriteRefinesFeed(d: Dev, log: Log, payload: bytes, f: Faults)
    requires Tracks(d, log) && |payload| <= MAX_RW_COUNT
    ensures var w := Write(d, payload, f);
            && w.ret < 0
            && (w.stored <==> f.lockOk && f.allocOk && f.copyOk && |log.pending| + |payload| <= MAX_BLOCK)
            && Tracks(w.dev, if w.stored then Feed(log, payload) else log)
            && (!w.stored ==> w.dev.ring == d.ring)
            && (w.stored <==> w.ret == -ENOMEM)
  {
    BlockRequestIsExact(|log.pending|, |payload|, f);
    if Write(d, payload, f).stored {
      CommitRefinesFeed(d.ring, log, payload);
      assert [] + payload == payload;
    }
  }

  /** The error a write reports: -ENOMEM when it stored, -ERESTARTSYS when it did not get the lock,
      else -EINVAL. */
  lemma WriteReturns(d: Dev, log: Log, payload: bytes, f: Faults)
    requires Tracks(d, log) && |payload| <= MAX_RW_COUNT
    ensures var w := Write(d, payload, f);
            && (w.ret == -ENOMEM <==> w.stored)
            && (w.ret == -ERESTARTSYS <==> !f.lockOk)
            && (w.ret == -EINVAL <==> f.lockOk && !w.stored)
  {
  }

  lemma StoredPending(ring: Ring, all: bytes)
    requires WellFormed(ring)
    ensures Commit(ring, all).pending == if IsLine(all) then None else Some(all)
  {
    CommitTestIsIsLine(all);
  }

  /** The pending pointer is NULL after a write that committed, and after one that got no block when
      it was NULL before. */
  lemma WriteLeavesNull(d: Dev, payload: bytes, f: Faults)
    requires WellFormed(d.ring)
    ensures var w := Write(d, payload, f);
            w.dev.pending.None? <==>
              if w.stored then IsLine(PendingBytes(d) + payload)
              else d.pending.None? && !(f.lockOk && Granted(|payload|, f))
  {
    StoredPending(d.ring, PendingBytes(d) + payload);
    assert [] + payload == payload;
  }

  /** WriteRefinesFeed for the log of a list of payloads. */
  lemma WriteExtendsLog(d: Dev, accepted: seq<bytes>, payload: bytes, f: Faults, after: seq<bytes>)
    requires Tracks(d, FeedAll(accepted)) && |payload| <= MAX_RW_COUNT
    requires after == if Write(d, payload, f).stored then accepted + [payload] else accepted
    ensures Tracks(Write(d, payload, f).dev, FeedAll(after))
  {
    WriteRefinesFeed(d, FeedAll(accepted), payload, f);
    FeedAllSnoc(accepted, payload);
  }

  // ---------------------------------------------------------------- read

  /** What one read of at most `count` bytes finds at a position: the rest of one entry. */
  function Chunk(pieces: seq<bytes>, pos: int, count: nat): bytes
  {
    match Search(pieces, ToSizeT(pos))
    case None => []
    case Some((j, off)) =>
      pieces[j][off..off + AtMost(count, |pieces[j]| - off)]
  }

  function AtMost(count: nat, left: nat): (n: nat)
    ensures n <= count && n <= left && (n == count || n == left)
  {
    if count > left then left else count
  }

  datatype ReadReply = ReadReply(ret: int, data: bytes, pos: int)

  function Read(d: Dev, pos: int, count: nat, f: Faults): ReadReply
    requires WellFormed(d.ring)
  {
    var pieces := InOrder(d.ring);
    if !f.lockOk then ReadReply(-ERESTARTSYS, [], pos)
    else if Search(pieces, ToSizeT(pos)).None? then ReadReply(0, [], pos)
    else if !f.copyOk then ReadReply(-EFAULT, [], pos)
    else
      var data := Chunk(pieces, pos, count);
      ReadReply(|data|, data, pos + |data|)
  }

  /** A position a file can have. */
  predicate IsPosition(pos: int)
  {
    0 <= pos < 0x8000_0000_0000_0000
  }

  /** The limit on blocks is the largest that keeps ten of them within an `int`. */
  lemma BlockLimitIsLargest()
    ensures 10 * MAX_BLOCK < 0x8000_0000 <= 10 * (MAX_BLOCK + 1)
  {
  }

  lemma ContentFitsInt(d: Dev, log: Log)
    requires Tracks(d, log)
    ensures |Content(d.ring)| < 0x8000_0000
    ensures Content(d.ring) == Flatten(LastTen(log.history))
  {
    FlattenBound(InOrder(d.ring), MAX_BLOCK);
    ContentIsLastTen(d.ring, log.history);
  }

  lemma ChunkFound(pieces: seq<bytes>, pos: nat, count: nat, j: nat, off: nat)
    requires ToSizeT(pos) == pos && Search(pieces, pos) == Some((j, off))
    requires pos == |Flatten(pieces[..j])| + off
    ensures var n := AtMost(count, |pieces[j]| - off);
            && |Chunk(pieces, pos, count)| == n
            && pos + n <= |Flatten(pieces)|
            && Chunk(pieces, pos, count) == Flatten(pieces)[pos..pos + n]
  {
    FlattenSlice(pieces, j, off, AtMost(count, |pieces[j]| - off));
  }

  lemma SearchMisses(pieces: seq<bytes>, pos: int)
    requires Addressable(pieces, pos) && |Flatten(pieces)| <= pos
    ensures Search(pieces, pos) == None
  {
    SearchIsIndexing(pieces, pos);
  }

  lemma SearchHits(pieces: seq<bytes>, pos: int) returns (j: nat, off: nat)
    requires Addressable(pieces, pos) && pos < |Flatten(pieces)|
    ensures Search(pieces, pos) == Some((j, off)) && pos == |Flatten(pieces[..j])| + off
  {
    SearchIsIndexing(pieces, pos);
    j, off := Search(pieces, pos).value.0, Search(pieces, pos).value.1;
  }

  /** A chunk is the slice of the concatenation at the position; it is empty only at or past
      the end (or when nothing is asked for). */
  lemma ChunkIsSlice(pieces: seq<bytes>, pos: int, count: nat)
    requires Addressable(pieces, pos)
    ensures var data := Chunk(pieces, pos, count);
            && (data == [] <==> |Flatten(pieces)| <= pos || count == 0)
            && |data| <= count
            && (data != [] ==> pos + |data| <= |Flatten(pieces)| && data == Flatten(pieces)[pos..pos + |data|])
  {
    if |Flatten(pieces)| <= pos {
      SearchMisses(pieces, pos);
    } else {
      var j, off := SearchHits(pieces, pos);
      ChunkFound(pieces, pos, count, j, off);
    }
  }

  /** A chunk lies within one entry: it is all that was asked for or it ends where the entry does. */
  lemma ChunkStaysInEntry(pieces: seq<bytes>, pos: int, count: nat) returns (j: nat)
    requires Addressable(pieces, pos) && pos < |Flatten(pieces)|
    ensures j < |pieces|
    ensures |Flatten(pieces[..j])| <= pos
    ensures pos + |Chunk(pieces, pos, count)| <= |Flatten(pieces[..j + 1])|
    ensures |Chunk(pieces, pos, count)| == count || pos + |Chunk(pieces, pos, count)| == |Flatten(pieces[..j + 1])|
  {
    SearchIsIndexing(pieces, pos);
    j := Search(pieces, pos).value.0;
    FlattenAround(pieces, j);
  }

  /** A read at position p hands over the bytes of the newest ten lines from p on. */
  lemma ReadIsSlice(d: Dev, log: Log, pos: int, count: nat, f: Faults)
    requires Tracks(d, log) && IsPosition(pos)
    ensures var r, seen := Read(d, pos, count, f), Flatten(LastTen(log.history));
            && r.pos == pos + |r.data| && IsPosition(r.pos)
            && |r.data| <= count
            && (r.data != [] ==> r.pos <= |seen| && r.data == seen[pos..r.pos])
            && (0 <= r.ret ==> r.ret == |r.data| && (r.ret == 0 <==> |seen| <= pos || count == 0))
            && (r.ret < 0 ==> r.data == [])
            && (r.ret < 0 <==> !f.lockOk || (!f.copyOk && pos < |seen|))
  {
    ContentFitsInt(d, log);
    ChunkIsSlice(InOrder(d.ring), pos, count);
    SearchIsIndexing(InOrder(d.ring), pos);
  }

  /** A read that finds the rest of a piece. */
  lemma ReadOfPiece(d: Dev, pos: int, count: nat, f: Faults, j: nat, off: nat, data: bytes)
    requires WellFormed(d.ring) && f.lockOk && f.copyOk
    requires Search(InOrder(d.ring), ToSizeT(pos)) == Some((j, off))
    requires data == InOrder(d.ring)[j][off..off + AtMost(count, |InOrder(d.ring)[j]| - off)]
    ensures Read(d, pos, count, f) == ReadReply(|data|, data, pos + |data|)
  {
  }

  // ---------------------------------------------------------------- slots and bytes before them

  function FirstLines(view: seq<bytes>, n: nat): seq<bytes>
  {
    if n < |view| then view[..n] else view
  }

  /** Ring-order index of a physical slot, from the history alone: slot 0 holds the oldest line
      until the ring wraps. */
  function SlotIndex(history: seq<bytes>, slot: nat): nat
    requires slot < SLOTS
  {
    var oldest := if |history| < SLOTS then 0 else |history| % SLOTS;
    if oldest <= slot then slot - oldest else slot + SLOTS - oldest
  }

  /** Blank slots behind the view add nothing to a prefix. */
  lemma PrefixOfPadded(view: seq<bytes>, blanks: nat, j: nat)
    requires j <= |view| + blanks
    ensures Flatten((view + Blank(blanks))[..j]) == Flatten(FirstLines(view, j))
  {
    if j < |view| {
      assert (view + Blank(blanks))[..j] == view[..j];
    } else {
      assert (view + Blank(blanks))[..j] == view + Blank(j - |view|);
      FlattenConcat(view, Blank(j - |view|));
      FlattenOfEmpties(Blank(j - |view|));
    }
  }

  /** The bytes in ring order before a physical slot, from the history alone. */
  lemma BytesBeforeSlot(d: Dev, log: Log, slot: nat)
    requires Tracks(d, log) && slot < SLOTS
    ensures BytesBefore(d.ring, slot) == |Flatten(FirstLines(LastTen(log.history), SlotIndex(log.history, slot)))|
    ensures BytesBefore(d.ring, slot) < 0x8000_0000
  {
    var view, j := LastTen(log.history), OrderOf(d.ring, slot);
    ContentFitsInt(d, log);
    PrefixesGrow(InOrder(d.ring), j, SLOTS);
    PrefixOfPadded(view, SLOTS - |view|, j);
  }

  // ---------------------------------------------------------------- llseek

  datatype Whence = SeekSet | SeekCur | SeekEnd | Unknown

  datatype SeekReply = SeekReply(ret: int, pos: int)

  function Seek(d: Dev, pos: int, offset: int, whence: Whence, f: Faults): SeekReply
    requires WellFormed(d.ring)
  {
    if whence.Unknown? then SeekReply(-EINVAL, pos)
    else if whence.SeekEnd? && !f.lockOk then SeekReply(-ERESTARTSYS, pos)
    else
      var target :=
        if whence.SeekSet? then pos
        else if whence.SeekCur? then ToInt64(pos + offset)
        else ToInt64(ToInt32(BytesBefore(d.ring, d.ring.inOffs)) + offset);
      if target < 0 then SeekReply(-EINVAL, pos) else SeekReply(target, target)
  }

  /** The bytes in ring order before the write slot: all of them, until the ring is full; then none. */
  lemma BytesBeforeWriteSlot(d: Dev, log: Log)
    requires Tracks(d, log)
    ensures BytesBefore(d.ring, d.ring.inOffs) == if d.ring.full then 0 else |Flatten(LastTen(log.history))|
  {
    BytesBeforeSlot(d, log, d.ring.inOffs);
  }

  /** What SEEK_END does in every state: the end it measures from is the end of the data until
      the ring is full and the beginning afterwards; a target outside loff_t changes nothing. */
  lemma SeekEndIsExact(d: Dev, log: Log, pos: int, offset: loff, f: Faults)
    requires Tracks(d, log) && IsPosition(pos)
    ensures var target := (if SLOTS <= |log.history| then 0 else |Flatten(LastTen(log.history))|) + offset;
            Seek(d, pos, offset, SeekEnd, f) ==
            if !f.lockOk then SeekReply(-ERESTARTSYS, pos)
            else if IsPosition(target) then SeekReply(target, target) else SeekReply(-EINVAL, pos)
  {
    ContentFitsInt(d, log);
    BytesBeforeWriteSlot(d, log);
  }

  /** SEEK_CUR moves by its offset, forward or back; a target outside loff_t changes nothing. No
      fault touches it, since it takes no lock. */
  lemma SeekCurIsExact(d: Dev, pos: int, offset: loff, f: Faults)
    requires WellFormed(d.ring) && IsPosition(pos)
    ensures Seek(d, pos, offset, SeekCur, f) ==
            if IsPosition(pos + offset) then SeekReply(pos + offset, pos + offset) else SeekReply(-EINVAL, pos)
  {
  }

  /** SEEK_SET succeeds where the file is; an unknown whence is refused there. */
  lemma SeekSetStays(d: Dev, pos: int, offset: loff, f: Faults)
    requires WellFormed(d.ring) && IsPosition(pos)
    ensures Seek(d, pos, offset, SeekSet, f) == SeekReply(pos, pos)
    ensures Seek(d, pos, offset, Unknown, f) == SeekReply(-EINVAL, pos)
  {
  }

  /** SEEK_END measures from the end of the data if and only if the ring is not full. */
  lemma SeekEndReachesEndIff(d: Dev, log: Log, pos: int)
    requires Tracks(d, log) && IsPosition(pos)
    requires forall i :: 0 <= i < |log.history| ==> IsLine(log.history[i])
    ensures Seek(d, pos, 0, SeekEnd, NO_FAULTS).pos == |Flatten(LastTen(log.history))|
       <==> |log.history| < SLOTS
  {
    SeekEndIsExact(d, log, pos, 0, NO_FAULTS);
    ContentFitsInt(d, log);
    if SLOTS <= |log.history| {
      FlattenAround(LastTen(log.history), 0);
      assert IsLine(LastTen(log.history)[0]);
    }
  }

  /** SEEK_SET moves to its offset only if the file is there already. */
  lemma SeekSetReachesOffsetIff(d: Dev, pos: int, offset: loff, f: Faults)
    requires WellFormed(d.ring) && IsPosition(pos)
    ensures Seek(d, pos, offset, SeekSet, f) == SeekReply(offset, offset) <==> offset == pos
    ensures Seek(d, pos, offset, SeekSet, f) == SeekReply(pos, pos)
  {
    SeekSetStays(d, pos, offset, f);
  }

  // ---------------------------------------------------------------- ioctl

  /** `known` says that the ioctl number is AESDCHAR_IOCSEEKTO. */
  function SeekTo(d: Dev, pos: int, known: bool, cmd: nat, off: nat, f: Faults): SeekReply
    requires WellFormed(d.ring)
  {
    if !known then SeekReply(-ENOTTY, pos)
    else if !f.copyOk then SeekReply(-EFAULT, pos)
    else if SLOTS <= cmd then SeekReply(-EINVAL, pos)
    else if !f.lockOk then SeekReply(-ERESTARTSYS, pos)
    else SeekReply(-ENOMEM, ToUint32(ToInt32(BytesBefore(d.ring, cmd)) + off))
  }

  /** A sum that wraps falls before the piece it started from. */
  lemma WrappedSum(start: nat, off: nat)
    requires start < 0x8000_0000 && off < 0x1_0000_0000
    ensures ToUint32(start + off) == start + off || ToUint32(start + off) < start
  {
  }

  /** A search from a position computed as `start + off` in 32 bits hits the piece that starts there
      exactly when the offset is inside it. */
  lemma SearchHitsIff(pieces: seq<bytes>, j: nat, off: nat)
    requires |Flatten(pieces)| < 0x8000_0000 && j < |pieces| && off < 0x1_0000_0000
    ensures var hit := Search(pieces, ToUint32(|Flatten(pieces[..j])| + off));
            && (off < |pieces[j]| ==> hit == Some((j, off)))
            && (hit.Some? && hit.value.0 == j ==> off < |pieces[j]|)
  {
    var start := |Flatten(pieces[..j])|;
    FlattenAround(pieces, j);
    WrappedSum(start, off);
    if off < |pieces[j]| {
      SearchInvertsPosition(pieces, j, off);
    } else {
      SearchIsIndexing(pieces, ToUint32(start + off));
    }
  }

  /** Seek and find: after the ioctl has set the position from a slot and an offset, the search
      returns that slot and that offset if the offset is inside the slot's line; otherwise it does
      not even return that slot. */
  lemma SeekThenFind(d: Dev, log: Log, pos: int, slot: nat, off: nat)
    requires Tracks(d, log) && slot < SLOTS && off < 0x1_0000_0000
    ensures var hit := Search(InOrder(d.ring), SeekTo(d, pos, true, slot, off, NO_FAULTS).pos);
            && (hit == Some((OrderOf(d.ring, slot), off)) <==> off < |d.ring.slots[slot]|)
            && (hit.Some? && hit.value.0 == OrderOf(d.ring, slot) <==> off < |d.ring.slots[slot]|)
  {
    var pieces, j := InOrder(d.ring), OrderOf(d.ring, slot);
    ContentFitsInt(d, log);
    PrefixesGrow(pieces, j, SLOTS);
    SearchHitsIff(pieces, j, off);
  }

  /** The position an accepted seek to (cmd, off) sets, from the history alone. */
  function SeekTarget(history: seq<bytes>, cmd: nat, off: nat): int
    requires cmd < SLOTS
  {
    ToUint32(|Flatten(FirstLines(LastTen(history), SlotIndex(history, cmd)))| + off)
  }

  lemma SeekToIsExact(d: Dev, log: Log, pos: int, cmd: nat, off: nat)
    requires Tracks(d, log) && cmd < SLOTS
    ensures SeekTo(d, pos, true, cmd, off, NO_FAULTS) == SeekReply(-ENOMEM, SeekTarget(log.history, cmd, off))
  {
    BytesBeforeSlot(d, log, cmd);
  }

  /** The ioctl takes effect. */
  predicate Accepted(known: bool, cmd: nat, f: Faults)
  {
    known && f.copyOk && cmd < SLOTS && f.lockOk
  }

  /** The ioctl never reports success. It reports -ENOMEM exactly when it took effect, and otherwise
      the first of its four causes of refusal, with the position kept. */
  lemma SeekToReturns(d: Dev, log: Log, pos: int, known: bool, cmd: nat, off: nat, f: Faults)
    requires Tracks(d, log)
    ensures var r := SeekTo(d, pos, known, cmd, off, f);
            && r.ret < 0
            && (r.ret == -ENOMEM <==> Accepted(known, cmd, f))
            && (r.ret == -ENOTTY <==> !known)
            && (r.ret == -EFAULT <==> known && !f.copyOk)
            && (r.ret == -EINVAL <==> known && f.copyOk && SLOTS <= cmd)
            && (r.ret == -ERESTARTSYS <==> known && f.copyOk && cmd < SLOTS && !f.lockOk)
            && r.pos == if Accepted(known, cmd, f) then SeekTarget(log.history, cmd, off) else pos
  {
    if Accepted(known, cmd, f) {
      SeekToIsExact(d, log, pos, cmd, off);
    }
  }

  /** The interface promises a zero-referenced write command: command 0 is the oldest line kept.
      The driver counts physical slots. */
  function IntendedTarget(history: seq<bytes>, cmd: nat, off: nat): int
  {
    ToUint32(|Flatten(FirstLines(LastTen(history), cmd))| + off)
  }

  /** A longer run of lines holds more bytes. */
  lemma PrefixesOfLinesGrow(lines: seq<bytes>, i: nat, j: nat)
    requires i < j <= |lines|
    requires forall k :: 0 <= k < |lines| ==> IsLine(lines[k])
    ensures |Flatten(lines[..i])| < |Flatten(lines[..j])|
  {
    FlattenAround(lines, i);
    PrefixesGrow(lines, i + 1, j);
  }

  /** The two agree exactly while the oldest line is in slot 0. */
  lemma SeekTargetIsIntendedIff(d: Dev, log: Log, cmd: nat, off: nat)
    requires Tracks(d, log) && cmd < SLOTS && off < 0x1_0000_0000
    requires forall i :: 0 <= i < |log.history| ==> IsLine(log.history[i])
    ensures SeekTarget(log.history, cmd, off) == IntendedTarget(log.history, cmd, off)
       <==> |log.history| < SLOTS || |log.history| % SLOTS == 0
  {
    var view := LastTen(log.history);
    if SLOTS <= |log.history| && |log.history| % SLOTS != 0 {
      var j := SlotIndex(log.history, cmd);
      ContentFitsInt(d, log);
      PrefixesGrow(view, j, SLOTS);
      PrefixesGrow(view, cmd, SLOTS);
      if j < cmd {
        PrefixesOfLinesGrow(view, j, cmd);
      } else {
        PrefixesOfLinesGrow(view, cmd, j);
      }
      SumsDiffer(|Flatten(view[..j])|, |Flatten(view[..cmd])|, off);
    }
  }

  lemma SumsDiffer(a: nat, b: nat, off: nat)
    requires a < 0x8000_0000 && b < 0x8000_0000 && a != b && off < 0x1_0000_0000
    ensures ToUint32(a + off) != ToUint32(b + off)
  {
  }
}

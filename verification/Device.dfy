/** The device object: one ring, one pending entry shared by every open file, and the blocks
    both own. Its methods update it in place, call by call, as the driver's functions do. */
module Device {
  import opened Machine
  import opened Lines
  import opened LineRing
  import opened CommitLog
  import opened Driver
  import opened CircularBuffers

  /** An open file of the device. */
  class File {
    var fPos: int

    constructor ()
      ensures fPos == 0
    {
      fPos := 0;
    }
  }

  /** Copies into a block; a failing copy may have written any part of what it was asked to. */
  method CopyFromUser(dst: array<byte>, at: nat, src: bytes, f: Faults) returns (failed: bool)
    requires at + |src| <= dst.Length
    modifies dst
    ensures failed == !f.copyOk
    ensures dst[..at] == old(dst[..at])
    ensures !failed ==> dst[at..at + |src|] == src
  {
    forall i | 0 <= i < |src| {
      dst[at + i] := src[i];
    }
    failed := !f.copyOk;
  }

  method Memcpy(dst: array<byte>, src: array<byte>, n: nat)
    requires n <= dst.Length && n <= src.Length && dst != src
    modifies dst
    ensures dst[..n] == src[..n]
  {
    forall i | 0 <= i < n {
      dst[i] := src[i];
    }
  }

  /** The index of the first newline in the first `size` bytes, or -1. */
  method CheckCR(buffer: array?<byte>, size: nat) returns (ret: int)
    requires buffer != null ==> size <= buffer.Length
    ensures buffer == null ==> ret == -1
    ensures buffer != null ==> ret == FirstNewline(buffer[..size])
  {
    if buffer != null {
      for c := 0 to size
        invariant NEWLINE !in buffer[..c]
      {
        if buffer[c] == NEWLINE {
          assert buffer[..size][..c] == buffer[..c];
          FirstNewlineIs(buffer[..size], c);
          return c;
        }
      }
    }
    return -1;
  }

  /** The pending entry is NULL, or its block begins with the bytes its size counts. */
  ghost predicate Holds(e: BufferEntry, pending: Option<bytes>)
    reads if e.buffptr == null then {} else {e.buffptr}
  {
    if e.buffptr == null then e.size == 0 && pending == None
    else e.size <= e.buffptr.Length && pending == Some(e.buffptr[..e.size])
  }

  /** A write leaks a block exactly when its copy into an enlarged pending block fails. */
  ghost predicate Leaks(pending: BufferEntry, payload: bytes, f: Faults)
  {
    f.lockOk && pending.buffptr != null && !f.copyOk && Granted(ToSizeT(ToInt32(|payload| + pending.size)), f)
  }

  /** The second set is the first with one more block, or just the first. */
  ghost predicate GrowsBy(s: set<array<byte>>, s': set<array<byte>>, one: bool)
  {
    if one then exists b | b in s' :: b !in s && s' == s + {b} else s' == s
  }

  class Device {
    const heap: Heap
    const buffer: CircularBuffer
    var aesdEntry: BufferEntry

    ghost var model: Dev                    // the device state these fields stand for
    ghost var accepted: seq<bytes>          // every payload copied in so far
    ghost var leaked: set<array<byte>>      // blocks no pointer reaches any more

    ghost function PendingBlock(): set<array<byte>>
      reads this
    {
      if aesdEntry.buffptr == null then {} else {aesdEntry.buffptr}
    }

    /** Ownership: the slot blocks, the pending block, the leaked blocks and some others in hand
        are pairwise different and are all the live blocks there are. */
    ghost predicate OwnedWith(others: set<array<byte>>)
      reads this, heap, buffer, buffer.entry, buffer.Blocks(), PendingBlock()
    {
      && buffer.Valid()
      && (forall k :: 0 <= k < SLOTS && buffer.entry[k].buffptr != null ==> 0 < buffer.entry[k].size)
      && model.ring == buffer.model && Holds(aesdEntry, model.pending)
      && PendingBlock() !! buffer.Blocks()
      && leaked !! buffer.Blocks() + PendingBlock()
      && others !! buffer.Blocks() + PendingBlock() + leaked
      && heap.live == buffer.Blocks() + PendingBlock() + leaked + others
    }

    ghost predicate Owned()
      reads this, heap, buffer, buffer.entry, buffer.Blocks(), PendingBlock()
    {
      OwnedWith({})
    }

    ghost predicate Valid()
      reads this, heap, buffer, buffer.entry, buffer.Blocks(), PendingBlock()
    {
      Owned() && Tracks(model, FeedAll(accepted))
    }

    constructor ()
      ensures Valid() && fresh(heap) && fresh(buffer) && fresh(buffer.entry)
      ensures model == FRESH && accepted == [] && leaked == {}
    {
      heap := new Heap();
      buffer := new CircularBuffer();
      aesdEntry, model := NO_ENTRY, FRESH;
      accepted, leaked := [], {};
      new;
      FreshTracksNothing();
      assert buffer.Blocks() == {};
    }

    lemma PendingMatches()
      requires Owned()
      ensures aesdEntry.buffptr == null <==> model.pending.None?
      ensures aesdEntry.size == |PendingBytes(model)|
    {
    }

    lemma PendingFits()
      requires Valid()
      ensures aesdEntry.size <= MAX_BLOCK && WellFormed(model.ring)
    {
      PendingMatches();
    }

    /** While the ring is not full the write slot points to nothing, so overwriting it leaks nothing. */
    lemma WriteSlotIsFree()
      requires Valid()
      ensures !buffer.full ==> buffer.entry[buffer.inOffs].buffptr == null
    {
      AddEvictsOldest(buffer.model, FeedAll(accepted).history, []);
      assert Stores(buffer.entry[..][buffer.inOffs], buffer.model.slots[buffer.inOffs]);
    }

    /** The pending block passes to the ring. */
    method CommitPending()
      requires Owned() && aesdEntry.buffptr != null && aesdEntry.buffptr.Length == aesdEntry.size
      requires 0 < aesdEntry.size && model.pending == Some(aesdEntry.buffptr[..])
      requires !buffer.full ==> buffer.entry[buffer.inOffs].buffptr == null
      modifies this`aesdEntry, this`model, heap, buffer, buffer.entry
      ensures Owned()
      ensures model == Dev(Add(old(model.ring), old(model.pending.value)), None)
    {
      ghost var was := buffer.entry[buffer.inOffs];
      assert was in buffer.entry[..];
      model := Dev(Add(model.ring, model.pending.value), None);
      buffer.AddEntry(heap, aesdEntry);
      aesdEntry := NO_ENTRY;
    }

    /** Commits the pending entry if it is a line: its block passes to the ring and, when the ring
        is full, the block of the oldest line is freed. */
    method SendEntryToCircularBuffer()
      requires Owned()
      requires aesdEntry.buffptr != null && aesdEntry.buffptr.Length == aesdEntry.size && model.pending.Some?
      requires !buffer.full ==> buffer.entry[buffer.inOffs].buffptr == null
      modifies this`aesdEntry, this`model, heap, buffer, buffer.entry
      ensures Owned()
      ensures model == Commit(old(model.ring), old(model.pending.value))
    {
      var posCR := CheckCR(aesdEntry.buffptr, aesdEntry.size);
      assert aesdEntry.buffptr[..aesdEntry.size] == model.pending.value == aesdEntry.buffptr[..];
      if posCR >= 0 && posCR == aesdEntry.size - 1 {
        CommitPending();
      }
    }

    /** The first part of aesd_write while something is pending: a block for the pending bytes and
        the payload, both copied in. */
    method GrownCopy(payload: bytes, f: Faults) returns (locBuffer: array?<byte>, failed: bool)
      requires Owned() && |payload| <= MAX_RW_COUNT && aesdEntry.size <= MAX_BLOCK && aesdEntry.buffptr != null
      modifies heap
      ensures locBuffer == null <==> !Granted(ToSizeT(ToInt32(|payload| + aesdEntry.size)), f)
      ensures locBuffer == null ==> Owned()
      ensures locBuffer != null ==>
                && fresh(locBuffer) && OwnedWith({locBuffer})
                && locBuffer.Length == aesdEntry.size + |payload| == ToInt32(|payload| + aesdEntry.size)
                && failed == !f.copyOk
                && (!failed ==> locBuffer[..] == PendingBytes(model) + payload)
    {
      BlockRequestIsExact(aesdEntry.size, |payload|, f);
      var size := ToInt32(|payload| + aesdEntry.size);
      locBuffer := heap.Kmalloc(ToSizeT(size), f);
      if locBuffer == null {
        return null, true;
      }
      Memcpy(locBuffer, aesdEntry.buffptr, aesdEntry.size);
      failed := CopyFromUser(locBuffer, aesdEntry.size, payload, f);
      assert locBuffer[..] == locBuffer[..aesdEntry.size] + locBuffer[aesdEntry.size..];
    }

    /** The block in hand becomes the pending one; the old pending block is freed. */
    method InstallPending(locBuffer: array<byte>)
      requires OwnedWith({locBuffer}) && aesdEntry.buffptr != null
      modifies this`aesdEntry, this`model, heap
      ensures Owned() && aesdEntry == BufferEntry(locBuffer, locBuffer.Length)
      ensures model == Dev(old(model.ring), Some(locBuffer[..]))
    {
      heap.Kfree(aesdEntry.buffptr);
      model := Dev(model.ring, Some(locBuffer[..]));
      aesdEntry := BufferEntry(locBuffer, locBuffer.Length);
      assert locBuffer[..] == locBuffer[..locBuffer.Length];
    }

    /** The block in hand belongs to nobody from now on. */
    ghost method Abandon(locBuffer: array<byte>)
      requires OwnedWith({locBuffer})
      modifies this`leaked
      ensures Owned() && GrowsBy(old(leaked), leaked, true)
    {
      leaked := leaked + {locBuffer};
    }

    /** The end of aesd_write while something is pending. */
    method ReplacePending(locBuffer: array<byte>)
      requires OwnedWith({locBuffer}) && aesdEntry.buffptr != null
      requires !buffer.full ==> buffer.entry[buffer.inOffs].buffptr == null
      modifies this`aesdEntry, this`model, heap, buffer, buffer.entry
      ensures Owned()
      ensures model == Commit(old(model.ring), old(locBuffer[..]))
    {
      InstallPending(locBuffer);
      SendEntryToCircularBuffer();
    }

    /** aesd_write while something is pending: the larger block replaces the pending one. A copy
        that fails leaves the new block to nobody. */
    method AppendToPending(payload: bytes, f: Faults) returns (ret: int)
      requires Owned() && |payload| <= MAX_RW_COUNT && aesdEntry.size <= MAX_BLOCK && aesdEntry.buffptr != null
      requires !buffer.full ==> buffer.entry[buffer.inOffs].buffptr == null
      modifies this`aesdEntry, this`model, this`leaked, heap, buffer, buffer.entry
      ensures Owned()
      ensures var granted := Granted(ToSizeT(ToInt32(|payload| + old(aesdEntry.size))), f);
              && ret == (if granted && f.copyOk then -ENOMEM else -EINVAL)
              && model == (if granted && f.copyOk then Commit(old(model.ring), PendingBytes(old(model)) + payload)
                           else old(model))
              && GrowsBy(old(leaked), leaked, granted && !f.copyOk)
    {
      var locBuffer, failed := GrownCopy(payload, f);
      if locBuffer == null {
        ret := -EINVAL;
      } else if failed {
        Abandon(locBuffer);
        ret := -EINVAL;
      } else {
        ReplacePending(locBuffer);
        ret := -ENOMEM;
      }
    }

    /** A block in hand becomes the pending one, with nothing counted in it yet. */
    method TakePending(block: array<byte>)
      requires OwnedWith({block}) && aesdEntry.buffptr == null
      modifies this`aesdEntry, this`model
      ensures Owned() && aesdEntry == BufferEntry(block, 0) && model == Dev(old(model.ring), Some([]))
    {
      aesdEntry, model := BufferEntry(block, 0), Dev(model.ring, Some([]));
    }

    /** The payload is copied into the pending block, none of which counts yet. */
    method CopyIntoPending(block: array<byte>, payload: bytes, f: Faults) returns (failed: bool)
      requires Owned() && aesdEntry == BufferEntry(block, 0) && block.Length == |payload|
      modifies block
      ensures Owned() && failed == !f.copyOk && (!failed ==> block[..] == payload)
    {
      failed := CopyFromUser(block, 0, payload, f);
      assert block[..] == block[0..|payload|];
      assert buffer.entry[..] == old(buffer.entry[..]);
    }

    /** The whole pending block counts from now on, and is committed if it is a line. */
    method FillPending()
      requires Owned() && aesdEntry.buffptr != null
      requires !buffer.full ==> buffer.entry[buffer.inOffs].buffptr == null
      modifies this`aesdEntry, this`model, heap, buffer, buffer.entry
      ensures Owned() && model == Commit(old(model.ring), old(aesdEntry.buffptr[..]))
    {
      ghost var block := aesdEntry.buffptr[..];
      aesdEntry, model := BufferEntry(aesdEntry.buffptr, aesdEntry.buffptr.Length), Dev(model.ring, Some(block));
      assert aesdEntry.buffptr[..aesdEntry.size] == block;
      SendEntryToCircularBuffer();
    }

    /** aesd_write while nothing is pending. A copy that fails leaves the new block pending, empty. */
    method StartPending(payload: bytes, f: Faults) returns (ret: int)
      requires Owned() && |payload| <= MAX_RW_COUNT && aesdEntry.buffptr == null
      requires !buffer.full ==> buffer.entry[buffer.inOffs].buffptr == null
      modifies this`aesdEntry, this`model, heap, buffer, buffer.entry
      ensures Owned()
      ensures var granted := Granted(|payload|, f);
              && ret == (if granted && f.copyOk then -ENOMEM else -EINVAL)
              && model == if !granted then old(model)
                          else if !f.copyOk then Dev(old(model.ring), Some([]))
                          else Commit(old(model.ring), payload)
    {
      ret := -EINVAL;
      var block := heap.Kmalloc(|payload|, f);
      if block != null {
        TakePending(block);
        var failed := CopyIntoPending(block, payload, f);
        if !failed {
          FillPending();
          ret := -ENOMEM;
        }
      }
    }

    /** aesd_write once it has the lock. */
    method WriteLocked(payload: bytes, f: Faults) returns (ret: int)
      requires Owned() && |payload| <= MAX_RW_COUNT && aesdEntry.size <= MAX_BLOCK && f.lockOk
      requires !buffer.full ==> buffer.entry[buffer.inOffs].buffptr == null
      modifies this`aesdEntry, this`model, this`leaked, heap, buffer, buffer.entry
      ensures Owned()
      ensures model == Write(old(model), payload, f).dev && ret == Write(old(model), payload, f).ret
      ensures GrowsBy(old(leaked), leaked, Leaks(old(aesdEntry), payload, f))
    {
      PendingMatches();
      if aesdEntry.buffptr != null {
        ret := AppendToPending(payload, f);
      } else {
        ret := StartPending(payload, f);
      }
    }

    /** Remembering a payload touches no memory the device owns. */
    ghost method Record(after: seq<bytes>)
      requires Owned()
      modifies this`accepted
      ensures Owned() && accepted == after
    {
      accepted := after;
    }

    /** aesd_write: what it does to the state, with or without the lock. */
    method WriteUnlessInterrupted(payload: bytes, f: Faults) returns (ret: int)
      requires Valid() && |payload| <= MAX_RW_COUNT
      modifies this`aesdEntry, this`model, this`leaked, heap, buffer, buffer.entry
      ensures Owned()
      ensures model == Write(old(model), payload, f).dev && ret == Write(old(model), payload, f).ret
      ensures GrowsBy(old(leaked), leaked, Leaks(old(aesdEntry), payload, f))
    {
      PendingFits();
      WriteSlotIsFree();
      if f.lockOk {
        ret := WriteLocked(payload, f);
      } else {
        ret := -ERESTARTSYS;
      }
    }

    /** A write as its caller sees it. */
    method AesdWrite(payload: bytes, f: Faults) returns (ret: int)
      requires Valid() && |payload| <= MAX_RW_COUNT
      modifies this, heap, buffer, buffer.entry
      ensures Valid()
      ensures var w := Write(old(model), payload, f);
              && model == w.dev && ret == w.ret
              && accepted == (if w.stored then old(accepted) + [payload] else old(accepted))
      ensures GrowsBy(old(leaked), leaked, Leaks(old(aesdEntry), payload, f))
    {
      ghost var after := if Write(model, payload, f).stored then accepted + [payload] else accepted;
      WriteExtendsLog(model, accepted, payload, f, after);
      ret := WriteUnlessInterrupted(payload, f);
      Record(after);
    }

    method AesdRead(filp: File, count: nat, f: Faults) returns (ret: int, data: bytes)
      requires buffer.Valid() && model.ring == buffer.model && IsPosition(filp.fPos)
      modifies filp
      ensures Read(model, old(filp.fPos), count, f) == ReadReply(ret, data, filp.fPos)
    {
      if !f.lockOk {
        return -ERESTARTSYS, [];
      }
      var found := buffer.FindEntryOffset(ToSizeT(filp.fPos));
      if found.None? {
        return 0, [];
      }
      var (slot, off) := found.value;
      ghost var j := buffer.FoundEntry(ToSizeT(filp.fPos), slot, off);
      if !f.copyOk {
        return -EFAULT, [];
      }
      var entry := buffer.entry[slot];
      ret := AtMost(count, entry.size - off);
      data := entry.buffptr[off..off + ret];
      ReadOfPiece(model, filp.fPos, count, f, j, off, data);
      filp.fPos := filp.fPos + ret;
    }

    method AesdLlseek(filp: File, offset: int, whence: Whence, f: Faults) returns (ret: int)
      requires buffer.Valid() && model.ring == buffer.model && IsPosition(filp.fPos)
      modifies filp
      ensures Seek(model, old(filp.fPos), offset, whence, f) == SeekReply(ret, filp.fPos)
      ensures IsPosition(filp.fPos)
    {
      var newPos;
      match whence {
        case SeekSet => newPos := filp.fPos;
        case SeekCur => newPos := ToInt64(filp.fPos + offset);
        case SeekEnd =>
          if !f.lockOk {
            return -ERESTARTSYS;
          }
          var totalSize := buffer.SizeUpTo(buffer.inOffs);
          newPos := ToInt64(totalSize + offset);
        case Unknown => return -EINVAL;
      }
      if newPos < 0 {
        return -EINVAL;
      }
      filp.fPos := newPos;
      return newPos;
    }

    method AesdIoctl(filp: File, known: bool, cmd: nat, off: nat, f: Faults) returns (ret: int)
      requires buffer.Valid() && model.ring == buffer.model && IsPosition(filp.fPos)
      modifies filp
      ensures SeekTo(model, old(filp.fPos), known, cmd, off, f) == SeekReply(ret, filp.fPos)
      ensures IsPosition(filp.fPos)
    {
      if !known {
        return -ENOTTY;
      }
      if !f.copyOk {
        return -EFAULT;
      }
      if cmd >= SLOTS {
        return -EINVAL;
      }
      if !f.lockOk {
        return -ERESTARTSYS;
      }
      var totalSize := buffer.SizeUpTo(cmd);
      filp.fPos := ToUint32(totalSize + off);
      return -ENOMEM;
    }

    /** Unloading frees every slot's block, each once, and neither the pending block nor a leaked
        one. */
    method Cleanup()
      requires Valid()
      modifies heap
      ensures heap.live == PendingBlock() + leaked
    {
      var index := 0;
      ghost var entries := buffer.entry[..];
      while index < SLOTS
        invariant 0 <= index <= SLOTS && buffer.entry[..] == entries
        invariant heap.live == old(heap.live) - Pointers(entries[..index])
      {
        var entry := buffer.entry[index];
        PointersOfPrefix(entries, index);
        if entry.buffptr != null {
          heap.Kfree(entry.buffptr);
        }
        index := index + 1;
      }
      assert entries[..SLOTS] == entries;
    }
  }

  /** The slots that own a block are the first ones, until all do. */
  lemma OwningSlots(d: Device, k: nat)
    requires d.Valid() && k < SLOTS
    ensures d.buffer.entry[k].buffptr != null <==> k < |LastTen(FeedAll(d.accepted).history)|
  {
    var history := FeedAll(d.accepted).history;
    CommittedAreLines(d.accepted);
    assert forall i :: 0 <= i < |history| ==> IsLine(history[i]);
    OccupiedSlots(d.buffer.model, history, k);
    assert Stores(d.buffer.entry[..][k], d.buffer.model.slots[k]);
  }

  lemma SlotBlockCount(d: Device)
    requires d.Valid()
    ensures |d.buffer.Blocks()| == |LastTen(FeedAll(d.accepted).history)|
  {
    var entries, n := d.buffer.entry[..], |LastTen(FeedAll(d.accepted).history)|;
    forall k | 0 <= k < SLOTS
      ensures entries[k].buffptr != null <==> k < n
    {
      OwningSlots(d, k);
    }
    CountPointers(entries[..n]);
    NullsPointNowhere(entries, n);
  }

  lemma SumOfSizes<T>(all: set<T>, a: set<T>, b: set<T>, c: set<T>)
    requires all == a + b + c && a !! b && c !! a + b
    ensures |all| == |a| + |b| + |c|
  {
  }

  /** The live blocks of a device: one for each line in the ring, one if something is pending, and
      the leaked ones. So without leaks there are never more than eleven. */
  lemma LiveBlockCount(d: Device)
    requires d.Valid()
    ensures |d.heap.live| == |LastTen(FeedAll(d.accepted).history)|
                           + (if d.model.pending.Some? then 1 else 0) + |d.leaked|
    ensures |d.heap.live| <= SLOTS + 1 + |d.leaked|
  {
    SlotBlockCount(d);
    d.PendingMatches();
    assert |d.PendingBlock()| == if d.model.pending.Some? then 1 else 0;
    LiveParts(d);
    SumOfSizes(d.heap.live, d.buffer.Blocks(), d.PendingBlock(), d.leaked);
  }

  lemma LiveParts(d: Device)
    requires d.Valid()
    ensures d.heap.live == d.buffer.Blocks() + d.PendingBlock() + d.leaked
    ensures d.buffer.Blocks() !! d.PendingBlock() && d.leaked !! d.buffer.Blocks() + d.PendingBlock()
  {
  }

  /** Each leak adds one. */
  lemma LeakCount(s: set<array<byte>>, s': set<array<byte>>, one: bool)
    requires GrowsBy(s, s', one)
    ensures |s'| == |s| + if one then 1 else 0
  {
  }
}

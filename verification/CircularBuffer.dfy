/** The ring as the driver keeps it: an array of pointers to allocated blocks, updated in place. */
module CircularBuffers {
  import opened Machine
  import opened Lines
  import opened LineRing
  import opened Driver

  /** The kernel allocator. `live` is the set of blocks handed out and not yet freed. A request
      for 0 bytes yields a block of size 0. */
  class Heap {
    ghost var live: set<array<byte>>

    constructor ()
      ensures live == {}
    {
      live := {};
    }

    method Kmalloc(size: nat, f: Faults) returns (p: array?<byte>)
      modifies this
      ensures p == null <==> !Granted(size, f)
      ensures p == null ==> live == old(live)
      ensures p != null ==> fresh(p) && p.Length == size && live == old(live) + {p}
    {
      if Granted(size, f) {
        var block := new byte[size];
        live := live + {block};
        p := block;
      } else {
        p := null;
      }
    }

    /** Only a live block may be freed, so no block is freed twice. */
    method Kfree(p: array?<byte>)
      requires p != null ==> p in live
      modifies this
      ensures live == if p == null then old(live) else old(live) - {p}
    {
      if p != null {
        live := live - {p};
      }
    }
  }

  datatype BufferEntry = BufferEntry(buffptr: array?<byte>, size: nat)

  const NO_ENTRY := BufferEntry(null, 0)

  /** The entry owns a block holding exactly these bytes, or is NULL and empty. */
  ghost predicate Stores(e: BufferEntry, s: bytes)
    reads if e.buffptr == null then {} else {e.buffptr}
  {
    e.size == |s| && if e.buffptr == null then s == [] else e.buffptr[..] == s
  }

  ghost predicate AllStored(entries: seq<BufferEntry>, slots: seq<bytes>)
    reads Pointers(entries)
  {
    |entries| == |slots| && forall k :: 0 <= k < |entries| ==> Stores(entries[k], slots[k])
  }

  /** The blocks the entries point to. */
  ghost function Pointers(entries: seq<BufferEntry>): set<array<byte>>
  {
    set e | e in entries && e.buffptr != null :: e.buffptr
  }

  /** No two entries share a block. */
  ghost predicate Distinct(entries: seq<BufferEntry>)
  {
    forall k, l :: 0 <= k < l < |entries| && entries[k].buffptr != null ==> entries[k].buffptr != entries[l].buffptr
  }

  /** The blocks after entry i has been replaced. */
  lemma ReplacePointer(entries: seq<BufferEntry>, i: nat, e: BufferEntry)
    requires i < |entries| && Distinct(entries) && e.buffptr != null && e.buffptr !in Pointers(entries)
    ensures Distinct(entries[i := e])
    ensures Pointers(entries[i := e]) == Pointers(entries) - {entries[i].buffptr} + {e.buffptr}
  {
    var after := entries[i := e];
    forall b | b in Pointers(entries) - {entries[i].buffptr}
      ensures b in Pointers(after)
    {
      var k :| 0 <= k < |entries| && entries[k].buffptr == b;
      assert after[k] == entries[k];
    }
    assert after[i] == e;
    forall b | b in Pointers(after)
      ensures b in Pointers(entries) - {entries[i].buffptr} + {e.buffptr}
    {
      var k :| 0 <= k < |after| && after[k].buffptr == b;
      if k != i {
        assert entries[k] in entries;
      }
    }
    forall k, l | 0 <= k < l < |after| && after[k].buffptr != null
      ensures after[k].buffptr != after[l].buffptr
    {
      assert entries[k] in entries && entries[l] in entries;
    }
  }

  /** One entry more points to one block more, a new one, unless it is NULL. */
  lemma PointersOfPrefix(entries: seq<BufferEntry>, k: nat)
    requires k < |entries| && Distinct(entries)
    ensures Pointers(entries[..k + 1]) ==
            if entries[k].buffptr == null then Pointers(entries[..k]) else Pointers(entries[..k]) + {entries[k].buffptr}
    ensures entries[k].buffptr != null ==> entries[k].buffptr in Pointers(entries) - Pointers(entries[..k])
  {
    assert entries[..k + 1] == entries[..k] + [entries[k]];
    assert entries[k] in entries;
  }

  lemma OneMoreBlock(s: set<array<byte>>, s': set<array<byte>>, b: array<byte>)
    requires b !in s && s' == s + {b}
    ensures |s'| == |s| + 1
  {
  }

  lemma PointersSnoc(entries: seq<BufferEntry>, e: BufferEntry)
    requires e.buffptr != null && Distinct(entries + [e])
    ensures Distinct(entries)
    ensures e.buffptr !in Pointers(entries) && Pointers(entries + [e]) == Pointers(entries) + {e.buffptr}
  {
    var all, n := entries + [e], |entries|;
    PointersOfPrefix(all, n);
    assert all[..n] == entries && all[..n + 1] == all && all[n] == e;
    forall k, l | 0 <= k < l < n && entries[k].buffptr != null
      ensures entries[k].buffptr != entries[l].buffptr
    {
      assert all[k] == entries[k] && all[l] == entries[l];
    }
  }

  /** As many blocks as entries, when none of them is NULL. */
  lemma {:induction false} CountPointers(entries: seq<BufferEntry>)
    requires Distinct(entries) && forall k :: 0 <= k < |entries| ==> entries[k].buffptr != null
    ensures |Pointers(entries)| == |entries|
  {
    if entries == [] {
      assert Pointers(entries) == {};
    } else {
      var init, last := entries[..|entries| - 1], entries[|entries| - 1];
      assert entries == init + [last];
      PointersSnoc(init, last);
      CountPointers(init);
      OneMoreBlock(Pointers(init), Pointers(entries), last.buffptr);
    }
  }

  lemma NullsPointNowhere(entries: seq<BufferEntry>, n: nat)
    requires n <= |entries| && forall k :: n <= k < |entries| ==> entries[k].buffptr == null
    ensures Pointers(entries) == Pointers(entries[..n])
  {
    assert entries == entries[..n] + entries[n..];
  }

  lemma ReplaceStored(entries: seq<BufferEntry>, slots: seq<bytes>, i: nat, e: BufferEntry, s: bytes)
    requires i < |entries| && AllStored(entries, slots) && Stores(e, s)
    ensures AllStored(entries[i := e], slots[i := s])
  {
  }

  class CircularBuffer {
    const entry: array<BufferEntry>
    var inOffs: nat
    var outOffs: nat
    var full: bool

    ghost var model: Ring  // the ring these fields stand for

    ghost function Blocks(): set<array<byte>>
      reads this, entry
    {
      Pointers(entry[..])
    }

    ghost predicate Valid()
      reads this, entry, Blocks()
    {
      && entry.Length == SLOTS
      && WellFormed(model) && model.inOffs == inOffs && model.outOffs == outOffs && model.full == full
      && AllStored(entry[..], model.slots)
      && Distinct(entry[..])
    }

    constructor ()
      ensures Valid() && fresh(entry)
      ensures model == EMPTY && entry[..] == seq(SLOTS, _ => NO_ENTRY)
    {
      entry := new BufferEntry[SLOTS](_ => NO_ENTRY);
      inOffs, outOffs, full := 0, 0, false;
      model := EMPTY;
      new;
      assert entry[..] == seq(SLOTS, _ => NO_ENTRY);
    }

    /** The first half of adding an entry: when the ring is full the oldest block is freed and the
        read slot moves on. */
    method MakeRoom(heap: Heap)
      requires entry.Length == SLOTS && inOffs < SLOTS
      requires full && entry[inOffs].buffptr != null ==> entry[inOffs].buffptr in heap.live
      modifies this`outOffs, heap
      ensures outOffs == if full then (old(outOffs) + 1) % SLOTS else old(outOffs)
      ensures heap.live == if full then old(heap.live) - {entry[inOffs].buffptr} else old(heap.live)
    {
      if full {
        outOffs := (outOffs + 1) % SLOTS;
        var entryToDelete := entry[inOffs].buffptr;
        heap.Kfree(entryToDelete);
      }
    }

    /** Stores an entry in the write slot; when the ring is full the slot's old block is freed. */
    method AddEntry(heap: Heap, e: BufferEntry)
      requires Valid()
      requires e.buffptr != null && e.buffptr.Length == e.size && e.buffptr !in Blocks()
      requires full && entry[inOffs].buffptr != null ==> entry[inOffs].buffptr in heap.live
      modifies this, entry, heap
      ensures Valid()
      ensures model == Add(old(model), old(e.buffptr[..]))
      ensures entry[..] == old(entry[..])[old(inOffs) := e]
      ensures Blocks() == old(Blocks()) - {old(entry[inOffs].buffptr)} + {e.buffptr}
      ensures heap.live == if old(full) then old(heap.live) - {old(entry[inOffs].buffptr)} else old(heap.live)
    {
      ghost var entries, slots, line := entry[..], model.slots, e.buffptr[..];
      ReplacePointer(entries, inOffs, e);
      ReplaceStored(entries, slots, inOffs, e, line);
      model := Add(model, line);
      MakeRoom(heap);
      entry[inOffs] := e;
      assert entry[..] == entries[inOffs := e];
      if (inOffs + 1) % SLOTS == outOffs {
        full := true;
      }
      inOffs := (inOffs + 1) % SLOTS;
    }

    /** The entry that holds piece j of the reading order. */
    lemma EntryOfPiece(j: nat)
      requires Valid() && j < SLOTS
      ensures Stores(entry[SlotOf(model, j)], InOrder(model)[j])
    {
      assert Stores(entry[..][SlotOf(model, j)], InOrder(model)[j]);
    }

    lemma SizeOfPiece(j: nat, slot: nat)
      requires Valid() && j < SLOTS && slot == (outOffs + j) % SLOTS
      ensures slot == SlotOf(model, j) && entry[slot].size == |InOrder(model)[j]|
    {
      SlotOfIsModulo(model, j);
      EntryOfPiece(j);
    }

    /** The slot and offset of a byte position: what Search finds, at its physical place. */
    method FindEntryOffset(charOffset: int) returns (found: Option<(nat, nat)>)
      requires Valid()
      ensures found == Located(model, Search(InOrder(model), charOffset))
    {
      var currentOffset, i := 0, outOffs;
      ghost var pieces, j := InOrder(model), 0;
      ghost var goal := Located(model, Search(pieces, charOffset));
      found := None;
      while i < SLOTS + outOffs && found == None
        invariant 0 <= j <= SLOTS && i == outOffs + j
        invariant currentOffset == ToInt32(|Flatten(pieces[..j])|)
        invariant goal == if found == None then Located(model, SearchFrom(pieces, charOffset, j)) else found
        decreases SLOTS - j, found == None
      {
        var currentIndex := i % SLOTS;
        SizeOfPiece(j, currentIndex);
        var relative := ToSizeT(charOffset - currentOffset);
        SearchTurn(pieces, charOffset, j, currentOffset, relative);
        if relative < entry[currentIndex].size {
          found := Some((currentIndex, relative));
        } else {
          var next := ToInt32(currentOffset + entry[currentIndex].size);
          TotalSteps(pieces, j, currentOffset, entry[currentIndex].size, next);
          currentOffset, i, j := next, i + 1, j + 1;
        }
      }
    }

    /** A found entry has a block, and the offset is inside it. */
    lemma FoundEntry(pos: int, slot: nat, off: nat) returns (j: nat)
      requires Valid() && Located(model, Search(InOrder(model), pos)) == Some((slot, off))
      ensures slot < SLOTS && j < SLOTS && Search(InOrder(model), pos) == Some((j, off))
      ensures off < entry[slot].size == |InOrder(model)[j]|
      ensures entry[slot].buffptr != null && entry[slot].buffptr[..] == InOrder(model)[j]
    {
      j := Search(InOrder(model), pos).value.0;
      EntryOfPiece(j);
    }

    /** The loop that SEEK_END and the ioctl share: entry sizes from the read slot round to the
        slot to stop at, in an `int`. */
    method SizeUpTo(stop: nat) returns (total: int)
      requires Valid() && stop < SLOTS
      ensures total == ToInt32(BytesBefore(model, stop))
    {
      total := 0;
      var c := outOffs;
      ghost var pieces := InOrder(model);
      OrderSteps(model, c);
      while c != stop
        invariant 0 <= c < SLOTS && OrderOf(model, c) <= OrderOf(model, stop)
        invariant total == ToInt32(|Flatten(pieces[..OrderOf(model, c)])|)
        decreases OrderOf(model, stop) - OrderOf(model, c)
      {
        assert entry[..][c] == entry[c];
        OrderIsInjective(model, c, stop);
        OrderSteps(model, c);
        var next := ToInt32(total + entry[c].size);
        TotalSteps(pieces, OrderOf(model, c), total, entry[c].size, next);
        total, c := next, (c + 1) % SLOTS;
      }
    }
  }
}

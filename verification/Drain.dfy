/** Reading a device that nobody else touches until a read returns nothing. */
module Drain {
  import opened Lines
  import opened LineRing
  import opened CommitLog
  import opened Driver

  /** The chunks handed over by reads of at most `count` bytes, one after the other. */
  function Chunks(pieces: seq<bytes>, pos: int, count: nat): seq<bytes>
    requires Addressable(pieces, pos) && 0 < count
    decreases |Flatten(pieces)| - pos
  {
    var data := Chunk(pieces, pos, count);
    ChunkIsSlice(pieces, pos, count);
    if data == [] then [] else [data] + Chunks(pieces, pos + |data|, count)
  }

  function Rest(whole: bytes, pos: int): bytes
    requires 0 <= pos
  {
    if pos <= |whole| then whole[pos..] else []
  }

  lemma SliceThenRest(whole: bytes, lo: nat, hi: nat)
    requires lo <= hi <= |whole|
    ensures whole[lo..hi] + Rest(whole, hi) == Rest(whole, lo)
  {
  }

  /** A drain is complete: it hands over everything from the position on, and nothing twice. */
  lemma {:induction false} DrainIsComplete(pieces: seq<bytes>, pos: int, count: nat)
    requires Addressable(pieces, pos) && 0 < count
    ensures Flatten(Chunks(pieces, pos, count)) == Rest(Flatten(pieces), pos)
    decreases |Flatten(pieces)| - pos
  {
    var data, whole := Chunk(pieces, pos, count), Flatten(pieces);
    ChunkIsSlice(pieces, pos, count);
    if data == [] {
    } else {
      DrainIsComplete(pieces, pos + |data|, count);
      SliceThenRest(whole, pos, pos + |data|);
    }
  }

  /** Reads of at most `count` bytes that one entry of `size` bytes takes. */
  function Reads(size: nat, count: nat): nat
    requires 0 < count
  {
    if size == 0 then 0 else 1 + Reads(size - AtMost(count, size), count)
  }

  /** It is the size divided by the count, rounded up. */
  lemma {:induction false} ReadsIsCeiling(size: nat, count: nat)
    requires 0 < count
    ensures size <= Reads(size, count) * count < size + count
  {
    if size == 0 {
    } else {
      var n := AtMost(count, size);
      ReadsIsCeiling(size - n, count);
      OneMore(Reads(size - n, count), count);
    }
  }

  lemma OneMore(k: nat, d: nat)
    ensures (1 + k) * d == d + k * d
  {
  }

  function ReadsOfAll(pieces: seq<bytes>, count: nat): nat
    requires 0 < count
  {
    if pieces == [] then 0 else Reads(|pieces[0]|, count) + ReadsOfAll(pieces[1..], count)
  }

  /** Position of an offset in a piece, its end included. */
  function At(pieces: seq<bytes>, j: nat, off: nat): (pos: nat)
    requires j < |pieces| && off <= |pieces[j]|
    ensures pos <= |Flatten(pieces)|
  {
    FlattenAround(pieces, j);
    |Flatten(pieces[..j])| + off
  }

  /** One read inside a piece. */
  lemma DrainStep(pieces: seq<bytes>, j: nat, off: nat, count: nat, pos: nat)
    requires |Flatten(pieces)| < 0x8000_0000 && 0 < count
    requires j < |pieces| && off < |pieces[j]| && pos == At(pieces, j, off)
    ensures var n := AtMost(count, |pieces[j]| - off);
            pos + n <= |Flatten(pieces)| && |Chunks(pieces, pos, count)| == 1 + |Chunks(pieces, pos + n, count)|
  {
    SearchInvertsPosition(pieces, j, off);
    ChunkFound(pieces, pos, count, j, off);
  }

  /** The end of a piece is the start of the next. */
  lemma NextPiece(pieces: seq<bytes>, j: nat)
    requires j + 1 < |pieces|
    ensures At(pieces, j, |pieces[j]|) == At(pieces, j + 1, 0)
  {
    FlattenUpTo(pieces, j);
  }

  /** Nothing is left at the end of the last piece. */
  lemma DrainEnd(pieces: seq<bytes>, j: nat, count: nat)
    requires |Flatten(pieces)| < 0x8000_0000 && 0 < count
    requires j + 1 == |pieces|
    ensures Chunks(pieces, At(pieces, j, |pieces[j]|), count) == []
  {
    FlattenUpTo(pieces, j);
    assert pieces[..j + 1] == pieces;
    ChunkIsSlice(pieces, |Flatten(pieces)|, count);
  }

  /** Reads needed from an offset in piece j to the end of the last piece. */
  function CostFrom(pieces: seq<bytes>, j: nat, off: nat, count: nat): nat
    requires 0 < count && j < |pieces| && off <= |pieces[j]|
  {
    Reads(|pieces[j]| - off, count) + ReadsOfAll(pieces[j + 1..], count)
  }

  lemma CostSteps(pieces: seq<bytes>, j: nat, off: nat, count: nat)
    requires 0 < count && j < |pieces| && off <= |pieces[j]|
    ensures off < |pieces[j]| ==>
              CostFrom(pieces, j, off, count) == 1 + CostFrom(pieces, j, off + AtMost(count, |pieces[j]| - off), count)
    ensures off == |pieces[j]| ==>
              CostFrom(pieces, j, off, count) == if j + 1 < |pieces| then CostFrom(pieces, j + 1, 0, count) else 0
  {
    if j + 1 < |pieces| {
      assert pieces[j + 1..][1..] == pieces[j + 2..];
    }
  }

  lemma {:induction false} DrainCostFrom(pieces: seq<bytes>, j: nat, off: nat, count: nat)
    requires |Flatten(pieces)| < 0x8000_0000 && 0 < count
    requires j < |pieces| && off <= |pieces[j]|
    ensures |Chunks(pieces, At(pieces, j, off), count)| == CostFrom(pieces, j, off, count)
    decreases |pieces| - j, |pieces[j]| - off
  {
    CostSteps(pieces, j, off, count);
    if off < |pieces[j]| {
      DrainStep(pieces, j, off, count, At(pieces, j, off));
      DrainCostFrom(pieces, j, off + AtMost(count, |pieces[j]| - off), count);
    } else if j + 1 < |pieces| {
      NextPiece(pieces, j);
      DrainCostFrom(pieces, j + 1, 0, count);
    } else {
      DrainEnd(pieces, j, count);
    }
  }

  /** The exact cost of a drain from the start: each entry takes the reads its own size needs,
      since no read crosses into the next entry. */
  lemma DrainCost(pieces: seq<bytes>, count: nat)
    requires |Flatten(pieces)| < 0x8000_0000 && 0 < count && pieces != []
    ensures |Chunks(pieces, 0, count)| == ReadsOfAll(pieces, count)
  {
    assert At(pieces, 0, 0) == 0;
    DrainCostFrom(pieces, 0, 0, count);
  }

  /** SEEK_END with offset 0: the end of the content until the ring is full, then its start. */
  lemma SeekEndTarget(d: Dev, log: Log, pos: int, seen: bytes)
    requires Tracks(d, log) && IsPosition(pos) && seen == Flatten(LastTen(log.history))
    ensures Seek(d, pos, 0, SeekEnd, NO_FAULTS).pos == if |log.history| < SLOTS then |seen| else 0
    ensures Content(d.ring) == seen && |seen| < 0x8000_0000
  {
    ContentFitsInt(d, log);
    SeekEndIsExact(d, log, pos, 0, NO_FAULTS);
  }

  /** SEEK_END back over everything: accepted, at 0, only until the ring is full. */
  lemma SeekBackTarget(d: Dev, log: Log, pos: int, back: int)
    requires Tracks(d, log) && IsPosition(pos) && back == -|Flatten(LastTen(log.history))|
    requires forall i :: 0 <= i < |log.history| ==> IsLine(log.history[i])
    ensures Seek(d, pos, back, SeekEnd, NO_FAULTS) == SeekReply(0, 0) <==> |log.history| < SLOTS
  {
    ContentFitsInt(d, log);
    SeekEndIsExact(d, log, pos, back, NO_FAULTS);
    if SLOTS <= |log.history| {
      LinesAreNotEmpty(LastTen(log.history));
    }
  }

  /** Reading from either end of the content: everything from its start, nothing from its end. */
  lemma DrainFromEnds(pieces: seq<bytes>, seen: bytes, count: nat)
    requires seen == Flatten(pieces) && |seen| < 0x8000_0000 && 0 < count
    ensures Flatten(Chunks(pieces, 0, count)) == seen
    ensures Flatten(Chunks(pieces, |seen|, count)) == []
  {
    DrainIsComplete(pieces, 0, count);
    DrainIsComplete(pieces, |seen|, count);
  }

  /** Seeking to the end and reading: end of file until the ring is full, the whole content from
      then on. */
  lemma SeekEndThenDrain(d: Dev, log: Log, pos: int, count: nat, pieces: seq<bytes>, end: int)
    requires Tracks(d, log) && IsPosition(pos) && 0 < count
    requires pieces == InOrder(d.ring) && end == Seek(d, pos, 0, SeekEnd, NO_FAULTS).pos
    ensures Addressable(pieces, end)
    ensures Flatten(Chunks(pieces, end, count)) == if |log.history| < SLOTS then [] else Flatten(LastTen(log.history))
  {
    var seen := Flatten(LastTen(log.history));
    SeekEndTarget(d, log, pos, seen);
    DrainFromEnds(pieces, seen, count);
  }

  /** Seeking back over everything and reading gives everything, as long as the seek is accepted,
      which it is only until the ring is full. */
  lemma SeekBackThenDrain(d: Dev, log: Log, pos: int, count: nat, pieces: seq<bytes>, back: int)
    requires Tracks(d, log) && IsPosition(pos) && 0 < count
    requires forall i :: 0 <= i < |log.history| ==> IsLine(log.history[i])
    requires pieces == InOrder(d.ring) && back == -|Flatten(LastTen(log.history))|
    ensures Seek(d, pos, back, SeekEnd, NO_FAULTS) == SeekReply(0, 0) <==> |log.history| < SLOTS
    ensures Addressable(pieces, 0) && Flatten(Chunks(pieces, 0, count)) == Flatten(LastTen(log.history))
  {
    SeekBackTarget(d, log, pos, back);
    ContentFitsInt(d, log);
    DrainFromEnds(pieces, Flatten(pieces), count);
  }

  lemma LinesAreNotEmpty(lines: seq<bytes>)
    requires lines != [] && IsLine(lines[0])
    ensures Flatten(lines) != []
  {
  }
}

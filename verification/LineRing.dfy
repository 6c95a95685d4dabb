/** The ten-slot ring of committed lines as a value: what it stores, how a line is added,
    and how a byte position is found in it. */
module LineRing {
  import opened Machine
  import opened Lines

  const SLOTS := 10

  /** `slots[k]` is the content of physical slot k, empty while the slot was never written. */
  datatype Ring = Ring(slots: seq<bytes>, inOffs: nat, outOffs: nat, full: bool)

  predicate WellFormed(r: Ring)
  {
    |r.slots| == SLOTS && r.inOffs < SLOTS && r.outOffs < SLOTS
  }

  const EMPTY := Ring([[], [], [], [], [], [], [], [], [], []], 0, 0, false)

  /** All ten slots in reading order, from outOffs round to the slot before it. */
  function InOrder(r: Ring): (pieces: seq<bytes>)
    requires WellFormed(r)
    ensures |pieces| == SLOTS
  {
    r.slots[r.outOffs..] + r.slots[..r.outOffs]
  }

  /** The physical slot of piece j of the reading order: the j-th one round from outOffs. */
  function SlotOf(r: Ring, j: nat): (slot: nat)
    requires WellFormed(r) && j < SLOTS
    ensures slot < SLOTS && InOrder(r)[j] == r.slots[slot]
  {
    if r.outOffs + j < SLOTS then r.outOffs + j else r.outOffs + j - SLOTS
  }

  lemma SlotOfIsModulo(r: Ring, j: nat)
    requires WellFormed(r) && j < SLOTS
    ensures SlotOf(r, j) == (r.outOffs + j) % SLOTS
  {
  }

  /** The byte string a reader of the device sees. */
  function Content(r: Ring): bytes
    requires WellFormed(r)
  {
    Flatten(InOrder(r))
  }

  function Add(r: Ring, line: bytes): (r': Ring)
    requires WellFormed(r)
    ensures WellFormed(r')
  {
    var out := if r.full then (r.outOffs + 1) % SLOTS else r.outOffs;
    var next := (r.inOffs + 1) % SLOTS;
    Ring(r.slots[r.inOffs := line], next, out, r.full || next == out)
  }

  /** The view of a history: its newest ten lines, oldest first. */
  function LastTen(history: seq<bytes>): (view: seq<bytes>)
    ensures |view| == if |history| < SLOTS then |history| else SLOTS
  {
    if |history| < SLOTS then history else history[|history| - SLOTS..]
  }

  function Blank(n: nat): (pieces: seq<bytes>)
    ensures |pieces| == n && forall i :: 0 <= i < n ==> pieces[i] == []
  {
    seq(n, _ => [])
  }

  /** The ring holds exactly the newest ten lines of a history of any length, and its three
      control fields are functions of the number of lines. */
  predicate Represents(r: Ring, history: seq<bytes>)
  {
    && WellFormed(r)
    && r.inOffs == |history| % SLOTS
    && (r.full <==> SLOTS <= |history|)
    && r.outOffs == (if r.full then r.inOffs else 0)
    && InOrder(r) == LastTen(history) + Blank(SLOTS - |LastTen(history)|)
  }

  function AddAll(r: Ring, lines: seq<bytes>): (r': Ring)
    requires WellFormed(r)
    ensures WellFormed(r')
  {
    if lines == [] then r else Add(AddAll(r, lines[..|lines| - 1]), lines[|lines| - 1])
  }

  lemma RotationSteps(slots: seq<bytes>, o: nat, line: bytes)
    requires o < |slots|
    ensures (slots[o..] + slots[..o])[1..] + [line] == slots[o + 1..] + (slots[..o] + [line])
    ensures slots[o := line][o + 1..] == slots[o + 1..]
    ensures slots[o := line][..o + 1] == slots[..o] + [line]
  {
  }

  /** Overwriting the oldest slot of a full ring drops the first piece and appends the new one. */
  lemma AddRotates(r: Ring, line: bytes)
    requires WellFormed(r) && r.full && r.outOffs == r.inOffs
    ensures InOrder(Add(r, line)) == InOrder(r)[1..] + [line]
  {
    var o, after := r.outOffs, r.slots[r.outOffs := line];
    RotationSteps(r.slots, o, line);
    if o + 1 == SLOTS {
      assert InOrder(Add(r, line)) == after[0..] + after[..0] == after[..o + 1];
    } else {
      assert InOrder(Add(r, line)) == after[o + 1..] + after[..o + 1];
    }
  }

  /** While the ring is not full a new line takes the place of the first blank. */
  lemma AddFillsBlank(r: Ring, history: seq<bytes>, line: bytes)
    requires WellFormed(r) && |history| < SLOTS && r.inOffs == |history| && r.outOffs == 0
    requires InOrder(r) == history + Blank(SLOTS - |history|)
    ensures Add(r, line).slots == history + [line] + Blank(SLOTS - |history| - 1)
  {
    assert InOrder(r) == r.slots;
  }

  lemma ViewSlides(history: seq<bytes>, line: bytes)
    requires SLOTS <= |history|
    ensures LastTen(history + [line]) == LastTen(history)[1..] + [line]
  {
  }

  lemma FullView(history: seq<bytes>)
    requires SLOTS <= |history|
    ensures LastTen(history) + Blank(SLOTS - |LastTen(history)|) == LastTen(history)
  {
  }

  lemma NextOffset(n: nat)
    ensures (n % SLOTS + 1) % SLOTS == (n + 1) % SLOTS
  {
  }

  /** The control fields of a full ring after one more line. */
  lemma AddMovesBoth(r: Ring, history: seq<bytes>, line: bytes)
    requires Represents(r, history) && r.full
    ensures var r' := Add(r, line); r'.full && r'.inOffs == |history + [line]| % SLOTS && r'.outOffs == r'.inOffs
  {
    NextOffset(|history|);
  }

  lemma AddToFull(r: Ring, history: seq<bytes>, line: bytes)
    requires Represents(r, history) && r.full
    ensures Represents(Add(r, line), history + [line])
  {
    AddMovesBoth(r, history, line);
    AddRotates(r, line);
    FullView(history);
    ViewSlides(history, line);
    FullView(history + [line]);
  }

  /** The control fields of a ring that is not full after one more line. */
  lemma AddMovesIn(r: Ring, history: seq<bytes>, line: bytes)
    requires Represents(r, history) && !r.full
    ensures var r', n := Add(r, line), |history| + 1;
            r'.inOffs == n % SLOTS && r'.outOffs == 0 && (r'.full <==> n == SLOTS)
  {
  }

  /** The reading order of a ring that is not full after one more line. */
  lemma AddExtendsOrder(r: Ring, history: seq<bytes>, line: bytes)
    requires Represents(r, history) && !r.full
    ensures InOrder(Add(r, line)) == history + [line] + Blank(SLOTS - |history| - 1)
  {
    assert LastTen(history) == history;
    AddFillsBlank(r, history, line);
    AddMovesIn(r, history, line);
    assert InOrder(Add(r, line)) == Add(r, line).slots;
  }

  lemma AddToPartial(r: Ring, history: seq<bytes>, line: bytes)
    requires Represents(r, history) && !r.full
    ensures Represents(Add(r, line), history + [line])
  {
    AddMovesIn(r, history, line);
    AddExtendsOrder(r, history, line);
    assert LastTen(history + [line]) == history + [line];
  }

  lemma AddRefinesAppend(r: Ring, history: seq<bytes>, line: bytes)
    requires Represents(r, history)
    ensures Represents(Add(r, line), history + [line])
  {
    if r.full { AddToFull(r, history, line); } else { AddToPartial(r, history, line); }
  }

  /** The ring refines a bounded history, after any number of commits. */
  lemma {:induction false} RingRefinesHistory(history: seq<bytes>)
    ensures Represents(AddAll(EMPTY, history), history)
  {
    if history == [] {
      assert InOrder(EMPTY) == EMPTY.slots == LastTen(history) + Blank(SLOTS);
    } else {
      var init, last := history[..|history| - 1], history[|history| - 1];
      RingRefinesHistory(init);
      AddRefinesAppend(AddAll(EMPTY, init), init, last);
      assert history == init + [last];
    }
  }

  /** When the ring is full the slot that Add overwrites holds the oldest line it stores, and
      the nine other lines keep their slots; when it is not full the slot was never written. */
  lemma AddEvictsOldest(r: Ring, history: seq<bytes>, line: bytes)
    requires Represents(r, history)
    ensures r.slots[r.inOffs] == if r.full then history[|history| - SLOTS] else []
    ensures forall k :: 0 <= k < SLOTS && k != r.inOffs ==> Add(r, line).slots[k] == r.slots[k]
  {
    if r.full {
      assert InOrder(r)[0] == r.slots[SlotOf(r, 0)];
    } else {
      assert InOrder(r)[|history|] == r.slots[SlotOf(r, |history|)];
    }
  }

  /** What the reader sees of a represented ring. */
  lemma ContentIsLastTen(r: Ring, history: seq<bytes>)
    requires Represents(r, history)
    ensures Content(r) == Flatten(LastTen(history))
  {
    var view := LastTen(history);
    FlattenConcat(view, Blank(SLOTS - |view|));
    FlattenOfEmpties(Blank(SLOTS - |view|));
  }

  /** The step of the search loop at ring-order index j, in machine arithmetic: an `int`
      running total subtracted from a `size_t` position. */
  function RelativeOffset(pieces: seq<bytes>, pos: int, j: nat): int
    requires j <= |pieces|
  {
    ToSizeT(pos - ToInt32(|Flatten(pieces[..j])|))
  }

  /** The first piece from j on whose relative offset is below its size. */
  function SearchFrom(pieces: seq<bytes>, pos: int, j: nat): (hit: Option<(nat, nat)>)
    requires j <= |pieces|
    ensures hit.Some? ==> hit.value.0 < |pieces| && hit.value.1 < |pieces[hit.value.0]|
    decreases |pieces| - j
  {
    if j == |pieces| then None
    else
      var rel := RelativeOffset(pieces, pos, j);
      if rel < |pieces[j]| then Some((j, rel)) else SearchFrom(pieces, pos, j + 1)
  }

  /** One turn of the search loop, with the running total in an `int`. */
  lemma SearchTurn(pieces: seq<bytes>, pos: int, j: nat, total: int, rel: nat)
    requires j < |pieces| && total == ToInt32(|Flatten(pieces[..j])|) && rel == ToSizeT(pos - total)
    ensures SearchFrom(pieces, pos, j) == if rel < |pieces[j]| then Some((j, rel)) else SearchFrom(pieces, pos, j + 1)
  {
  }

  function Search(pieces: seq<bytes>, pos: int): (hit: Option<(nat, nat)>)
    ensures hit.Some? ==> hit.value.0 < |pieces| && hit.value.1 < |pieces[hit.value.0]|
  {
    SearchFrom(pieces, pos, 0)
  }

  /** The physical slot of what a search in reading order has found. */
  function Located(r: Ring, hit: Option<(nat, nat)>): Option<(nat, nat)>
    requires WellFormed(r) && (hit.Some? ==> hit.value.0 < SLOTS)
  {
    if hit.None? then None else Some((SlotOf(r, hit.value.0), hit.value.1))
  }

  /** Everything fits an `int`, and the position is a non-negative `loff_t`. */
  predicate Addressable(pieces: seq<bytes>, pos: int)
  {
    |Flatten(pieces)| < 0x8000_0000 && 0 <= pos < 0x8000_0000_0000_0000
  }

  lemma {:induction false} SearchFromIsIndexing(pieces: seq<bytes>, pos: int, j: nat)
    requires j <= |pieces| && Addressable(pieces, pos)
    requires |Flatten(pieces[..j])| <= pos
    ensures SearchFrom(pieces, pos, j).None? <==> |Flatten(pieces)| <= pos
    ensures match SearchFrom(pieces, pos, j)
            case None => true
            case Some(hit) =>
              && pos == |Flatten(pieces[..hit.0])| + hit.1
              && pieces[hit.0][hit.1] == Flatten(pieces)[pos]
    decreases |pieces| - j
  {
    FlattenPrefix(pieces, j);
    if j == |pieces| {
      assert pieces[..j] == pieces;
    } else {
      FlattenAround(pieces, j);
      var rel := pos - |Flatten(pieces[..j])|;
      assert RelativeOffset(pieces, pos, j) == rel;
      if rel >= |pieces[j]| {
        SearchFromIsIndexing(pieces, pos, j + 1);
      }
    }
  }

  /** The position search is indexing of the concatenation: it fails exactly at and past the
      end, and otherwise names the byte the reader sees there. */
  lemma SearchIsIndexing(pieces: seq<bytes>, pos: int)
    requires Addressable(pieces, pos)
    ensures Search(pieces, pos).None? <==> |Flatten(pieces)| <= pos
    ensures match Search(pieces, pos)
            case None => true
            case Some(hit) =>
              && pos == |Flatten(pieces[..hit.0])| + hit.1
              && pieces[hit.0][hit.1] == Flatten(pieces)[pos]
  {
    SearchFromIsIndexing(pieces, pos, 0);
  }

  /** The search undoes the computation of a position from a piece and an offset in it. */
  lemma SearchInvertsPosition(pieces: seq<bytes>, j: nat, off: nat)
    requires |Flatten(pieces)| < 0x8000_0000
    requires j < |pieces| && off < |pieces[j]|
    ensures Search(pieces, |Flatten(pieces[..j])| + off) == Some((j, off))
  {
    var pos := |Flatten(pieces[..j])| + off;
    PieceEndsBefore(pieces, j, |pieces|);
    assert pieces[..|pieces|] == pieces;
    SearchIsIndexing(pieces, pos);
    var i := Search(pieces, pos).value.0;
    if i < j {
      PieceEndsBefore(pieces, i, j);
    } else if j < i {
      PieceEndsBefore(pieces, j, i);
    }
  }

  /** A piece ends no later than any piece after it begins. */
  lemma PieceEndsBefore(pieces: seq<bytes>, i: nat, j: nat)
    requires i < j <= |pieces|
    ensures |Flatten(pieces[..i])| + |pieces[i]| <= |Flatten(pieces[..j])|
  {
    FlattenAround(pieces[..j], i);
    assert pieces[..j][..i] == pieces[..i];
  }

  lemma PrefixesGrow(pieces: seq<bytes>, i: nat, j: nat)
    requires i <= j <= |pieces|
    ensures |Flatten(pieces[..i])| <= |Flatten(pieces[..j])| <= |Flatten(pieces)|
  {
    FlattenPrefix(pieces[..j], i);
    assert pieces[..j][..i] == pieces[..i];
    FlattenPrefix(pieces, j);
  }

  /** Ring-order index of a physical slot. */
  function OrderOf(r: Ring, slot: nat): (j: nat)
    requires WellFormed(r) && slot < SLOTS
    ensures j < SLOTS && InOrder(r)[j] == r.slots[slot]
  {
    if r.outOffs <= slot then slot - r.outOffs else slot + SLOTS - r.outOffs
  }

  /** Bytes stored in ring order before a physical slot. */
  function BytesBefore(r: Ring, slot: nat): nat
    requires WellFormed(r) && slot < SLOTS
  {
    |Flatten(InOrder(r)[..OrderOf(r, slot)])|
  }

  /** Going on one slot goes on one piece, until the last. */
  lemma OrderSteps(r: Ring, slot: nat)
    requires WellFormed(r) && slot < SLOTS
    ensures OrderOf(r, slot) + 1 < SLOTS ==> OrderOf(r, (slot + 1) % SLOTS) == OrderOf(r, slot) + 1
    ensures OrderOf(r, r.outOffs) == 0
  {
  }

  lemma OrderIsInjective(r: Ring, a: nat, b: nat)
    requires WellFormed(r) && a < SLOTS && b < SLOTS
    ensures OrderOf(r, a) == OrderOf(r, b) <==> a == b
  {
  }

  /** An `int` running total goes on exactly. */
  lemma TotalSteps(pieces: seq<bytes>, j: nat, total: int, size: nat, next: int)
    requires j < |pieces| && total == ToInt32(|Flatten(pieces[..j])|)
    requires size == |pieces[j]| && next == ToInt32(total + size)
    ensures next == ToInt32(|Flatten(pieces[..j + 1])|)
  {
    FlattenUpTo(pieces, j);
    Int32Accumulates(|Flatten(pieces[..j])|, size);
  }

  /** The slots that hold a line are the first ones, until all do. */
  lemma OccupiedSlots(r: Ring, history: seq<bytes>, k: nat)
    requires Represents(r, history) && k < SLOTS
    requires forall i :: 0 <= i < |history| ==> history[i] != []
    ensures r.slots[k] != [] <==> k < |LastTen(history)|
  {
    var view, j := LastTen(history), OrderOf(r, k);
    assert InOrder(r)[j] == (view + Blank(SLOTS - |view|))[j];
    if j < |view| {
      assert view[j] in history;
    }
  }
}

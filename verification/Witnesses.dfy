/** Concrete runs after which the driver does not do what its interface suggests. The exact
    conditions are in CommitLog, Driver and DeviceRuns. */
module Witnesses {
  import opened Machine
  import opened Lines
  import opened LineRing
  import opened CommitLog
  import opened Driver
  import opened Runs
  import opened Interface
  import opened DeviceRuns

  const EMPTY_LINE: bytes := [10]

  const A: byte := 97

  /** What the first stored payload does. */
  lemma FeedFirst(payload: bytes, log: Log)
    requires log == FeedAll([payload])
    ensures log == Feed(NOTHING, payload)
  {
    FeedAllSnoc([], payload);
    assert [] + [payload] == [payload];
  }

  /** The first write after an open. */
  lemma FirstWrite(payload: bytes, f: Faults)
    requires payload != [] && |payload| <= MAX_BLOCK
    ensures var w := Run([Open(0), WriteCall(0, payload, f)]);
            && w == Apply(Run([Open(0)]), WriteCall(0, payload, f))
            && w.dev == Write(FRESH, payload, f).dev && w.pos == map[0 := 0]
            && w.accepted == if f == NO_FAULTS then [payload] else []
  {
    var events := [Open(0), WriteCall(0, payload, f)];
    assert events[..1] == [Open(0)] && [Open(0)][..0] == [];
    assert Run([Open(0)]) == Apply(BOOT, Open(0));
    assert Passed(payload) == payload;
    assert Run(events) == Apply(Run(events[..1]), events[1]);
  }

  /** One write of an empty line and a letter commits nothing, although its stream has a line. */
  lemma InnerNewlineIsNotCommitted()
    ensures var w := Run([Open(0), WriteCall(0, [10, A], NO_FAULTS)]);
            w.accepted == [[10, A]] && LogOf(w) == Log([], [10, A]) && Content(w.dev.ring) == []
    ensures CompleteLines(Flatten([[10, A]])) == [EMPTY_LINE] && Tail(Flatten([[10, A]])) == [A]
  {
    var payload: bytes := [10, A];
    var w := Run([Open(0), WriteCall(0, payload, NO_FAULTS)]);
    assert payload[..1] == EMPTY_LINE;
    FirstWrite(payload, NO_FAULTS);
    FeedFirst(payload, LogOf(w));
    assert [] + payload == payload;
    RunRefinesLog([Open(0), WriteCall(0, payload, NO_FAULTS)]);
    ContentIsLastTen(w.dev.ring, []);
    InnerNewlineSplit();
  }

  lemma InnerNewlineSplit()
    ensures CompleteLines(Flatten([[10, A]])) == [EMPTY_LINE] && Tail(Flatten([[10, A]])) == [A]
  {
    FlattenSnoc([], [10, A]);
    FlattenSnoc([], EMPTY_LINE);
    SplitIsUnique([EMPTY_LINE], [A]);
    assert EMPTY_LINE + [A] == [10, A];
  }

  lemma SecondLetterLeaks(w: World, e: Event)
    requires w.dev == Dev(EMPTY, Some([A])) && 0 in w.pos && e == WriteCall(0, [A], Faults(true, true, false))
    ensures FailsToAppend(w, e)
  {
    assert Passed([A]) == [A];
  }

  /** Two writes of a letter, the second with a user copy that fails: one block leaks. */
  lemma FailedAppendLeaks(events: seq<Event>)
    requires events == [Open(0), WriteCall(0, [A], NO_FAULTS), WriteCall(0, [A], Faults(true, true, false))]
    ensures AppendCopyFailures(events) == 1
  {
    var before := Run(events[..2]);
    FirstWrite([A], NO_FAULTS);
    LetterStaysPending();
    assert events[..2] == [Open(0), events[1]] && events[..3] == events && events[..0] == [];
    SecondLetterLeaks(before, events[2]);
    FailuresStep(events, 0, Run(events[..0]));
    FailuresStep(events, 1, Run(events[..1]));
    FailuresStep(events, 2, before);
  }

  lemma LetterStaysPending()
    ensures Write(FRESH, [A], NO_FAULTS).dev == Dev(EMPTY, Some([A]))
  {
    assert NEWLINE !in [A];
  }

  /** The device after n empty lines. */
  function AfterEmptyLines(n: nat): Dev
  {
    Dev(AddAll(EMPTY, Repeat(n)), None)
  }

  function Repeat(n: nat): (lines: seq<bytes>)
    ensures |lines| == n && forall i :: 0 <= i < n ==> lines[i] == EMPTY_LINE
  {
    seq(n, _ => EMPTY_LINE)
  }

  lemma EmptyLinesAreTracked(n: nat)
    ensures Tracks(AfterEmptyLines(n), Log(Repeat(n), []))
  {
    var ring, view := AddAll(EMPTY, Repeat(n)), LastTen(Repeat(n));
    RingRefinesHistory(Repeat(n));
    forall k | 0 <= k < SLOTS
      ensures |ring.slots[k]| <= 1
    {
      assert ring.slots[k] == (view + Blank(SLOTS - |view|))[OrderOf(ring, k)];
    }
  }

  lemma {:induction false} EmptyLinesHoldOneByteEach(lines: seq<bytes>)
    requires forall i :: 0 <= i < |lines| ==> lines[i] == EMPTY_LINE
    ensures |Flatten(lines)| == |lines|
  {
    if lines == [] {
    } else {
      EmptyLinesHoldOneByteEach(lines[1..]);
    }
  }

  /** An open and n writes of an empty line. */
  function EmptyLineCalls(n: nat): (events: seq<Event>)
    ensures |events| == n + 1
  {
    [Open(0)] + seq(n, _ => WriteCall(0, EMPTY_LINE, NO_FAULTS))
  }

  lemma EmptyLineIsCommitted(n: nat)
    ensures Write(AfterEmptyLines(n), EMPTY_LINE, NO_FAULTS) == WriteReply(AfterEmptyLines(n + 1), -ENOMEM, true)
  {
    assert Repeat(n + 1)[..n] == Repeat(n);
    CommitTestIsIsLine(EMPTY_LINE);
  }

  lemma NextEmptyLine(n: nat)
    ensures Run(EmptyLineCalls(n + 1)) == Apply(Run(EmptyLineCalls(n)), WriteCall(0, EMPTY_LINE, NO_FAULTS))
  {
    assert EmptyLineCalls(n + 1)[..n + 1] == EmptyLineCalls(n);
  }

  /** These calls lead to that state. */
  lemma {:induction false} EmptyLinesAreReached(n: nat)
    ensures Run(EmptyLineCalls(n)).dev == AfterEmptyLines(n) && Run(EmptyLineCalls(n)).pos == map[0 := 0]
  {
    if n == 0 {
      assert EmptyLineCalls(0) == [Open(0)] && [Open(0)][..0] == [];
      assert Run([Open(0)]) == Apply(BOOT, Open(0));
    } else {
      EmptyLinesAreReached(n - 1);
      NextEmptyLine(n - 1);
      EmptyLineIsCommitted(n - 1);
      assert Passed(EMPTY_LINE) == EMPTY_LINE;
    }
  }

  /** SEEK_SET to 5 on a fresh file stays at 0. */
  lemma SeekSetIgnoresOffset()
    ensures Run([Open(0), SeekCall(0, 5, SeekSet, NO_FAULTS)]).pos == map[0 := 0]
    ensures Seek(FRESH, 0, 5, SeekSet, NO_FAULTS) == SeekReply(0, 0)
  {
    var events := [Open(0), SeekCall(0, 5, SeekSet, NO_FAULTS)];
    assert events[..1] == [Open(0)] && [Open(0)][..0] == [];
    assert Run([Open(0)]) == Apply(BOOT, Open(0));
  }

  /** After ten empty lines the data is ten bytes long and SEEK_END goes to 0. */
  lemma SeekEndGoesToStart()
    ensures var w := Run(EmptyLineCalls(10));
            && |Content(w.dev.ring)| == 10
            && 0 in w.pos && Seek(w.dev, w.pos[0], 0, SeekEnd, NO_FAULTS) == SeekReply(0, 0)
  {
    EmptyLinesAreReached(10);
    EmptyLinesAreTracked(10);
    ContentIsLastTen(AfterEmptyLines(10).ring, Repeat(10));
    EmptyLinesHoldOneByteEach(LastTen(Repeat(10)));
    SeekEndIsExact(AfterEmptyLines(10), Log(Repeat(10), []), 0, 0, NO_FAULTS);
  }

  lemma EmptyLineTarget(lines: seq<bytes>, slot: nat)
    requires slot < SLOTS && forall i :: 0 <= i < |lines| ==> lines[i] == EMPTY_LINE
    ensures SeekTarget(lines, slot, 0) == |FirstLines(LastTen(lines), SlotIndex(lines, slot))|
  {
    EmptyLinesHoldOneByteEach(FirstLines(LastTen(lines), SlotIndex(lines, slot)));
  }

  /** After eleven empty lines write command 0 is the newest line, at position 9, not the oldest. */
  lemma CommandZeroIsNewest(n: nat)
    requires n == 11
    ensures var w := Run(EmptyLineCalls(n));
            0 in w.pos && SeekTo(w.dev, w.pos[0], true, 0, 0, NO_FAULTS) == SeekReply(-ENOMEM, 9)
    ensures IntendedTarget(Repeat(n), 0, 0) == 0
  {
    EmptyLinesAreReached(n);
    EmptyLinesAreTracked(n);
    SeekToIsExact(AfterEmptyLines(n), Log(Repeat(n), []), 0, 0, 0);
    EmptyLineTarget(Repeat(n), 0);
  }

  /** The error numbers callers see. */
  lemma ErrorNumbers(f: Faults)
    ensures Write(FRESH, EMPTY_LINE, NO_FAULTS).ret == -12
    ensures Seek(FRESH, 0, 0, Unknown, f) == SeekReply(-22, 0) && Seek(FRESH, 0, -1, SeekCur, f) == SeekReply(-22, 0)
    ensures SeekTo(FRESH, 0, false, 0, 0, f) == SeekReply(-25, 0)
    ensures SeekTo(FRESH, 0, true, 10, 0, NO_FAULTS) == SeekReply(-22, 0)
    ensures !f.copyOk ==> SeekTo(FRESH, 0, true, 0, 0, f) == SeekReply(-14, 0)
    ensures !f.lockOk ==> Write(FRESH, EMPTY_LINE, f).ret == Read(FRESH, 0, 1, f).ret == -512
  {
  }

  lemma EndOfOneLine(n: nat, d: Dev)
    requires n == 1 && d == AfterEmptyLines(n)
    ensures Seek(d, 0, 0, SeekEnd, NO_FAULTS) == SeekReply(1, 1)
  {
    EmptyLinesAreTracked(n);
    EmptyLinesHoldOneByteEach(LastTen(Repeat(n)));
    SeekEndIsExact(d, Log(Repeat(n), []), 0, 0, NO_FAULTS);
  }

  lemma SeekMoves(w: World, e: Event)
    requires WellFormed(w.dev.ring) && e.SeekCall? && e.fd in w.pos
    ensures Apply(w, e) == w.(pos := w.pos[e.fd := Seek(w.dev, w.pos[e.fd], e.offset, e.whence, e.f).pos])
  {
  }

  /** SEEK_END after one empty line goes to its end, and SEEK_CUR goes on from there. */
  lemma SeeksMove(n: nat, e: Event)
    requires n == 1 && e == SeekCall(0, 0, SeekEnd, NO_FAULTS)
    ensures var w := Run(EmptyLineCalls(n) + [e]);
            0 in w.pos && w.pos[0] == 1 && Seek(w.dev, 1, 3, SeekCur, NO_FAULTS) == SeekReply(4, 4)
  {
    EmptyLinesAreReached(n);
    EndOfOneLine(n, AfterEmptyLines(n));
    RunOneMore(EmptyLineCalls(n), e);
    SeekMoves(Run(EmptyLineCalls(n)), e);
    SeekCurIsExact(AfterEmptyLines(n), 1, 3, NO_FAULTS);
  }
}

/** Whole runs of the driver: any number of open files, their calls in any order, with any of
    the kernel services failing at any call. */
module Runs {
  import opened Machine
  import opened Lines
  import opened LineRing
  import opened CommitLog
  import opened Driver

  /** `pos` gives each open file its position; `accepted` remembers, in order, the payloads that
      were copied in. Nothing in the driver depends on `accepted`. */
  datatype World = World(dev: Dev, pos: map<nat, int>, accepted: seq<bytes>)

  const BOOT := World(FRESH, map[], [])

  datatype Event =
    | Open(fd: nat)
    | WriteCall(fd: nat, payload: bytes, f: Faults)
    | ReadCall(fd: nat, count: nat, f: Faults)
    | SeekCall(fd: nat, offset: loff, whence: Whence, f: Faults)
    | IoctlCall(fd: nat, known: bool, cmd: nat, off: nat, f: Faults)

  /** The kernel passes on at most MAX_RW_COUNT bytes. */
  function Passed(payload: bytes): (p: bytes)
    ensures |p| <= MAX_RW_COUNT && p <= payload
    ensures |payload| <= MAX_RW_COUNT ==> p == payload
    ensures MAX_RW_COUNT < |payload| ==> |p| == MAX_RW_COUNT
  {
    payload[..AtMost(MAX_RW_COUNT, |payload|)]
  }

  /** One call; a call on a file that is not open reaches no driver. */
  function Apply(w: World, e: Event): (w': World)
    requires WellFormed(w.dev.ring)
    ensures WellFormed(w'.dev.ring)
  {
    if e.Open? then w.(pos := w.pos[e.fd := 0])
    else if e.fd !in w.pos then w
    else match e
      case WriteCall(_, payload, f) =>
        var r := Write(w.dev, Passed(payload), f);
        w.(dev := r.dev, accepted := if r.stored then w.accepted + [Passed(payload)] else w.accepted)
      case ReadCall(fd, count, f) => w.(pos := w.pos[fd := Read(w.dev, w.pos[fd], count, f).pos])
      case SeekCall(fd, offset, whence, f) => w.(pos := w.pos[fd := Seek(w.dev, w.pos[fd], offset, whence, f).pos])
      case IoctlCall(fd, known, cmd, off, f) => w.(pos := w.pos[fd := SeekTo(w.dev, w.pos[fd], known, cmd, off, f).pos])
      case Open(_) => w
  }

  /** The bytes a call hands to its caller. */
  function Delivered(w: World, e: Event): bytes
    requires WellFormed(w.dev.ring)
  {
    if e.ReadCall? && e.fd in w.pos then Read(w.dev, w.pos[e.fd], e.count, e.f).data else []
  }

  function RunFrom(w: World, events: seq<Event>): (w': World)
    requires WellFormed(w.dev.ring)
    ensures WellFormed(w'.dev.ring)
  {
    if events == [] then w else Apply(RunFrom(w, events[..|events| - 1]), events[|events| - 1])
  }

  function Run(events: seq<Event>): (w: World)
    ensures WellFormed(w.dev.ring)
  {
    RunFrom(BOOT, events)
  }

  function LogOf(w: World): Log
  {
    FeedAll(w.accepted)
  }

  /** The driver is in the state its accepted payloads call for. */
  predicate Consistent(w: World)
  {
    && Tracks(w.dev, LogOf(w))
    && forall fd :: fd in w.pos ==> IsPosition(w.pos[fd])
  }

  lemma SeekKeepsPosition(d: Dev, pos: int, offset: int, whence: Whence, f: Faults)
    requires WellFormed(d.ring) && IsPosition(pos)
    ensures IsPosition(Seek(d, pos, offset, whence, f).pos)
  {
  }

  lemma ApplyKeepsConsistent(w: World, e: Event)
    requires Consistent(w)
    ensures Consistent(Apply(w, e))
  {
    if !e.Open? && e.fd in w.pos {
      match e {
        case WriteCall(_, payload, f) =>
          WriteRefinesFeed(w.dev, LogOf(w), Passed(payload), f);
          FeedAllSnoc(w.accepted, Passed(payload));
        case ReadCall(fd, count, f) => ReadIsSlice(w.dev, LogOf(w), w.pos[fd], count, f);
        case SeekCall(fd, offset, whence, f) => SeekKeepsPosition(w.dev, w.pos[fd], offset, whence, f);
        case _ =>
      }
    }
  }

  /** Refinement over runs: after any run, whatever failed in it, ring and pending string are
      those of the log of its accepted payloads. */
  lemma {:induction false} RunRefinesLog(events: seq<Event>)
    ensures Consistent(Run(events))
  {
    if events == [] {
      FreshTracksNothing();
    } else {
      RunRefinesLog(events[..|events| - 1]);
      ApplyKeepsConsistent(Run(events[..|events| - 1]), events[|events| - 1]);
    }
  }

  /** In every state of every run the `int` running totals of the search, of SEEK_END and of the
      ioctl are the mathematical sums of the entry sizes. */
  lemma RunningTotalsAreExact(events: seq<Event>, j: nat)
    requires j <= SLOTS
    ensures var total := |Flatten(InOrder(Run(events).dev.ring)[..j])|; ToInt32(total) == total
  {
    var w := Run(events);
    RunRefinesLog(events);
    ContentFitsInt(w.dev, LogOf(w));
    PrefixesGrow(InOrder(w.dev.ring), j, SLOTS);
  }

  /** Seek and find over runs: in every reachable state, an ioctl to a slot and an offset followed by
      a search finds that slot and that byte exactly when the offset is inside the slot's line. */
  lemma RunSeekThenFind(events: seq<Event>, fd: nat, slot: nat, off: nat)
    requires fd in Run(events).pos && slot < SLOTS && off < 0x1_0000_0000
    ensures var w := Apply(Run(events), IoctlCall(fd, true, slot, off, NO_FAULTS));
            && w.dev == Run(events).dev
            && (Search(InOrder(w.dev.ring), w.pos[fd]) == Some((OrderOf(w.dev.ring, slot), off))
                <==> off < |w.dev.ring.slots[slot]|)
  {
    RunRefinesLog(events);
    SeekThenFind(Run(events).dev, LogOf(Run(events)), Run(events).pos[fd], slot, off);
  }

  // ---------------------------------------------------------------- conservation

  /** The lines that have left the ring. */
  function Dropped(history: seq<bytes>): seq<bytes>
  {
    if |history| < SLOTS then [] else history[..|history| - SLOTS]
  }

  lemma DroppedThenKept(history: seq<bytes>)
    ensures Dropped(history) + LastTen(history) == history
    ensures Flatten(history) == Flatten(Dropped(history)) + Flatten(LastTen(history))
  {
    FlattenConcat(Dropped(history), LastTen(history));
    assert Dropped(history) + LastTen(history) == history;
  }

  /** Conservation over runs: the accepted bytes are the evicted ones, then the ring's, then the
      pending ones. */
  lemma RunConservesBytes(events: seq<Event>)
    ensures var w := Run(events);
            Flatten(w.accepted) ==
            Flatten(Dropped(LogOf(w).history)) + Content(w.dev.ring) + PendingBytes(w.dev)
  {
    var w := Run(events);
    RunRefinesLog(events);
    BytesConserved(w.accepted);
    DroppedThenKept(LogOf(w).history);
    ContentIsLastTen(w.dev.ring, LogOf(w).history);
  }

  /** Every slot is empty or holds one line, in every state of every run. */
  lemma RunStoresLines(events: seq<Event>, slot: nat)
    requires slot < SLOTS
    ensures var s := Run(events).dev.ring.slots[slot]; s == [] || IsLine(s)
  {
    var w := Run(events);
    var history, j := LogOf(w).history, OrderOf(w.dev.ring, slot);
    RunRefinesLog(events);
    CommittedAreLines(w.accepted);
    if j < |LastTen(history)| {
      assert w.dev.ring.slots[slot] == LastTen(history)[j];
      assert LastTen(history)[j] in history;
    }
  }

  /** Between calls the pending string has no newline, or its first one is not its last byte. */
  lemma RunPendingIsNoLine(events: seq<Event>)
    ensures var p := PendingBytes(Run(events).dev); NEWLINE !in p || FirstNewline(p) < |p| - 1
  {
    RunRefinesLog(events);
    CommittedAreLines(Run(events).accepted);
    CommitTestIsIsLine(PendingBytes(Run(events).dev));
  }

  /** What a run has committed and what it holds back is the newline split of its input stream,
      whichever files the chunks came through, exactly when no chunk had an inner newline. */
  lemma RunSplitsStreamIff(events: seq<Event>)
    ensures var w := Run(events); var stream := Flatten(w.accepted);
            (LogOf(w).history == CompleteLines(stream) && PendingBytes(w.dev) == Tail(stream))
            <==> forall i :: 0 <= i < |w.accepted| ==> !HasInnerNewline(w.accepted[i])
  {
    RunRefinesLog(events);
    SplitsStreamIff(Run(events).accepted);
  }

  // ---------------------------------------------------------------- the absorbing state

  lemma WedgedWriteKeepsRing(d: Dev, log: Log, payload: bytes, f: Faults)
    requires Tracks(d, log) && |payload| <= MAX_RW_COUNT
    requires Wedged(log) && !IsLine(log.pending)
    ensures Write(d, payload, f).dev.ring == d.ring
  {
    FeedWedged(log, payload);
    BlockRequestIsExact(|log.pending|, |payload|, f);
    CommitTestIsIsLine(log.pending + payload);
  }

  lemma WedgedApplyKeepsRing(w: World, e: Event)
    requires Consistent(w) && Wedged(LogOf(w))
    ensures Apply(w, e).dev.ring == w.dev.ring
  {
    if e.WriteCall? {
      CommittedAreLines(w.accepted);
      WedgedWriteKeepsRing(w.dev, LogOf(w), Passed(e.payload), e.f);
    }
  }

  lemma WedgedApplyStaysWedged(w: World, e: Event)
    requires Consistent(w) && Wedged(LogOf(w))
    ensures Wedged(LogOf(Apply(w, e)))
  {
    if Apply(w, e).accepted != w.accepted {
      FeedAllSnoc(w.accepted, Passed(e.payload));
      CommittedAreLines(w.accepted);
      FeedWedged(LogOf(w), Passed(e.payload));
    }
  }

  /** Once the pending string holds a newline the ring is frozen: nothing that any file does
      afterwards changes a slot or an offset. */
  lemma {:induction false} WedgedRunIsFrozen(w: World, events: seq<Event>)
    requires Consistent(w) && NEWLINE in PendingBytes(w.dev)
    ensures RunFrom(w, events).dev.ring == w.dev.ring
    ensures Consistent(RunFrom(w, events)) && NEWLINE in PendingBytes(RunFrom(w, events).dev)
  {
    if events == [] {
    } else {
      var before, e := RunFrom(w, events[..|events| - 1]), events[|events| - 1];
      WedgedRunIsFrozen(w, events[..|events| - 1]);
      ApplyKeepsConsistent(before, e);
      WedgedApplyKeepsRing(before, e);
      WedgedApplyStaysWedged(before, e);
    }
  }

  // ---------------------------------------------------------------- concurrent readers

  /** Bytes evicted so far. */
  function Evicted(w: World): nat
  {
    |Flatten(Dropped(LogOf(w).history))|
  }

  /** A file position counted from the first byte ever committed. */
  function Absolute(w: World, fd: nat): int
    requires fd in w.pos
  {
    Evicted(w) + w.pos[fd]
  }

  /** The call may move this file other than by reading: an open, an accepted seek from the current
      position or the end, an accepted ioctl. SEEK_SET does not: the driver keeps the position. */
  predicate Repositions(w: World, e: Event, fd: nat)
    requires WellFormed(w.dev.ring)
  {
    && e.fd == fd
    && match e
       case Open(_) => true
       case SeekCall(_, offset, whence, f) =>
         fd in w.pos && !whence.SeekSet? && 0 <= Seek(w.dev, w.pos[fd], offset, whence, f).ret
       case IoctlCall(_, known, cmd, off, f) => known && cmd < SLOTS && f.copyOk && f.lockOk
       case _ => false
  }

  lemma EvictedGrows(a: seq<bytes>, b: seq<bytes>)
    requires a <= b
    ensures Dropped(a) <= Dropped(b)
    ensures |Flatten(Dropped(a))| <= |Flatten(Dropped(b))|
  {
    if |a| < SLOTS {
    } else {
      assert Dropped(b)[..|Dropped(a)|] == Dropped(a);
      FlattenPrefix(Dropped(b), |Dropped(a)|);
    }
  }

  lemma ApplyExtendsAccepted(w: World, e: Event)
    requires WellFormed(w.dev.ring)
    ensures w.accepted <= Apply(w, e).accepted
  {
  }

  /** The run between two moments, and what this file read in it. */
  function Received(events: seq<Event>, i: nat, j: nat, fd: nat): nat
    requires i <= j <= |events|
    decreases j
  {
    if i == j then 0
    else
      Received(events, i, j - 1, fd) +
      if events[j - 1].fd == fd then |Delivered(Run(events[..j - 1]), events[j - 1])| else 0
  }

  predicate NotMoved(events: seq<Event>, k: nat, fd: nat)
    requires k < |events|
  {
    !Repositions(Run(events[..k]), events[k], fd)
  }

  predicate Undisturbed(events: seq<Event>, i: nat, j: nat, fd: nat)
    requires i <= j <= |events|
  {
    forall k :: i <= k < j ==> NotMoved(events, k, fd)
  }

  lemma RunStep(events: seq<Event>, j: nat)
    requires j < |events|
    ensures Run(events[..j + 1]) == Apply(Run(events[..j]), events[j])
  {
    assert events[..j + 1][..j] == events[..j];
  }

  lemma {:induction false} AcceptedGrows(events: seq<Event>, i: nat, j: nat)
    requires i <= j <= |events|
    ensures Run(events[..i]).accepted <= Run(events[..j]).accepted
    decreases j
  {
    if i == j {
    } else {
      AcceptedGrows(events, i, j - 1);
      RunStep(events, j - 1);
      ApplyExtendsAccepted(Run(events[..j - 1]), events[j - 1]);
    }
  }

  lemma HistoryExtends(a: seq<bytes>, b: seq<bytes>)
    requires a <= b
    ensures FeedAll(a).history <= FeedAll(b).history
  {
    HistoryGrows(b, |a|);
    assert b[..|a|] == a;
  }

  /** One call of anybody's leaves a file where it is or moves it by what it read. */
  lemma ApplyMovesBy(w: World, e: Event, fd: nat)
    requires Consistent(w) && fd in w.pos && !Repositions(w, e, fd)
    ensures fd in Apply(w, e).pos
    ensures Apply(w, e).pos[fd] == w.pos[fd] + if e.fd == fd then |Delivered(w, e)| else 0
  {
    if e.ReadCall? && e.fd == fd {
      ReadIsSlice(w.dev, LogOf(w), w.pos[fd], e.count, e.f);
    }
  }

  lemma PositionStep(events: seq<Event>, j: nat, fd: nat, w: World, w': World)
    requires j < |events| && w == Run(events[..j]) && w' == Run(events[..j + 1])
    requires fd in w.pos && !Repositions(w, events[j], fd)
    ensures fd in w'.pos
    ensures w'.pos[fd] == w.pos[fd] + if events[j].fd == fd then |Delivered(w, events[j])| else 0
  {
    RunRefinesLog(events[..j]);
    RunStep(events, j);
    ApplyMovesBy(w, events[j], fd);
  }

  /** Between two moments a file that is not repositioned moves, in relative terms, by exactly
      what it read. */
  lemma {:induction false} PositionAdvances(events: seq<Event>, i: nat, j: nat, fd: nat, wi: World, wj: World)
    requires i <= j <= |events| && Undisturbed(events, i, j, fd)
    requires wi == Run(events[..i]) && wj == Run(events[..j]) && fd in wi.pos
    ensures fd in wj.pos && wj.pos[fd] == wi.pos[fd] + Received(events, i, j, fd)
    decreases j
  {
    if i == j {
      assert Received(events, i, j, fd) == 0;
    } else {
      var before := Run(events[..j - 1]);
      assert NotMoved(events, j - 1, fd);
      PositionAdvances(events, i, j - 1, fd, wi, before);
      PositionStep(events, j - 1, fd, before, wj);
    }
  }

  /** Between two moments the absolute position of a file that is not repositioned never goes
      back: it moves by what the file read and by what was evicted, and by nothing else. */
  lemma AbsoluteAdvances(events: seq<Event>, i: nat, j: nat, fd: nat)
    requires i <= j <= |events| && fd in Run(events[..i]).pos && Undisturbed(events, i, j, fd)
    ensures fd in Run(events[..j]).pos
    ensures Absolute(Run(events[..j]), fd) - Absolute(Run(events[..i]), fd)
         == Received(events, i, j, fd) + (Evicted(Run(events[..j])) - Evicted(Run(events[..i])))
    ensures Evicted(Run(events[..i])) <= Evicted(Run(events[..j]))
  {
    PositionAdvances(events, i, j, fd, Run(events[..i]), Run(events[..j]));
    AcceptedGrows(events, i, j);
    HistoryExtends(Run(events[..i]).accepted, Run(events[..j]).accepted);
    EvictedGrows(LogOf(Run(events[..i])).history, LogOf(Run(events[..j])).history);
  }

  /** All bytes ever committed by a run. */
  function Committed(w: World): bytes
  {
    Flatten(LogOf(w).history)
  }

  lemma StreamParts(history: seq<bytes>, later: seq<bytes>)
    requires history <= later
    ensures Flatten(later) == Flatten(Dropped(history)) + Flatten(LastTen(history)) + Flatten(later[|history|..])
  {
    assert later == history + later[|history|..];
    FlattenConcat(history, later[|history|..]);
    DroppedThenKept(history);
  }

  lemma SliceOfMiddle(s: bytes, a: bytes, b: bytes, c: bytes, lo: nat, data: bytes)
    requires s == a + b + c
    requires lo + |data| <= |b| && data == b[lo..lo + |data|]
    ensures |a| + lo + |data| <= |s| && data == s[|a| + lo..|a| + lo + |data|]
  {
    SliceInMiddle(a, b, c, lo, |data|);
  }

  /** The data is what stands in the stream of committed bytes at the file's absolute position. */
  predicate Shows(w: World, fd: nat, data: bytes, stream: bytes)
    requires fd in w.pos
  {
    var a := Absolute(w, fd);
    0 <= a && a + |data| <= |stream| && data == stream[a..a + |data|]
  }

  lemma DeliveredIsSlice(w: World, e: Event)
    requires Consistent(w) && Delivered(w, e) != []
    ensures var pos, data, seen := w.pos[e.fd], Delivered(w, e), Flatten(LastTen(LogOf(w).history));
            0 <= pos && pos + |data| <= |seen| && data == seen[pos..pos + |data|]
  {
    ReadIsSlice(w.dev, LogOf(w), w.pos[e.fd], e.count, e.f);
  }

  /** What stands in the newest ten lines of a history stands in every later history, further on
      by the lines dropped. */
  lemma SeenStands(history: seq<bytes>, later: seq<bytes>, pos: nat, data: bytes)
    requires history <= later && pos + |data| <= |Flatten(LastTen(history))|
    requires data == Flatten(LastTen(history))[pos..pos + |data|]
    ensures var a := |Flatten(Dropped(history))| + pos;
            a + |data| <= |Flatten(later)| && data == Flatten(later)[a..a + |data|]
  {
    StreamParts(history, later);
    SliceOfMiddle(Flatten(later), Flatten(Dropped(history)), Flatten(LastTen(history)),
                  Flatten(later[|history|..]), pos, data);
  }

  /** What a reader sees shows the stream of this world and of every later one. */
  lemma SeenShows(w: World, fd: nat, data: bytes, later: World)
    requires w.accepted <= later.accepted && fd in w.pos && 0 <= w.pos[fd]
    requires w.pos[fd] + |data| <= |Flatten(LastTen(LogOf(w).history))|
    requires data == Flatten(LastTen(LogOf(w).history))[w.pos[fd]..w.pos[fd] + |data|]
    ensures Shows(w, fd, data, Committed(later))
  {
    HistoryExtends(w.accepted, later.accepted);
    SeenStands(LogOf(w).history, LogOf(later).history, w.pos[fd], data);
  }

  /** A read anywhere in a run shows the final stream of the run. */
  lemma RunDeliveredShows(events: seq<Event>, i: nat)
    requires i < |events| && Delivered(Run(events[..i]), events[i]) != []
    ensures Shows(Run(events[..i]), events[i].fd, Delivered(Run(events[..i]), events[i]), Committed(Run(events)))
  {
    RunRefinesLog(events[..i]);
    AcceptedGrows(events, i, |events|);
    assert events[..|events|] == events;
    DeliveredIsSlice(Run(events[..i]), events[i]);
    SeenShows(Run(events[..i]), events[i].fd, Delivered(Run(events[..i]), events[i]), Run(events));
  }

  /** Concurrent readers: take two reads of one file that is not repositioned between them, in
      any run with any commits by anybody. Both show the one stream of committed bytes; the
      second starts at or after the end of the first, and what lies between is what the file
      read in the meantime and exactly as many bytes as were evicted in the meantime. */
  lemma ReaderNeverSeesTwice(events: seq<Event>, i: nat, j: nat, fd: nat)
    requires i < j < |events| && events[i].ReadCall? && events[j].ReadCall?
    requires events[i].fd == fd == events[j].fd
    requires Undisturbed(events, i, j, fd)
    requires Delivered(Run(events[..i]), events[i]) != [] && Delivered(Run(events[..j]), events[j]) != []
    ensures var wi, wj, stream := Run(events[..i]), Run(events[..j]), Committed(Run(events));
            var di, dj := Delivered(wi, events[i]), Delivered(wj, events[j]);
            && Shows(wi, fd, di, stream)
            && Shows(wj, fd, dj, stream)
            && Evicted(wi) <= Evicted(wj)
            && Absolute(wj, fd) - (Absolute(wi, fd) + |di|)
               == Received(events, i + 1, j, fd) + (Evicted(wj) - Evicted(wi))
  {
    RunDeliveredShows(events, i);
    RunDeliveredShows(events, j);
    AbsoluteAdvances(events, i, j, fd);
    ReceivedFirst(events, i, j, fd);
  }

  lemma {:induction false} ReceivedFirst(events: seq<Event>, i: nat, j: nat, fd: nat)
    requires i < j <= |events| && events[i].fd == fd
    ensures Received(events, i, j, fd) == |Delivered(Run(events[..i]), events[i])| + Received(events, i + 1, j, fd)
    decreases j
  {
    if i + 1 < j {
      ReceivedFirst(events, i, j - 1, fd);
    }
  }
}

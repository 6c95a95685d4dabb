/** The device as its callers see it: what every call answers and what it leaves behind, from the
    accepted payloads and the file positions alone. There is no ring, no pointer, no memory and no
    machine arithmetic here but the 32 bits of the ioctl. The driver is proved to answer alike. */
module Interface {
  import opened Machine
  import opened Lines
  import opened LineRing
  import opened CommitLog
  import opened Driver
  import opened Runs

  /** What a caller gets back, and where its file is afterwards. */
  datatype Answer = Answer(ret: int, data: bytes, pos: int)

  /** What the callers of all files can know of the device. */
  datatype View = View(accepted: seq<bytes>, pos: map<nat, int>)

  function Refused(error: int, pos: int): Answer
  {
    Answer(-error, [], pos)
  }

  /** A write stores when nothing fails and the pending bytes and its own fit a block. */
  predicate Stores(log: Log, payload: bytes, f: Faults)
  {
    f == NO_FAULTS && |log.pending| + |payload| <= MAX_BLOCK
  }

  function WriteAnswer(log: Log, pos: int, payload: bytes, f: Faults): Answer
  {
    if !f.lockOk then Refused(ERESTARTSYS, pos)
    else if Stores(log, payload, f) then Refused(ENOMEM, pos)
    else Refused(EINVAL, pos)
  }

  /** The rest of the line at a position, its newline included, or as much of it as is asked for. */
  function RestOfLine(seen: bytes, pos: nat, count: nat): bytes
    requires pos < |seen|
  {
    var rest := seen[pos..];
    rest[..AtMost(count, FirstNewline(rest) + 1)]
  }

  function ReadAnswer(seen: bytes, pos: int, count: nat, f: Faults): Answer
  {
    if !f.lockOk then Refused(ERESTARTSYS, pos)
    else if !(0 <= pos < |seen|) then Answer(0, [], pos)
    else if !f.copyOk then Refused(EFAULT, pos)
    else var data := RestOfLine(seen, pos, count); Answer(|data|, data, pos + |data|)
  }

  function MoveTo(target: int, pos: int): Answer
  {
    if IsPosition(target) then Answer(target, [], target) else Refused(EINVAL, pos)
  }

  function SeekAnswer(history: seq<bytes>, pos: int, offset: loff, whence: Whence, f: Faults): Answer
  {
    match whence
    case SeekSet => Answer(pos, [], pos)
    case SeekCur => MoveTo(pos + offset, pos)
    case SeekEnd =>
      if !f.lockOk then Refused(ERESTARTSYS, pos)
      else MoveTo((if SLOTS <= |history| then 0 else |Flatten(history)|) + offset, pos)
    case Unknown => Refused(EINVAL, pos)
  }

  function IoctlAnswer(history: seq<bytes>, pos: int, known: bool, cmd: nat, off: nat, f: Faults): Answer
  {
    if !known then Refused(ENOTTY, pos)
    else if !f.copyOk then Refused(EFAULT, pos)
    else if SLOTS <= cmd then Refused(EINVAL, pos)
    else if !f.lockOk then Refused(ERESTARTSYS, pos)
    else Refused(ENOMEM, SeekTarget(history, cmd, off))
  }

  /** The answer to a call; none for a call on a file that is not open, which reaches no driver. */
  function AnswerTo(v: View, e: Event): Option<Answer>
  {
    if e.Open? then Some(Answer(0, [], 0))
    else if e.fd !in v.pos then None
    else
      var log, pos := FeedAll(v.accepted), v.pos[e.fd];
      match e
      case WriteCall(_, payload, f) => Some(WriteAnswer(log, pos, Passed(payload), f))
      case ReadCall(_, count, f) => Some(ReadAnswer(Flatten(LastTen(log.history)), pos, count, f))
      case SeekCall(_, offset, whence, f) => Some(SeekAnswer(log.history, pos, offset, whence, f))
      case IoctlCall(_, known, cmd, off, f) => Some(IoctlAnswer(log.history, pos, known, cmd, off, f))
      case Open(_) => None
  }

  /** The payload a call adds to the accepted ones, if it does. */
  function Adds(v: View, e: Event): seq<bytes>
  {
    if e.WriteCall? && e.fd in v.pos && Stores(FeedAll(v.accepted), Passed(e.payload), e.f)
    then [Passed(e.payload)] else []
  }

  /** A call changes the position of its own file, as it answers, and nobody else's. */
  function After(v: View, e: Event): View
  {
    var a := AnswerTo(v, e);
    View(v.accepted + Adds(v, e), if a.None? then v.pos else v.pos[e.fd := a.value.pos])
  }

  // ---------------------------------------------------------------- what the driver answers

  function ViewOf(w: World): View
  {
    View(w.accepted, w.pos)
  }

  /** What the driver's own functions answer to a call on a file at this position. */
  function DriverAnswer(d: Dev, pos: int, e: Event): Answer
    requires WellFormed(d.ring)
  {
    match e
    case Open(_) => Answer(0, [], 0)
    case WriteCall(_, payload, f) => Answer(Write(d, Passed(payload), f).ret, [], pos)
    case ReadCall(_, count, f) => var r := Read(d, pos, count, f); Answer(r.ret, r.data, r.pos)
    case SeekCall(_, offset, whence, f) => var r := Seek(d, pos, offset, whence, f); Answer(r.ret, [], r.pos)
    case IoctlCall(_, known, cmd, off, f) =>
      var r := SeekTo(d, pos, known, cmd, off, f);
      Answer(r.ret, [], r.pos)
  }

  function DriverReply(w: World, e: Event): Option<Answer>
    requires WellFormed(w.dev.ring)
  {
    if e.Open? then Some(DriverAnswer(w.dev, 0, e))
    else if e.fd !in w.pos then None
    else Some(DriverAnswer(w.dev, w.pos[e.fd], e))
  }

  lemma WriteAnswers(d: Dev, log: Log, pos: int, payload: bytes, f: Faults)
    requires Tracks(d, log) && |payload| <= MAX_RW_COUNT
    ensures Write(d, payload, f).ret == WriteAnswer(log, pos, payload, f).ret
    ensures Write(d, payload, f).stored == Stores(log, payload, f)
  {
    WriteRefinesFeed(d, log, payload, f);
    WriteReturns(d, log, payload, f);
  }

  /** The end of a line is a line. */
  lemma SuffixOfLine(line: bytes, off: nat)
    requires IsLine(line) && off < |line|
    ensures IsLine(line[off..])
  {
    assert line[off..][..|line| - off - 1] == line[..|line| - 1][off..];
  }

  /** From a position in a line, the first newline is the line's own. */
  lemma NewlineAhead(pieces: seq<bytes>, j: nat, off: nat, rest: bytes)
    requires j < |pieces| && IsLine(pieces[j]) && off < |pieces[j]|
    requires |Flatten(pieces[..j])| + off <= |Flatten(pieces)|
    requires rest == Flatten(pieces)[|Flatten(pieces[..j])| + off..]
    ensures FirstNewline(rest) == |pieces[j]| - off - 1
    ensures rest[..|pieces[j]| - off] == pieces[j][off..]
  {
    FlattenAround(pieces, j);
    assert rest == pieces[j][off..] + Flatten(pieces[j + 1..]);
    SuffixOfLine(pieces[j], off);
    LineIsFirst(pieces[j][off..], Flatten(pieces[j + 1..]));
  }

  /** A chunk of entries that are lines is the rest of a line. */
  lemma ChunkIsRestOfLine(pieces: seq<bytes>, pos: nat, count: nat)
    requires Addressable(pieces, pos) && pos < |Flatten(pieces)|
    requires forall k :: 0 <= k < |pieces| ==> pieces[k] == [] || IsLine(pieces[k])
    ensures Chunk(pieces, pos, count) == RestOfLine(Flatten(pieces), pos, count)
  {
    var j, off := SearchHits(pieces, pos);
    ChunkAt(pieces, pos, count, j, off);
    NewlineAhead(pieces, j, off, Flatten(pieces)[pos..]);
    SameStart(Flatten(pieces)[pos..], pieces[j][off..], AtMost(count, |pieces[j]| - off));
  }

  lemma ChunkAt(pieces: seq<bytes>, pos: nat, count: nat, j: nat, off: nat)
    requires ToSizeT(pos) == pos && Search(pieces, pos) == Some((j, off))
    ensures Chunk(pieces, pos, count) == pieces[j][off..][..AtMost(count, |pieces[j]| - off)]
  {
  }

  lemma SameStart(a: bytes, b: bytes, n: nat)
    requires n <= |b| <= |a| && a[..|b|] == b
    ensures a[..n] == b[..n]
  {
  }

  /** The slots hold lines or nothing. */
  lemma PiecesAreLines(d: Dev, log: Log, k: nat)
    requires Tracks(d, log) && k < SLOTS
    requires forall i :: 0 <= i < |log.history| ==> IsLine(log.history[i])
    ensures InOrder(d.ring)[k] == [] || IsLine(InOrder(d.ring)[k])
  {
    var view := LastTen(log.history);
    assert InOrder(d.ring)[k] == (view + Blank(SLOTS - |view|))[k];
    if k < |view| {
      assert view[k] in log.history;
    }
  }

  /** A read returns the rest of the line at the position, never more. */
  lemma ReadAnswers(d: Dev, log: Log, pos: int, count: nat, f: Faults)
    requires Tracks(d, log) && IsPosition(pos)
    requires forall i :: 0 <= i < |log.history| ==> IsLine(log.history[i])
    ensures var r := Read(d, pos, count, f);
            Answer(r.ret, r.data, r.pos) == ReadAnswer(Flatten(LastTen(log.history)), pos, count, f)
  {
    var pieces := InOrder(d.ring);
    ContentFitsInt(d, log);
    if |Flatten(pieces)| <= pos {
      SearchMisses(pieces, pos);
    } else {
      var j, off := SearchHits(pieces, pos);
      forall k | 0 <= k < |pieces|
        ensures pieces[k] == [] || IsLine(pieces[k])
      {
        PiecesAreLines(d, log, k);
      }
      ChunkIsRestOfLine(pieces, pos, count);
    }
  }

  lemma SeekAnswers(d: Dev, log: Log, pos: int, offset: loff, whence: Whence, f: Faults)
    requires Tracks(d, log) && IsPosition(pos)
    ensures var r := Seek(d, pos, offset, whence, f);
            Answer(r.ret, [], r.pos) == SeekAnswer(log.history, pos, offset, whence, f)
  {
    match whence {
      case SeekCur => SeekCurIsExact(d, pos, offset, f);
      case SeekEnd => SeekEndIsExact(d, log, pos, offset, f);
      case _ => SeekSetStays(d, pos, offset, f);
    }
  }

  lemma IoctlAnswers(d: Dev, log: Log, pos: int, known: bool, cmd: nat, off: nat, f: Faults)
    requires Tracks(d, log)
    ensures var r := SeekTo(d, pos, known, cmd, off, f);
            Answer(r.ret, [], r.pos) == IoctlAnswer(log.history, pos, known, cmd, off, f)
  {
    SeekToReturns(d, log, pos, known, cmd, off, f);
  }

  /** One call: the driver answers as promised and leaves behind what is promised. */
  lemma CallIsAnswered(w: World, e: Event)
    requires Consistent(w)
    ensures DriverReply(w, e) == AnswerTo(ViewOf(w), e)
    ensures ViewOf(Apply(w, e)) == After(ViewOf(w), e)
  {
    if !e.Open? && e.fd in w.pos {
      var log, pos := LogOf(w), w.pos[e.fd];
      CommittedAreLines(w.accepted);
      match e {
        case WriteCall(_, payload, f) =>
          WriteAnswers(w.dev, log, pos, Passed(payload), f);
          assert w.pos == w.pos[e.fd := pos];
        case ReadCall(_, count, f) => ReadAnswers(w.dev, log, pos, count, f);
        case SeekCall(_, offset, whence, f) => SeekAnswers(w.dev, log, pos, offset, whence, f);
        case IoctlCall(_, known, cmd, off, f) => IoctlAnswers(w.dev, log, pos, known, cmd, off, f);
      }
    }
  }

  // ---------------------------------------------------------------- whole runs

  /** The view a run leaves, by the promises alone. */
  function RunView(events: seq<Event>): View
  {
    if events == [] then View([], map[]) else After(RunView(events[..|events| - 1]), events[|events| - 1])
  }

  /** All the answers of a run, by the promises alone. */
  function Answers(events: seq<Event>): (answers: seq<Option<Answer>>)
    ensures |answers| == |events|
  {
    if events == [] then []
    else
      var init, last := events[..|events| - 1], events[|events| - 1];
      Answers(init) + [AnswerTo(RunView(init), last)]
  }

  /** Refinement: after any run of any calls on any files, whatever failed in it, the driver has
      accepted the payloads and put the files where the promises say. */
  lemma {:induction false} RunIsAsPromised(events: seq<Event>)
    ensures ViewOf(Run(events)) == RunView(events)
  {
    if events == [] {
      assert Run(events) == BOOT;
    } else {
      var init, last := events[..|events| - 1], events[|events| - 1];
      RunIsAsPromised(init);
      RunRefinesLog(init);
      CallIsAnswered(Run(init), last);
    }
  }

  lemma AnswersStep(events: seq<Event>, i: nat)
    requires i < |events|
    ensures Answers(events[..i + 1]) == Answers(events[..i]) + [AnswerTo(RunView(events[..i]), events[i])]
  {
    assert events[..i + 1][..i] == events[..i];
  }

  lemma {:induction false} AnswerAt(events: seq<Event>, i: nat)
    requires i < |events|
    ensures Answers(events)[i] == AnswerTo(RunView(events[..i]), events[i])
  {
    var n := |events| - 1;
    if i == n {
    } else {
      AnswerAt(events[..n], i);
      assert events[..n][..i] == events[..i] && events[..n][i] == events[i];
    }
  }

  /** And every call of it, read, write, seek or ioctl, returned what the promises say: the return
      value, the data and the new position. */
  lemma EveryCallIsAnswered(events: seq<Event>, i: nat)
    requires i < |events|
    ensures DriverReply(Run(events[..i]), events[i]) == Answers(events)[i]
  {
    RunIsAsPromised(events[..i]);
    RunRefinesLog(events[..i]);
    CallIsAnswered(Run(events[..i]), events[i]);
    AnswerAt(events, i);
  }

  lemma RunOneMore(events: seq<Event>, e: Event)
    ensures Run(events + [e]) == Apply(Run(events), e)
  {
    assert (events + [e])[..|events|] == events;
  }

  /** A seek at the end of any run keeps the device and the other files, and puts its own file where
      the seek is promised to go. */
  lemma RunThenSeek(events: seq<Event>, fd: nat, offset: loff, whence: Whence, f: Faults)
    requires fd in Run(events).pos
    ensures var w, w' := Run(events), Run(events + [SeekCall(fd, offset, whence, f)]);
            && w'.dev == w.dev && w'.accepted == w.accepted
            && w'.pos == w.pos[fd := SeekAnswer(LogOf(w).history, w.pos[fd], offset, whence, f).pos]
  {
    RunOneMore(events, SeekCall(fd, offset, whence, f));
    RunRefinesLog(events);
    CallIsAnswered(Run(events), SeekCall(fd, offset, whence, f));
  }

  /** The same for an ioctl. */
  lemma RunThenIoctl(events: seq<Event>, fd: nat, known: bool, cmd: nat, off: nat, f: Faults)
    requires fd in Run(events).pos
    ensures var w, w' := Run(events), Run(events + [IoctlCall(fd, known, cmd, off, f)]);
            && w'.dev == w.dev && w'.accepted == w.accepted
            && w'.pos == w.pos[fd := IoctlAnswer(LogOf(w).history, w.pos[fd], known, cmd, off, f).pos]
  {
    RunOneMore(events, IoctlCall(fd, known, cmd, off, f));
    RunRefinesLog(events);
    CallIsAnswered(Run(events), IoctlCall(fd, known, cmd, off, f));
  }

  /** A read at the end of any run hands over the rest of the line at its position. */
  lemma RunThenRead(events: seq<Event>, fd: nat, count: nat, f: Faults)
    requires fd in Run(events).pos
    ensures var w, w' := Run(events), Run(events + [ReadCall(fd, count, f)]);
            var a := ReadAnswer(Flatten(LastTen(LogOf(w).history)), w.pos[fd], count, f);
            && w'.dev == w.dev && w'.accepted == w.accepted
            && Delivered(w, ReadCall(fd, count, f)) == a.data && w'.pos == w.pos[fd := a.pos]
  {
    RunOneMore(events, ReadCall(fd, count, f));
    RunRefinesLog(events);
    CallIsAnswered(Run(events), ReadCall(fd, count, f));
  }
}

/** Runs played on the device object: calls on any number of open files, in place, with the blocks
    they leave behind counted. */
module DeviceRuns {
  import opened Machine
  import opened Lines
  import opened LineRing
  import opened Driver
  import opened Runs
  import opened Device
  import opened Interface

  /** A write whose copy into an enlarged pending block fails, after the block was granted. */
  predicate AppendCopyFails(d: Dev, payload: bytes, f: Faults)
  {
    f.lockOk && d.pending.Some? && !f.copyOk && Granted(ToSizeT(ToInt32(|payload| + |d.pending.value|)), f)
  }

  /** The call is such a write. */
  predicate FailsToAppend(w: World, e: Event)
  {
    e.WriteCall? && e.fd in w.pos && AppendCopyFails(w.dev, Passed(e.payload), e.f)
  }

  /** How many calls of a run are such writes. */
  function AppendCopyFailures(events: seq<Event>): nat
  {
    if events == [] then 0
    else
      var init, last := events[..|events| - 1], events[|events| - 1];
      AppendCopyFailures(init) + Leaked(Run(init), last)
  }

  lemma FailuresStep(events: seq<Event>, j: nat, w: World)
    requires j < |events| && w == Run(events[..j])
    ensures AppendCopyFailures(events[..j + 1])
         == AppendCopyFailures(events[..j]) + Leaked(w, events[j])
  {
    assert events[..j + 1][..j] == events[..j];
  }

  type Files = map<nat, File>

  predicate Positions(pos: map<nat, int>)
  {
    forall fd :: fd in pos ==> IsPosition(pos[fd])
  }

  lemma RunPositions(events: seq<Event>)
    ensures Positions(Run(events).pos)
  {
    RunRefinesLog(events);
  }

  predicate Separate(files: Files)
  {
    forall a, b :: a in files && b in files && files[a] == files[b] ==> a == b
  }

  /** Different numbers are different open files, at the positions of the world. */
  ghost predicate At(files: Files, pos: map<nat, int>)
    reads files.Values
  {
    && files.Keys == pos.Keys && Separate(files)
    && forall fd :: fd in files ==> files[fd].fPos == pos[fd]
  }

  function Leaked(w: World, e: Event): nat
  {
    if FailsToAppend(w, e) then 1 else 0
  }

  /** A write leaks as its entry says. */
  lemma LeaksIff(d: Device, payload: bytes, f: Faults)
    requires d.Owned()
    ensures Leaks(d.aesdEntry, payload, f) <==> AppendCopyFails(d.model, payload, f)
  {
    d.PendingMatches();
  }

  /** A write on the device. */
  method PlayWrite(d: Device, payload: bytes, f: Faults) returns (ret: int)
    requires d.Valid() && |payload| <= MAX_RW_COUNT
    modifies d, d.heap, d.buffer, d.buffer.entry
    ensures d.Valid()
    ensures var w := Write(old(d.model), payload, f);
            && d.model == w.dev && ret == w.ret
            && d.accepted == if w.stored then old(d.accepted) + [payload] else old(d.accepted)
    ensures |d.leaked| == |old(d.leaked)| + if AppendCopyFails(old(d.model), payload, f) then 1 else 0
  {
    ghost var leaked, fails := d.leaked, AppendCopyFails(d.model, payload, f);
    LeaksIff(d, payload, f);
    ret := d.AesdWrite(payload, f);
    LeakCount(leaked, d.leaked, fails);
  }

  /** The same; the open files stay where they are. */
  method PlayWriteOnly(d: Device, files: Files, payload: bytes, f: Faults, ghost pos: map<nat, int>) returns (ret: int)
    requires d.Valid() && At(files, pos) && |payload| <= MAX_RW_COUNT
    modifies d, d.heap, d.buffer, d.buffer.entry
    ensures d.Valid() && At(files, pos)
    ensures var w := Write(old(d.model), payload, f);
            && d.model == w.dev && ret == w.ret
            && d.accepted == if w.stored then old(d.accepted) + [payload] else old(d.accepted)
    ensures |d.leaked| == |old(d.leaked)| + if AppendCopyFails(old(d.model), payload, f) then 1 else 0
  {
    ret := PlayWrite(d, payload, f);
  }

  /** Where a call that is no write leaves the open files. */
  function PositionsAfter(d: Dev, pos: map<nat, int>, e: Event): map<nat, int>
    requires WellFormed(d.ring)
  {
    if e.Open? then pos[e.fd := 0]
    else if e.fd in pos then pos[e.fd := DriverAnswer(d, pos[e.fd], e).pos]
    else pos
  }

  /** A read, a seek or an ioctl on an open file. */
  method PlayOnFile(d: Device, filp: File, e: Event) returns (answer: Answer)
    requires d.buffer.Valid() && d.model.ring == d.buffer.model && IsPosition(filp.fPos)
    requires !e.Open? && !e.WriteCall?
    modifies filp
    ensures answer == DriverAnswer(d.model, old(filp.fPos), e) && filp.fPos == answer.pos
  {
    var ret, data := 0, [];
    match e {
      case ReadCall(_, count, f) => ret, data := d.AesdRead(filp, count, f);
      case SeekCall(_, offset, whence, f) => ret := d.AesdLlseek(filp, offset, whence, f);
      case IoctlCall(_, known, cmd, off, f) => ret := d.AesdIoctl(filp, known, cmd, off, f);
    }
    answer := Answer(ret, data, filp.fPos);
  }

  /** A call on the open files that is no write; an open makes a file at 0. */
  method PlayOnFiles(d: Device, files: Files, e: Event, ghost pos: map<nat, int>)
    returns (files': Files, answer: Option<Answer>)
    requires d.buffer.Valid() && d.model.ring == d.buffer.model
    requires At(files, pos) && Positions(pos) && !e.WriteCall?
    modifies files.Values
    ensures At(files', PositionsAfter(d.model, pos, e)) && fresh(files'.Values - files.Values)
    ensures answer == DriverReply(World(d.model, pos, []), e)
  {
    files', answer := files, None;
    if e.Open? {
      var filp := new File();
      files', answer := files[e.fd := filp], Some(Answer(0, [], filp.fPos));
    } else if e.fd in files {
      var a := PlayOnFile(d, files[e.fd], e);
      answer := Some(a);
    }
  }

  /** The same; the device stays as it is. */
  method PlayOther(d: Device, files: Files, e: Event, ghost pos: map<nat, int>)
    returns (files': Files, answer: Option<Answer>)
    requires d.Valid()
    requires At(files, pos) && Positions(pos) && !e.WriteCall?
    modifies files.Values
    ensures d.Valid()
    ensures At(files', PositionsAfter(d.model, pos, e)) && fresh(files'.Values - files.Values)
    ensures answer == DriverReply(World(d.model, pos, []), e)
  {
    files', answer := PlayOnFiles(d, files, e, pos);
  }

  lemma ApplyOther(w: World, e: Event)
    requires WellFormed(w.dev.ring) && !e.WriteCall?
    ensures Apply(w, e) == World(w.dev, PositionsAfter(w.dev, w.pos, e), w.accepted) && Leaked(w, e) == 0
    ensures DriverReply(w, e) == DriverReply(World(w.dev, w.pos, []), e)
  {
  }

  lemma ApplyWrite(w: World, e: Event)
    requires WellFormed(w.dev.ring) && e.WriteCall?
    ensures var r := Write(w.dev, Passed(e.payload), e.f);
            && Apply(w, e) == (if e.fd !in w.pos then w else
                 World(r.dev, w.pos, if r.stored then w.accepted + [Passed(e.payload)] else w.accepted))
            && Leaked(w, e) == (if e.fd in w.pos && AppendCopyFails(w.dev, Passed(e.payload), e.f) then 1 else 0)
            && DriverReply(w, e) == if e.fd in w.pos then Some(Answer(r.ret, [], w.pos[e.fd])) else None
  {
  }

  /** The device object is in the state of the world, and so many blocks have leaked. */
  ghost predicate Shows(d: Device, w: World, leaks: nat)
    reads d
  {
    d.model == w.dev && d.accepted == w.accepted && |d.leaked| == leaks
  }

  /** One call of a run. */
  method PlayCall(d: Device, files: Files, e: Event, ghost w: World, ghost leaks: nat)
    returns (files': Files, answer: Option<Answer>)
    requires d.Valid() && Shows(d, w, leaks) && At(files, w.pos) && Positions(w.pos)
    modifies d, d.heap, d.buffer, d.buffer.entry, files.Values
    ensures d.Valid() && fresh(files'.Values - files.Values)
    ensures Shows(d, Apply(w, e), leaks + Leaked(w, e)) && At(files', Apply(w, e).pos)
    ensures answer == DriverReply(w, e)
  {
    files', answer := files, None;
    if !e.WriteCall? {
      ApplyOther(w, e);
      files', answer := PlayOther(d, files, e, w.pos);
    } else {
      ApplyWrite(w, e);
      if e.fd in files {
        var ret := PlayWriteOnly(d, files, Passed(e.payload), e.f, w.pos);
        answer := Some(Answer(ret, [], files[e.fd].fPos));
      }
    }
  }

  /** Live blocks after a run: one for each line in the ring, one if something is pending, and one
      for each write that failed to copy into an enlarged pending block. */
  function LiveBlocks(events: seq<Event>): nat
  {
    var w := Run(events);
    |LastTen(LogOf(w).history)| + (if w.dev.pending.Some? then 1 else 0) + AppendCopyFailures(events)
  }

  /** The answer to the next call of a run is the promised one. */
  lemma NextAnswer(events: seq<Event>, i: nat, w: World)
    requires i < |events| && w == Run(events[..i])
    ensures Answers(events[..i + 1]) == Answers(events[..i]) + [DriverReply(w, events[i])]
    ensures Positions(w.pos)
  {
    RunIsAsPromised(events[..i]);
    RunPositions(events[..i]);
    RunRefinesLog(events[..i]);
    CallIsAnswered(w, events[i]);
    AnswersStep(events, i);
  }

  /** The next call of a run, after the answers to the calls before it. */
  method PlayNext(d: Device, files: Files, events: seq<Event>, i: nat, sofar: seq<Option<Answer>>,
                  ghost w: World, ghost leaks: nat)
    returns (files': Files, answers: seq<Option<Answer>>, ghost after: World, ghost more: nat)
    requires i < |events| && w == Run(events[..i]) && leaks == AppendCopyFailures(events[..i])
    requires sofar == Answers(events[..i])
    requires d.Valid() && Shows(d, w, leaks) && At(files, w.pos)
    modifies d, d.heap, d.buffer, d.buffer.entry, files.Values
    ensures after == Run(events[..i + 1]) && more == AppendCopyFailures(events[..i + 1])
    ensures answers == Answers(events[..i + 1])
    ensures d.Valid() && Shows(d, after, more) && At(files', after.pos) && fresh(files'.Values - files.Values)
  {
    NextAnswer(events, i, w);
    RunStep(events, i);
    FailuresStep(events, i, w);
    var answer;
    files', answer := PlayCall(d, files, events[i], w, leaks);
    answers := sofar + [answer];
    after, more := Apply(w, events[i]), leaks + Leaked(w, events[i]);
  }

  lemma BlocksOfRun(d: Device, events: seq<Event>)
    requires d.Valid() && Shows(d, Run(events), AppendCopyFailures(events))
    ensures |d.heap.live| == LiveBlocks(events)
    ensures AppendCopyFailures(events) == 0 ==> |d.heap.live| <= SLOTS + 1
  {
    LiveBlockCount(d);
  }

  /** The calls of a run from the i-th on. */
  method PlayRest(d: Device, files: Files, events: seq<Event>, i: nat, sofar: seq<Option<Answer>>,
                  ghost w: World, ghost leaks: nat)
    returns (files': Files, answers: seq<Option<Answer>>)
    requires i <= |events| && w == Run(events[..i]) && leaks == AppendCopyFailures(events[..i])
    requires sofar == Answers(events[..i])
    requires d.Valid() && Shows(d, w, leaks) && At(files, w.pos)
    modifies d, d.heap, d.buffer, d.buffer.entry, files.Values
    ensures d.Valid() && Shows(d, Run(events), AppendCopyFailures(events)) && At(files', Run(events).pos)
    ensures answers == Answers(events)
    decreases |events| - i
  {
    if i == |events| {
      assert events[..i] == events;
      files', answers := files, sofar;
    } else {
      ghost var after, more;
      files', answers, after, more := PlayNext(d, files, events, i, sofar, w, leaks);
      files', answers := PlayRest(d, files', events, i + 1, answers, after, more);
    }
  }

  /** A whole run on the device object, from loading the driver on: every call answers as promised,
      the run ends in the state of the run, and as many blocks have leaked as writes failed to copy
      into an enlarged pending block. The live blocks are the lines in the ring, the pending block
      and those. */
  method PlayRun(events: seq<Event>) returns (d: Device, files: Files, answers: seq<Option<Answer>>)
    ensures answers == Answers(events) && At(files, RunView(events).pos)
    ensures d.Valid() && Shows(d, Run(events), AppendCopyFailures(events))
    ensures |d.heap.live| == LiveBlocks(events)
    ensures AppendCopyFailures(events) == 0 ==> |d.heap.live| <= 11
  {
    d := new Device();
    files, answers := PlayRest(d, map[], events, 0, [], BOOT, 0);
    RunIsAsPromised(events);
    BlocksOfRun(d, events);
  }

  /** No block leaks in a run exactly when none of its calls is such a write. */
  lemma {:induction false} NoLeakIff(events: seq<Event>)
    ensures AppendCopyFailures(events) == 0
       <==> forall i :: 0 <= i < |events| ==> !FailsToAppend(Run(events[..i]), events[i])
  {
    if events == [] {
    } else {
      var init, last := events[..|events| - 1], events[|events| - 1];
      NoLeakIff(init);
      forall i | 0 <= i < |init|
        ensures init[..i] == events[..i] && init[i] == events[i]
      {
      }
    }
  }
}

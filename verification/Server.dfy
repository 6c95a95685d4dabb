/** The socket server on top of the device: any number of connection threads, each opening the
    device, writing its message or seeking, and sending back what it reads, interleaved one
    mutex operation, system call or send at a time. */
module Server {
  import opened Machine
  import opened Lines
  import opened LineRing
  import opened CommitLog
  import opened Driver
  import opened Runs
  import opened Drain
  import opened Interface

  const BUFFERSIZE := 48000

  /** What a thread found in its receive buffer: a message to write, a seek command with its two
      numbers, or a seek command without them. */
  datatype Request = Message(text: bytes) | SeekCommand(cmd: nat, off: nat) | Unparsed

  /** Where a thread is; from Opening to Opened and from Locked to Drained it holds file_mutex. */
  datatype Phase =
    | Assembled
    | Opening
    | Opened
    | Ready
    | Locked
    | Written
    | Draining
    | Sending(chunk: bytes)
    | Drained
    | Finished

  /** `sent` is everything passed to send. The other fields describe the thread's own write or
      ioctl: how many payloads the device had accepted right after it, whether it met no fault,
      and whether the sending loop was later cut short by a failing call. */
  datatype Thread = Thread(request: Request, phase: Phase, sent: bytes, turn: nat, placed: bool, cut: bool)

  /** Each thread uses its own number as its file; every open makes a new file position. */
  datatype State = State(world: World, mutex: Option<nat>, threads: map<nat, Thread>)

  /** One turn of the scheduler, with what the kernel lets succeed in it. */
  datatype Choice = Choice(tid: nat, f: Faults, sendOk: bool)

  datatype Moved = Moved(world: World, thread: Thread)

  /** A step between two mutex operations. */
  function Move(w: World, tid: nat, th: Thread, c: Choice): (m: Moved)
    requires WellFormed(w.dev.ring)
    ensures WellFormed(m.world.dev.ring)
  {
    match th.phase
    case Opening => Moved(Apply(w, Open(tid)), th.(phase := Opened))
    case Locked =>
      var placed := c.f.lockOk && c.f.copyOk;
      if th.request.Message? then
        var w' := Apply(w, WriteCall(tid, th.request.text, c.f));
        Moved(w', th.(phase := Written, turn := |w'.accepted|, placed := placed && c.f.allocOk))
      else if th.request.SeekCommand? then
        var w' := Apply(w, IoctlCall(tid, true, th.request.cmd, th.request.off, c.f));
        Moved(w', th.(phase := Draining, turn := |w'.accepted|, placed := placed))
      else Moved(w, th)
    case Written => Moved(Apply(w, SeekCall(tid, 0, SeekSet, c.f)), th.(phase := Draining))
    case Draining =>
      if tid !in w.pos then Moved(w, th.(phase := Drained, cut := true))  // no such file: the read fails
      else
        var r := Read(w.dev, w.pos[tid], BUFFERSIZE, c.f);
        var w' := Apply(w, ReadCall(tid, BUFFERSIZE, c.f));
        if 0 < r.ret then Moved(w', th.(phase := Sending(r.data)))
        else Moved(w', th.(phase := Drained, cut := r.ret < 0))
    case Sending(chunk) =>
      // the seek branch leaves its loop when send fails, the message branch only logs it
      var stops := th.request.SeekCommand? && !c.sendOk;
      Moved(w, th.(phase := if stops then Drained else Draining, sent := th.sent + chunk, cut := stops))
    case _ => Moved(w, th)
  }

  /** The phases left by a call; the others are left by a mutex operation or not at all. */
  predicate Calls(p: Phase)
  {
    p.Opening? || p.Locked? || p.Written? || p.Draining? || p.Sending?
  }

  function Step(s: State, c: Choice): (s': State)
    requires WellFormed(s.world.dev.ring)
    ensures WellFormed(s'.world.dev.ring)
    ensures s'.threads.Keys == s.threads.Keys
  {
    if c.tid !in s.threads then s
    else
      var th := s.threads[c.tid];
      match th.phase
      case Assembled =>
        if s.mutex.Some? then s else State(s.world, Some(c.tid), s.threads[c.tid := th.(phase := Opening)])
      case Opened => State(s.world, None, s.threads[c.tid := th.(phase := Ready)])
      case Ready =>
        if th.request.Unparsed? then State(s.world, s.mutex, s.threads[c.tid := th.(phase := Finished)])
        else if s.mutex.Some? then s
        else State(s.world, Some(c.tid), s.threads[c.tid := th.(phase := Locked)])
      case Drained => State(s.world, None, s.threads[c.tid := th.(phase := Finished)])
      case Finished => s
      case _ =>
        var m := Move(s.world, c.tid, th, c);
        State(m.world, s.mutex, s.threads[c.tid := m.thread])
  }

  function Init(requests: map<nat, Request>): State
  {
    State(BOOT, None, map t | t in requests :: Thread(requests[t], Assembled, [], 0, false, false))
  }

  // ---------------------------------------------------------------- the invariant

  predicate Holds(p: Phase)
  {
    !p.Assembled? && !p.Ready? && !p.Finished?
  }

  /** The thread has made its write or ioctl. */
  predicate Placed(th: Thread)
  {
    th.phase.Written? || th.phase.Draining? || th.phase.Sending? || th.phase.Drained?
    || (th.phase.Finished? && !th.request.Unparsed?)
  }

  /** The history right after the thread's own write or ioctl. */
  function HistoryAt(w: World, th: Thread): seq<bytes>
    requires th.turn <= |w.accepted|
  {
    FeedAll(w.accepted[..th.turn]).history
  }

  function SeenAt(w: World, th: Thread): bytes
    requires th.turn <= |w.accepted|
  {
    Flatten(LastTen(HistoryAt(w, th)))
  }

  /** Where the reply starts. */
  function StartOf(request: Request, placed: bool, history: seq<bytes>): (start: int)
    ensures IsPosition(start)
  {
    if request.SeekCommand? && request.cmd < SLOTS && placed then SeekTarget(history, request.cmd, request.off) else 0
  }

  /** `sent` is what stands between the two positions. */
  predicate Progress(seen: bytes, start: int, pos: int, sent: bytes)
  {
    if start <= |seen| then 0 <= start <= pos <= |seen| && sent == seen[start..pos] else pos == start && sent == []
  }

  /** What is known of a thread in each phase, given the world. */
  predicate ThreadOk(w: World, t: nat, th: Thread)
  {
    && (!th.phase.Assembled? && !th.phase.Opening? ==> t in w.pos)
    && (th.phase.Opened? || th.phase.Ready? || th.phase.Locked? || th.phase.Written? ==> t in w.pos && w.pos[t] == 0)
    && (!Placed(th) ==> th.sent == [] && !th.cut)
    && (th.request.Unparsed? ==> !Placed(th) && !th.phase.Locked?)
    && (Placed(th) ==>
          && th.turn <= |w.accepted|
          && (!th.phase.Finished? ==> t in w.pos && th.turn == |w.accepted|)
          && var seen, start := SeenAt(w, th), StartOf(th.request, th.placed, HistoryAt(w, th));
             match th.phase
             case Written => th.request.Message? && th.sent == [] && !th.cut
             case Draining => Progress(seen, start, w.pos[t], th.sent) && !th.cut
             case Sending(chunk) => Progress(seen, start, w.pos[t], th.sent + chunk) && !th.cut
             case Drained => Progress(seen, start, w.pos[t], th.sent) && (!th.cut ==> |seen| <= w.pos[t])
             case _ => th.sent <= Rest(seen, start) && (!th.cut ==> th.sent == Rest(seen, start)))
  }

  /** file_mutex is held by exactly the thread whose phase says so. */
  predicate MutexOk(s: State)
  {
    && (s.mutex.Some? ==> s.mutex.value in s.threads)
    && forall t :: t in s.threads ==> (Holds(s.threads[t].phase) <==> s.mutex == Some(t))
  }

  predicate ThreadsOk(s: State)
  {
    forall t :: t in s.threads ==> ThreadOk(s.world, t, s.threads[t])
  }

  predicate Inv(s: State)
  {
    Consistent(s.world) && MutexOk(s) && ThreadsOk(s)
  }

  // ---------------------------------------------------------------- what a step keeps

  /** What another thread's step leaves alone: this thread's position, and every accepted payload
      so far; and no payload is added while this thread holds the mutex. */
  predicate LeavesAlone(w: World, w': World, t: nat, th: Thread)
  {
    && (t in w.pos ==> t in w'.pos && w'.pos[t] == w.pos[t])
    && w.accepted <= w'.accepted
    && (Holds(th.phase) ==> w'.accepted == w.accepted)
  }

  lemma OthersStayOk(w: World, w': World, t: nat, th: Thread)
    requires ThreadOk(w, t, th) && LeavesAlone(w, w', t, th)
    ensures ThreadOk(w', t, th)
  {
    if Placed(th) {
      assert w'.accepted[..th.turn] == w.accepted[..th.turn];
    }
  }

  /** A step between mutex operations touches the device through this thread's file only. */
  lemma MoveLeavesAlone(w: World, tid: nat, th: Thread, c: Choice, t: nat)
    requires WellFormed(w.dev.ring) && t != tid
    ensures var w' := Move(w, tid, th, c).world;
            (t in w.pos ==> t in w'.pos && w'.pos[t] == w.pos[t]) && w.accepted <= w'.accepted
  {
  }

  lemma MoveKeepsConsistent(w: World, tid: nat, th: Thread, c: Choice)
    requires Consistent(w)
    ensures Consistent(Move(w, tid, th, c).world)
  {
    match th.phase {
      case Opening => ApplyKeepsConsistent(w, Open(tid));
      case Locked =>
        if th.request.Message? {
          ApplyKeepsConsistent(w, WriteCall(tid, th.request.text, c.f));
        } else if th.request.SeekCommand? {
          ApplyKeepsConsistent(w, IoctlCall(tid, true, th.request.cmd, th.request.off, c.f));
        }
      case Written => ApplyKeepsConsistent(w, SeekCall(tid, 0, SeekSet, c.f));
      case Draining => ApplyKeepsConsistent(w, ReadCall(tid, BUFFERSIZE, c.f));
      case _ =>
    }
  }

  lemma WholePrefix(w: World, th: Thread)
    requires th.turn == |w.accepted|
    ensures HistoryAt(w, th) == LogOf(w).history
  {
    assert w.accepted[..th.turn] == w.accepted;
  }

  /** A thread whose file is where its reply starts has sent nothing so far. */
  lemma ReplyStarts(w: World, t: nat, th: Thread)
    requires th.phase.Draining? && !th.request.Unparsed? && th.sent == [] && !th.cut && th.turn == |w.accepted|
    requires t in w.pos && w.pos[t] == StartOf(th.request, th.placed, LogOf(w).history)
    ensures ThreadOk(w, t, th)
  {
    WholePrefix(w, th);
  }

  lemma IoctlMovesFile(w: World, tid: nat, th: Thread, c: Choice)
    requires WellFormed(w.dev.ring) && tid in w.pos && th.phase.Locked? && th.request.SeekCommand?
    ensures var w' := w.(pos := w.pos[tid := SeekTo(w.dev, w.pos[tid], true, th.request.cmd, th.request.off, c.f).pos]);
            Move(w, tid, th, c) ==
            Moved(w', th.(phase := Draining, turn := |w.accepted|, placed := c.f.lockOk && c.f.copyOk))
  {
  }

  /** The ioctl puts the file where the reply starts; a refused one leaves it at 0. */
  lemma IoctlStartsReply(w: World, tid: nat, th: Thread, c: Choice)
    requires Consistent(w) && ThreadOk(w, tid, th) && th.phase.Locked? && th.request.SeekCommand?
    ensures ThreadOk(Move(w, tid, th, c).world, tid, Move(w, tid, th, c).thread)
  {
    var m := Move(w, tid, th, c);
    IoctlMovesFile(w, tid, th, c);
    SeekToReturns(w.dev, LogOf(w), w.pos[tid], true, th.request.cmd, th.request.off, c.f);
    ReplyStarts(m.world, tid, m.thread);
  }

  lemma ProgressByRead(seen: bytes, start: int, pos: int, sent: bytes, data: bytes)
    requires Progress(seen, start, pos, sent) && 0 <= pos
    requires data != [] ==> pos + |data| <= |seen| && data == seen[pos..pos + |data|]
    ensures Progress(seen, start, pos + |data|, sent + data)
  {
    if data == [] {
      assert sent + data == sent;
    }
  }

  /** A read hands over the next part of what the thread saw at its turn. */
  lemma ReadShowsSeen(w: World, pos: int, th: Thread, f: Faults, seen: bytes)
    requires Consistent(w) && IsPosition(pos) && th.turn == |w.accepted| && seen == SeenAt(w, th)
    ensures var r := Read(w.dev, pos, BUFFERSIZE, f);
            && r.pos == pos + |r.data|
            && (r.data != [] ==> r.pos <= |seen| && r.data == seen[pos..r.pos])
            && (r.ret <= 0 ==> r.data == [])
            && (r.ret == 0 ==> |seen| <= pos)
  {
    WholePrefix(w, th);
    ReadIsSlice(w.dev, LogOf(w), pos, BUFFERSIZE, f);
  }

  /** A read moves the file and the reply on together; at end of file the reply is complete. */
  lemma ReadAdvances(w: World, tid: nat, th: Thread, f: Faults, r: ReadReply)
    requires Consistent(w) && ThreadOk(w, tid, th) && th.phase.Draining?
    requires r == Read(w.dev, w.pos[tid], BUFFERSIZE, f)
    ensures Progress(SeenAt(w, th), StartOf(th.request, th.placed, HistoryAt(w, th)), r.pos, th.sent + r.data)
    ensures r.ret <= 0 ==> r.data == [] && r.pos == w.pos[tid]
    ensures r.ret == 0 ==> |SeenAt(w, th)| <= r.pos
  {
    var seen, start := SeenAt(w, th), StartOf(th.request, th.placed, HistoryAt(w, th));
    ReadShowsSeen(w, w.pos[tid], th, f, seen);
    ProgressByRead(seen, start, w.pos[tid], th.sent, r.data);
  }

  lemma ReadCallMovesFile(w: World, tid: nat, f: Faults)
    requires WellFormed(w.dev.ring) && tid in w.pos
    ensures Apply(w, ReadCall(tid, BUFFERSIZE, f))
         == w.(pos := w.pos[tid := Read(w.dev, w.pos[tid], BUFFERSIZE, f).pos])
  {
  }

  lemma ReadKeepsOk(w: World, tid: nat, th: Thread, c: Choice)
    requires Consistent(w) && ThreadOk(w, tid, th) && th.phase.Draining?
    ensures ThreadOk(Move(w, tid, th, c).world, tid, Move(w, tid, th, c).thread)
  {
    var r := Read(w.dev, w.pos[tid], BUFFERSIZE, c.f);
    ReadAdvances(w, tid, th, c.f, r);
    ReadCallMovesFile(w, tid, c.f);
    if r.ret <= 0 {
      assert th.sent + r.data == th.sent;
      assert Move(w, tid, th, c).thread == th.(phase := Drained, cut := r.ret < 0);
    } else {
      assert Move(w, tid, th, c).thread == th.(phase := Sending(r.data));
    }
  }

  lemma MoveKeepsOk(w: World, tid: nat, th: Thread, c: Choice)
    requires Consistent(w) && ThreadOk(w, tid, th) && Holds(th.phase)
    ensures ThreadOk(Move(w, tid, th, c).world, tid, Move(w, tid, th, c).thread)
  {
    match th.phase {
      case Locked => if th.request.SeekCommand? { IoctlStartsReply(w, tid, th, c); }
      case Draining => ReadKeepsOk(w, tid, th, c);
      case _ =>
    }
  }

  lemma DrainedIsReply(seen: bytes, start: int, pos: int, sent: bytes, cut: bool)
    requires IsPosition(start) && Progress(seen, start, pos, sent) && (!cut ==> |seen| <= pos)
    ensures sent <= Rest(seen, start) && (!cut ==> sent == Rest(seen, start))
  {
  }

  lemma UnlockKeepsOk(w: World, t: nat, th: Thread)
    requires ThreadOk(w, t, th) && th.phase.Drained?
    ensures ThreadOk(w, t, th.(phase := Finished))
  {
    DrainedIsReply(SeenAt(w, th), StartOf(th.request, th.placed, HistoryAt(w, th)), w.pos[t], th.sent, th.cut);
  }

  lemma StepIsMove(s: State, c: Choice)
    requires WellFormed(s.world.dev.ring) && c.tid in s.threads && Calls(s.threads[c.tid].phase)
    ensures var m := Move(s.world, c.tid, s.threads[c.tid], c);
            Step(s, c) == State(m.world, s.mutex, s.threads[c.tid := m.thread])
  {
  }

  lemma MutexStepKeepsWorld(s: State, c: Choice)
    requires WellFormed(s.world.dev.ring) && c.tid in s.threads && !Calls(s.threads[c.tid].phase)
    ensures Step(s, c).world == s.world
    ensures forall t :: t in s.threads && t != c.tid ==> Step(s, c).threads[t] == s.threads[t]
  {
  }

  /** A thread that has made no call of its own yet may take or release file_mutex. */
  lemma WaitingMayMove(w: World, t: nat, th: Thread, p: Phase)
    requires ThreadOk(w, t, th) && !Placed(th) && !Placed(th.(phase := p))
    requires !p.Assembled? && !p.Opening? ==> t in w.pos
    requires p.Opened? || p.Ready? || p.Locked? ==> t in w.pos && w.pos[t] == 0
    requires p.Locked? ==> !th.request.Unparsed?
    ensures ThreadOk(w, t, th.(phase := p))
  {
  }

  /** Where a thread is after a turn that is no call. */
  function NextPhase(th: Thread, busy: bool): Phase
  {
    match th.phase
    case Assembled => if busy then Assembled else Opening
    case Opened => Ready
    case Ready => if th.request.Unparsed? then Finished else if busy then Ready else Locked
    case _ => Finished
  }

  lemma NextPhaseKeepsOk(w: World, t: nat, th: Thread, busy: bool)
    requires ThreadOk(w, t, th) && !Calls(th.phase)
    ensures ThreadOk(w, t, th.(phase := NextPhase(th, busy)))
  {
    if th.phase.Drained? {
      UnlockKeepsOk(w, t, th);
    } else if th.phase.Finished? {
      assert th.(phase := Finished) == th;
    } else {
      WaitingMayMove(w, t, th, NextPhase(th, busy));
    }
  }

  lemma MutexStepOwn(s: State, c: Choice)
    requires WellFormed(s.world.dev.ring) && c.tid in s.threads && !Calls(s.threads[c.tid].phase)
    ensures Step(s, c).threads[c.tid] == s.threads[c.tid].(phase := NextPhase(s.threads[c.tid], s.mutex.Some?))
  {
  }

  lemma MutexStepKeepsOwn(s: State, c: Choice)
    requires Inv(s) && c.tid in s.threads && !Calls(s.threads[c.tid].phase)
    ensures c.tid in Step(s, c).threads && ThreadOk(s.world, c.tid, Step(s, c).threads[c.tid])
  {
    MutexStepOwn(s, c);
    NextPhaseKeepsOk(s.world, c.tid, s.threads[c.tid], s.mutex.Some?);
  }

  /** The stepping thread itself. */
  lemma StepKeepsOwn(s: State, c: Choice)
    requires Inv(s) && c.tid in s.threads
    ensures Consistent(Step(s, c).world)
    ensures c.tid in Step(s, c).threads && ThreadOk(Step(s, c).world, c.tid, Step(s, c).threads[c.tid])
  {
    if Calls(s.threads[c.tid].phase) {
      StepIsMove(s, c);
      MoveKeepsConsistent(s.world, c.tid, s.threads[c.tid], c);
      MoveKeepsOk(s.world, c.tid, s.threads[c.tid], c);
    } else {
      MutexStepKeepsWorld(s, c);
      MutexStepKeepsOwn(s, c);
    }
  }

  /** Every other thread: only the holder of file_mutex makes calls, so nobody adds a payload
      while another thread is between its own write and its unlock. */
  lemma StepKeepsOthers(s: State, c: Choice, t: nat)
    requires Inv(s) && c.tid in s.threads && t in s.threads && t != c.tid
    ensures t in Step(s, c).threads && ThreadOk(Step(s, c).world, t, Step(s, c).threads[t])
  {
    if Calls(s.threads[c.tid].phase) {
      StepIsMove(s, c);
      MoveLeavesAlone(s.world, c.tid, s.threads[c.tid], c, t);
      OthersStayOk(s.world, Step(s, c).world, t, s.threads[t]);
    } else {
      MutexStepKeepsWorld(s, c);
    }
  }

  lemma MoveStillHolds(w: World, tid: nat, th: Thread, c: Choice)
    requires WellFormed(w.dev.ring)
    requires Holds(th.phase)
    ensures Holds(Move(w, tid, th, c).thread.phase)
  {
  }

  lemma StepKeepsMutex(s: State, c: Choice)
    requires WellFormed(s.world.dev.ring) && MutexOk(s)
    ensures MutexOk(Step(s, c))
  {
    if c.tid in s.threads && Calls(s.threads[c.tid].phase) {
      StepIsMove(s, c);
      MoveStillHolds(s.world, c.tid, s.threads[c.tid], c);
    }
  }

  lemma StepKeepsThreads(s: State, c: Choice)
    requires Inv(s) && c.tid in s.threads
    ensures ThreadsOk(Step(s, c))
  {
    var s' := Step(s, c);
    forall t | t in s'.threads
      ensures ThreadOk(s'.world, t, s'.threads[t])
    {
      if t == c.tid { StepKeepsOwn(s, c); } else { StepKeepsOthers(s, c, t); }
    }
  }

  /** What a thread's step writes: its message, in its one step from Locked, if nothing fails and
      the message fits a block together with what is pending. */
  function Writes(accepted: seq<bytes>, th: Thread, f: Faults): seq<bytes>
  {
    if th.phase.Locked? && th.request.Message? && Stores(FeedAll(accepted), Passed(th.request.text), f)
    then [Passed(th.request.text)] else []
  }

  function WrittenBy(s: State, c: Choice): seq<bytes>
  {
    if c.tid in s.threads then Writes(s.world.accepted, s.threads[c.tid], c.f) else []
  }

  lemma MoveWrites(w: World, tid: nat, th: Thread, c: Choice)
    requires Consistent(w) && ThreadOk(w, tid, th)
    ensures Move(w, tid, th, c).world.accepted == w.accepted + Writes(w.accepted, th, c.f)
  {
    if th.phase.Locked? && th.request.Message? {
      WriteAnswers(w.dev, LogOf(w), 0, Passed(th.request.text), c.f);
    }
  }

  /** A step adds to the accepted payloads exactly what it writes. */
  lemma StepWrites(s: State, c: Choice)
    requires Inv(s)
    ensures Step(s, c).world.accepted == s.world.accepted + WrittenBy(s, c)
  {
    if c.tid in s.threads {
      if Calls(s.threads[c.tid].phase) {
        StepIsMove(s, c);
        assert ThreadOk(s.world, c.tid, s.threads[c.tid]);
        MoveWrites(s.world, c.tid, s.threads[c.tid], c);
      } else {
        MutexStepKeepsWorld(s, c);
      }
    }
  }

  /** A call of the thread's sending loop that fails and ends the loop: a read, or, when it answers
      a seek, a send. */
  predicate Interrupts(s: State, c: Choice, t: nat)
    requires WellFormed(s.world.dev.ring) && t in s.threads
  {
    && c.tid == t && t in s.world.pos
    && match s.threads[t].phase
       case Draining => !c.f.lockOk || (!c.f.copyOk && s.world.pos[t] < |Content(s.world.dev.ring)|)
       case Sending(_) => s.threads[t].request.SeekCommand? && !c.sendOk
       case _ => false
  }

  lemma MoveCuts(w: World, t: nat, th: Thread, c: Choice)
    requires Consistent(w) && ThreadOk(w, t, th) && Holds(th.phase)
    ensures Move(w, t, th, c).thread.cut <==>
            match th.phase
            case Draining => !c.f.lockOk || (!c.f.copyOk && w.pos[t] < |Content(w.dev.ring)|)
            case Sending(_) => th.request.SeekCommand? && !c.sendOk
            case _ => th.cut
  {
    if th.phase.Draining? {
      ReadIsSlice(w.dev, LogOf(w), w.pos[t], BUFFERSIZE, c.f);
      ContentIsLastTen(w.dev.ring, LogOf(w).history);
    }
  }

  /** A reply is marked as cut by such a call and by nothing else. */
  lemma StepCuts(s: State, c: Choice, t: nat)
    requires Inv(s) && t in s.threads
    ensures Step(s, c).threads[t].cut <==> s.threads[t].cut || Interrupts(s, c, t)
  {
    if c.tid == t {
      assert ThreadOk(s.world, t, s.threads[t]);
      if Calls(s.threads[t].phase) {
        StepIsMove(s, c);
        MoveCuts(s.world, t, s.threads[t], c);
      } else {
        MutexStepOwn(s, c);
      }
    } else if c.tid in s.threads {
      StepKeepsThread(s, c, t);
    }
  }

  lemma StepKeepsThread(s: State, c: Choice, t: nat)
    requires WellFormed(s.world.dev.ring) && c.tid in s.threads && t in s.threads && t != c.tid
    ensures Step(s, c).threads[t] == s.threads[t]
  {
    if Calls(s.threads[c.tid].phase) {
      StepIsMove(s, c);
    } else {
      MutexStepKeepsWorld(s, c);
    }
  }

  /** Each send passes on the rest of one line, or 48000 bytes of it. */
  lemma SendsRestOfLine(s: State, c: Choice, t: nat)
    requires Inv(s) && t in s.threads && c.tid == t && s.threads[t].phase.Draining?
    requires Step(s, c).threads[t].phase.Sending?
    ensures t in s.world.pos && 0 <= s.world.pos[t] < |Content(s.world.dev.ring)|
    ensures Step(s, c).threads[t].phase.chunk == RestOfLine(Content(s.world.dev.ring), s.world.pos[t], 48_000)
  {
    assert ThreadOk(s.world, t, s.threads[t]);
    StepIsMove(s, c);
    CommittedAreLines(s.world.accepted);
    ReadAnswers(s.world.dev, LogOf(s.world), s.world.pos[t], BUFFERSIZE, c.f);
    ContentIsLastTen(s.world.dev.ring, LogOf(s.world).history);
  }

  /** What a step of one thread does to a thread's record of its own write or ioctl: the record is
      made once, in one step from Locked that makes the write if nothing prevents it, and never
      changed. */
  predicate TakesTurn(before: State, c: Choice, after: State, t: nat, turn: nat, placed: bool)
  {
    && c.tid == t && t in before.threads && before.threads[t].phase.Locked?
    && after.world.accepted == before.world.accepted + WrittenBy(before, c)
    && turn == |after.world.accepted|
    && placed == (c.f.lockOk && c.f.copyOk && (before.threads[t].request.SeekCommand? || c.f.allocOk))
  }

  lemma MovePlaces(w: World, tid: nat, th: Thread, c: Choice)
    requires WellFormed(w.dev.ring)
    requires Calls(th.phase) && (th.phase.Locked? ==> !th.request.Unparsed?)
    ensures var m := Move(w, tid, th, c);
            && m.thread.request == th.request
            && (Placed(th) ==> m.thread.turn == th.turn && m.thread.placed == th.placed)
            && (!Placed(th) && Placed(m.thread) ==>
                  && th.phase.Locked?
                  && m.thread.turn == |m.world.accepted|
                  && m.thread.placed == (c.f.lockOk && c.f.copyOk && (th.request.SeekCommand? || c.f.allocOk)))
  {
  }

  lemma MutexStepPlaces(s: State, c: Choice)
    requires WellFormed(s.world.dev.ring) && c.tid in s.threads && !Calls(s.threads[c.tid].phase)
    ensures var th, th' := s.threads[c.tid], Step(s, c).threads[c.tid];
            th' == th.(phase := th'.phase) && (Placed(th') ==> Placed(th))
  {
  }

  lemma StepPlaces(s: State, c: Choice, t: nat)
    requires Inv(s) && t in s.threads
    ensures t in Step(s, c).threads
    ensures var th, th' := s.threads[t], Step(s, c).threads[t];
            && th'.request == th.request
            && (Placed(th') ==>
                  if Placed(th) then th'.turn == th.turn && th'.placed == th.placed
                  else TakesTurn(s, c, Step(s, c), t, th'.turn, th'.placed))
  {
    StepWrites(s, c);
    if c.tid in s.threads {
      if Calls(s.threads[c.tid].phase) {
        StepIsMove(s, c);
        assert ThreadOk(s.world, c.tid, s.threads[c.tid]);
        MovePlaces(s.world, c.tid, s.threads[c.tid], c);
      } else {
        MutexStepKeepsWorld(s, c);
        MutexStepPlaces(s, c);
      }
    }
  }

  /** A step adds no payload, or the message of the thread that takes it. */
  lemma StepAccepts(s: State, c: Choice)
    requires WellFormed(s.world.dev.ring)
    ensures var before, after := s.world.accepted, Step(s, c).world.accepted;
            after == before ||
            (c.tid in s.threads && s.threads[c.tid].request.Message?
             && after == before + [Passed(s.threads[c.tid].request.text)])
  {
    if c.tid in s.threads {
      if Calls(s.threads[c.tid].phase) {
        StepIsMove(s, c);
        MoveAccepts(s.world, c.tid, s.threads[c.tid], c);
      } else {
        MutexStepKeepsWorld(s, c);
      }
    }
  }

  lemma MoveAccepts(w: World, tid: nat, th: Thread, c: Choice)
    requires WellFormed(w.dev.ring)
    ensures var after := Move(w, tid, th, c).world.accepted;
            after == w.accepted || (th.request.Message? && after == w.accepted + [Passed(th.request.text)])
  {
  }

  /** The thread's next step does something, whatever the kernel lets succeed in it. */
  ghost predicate CanMove(s: State, t: nat)
    requires WellFormed(s.world.dev.ring)
  {
    t in s.threads && forall c: Choice :: c.tid == t ==> Step(s, c) != s
  }

  lemma MoveChangesPhase(w: World, tid: nat, th: Thread, c: Choice)
    requires WellFormed(w.dev.ring)
    requires Calls(th.phase) && (th.phase.Locked? ==> !th.request.Unparsed?)
    ensures Move(w, tid, th, c).thread.phase != th.phase
  {
  }

  /** The holder of file_mutex can move; when nobody holds it, every unfinished thread can. */
  lemma HolderOrFreeCanMove(s: State, t: nat)
    requires Inv(s) && t in s.threads && !s.threads[t].phase.Finished?
    requires Holds(s.threads[t].phase) || s.mutex.None?
    ensures CanMove(s, t)
  {
    forall c: Choice | c.tid == t
      ensures Step(s, c) != s
    {
      if Calls(s.threads[t].phase) {
        StepIsMove(s, c);
        assert ThreadOk(s.world, t, s.threads[t]);
        MoveChangesPhase(s.world, t, s.threads[t], c);
      } else {
        assert Step(s, c).threads[t].phase != s.threads[t].phase;
      }
    }
  }

  /** Every step of every thread, whatever fails in it, keeps the invariant. */
  lemma StepKeepsInv(s: State, c: Choice)
    requires Inv(s)
    ensures Inv(Step(s, c))
  {
    StepKeepsMutex(s, c);
    if c.tid in s.threads {
      StepKeepsOwn(s, c);
      StepKeepsThreads(s, c);
    }
  }

  /** What the sending loop of a thread still has to do: two steps for each byte left to read,
      and one more between a read and its send. */
  function SendingWork(w: World, t: nat, th: Thread): nat
    requires WellFormed(w.dev.ring) && t in w.pos && 0 <= w.pos[t]
  {
    2 * |Rest(Content(w.dev.ring), w.pos[t])| + if th.phase.Sending? then 1 else 0
  }

  lemma ReadShortensRest(w: World, pos: int, f: Faults, r: ReadReply, whole: bytes)
    requires Consistent(w) && IsPosition(pos) && r == Read(w.dev, pos, BUFFERSIZE, f) && whole == Content(w.dev.ring)
    ensures 0 <= r.pos && (0 < r.ret ==> |Rest(whole, r.pos)| < |Rest(whole, pos)|)
  {
    ReadIsSlice(w.dev, LogOf(w), pos, BUFFERSIZE, f);
    ContentIsLastTen(w.dev.ring, LogOf(w).history);
  }

  lemma MoveShortensWork(w: World, t: nat, th: Thread, c: Choice)
    requires Consistent(w) && t in w.pos && (th.phase.Draining? || th.phase.Sending?)
    ensures var m := Move(w, t, th, c);
            && t in m.world.pos && 0 <= m.world.pos[t]
            && (m.thread.phase.Drained? ||
                 ((m.thread.phase.Draining? || m.thread.phase.Sending?)
                  && SendingWork(m.world, t, m.thread) < SendingWork(w, t, th)))
  {
    if th.phase.Draining? {
      var r := Read(w.dev, w.pos[t], BUFFERSIZE, c.f);
      ReadShortensRest(w, w.pos[t], c.f, r, Content(w.dev.ring));
      ReadCallMovesFile(w, t, c.f);
    }
  }

  /** The sending loop ends in every interleaving: each of the thread's own steps ends it or
      shortens the work left, and no step of another thread adds to it. */
  lemma SendingTerminates(s: State, c: Choice, t: nat)
    requires Inv(s) && t in s.threads && (s.threads[t].phase.Draining? || s.threads[t].phase.Sending?)
    ensures t in s.world.pos && 0 <= s.world.pos[t]
    ensures var s' := Step(s, c);
            var p' := s'.threads[t].phase;
            && s'.mutex == s.mutex == Some(t)
            && t in s'.world.pos && 0 <= s'.world.pos[t]
            && if c.tid != t then s'.world == s.world && s'.threads[t] == s.threads[t]
               else
                 p'.Drained? ||
                 ((p'.Draining? || p'.Sending?)
                  && SendingWork(s'.world, t, s'.threads[t]) < SendingWork(s.world, t, s.threads[t]))
  {
    assert ThreadOk(s.world, t, s.threads[t]);
    assert s.mutex == Some(t);
    if c.tid == t {
      MoveShortensWork(s.world, t, s.threads[t], c);
      StepIsMove(s, c);
    } else if c.tid in s.threads {
      MutexStepKeepsWorld(s, c);
    }
  }
}

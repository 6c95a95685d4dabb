/** What clients of the server are promised, over every interleaving of every set of requests. */
module ServerRuns {
  import opened Lines
  import opened LineRing
  import opened CommitLog
  import opened Driver
  import opened Runs
  import opened Drain
  import opened Server

  lemma InitInv(requests: map<nat, Request>)
    ensures Inv(Init(requests))
  {
    RunRefinesLog([]);
  }

  /** The state after a schedule: any finite sequence of turns, taken by any threads. */
  function Play(requests: map<nat, Request>, schedule: seq<Choice>): (s: State)
    ensures WellFormed(s.world.dev.ring) && s.threads.Keys == requests.Keys
  {
    if schedule == [] then Init(requests)
    else Step(Play(requests, schedule[..|schedule| - 1]), schedule[|schedule| - 1])
  }

  /** The invariant holds in every reachable state. */
  lemma {:induction false} PlayKeepsInv(requests: map<nat, Request>, schedule: seq<Choice>)
    ensures Inv(Play(requests, schedule))
  {
    if schedule == [] {
      InitInv(requests);
    } else {
      PlayKeepsInv(requests, schedule[..|schedule| - 1]);
      StepKeepsInv(Play(requests, schedule[..|schedule| - 1]), schedule[|schedule| - 1]);
    }
  }

  lemma PlaySnoc(requests: map<nat, Request>, schedule: seq<Choice>, c: Choice)
    ensures Play(requests, schedule + [c]) == Step(Play(requests, schedule), c)
  {
    assert (schedule + [c])[..|schedule|] == schedule;
  }

  lemma PlayStep(requests: map<nat, Request>, schedule: seq<Choice>, i: nat)
    requires i < |schedule|
    ensures Play(requests, schedule[..i + 1]) == Step(Play(requests, schedule[..i]), schedule[i])
  {
    assert schedule[..i + 1][..i] == schedule[..i];
  }

  // ---------------------------------------------------------------- one thread through a run

  lemma {:induction false} RequestsStay(requests: map<nat, Request>, schedule: seq<Choice>, t: nat)
    requires t in requests
    ensures Play(requests, schedule).threads[t].request == requests[t]
  {
    if schedule == [] {
    } else {
      RequestsStay(requests, schedule[..|schedule| - 1], t);
      PlayKeepsInv(requests, schedule[..|schedule| - 1]);
      StepPlaces(Play(requests, schedule[..|schedule| - 1]), schedule[|schedule| - 1], t);
    }
  }

  /** The thread made its write or ioctl in turn i of the schedule, with this record of it. */
  predicate TurnAt(requests: map<nat, Request>, schedule: seq<Choice>, t: nat, i: nat, turn: nat, placed: bool)
    requires i < |schedule|
  {
    TakesTurn(Play(requests, schedule[..i]), schedule[i], Play(requests, schedule[..i + 1]), t, turn, placed)
  }

  /** One turn of a schedule is the thread's own, or leaves its record as it was. */
  lemma OneTurn(requests: map<nat, Request>, schedule: seq<Choice>, i: nat, t: nat, th: Thread, th': Thread)
    requires i < |schedule| && t in requests
    requires th == Play(requests, schedule[..i]).threads[t] && th' == Play(requests, schedule[..i + 1]).threads[t]
    ensures Placed(th') ==>
              if Placed(th) then th'.turn == th.turn && th'.placed == th.placed
              else TurnAt(requests, schedule, t, i, th'.turn, th'.placed)
  {
    PlayStep(requests, schedule, i);
    PlayKeepsInv(requests, schedule[..i]);
    StepPlaces(Play(requests, schedule[..i]), schedule[i], t);
  }

  lemma NothingPlacedYet(requests: map<nat, Request>, schedule: seq<Choice>, t: nat)
    requires t in requests
    ensures !Placed(Play(requests, schedule[..0]).threads[t])
  {
    assert schedule[..0] == [];
  }

  /** The turn, between two moments, in which a thread made its write or ioctl. */
  lemma {:induction false} FindTurn(requests: map<nat, Request>, schedule: seq<Choice>, from: nat, n: nat, t: nat,
                                    th: Thread) returns (i: nat)
    requires from <= n <= |schedule| && t in requests
    requires !Placed(Play(requests, schedule[..from]).threads[t])
    requires th == Play(requests, schedule[..n]).threads[t] && Placed(th)
    ensures from <= i < n && TurnAt(requests, schedule, t, i, th.turn, th.placed)
  {
    var before := Play(requests, schedule[..n - 1]).threads[t];
    OneTurn(requests, schedule, n - 1, t, before, th);
    if Placed(before) {
      i := FindTurn(requests, schedule, from, n - 1, t, before);
    } else {
      i := n - 1;
    }
  }

  lemma {:induction false} AcceptedStays(requests: map<nat, Request>, schedule: seq<Choice>, i: nat)
    requires i <= |schedule|
    ensures Play(requests, schedule[..i]).world.accepted <= Play(requests, schedule).world.accepted
    decreases |schedule|
  {
    var n := |schedule| - 1;
    if i == |schedule| {
      assert schedule[..i] == schedule;
    } else {
      AcceptedStays(requests, schedule[..n], i);
      assert schedule[..n][..i] == schedule[..i];
      StepAccepts(Play(requests, schedule[..n]), schedule[n]);
    }
  }

  // ---------------------------------------------------------------- the reply is a snapshot

  /** The reply a request calls for when the ring holds the newest lines of this history. */
  function Reply(request: Request, placed: bool, history: seq<bytes>): bytes
  {
    Rest(Flatten(LastTen(history)), StartOf(request, placed, history))
  }

  /** A thread that has finished passed to send the reply called for by the history at its own
      write or ioctl, all of it unless a call of its sending loop failed, and then a prefix. */
  lemma FinishedSentReply(w: World, t: nat, th: Thread)
    requires ThreadOk(w, t, th) && th.phase.Finished? && !th.request.Unparsed?
    ensures th.turn <= |w.accepted|
    ensures th.sent <= Reply(th.request, th.placed, HistoryAt(w, th))
    ensures !th.cut ==> th.sent == Reply(th.request, th.placed, HistoryAt(w, th))
  {
  }

  /** The thread was sent the reply for the ring as it is in this world, the whole of it or a
      prefix. */
  predicate Answered(th: Thread, now: World, whole: bool)
    requires WellFormed(now.dev.ring)
  {
    var reply := Rest(Content(now.dev.ring), StartOf(th.request, th.placed, LogOf(now).history));
    th.sent <= reply && (whole ==> th.sent == reply)
  }

  /** In turn i of the schedule a call of the thread's sending loop failed and ended the loop. */
  predicate InterruptedAt(requests: map<nat, Request>, schedule: seq<Choice>, t: nat, i: nat)
    requires t in requests && i < |schedule|
  {
    Interrupts(Play(requests, schedule[..i]), schedule[i], t)
  }

  predicate Interrupted(requests: map<nat, Request>, schedule: seq<Choice>, t: nat)
    requires t in requests
  {
    exists i :: 0 <= i < |schedule| && InterruptedAt(requests, schedule, t, i)
  }

  /** A schedule interrupts a reply in its last turn or before it. */
  lemma InterruptedStep(requests: map<nat, Request>, schedule: seq<Choice>, t: nat, init: seq<Choice>, c: Choice)
    requires t in requests && schedule == init + [c]
    ensures Interrupted(requests, schedule, t)
       <==> Interrupted(requests, init, t) || Interrupts(Play(requests, init), c, t)
  {
    var n := |init|;
    assert schedule[..n] == init && schedule[n] == c;
    forall i | 0 <= i < n
      ensures InterruptedAt(requests, schedule, t, i) == InterruptedAt(requests, init, t, i)
    {
      assert schedule[..i] == init[..i] && schedule[i] == init[i];
    }
    assert InterruptedAt(requests, schedule, t, n) == Interrupts(Play(requests, init), c, t);
  }

  /** The mark on a reply says exactly that: some turn of the schedule interrupted it. */
  lemma {:induction false} CutIffInterrupted(requests: map<nat, Request>, schedule: seq<Choice>, t: nat)
    requires t in requests
    ensures Play(requests, schedule).threads[t].cut <==> Interrupted(requests, schedule, t)
  {
    if schedule == [] {
      assert !Play(requests, schedule).threads[t].cut;
    } else {
      var init, c := schedule[..|schedule| - 1], schedule[|schedule| - 1];
      CutIffInterrupted(requests, init, t);
      PlayKeepsInv(requests, init);
      StepCuts(Play(requests, init), c, t);
      assert schedule == init + [c];
      InterruptedStep(requests, schedule, t, init, c);
    }
  }

  /** From the end of a run, the world right after the thread's own write or ioctl. */
  lemma AnsweredAtTurn(w: World, t: nat, th: Thread, now: World)
    requires ThreadOk(w, t, th) && th.phase.Finished? && !th.request.Unparsed?
    requires Consistent(now) && th.turn == |now.accepted| && now.accepted <= w.accepted
    ensures Answered(th, now, !th.cut)
  {
    FinishedSentReply(w, t, th);
    assert w.accepted[..th.turn] == now.accepted;
    ContentIsLastTen(now.dev.ring, LogOf(now).history);
  }

  /** The thread made its write or ioctl in turn i, and was sent the reply for the ring right
      after it: the whole reply, unless a turn of the schedule interrupted it. */
  predicate AnsweredInTurn(requests: map<nat, Request>, schedule: seq<Choice>, t: nat, i: nat)
    requires t in requests
  {
    && i < |schedule|
    && var th := Play(requests, schedule).threads[t];
       && TurnAt(requests, schedule, t, i, th.turn, th.placed)
       && th.request == requests[t]
       && Answered(th, Play(requests, schedule[..i + 1]).world, !Interrupted(requests, schedule, t))
  }

  /** From the state at the end of a run, the state right after turn i. */
  lemma AnsweredFromEnd(requests: map<nat, Request>, schedule: seq<Choice>, i: nat, t: nat, th: Thread, now: State)
    requires i < |schedule| && t in requests && th == Play(requests, schedule).threads[t]
    requires th.phase.Finished? && !th.request.Unparsed?
    requires now == Play(requests, schedule[..i + 1]) && th.turn == |now.world.accepted|
    ensures Answered(th, now.world, !th.cut)
  {
    AcceptedStays(requests, schedule, i + 1);
    PlayKeepsInv(requests, schedule);
    PlayKeepsInv(requests, schedule[..i + 1]);
    var w := Play(requests, schedule).world;
    assert ThreadOk(w, t, th);
    AnsweredAtTurn(w, t, th, now.world);
  }

  /** A thread whose turn is still to come at some moment has it after that moment. */
  lemma AtomicReplyAfter(requests: map<nat, Request>, schedule: seq<Choice>, from: nat, t: nat) returns (i: nat)
    requires t in requests && !requests[t].Unparsed?
    requires Play(requests, schedule).threads[t].phase.Finished?
    requires from <= |schedule| && !Placed(Play(requests, schedule[..from]).threads[t])
    ensures from <= i && AnsweredInTurn(requests, schedule, t, i)
  {
    var th := Play(requests, schedule).threads[t];
    RequestsStay(requests, schedule, t);
    CutIffInterrupted(requests, schedule, t);
    assert schedule[..|schedule|] == schedule;
    i := FindTurn(requests, schedule, from, |schedule|, t, th);
    AnsweredFromEnd(requests, schedule, i, t, th, Play(requests, schedule[..i + 1]));
  }

  /** Atomic replies: in every interleaving, with any calls failing, the bytes a finished thread
      has passed to send are determined by the ring as it was right after that thread's own
      write or ioctl. For a message they are the whole ring content of that moment; for a seek,
      the content from the position the ioctl set. They are complete unless a call of the
      thread's own sending loop failed in some turn of the schedule (a read, or a send of a seek
      reply), and then they are a prefix. */
  lemma AtomicReply(requests: map<nat, Request>, schedule: seq<Choice>, t: nat) returns (i: nat)
    requires t in requests && !requests[t].Unparsed?
    requires Play(requests, schedule).threads[t].phase.Finished?
    ensures AnsweredInTurn(requests, schedule, t, i)
  {
    NothingPlacedYet(requests, schedule, t);
    i := AtomicReplyAfter(requests, schedule, 0, t);
  }

  // ---------------------------------------------------------------- a frozen server

  lemma WedgedMoveKeepsRing(w: World, tid: nat, th: Thread, c: Choice)
    requires Consistent(w) && Wedged(LogOf(w))
    ensures Move(w, tid, th, c).world.dev.ring == w.dev.ring
  {
    if th.phase.Locked? && th.request.Message? {
      WedgedApplyKeepsRing(w, WriteCall(tid, th.request.text, c.f));
    }
  }

  lemma WedgedStepKeepsRing(s: State, c: Choice)
    requires Inv(s) && Wedged(LogOf(s.world))
    ensures Step(s, c).world.dev.ring == s.world.dev.ring
  {
    if c.tid in s.threads {
      if Calls(s.threads[c.tid].phase) {
        StepIsMove(s, c);
        WedgedMoveKeepsRing(s.world, c.tid, s.threads[c.tid], c);
      } else {
        MutexStepKeepsWorld(s, c);
      }
    }
  }

  lemma WedgedStepKeepsHistory(s: State, c: Choice)
    requires Inv(s) && Wedged(LogOf(s.world))
    ensures LogOf(Step(s, c).world).history == LogOf(s.world).history && Wedged(LogOf(Step(s, c).world))
  {
    StepAccepts(s, c);
    if Step(s, c).world.accepted != s.world.accepted {
      CommittedAreLines(s.world.accepted);
      FeedAllSnoc(s.world.accepted, Passed(s.threads[c.tid].request.text));
      FeedWedged(LogOf(s.world), Passed(s.threads[c.tid].request.text));
    }
  }

  /** The device shows its readers the same in both worlds, and will in all later ones. */
  predicate FrozenBetween(w: World, w': World)
  {
    Wedged(LogOf(w')) && w'.dev.ring == w.dev.ring && LogOf(w').history == LogOf(w).history
  }

  lemma FrozenStep(w: World, s: State, c: Choice)
    requires Inv(s) && FrozenBetween(w, s.world)
    ensures FrozenBetween(w, Step(s, c).world)
  {
    WedgedStepKeepsRing(s, c);
    WedgedStepKeepsHistory(s, c);
  }

  lemma FrozenTurn(requests: map<nat, Request>, schedule: seq<Choice>, c: Choice, w: World)
    requires FrozenBetween(w, Play(requests, schedule).world)
    ensures FrozenBetween(w, Play(requests, schedule + [c]).world)
  {
    PlayKeepsInv(requests, schedule);
    FrozenStep(w, Play(requests, schedule), c);
    PlaySnoc(requests, schedule, c);
  }

  /** A frozen server stays frozen. */
  lemma {:induction false} StaysFrozen(requests: map<nat, Request>, init: seq<Choice>, more: seq<Choice>, w: World)
    requires FrozenBetween(w, Play(requests, init).world)
    ensures FrozenBetween(w, Play(requests, init + more).world)
  {
    if more == [] {
      assert init + more == init;
    } else {
      var most, c := init + more[..|more| - 1], more[|more| - 1];
      StaysFrozen(requests, init, more[..|more| - 1], w);
      FrozenTurn(requests, most, c, w);
      assert init + more == most + [c];
    }
  }

  /** Once a message with an inner newline has been accepted, no turn of anybody changes the ring
      or the history again. */
  lemma FrozenServer(requests: map<nat, Request>, schedule: seq<Choice>, n: nat, m: nat, w: World, w': World)
    requires n <= m <= |schedule| && exists k :: 0 <= k < |w.accepted| && HasInnerNewline(w.accepted[k])
    requires w == Play(requests, schedule[..n]).world && w' == Play(requests, schedule[..m]).world
    ensures w'.dev.ring == w.dev.ring && LogOf(w').history == LogOf(w).history
    ensures FrozenBetween(w, w')
  {
    WedgedIffInnerNewline(w.accepted);
    StaysFrozen(requests, schedule[..n], schedule[n..m], w);
    assert schedule[..n] + schedule[n..m] == schedule[..m];
  }

  lemma AnsweredAlike(th: Thread, w: World, w': World, whole: bool)
    requires WellFormed(w.dev.ring) && FrozenBetween(w, w') && Answered(th, w', whole)
    ensures Answered(th, w, whole)
  {
  }

  /** From then on every reply to a request whose turn is still to come is the one the frozen ring
      gives: for messages, the same bytes for every client. */
  lemma FrozenReplies(requests: map<nat, Request>, schedule: seq<Choice>, n: nat, t: nat, frozen: World)
    requires n <= |schedule| && t in requests && !requests[t].Unparsed?
    requires frozen == Play(requests, schedule[..n]).world
    requires exists k :: 0 <= k < |frozen.accepted| && HasInnerNewline(frozen.accepted[k])
    requires !Placed(Play(requests, schedule[..n]).threads[t]) && Play(requests, schedule).threads[t].phase.Finished?
    ensures Answered(Play(requests, schedule).threads[t], frozen, !Interrupted(requests, schedule, t))
  {
    var i := AtomicReplyAfter(requests, schedule, n, t);
    var now := Play(requests, schedule[..i + 1]).world;
    FrozenServer(requests, schedule, n, i + 1, frozen, now);
    AnsweredAlike(Play(requests, schedule).threads[t], frozen, now, !Interrupted(requests, schedule, t));
  }

  // ---------------------------------------------------------------- end to end

  /** Every message of the run is one line. */
  predicate AllLines(requests: map<nat, Request>)
  {
    forall t :: t in requests && requests[t].Message? ==> IsLine(requests[t].text) && |requests[t].text| < BUFFERSIZE
  }

  /** The payloads the device accepted are messages of the run. */
  lemma {:induction false} AcceptedAreLines(requests: map<nat, Request>, schedule: seq<Choice>)
    requires AllLines(requests)
    ensures forall k :: 0 <= k < |Play(requests, schedule).world.accepted| ==>
              IsLine(Play(requests, schedule).world.accepted[k])
  {
    if schedule == [] {
    } else {
      var n := |schedule| - 1;
      var before, c := Play(requests, schedule[..n]), schedule[n];
      AcceptedAreLines(requests, schedule[..n]);
      StepAccepts(before, c);
      if Step(before, c).world.accepted != before.world.accepted {
        RequestsStay(requests, schedule[..n], c.tid);
        assert Passed(requests[c.tid].text) == requests[c.tid].text;
      }
    }
  }

  /** A line is stored exactly when nothing fails: nothing is pending, so it fits. */
  lemma LineIsStored(s: State, c: Choice)
    requires Inv(s) && c.tid in s.threads && s.threads[c.tid].phase.Locked? && s.threads[c.tid].request.Message?
    requires |s.threads[c.tid].request.text| < BUFFERSIZE
    requires LogOf(s.world).pending == []
    ensures Step(s, c).world.accepted
         == s.world.accepted + if c.f == NO_FAULTS then [s.threads[c.tid].request.text] else []
  {
    var text := s.threads[c.tid].request.text;
    assert ThreadOk(s.world, c.tid, s.threads[c.tid]);
    WriteRefinesFeed(s.world.dev, LogOf(s.world), text, c.f);
    assert Passed(text) == text;
    StepIsMove(s, c);
  }

  /** While the device has accepted only lines, its content is the newest ten of them. */
  lemma ContentOfLines(w: World)
    requires Consistent(w) && forall k :: 0 <= k < |w.accepted| ==> IsLine(w.accepted[k])
    ensures Content(w.dev.ring) == Flatten(LastTen(w.accepted)) && LogOf(w).pending == []
  {
    LinesAreCommitted(w.accepted);
    ContentIsLastTen(w.dev.ring, LogOf(w).history);
  }

  lemma AnsweredWithLines(th: Thread, now: World)
    requires Consistent(now) && forall k :: 0 <= k < |now.accepted| ==> IsLine(now.accepted[k])
    requires Answered(th, now, true) && th.request.Message?
    ensures th.sent == Flatten(LastTen(now.accepted))
  {
    ContentOfLines(now);
  }

  /** End to end: when every message is one line, a client whose thread finished without a failing read received
      the newest ten messages accepted by the device up to its own turn, and its own message is
      the last of them exactly if its write met no fault. The accepted messages are one common order for
      all clients. */
  lemma EchoesNewestTen(requests: map<nat, Request>, schedule: seq<Choice>, t: nat) returns (i: nat)
    requires AllLines(requests) && t in requests && requests[t].Message?
    requires Play(requests, schedule).threads[t].phase.Finished? && !Interrupted(requests, schedule, t)
    ensures i < |schedule| && schedule[i].tid == t
    ensures var sofar := Play(requests, schedule[..i + 1]).world.accepted;
            && sofar <= Play(requests, schedule).world.accepted
            && Play(requests, schedule).threads[t].sent == Flatten(LastTen(sofar))
            && sofar == Play(requests, schedule[..i]).world.accepted
                        + if schedule[i].f == NO_FAULTS then [requests[t].text] else []
  {
    i := AtomicReply(requests, schedule, t);
    AcceptedStays(requests, schedule, i + 1);
    AcceptedAreLines(requests, schedule[..i + 1]);
    PlayKeepsInv(requests, schedule[..i + 1]);
    AnsweredWithLines(Play(requests, schedule).threads[t], Play(requests, schedule[..i + 1]).world);
    OwnMessageIsStored(requests, schedule, i);
  }

  lemma OwnMessageIsStored(requests: map<nat, Request>, schedule: seq<Choice>, i: nat)
    requires AllLines(requests) && i < |schedule|
    requires var t := schedule[i].tid;
             t in requests && requests[t].Message? && Play(requests, schedule[..i]).threads[t].phase.Locked?
    ensures Play(requests, schedule[..i + 1]).world.accepted
         == Play(requests, schedule[..i]).world.accepted
            + if schedule[i].f == NO_FAULTS then [requests[schedule[i].tid].text] else []
  {
    var before := Play(requests, schedule[..i]);
    RequestsStay(requests, schedule[..i], schedule[i].tid);
    AcceptedAreLines(requests, schedule[..i]);
    PlayKeepsInv(requests, schedule[..i]);
    ContentOfLines(before.world);
    LineIsStored(before, schedule[i]);
    PlayStep(requests, schedule, i);
  }
}

/** The server always gets done: a measure that every step shortens. */
module Progress {
  import opened Machine
  import opened LineRing
  import opened Driver
  import opened Runs
  import opened Server
  import opened ServerRuns
  import opened SerialOrder

  /** How far a phase is from Finished; the two phases of the sending loop are equally far. */
  function Distance(p: Phase): nat
  {
    match p
    case Assembled => 8
    case Opening => 7
    case Opened => 6
    case Ready => 5
    case Locked => 4
    case Written => 3
    case Draining => 2
    case Sending(_) => 2
    case Drained => 1
    case Finished => 0
  }

  /** One item for each thread and each phase it has ahead of it. */
  function Ahead(s: State): set<(nat, nat)>
  {
    set t, k | t in s.threads && 0 <= k < Distance(s.threads[t].phase) :: (t, k)
  }

  /** The work of the sending loop that is under way, if one is. */
  function Work(s: State): nat
    requires WellFormed(s.world.dev.ring)
  {
    if s.mutex.Some? && s.mutex.value in s.threads && s.mutex.value in s.world.pos && 0 <= s.world.pos[s.mutex.value]
    then SendingWork(s.world, s.mutex.value, s.threads[s.mutex.value]) else 0
  }

  /** The measure is smaller: fewer items ahead, or the same and less work in the sending loop. */
  predicate Nearer(s': State, s: State)
    requires WellFormed(s.world.dev.ring) && WellFormed(s'.world.dev.ring)
  {
    Ahead(s') < Ahead(s) || (Ahead(s') == Ahead(s) && Work(s') < Work(s))
  }

  lemma AheadShrinks(s: State, s': State, t: nat)
    requires t in s.threads && s'.threads.Keys == s.threads.Keys
    requires forall u :: u in s.threads && u != t ==> s'.threads[u] == s.threads[u]
    ensures Distance(s'.threads[t].phase) < Distance(s.threads[t].phase) ==> Ahead(s') < Ahead(s)
    ensures Distance(s'.threads[t].phase) == Distance(s.threads[t].phase) ==> Ahead(s') == Ahead(s)
  {
    if Distance(s'.threads[t].phase) < Distance(s.threads[t].phase) {
      assert (t, Distance(s'.threads[t].phase)) in Ahead(s) - Ahead(s');
    }
  }

  lemma StepMovesOne(s: State, c: Choice)
    requires WellFormed(s.world.dev.ring) && c.tid in s.threads
    ensures forall u :: u in s.threads && u != c.tid ==> Step(s, c).threads[u] == s.threads[u]
  {
    if Calls(s.threads[c.tid].phase) {
      StepIsMove(s, c);
    } else {
      MutexStepKeepsWorld(s, c);
    }
  }

  lemma MoveComesNearer(w: World, t: nat, th: Thread, c: Choice)
    requires WellFormed(w.dev.ring) && Calls(th.phase) && (th.phase.Locked? ==> !th.request.Unparsed?)
    requires !th.phase.Draining? && !th.phase.Sending?
    ensures Distance(Move(w, t, th, c).thread.phase) < Distance(th.phase)
  {
  }

  lemma MutexStepComesNearer(s: State, c: Choice)
    requires WellFormed(s.world.dev.ring) && c.tid in s.threads && Step(s, c) != s
    requires !Calls(s.threads[c.tid].phase)
    ensures Distance(Step(s, c).threads[c.tid].phase) < Distance(s.threads[c.tid].phase)
  {
  }

  /** A step outside the sending loop brings its thread nearer to the end, or does nothing. */
  lemma StepComesNearer(s: State, c: Choice)
    requires Inv(s) && c.tid in s.threads && Step(s, c) != s
    requires !s.threads[c.tid].phase.Draining? && !s.threads[c.tid].phase.Sending?
    ensures Distance(Step(s, c).threads[c.tid].phase) < Distance(s.threads[c.tid].phase)
  {
    if Calls(s.threads[c.tid].phase) {
      assert ThreadOk(s.world, c.tid, s.threads[c.tid]);
      StepIsMove(s, c);
      MoveComesNearer(s.world, c.tid, s.threads[c.tid], c);
    } else {
      MutexStepComesNearer(s, c);
    }
  }

  predicate InLoop(s: State, t: nat)
  {
    && s.mutex == Some(t) && t in s.threads && (s.threads[t].phase.Draining? || s.threads[t].phase.Sending?)
    && t in s.world.pos && 0 <= s.world.pos[t]
  }

  lemma WorkIsTheHolders(s: State, t: nat)
    requires WellFormed(s.world.dev.ring) && InLoop(s, t)
    ensures Work(s) == SendingWork(s.world, t, s.threads[t]) && Distance(s.threads[t].phase) == 2
  {
  }

  /** A step inside the sending loop leaves it, or shortens the work left in it. */
  lemma SendingStepShortens(s: State, s': State, t: nat)
    requires WellFormed(s.world.dev.ring) && WellFormed(s'.world.dev.ring)
    requires InLoop(s, t) && t in s'.threads
    requires s'.threads[t].phase.Drained? ||
             (InLoop(s', t) && SendingWork(s'.world, t, s'.threads[t]) < SendingWork(s.world, t, s.threads[t]))
    ensures var d, d' := Distance(s.threads[t].phase), Distance(s'.threads[t].phase);
            d' < d || (d' == d && Work(s') < Work(s))
  {
    WorkIsTheHolders(s, t);
    if !s'.threads[t].phase.Drained? {
      WorkIsTheHolders(s', t);
    }
  }

  /** Every step that does something makes progress: it takes an item off, or leaves the items
      and shortens the work of the sending loop under way. */
  lemma StepMakesProgress(s: State, c: Choice)
    requires Inv(s) && c.tid in s.threads && Step(s, c) != s
    ensures Nearer(Step(s, c), s)
  {
    StepMovesOne(s, c);
    AheadShrinks(s, Step(s, c), c.tid);
    if s.threads[c.tid].phase.Draining? || s.threads[c.tid].phase.Sending? {
      SendingTerminates(s, c, c.tid);
      SendingStepShortens(s, Step(s, c), c.tid);
    } else {
      StepComesNearer(s, c);
    }
  }

  predicate AllFinished(s: State)
  {
    forall t :: t in s.threads ==> s.threads[t].phase.Finished?
  }

  // ---------------------------------------------------------------- schedules without end

  type Path = nat -> State

  /** The states of the server, turn by turn, under an endless schedule: at each turn a thread to
      step and what the kernel lets succeed. */
  ghost predicate Behaves(path: Path, choices: nat -> Choice)
  {
    forall n: nat :: StepsAt(path, choices, n)
  }

  predicate StepsAt(path: Path, choices: nat -> Choice, n: nat)
  {
    WellFormed(path(n).world.dev.ring) && path(n + 1) == Step(path(n), choices(n))
  }

  /** The n-th turn does something. */
  predicate MovesAt(path: Path, n: nat)
  {
    path(n + 1) != path(n)
  }

  /** The n-th turn or a later one does something. */
  ghost predicate MovesLater(path: Path, n: nat)
  {
    exists m: nat :: n <= m && MovesAt(path, m)
  }

  ghost predicate MovesOn(path: Path, n: nat)
  {
    AllFinished(path(n)) || MovesLater(path, n)
  }

  /** There are not only turns that do nothing while some thread has not finished. */
  ghost predicate KeepsMoving(path: Path)
  {
    forall n: nat :: MovesOn(path, n)
  }

  lemma PathStep(path: Path, choices: nat -> Choice, n: nat, s: State)
    requires Behaves(path, choices) && s == path(n)
    ensures WellFormed(s.world.dev.ring) && path(n + 1) == Step(s, choices(n))
  {
    assert StepsAt(path, choices, n);
  }

  lemma {:induction false} PathKeepsInv(path: Path, choices: nat -> Choice, n: nat)
    requires Behaves(path, choices) && Inv(path(0))
    ensures Inv(path(n))
  {
    if n == 0 {
    } else {
      var before := path(n - 1);
      PathKeepsInv(path, choices, n - 1);
      StepKeepsInv(before, choices(n - 1));
      PathStep(path, choices, n - 1, before);
    }
  }

  /** While nothing moves the state stays; so the first turn from k on that does something is one
      taken in the state of turn k. */
  lemma {:induction false} FirstMove(path: Path, k: nat, m: nat) returns (first: nat)
    requires k <= m && MovesAt(path, m)
    ensures k <= first && path(first) == path(k) && MovesAt(path, first)
    decreases m - k
  {
    first := k;
    if !MovesAt(path, k) {
      first := FirstMove(path, k + 1, m);
    }
  }

  lemma NextMove(path: Path, choices: nat -> Choice, from: nat, s: State) returns (later: nat, c: Choice)
    requires Behaves(path, choices) && KeepsMoving(path) && s == path(from) && !AllFinished(s)
    ensures WellFormed(s.world.dev.ring)
    ensures from <= later && path(later) == Step(s, c) && path(later) != s
  {
    assert MovesOn(path, from);
    var m: nat :| from <= m && MovesAt(path, m);
    var first := FirstMove(path, from, m);
    PathStep(path, choices, first, s);
    later, c := first + 1, choices(first);
  }

  lemma MoveIsNearer(s: State, c: Choice, s': State)
    requires Inv(s) && s' == Step(s, c) && s' != s
    ensures Inv(s') && Nearer(s', s)
  {
    StepKeepsInv(s, c);
    StepMakesProgress(s, c);
  }

  /** A schedule that keeps moving comes nearer to the end after some turns. */
  lemma ComesNearer(path: Path, choices: nat -> Choice, from: nat, s: State) returns (later: nat, s': State)
    requires Behaves(path, choices) && KeepsMoving(path)
    requires s == path(from) && Inv(s) && !AllFinished(s)
    ensures from <= later && s' == path(later) && Inv(s') && Nearer(s', s)
  {
    var c;
    later, c := NextMove(path, choices, from, s);
    s' := path(later);
    MoveIsNearer(s, c, s');
  }

  /** Termination: from any state satisfying the invariant, under every schedule that keeps moving
      and whatever fails, all threads finish. */
  lemma {:induction false} EveryScheduleFinishes(path: Path, choices: nat -> Choice, from: nat) returns (n: nat)
    requires Behaves(path, choices) && Inv(path(from)) && KeepsMoving(path)
    ensures from <= n && AllFinished(path(n))
    decreases Ahead(path(from)), Work(path(from))
  {
    if AllFinished(path(from)) {
      n := from;
    } else {
      var later, s' := ComesNearer(path, choices, from, path(from));
      n := EveryScheduleFinishes(path, choices, later);
    }
  }

  lemma FinishedStays(s: State, c: Choice)
    requires WellFormed(s.world.dev.ring) && AllFinished(s)
    ensures Step(s, c) == s
  {
  }

  /** Two moments between which nothing moves have the same state. */
  lemma {:induction false} StaysOrMoves(path: Path, n: nat, m: nat) returns (k: nat)
    requires n <= m && path(n) != path(m)
    ensures n <= k < m && MovesAt(path, k)
    decreases m - n
  {
    k := n;
    if !MovesAt(path, n) {
      k := StaysOrMoves(path, n + 1, m);
    }
  }

  lemma FinishedForGood(path: Path, choices: nat -> Choice, end: nat, n: nat)
    requires Behaves(path, choices) && AllFinished(path(end)) && end <= n
    ensures path(n) == path(end)
  {
    if path(n) != path(end) {
      var k := FirstMoveAfter(path, end, n);
      PathStep(path, choices, k, path(end));
      FinishedStays(path(end), choices(k));
    }
  }

  /** The first of the moves between two moments is made in the state of the earlier one. */
  lemma FirstMoveAfter(path: Path, n: nat, m: nat) returns (k: nat)
    requires n <= m && path(n) != path(m)
    ensures path(k) == path(n) && MovesAt(path, k)
  {
    k := StaysOrMoves(path, n, m);
    k := FirstMove(path, n, k);
  }

  /** Exactly: a schedule finishes all threads if and only if it keeps moving. */
  lemma FinishesIffKeepsMoving(path: Path, choices: nat -> Choice)
    requires Behaves(path, choices) && Inv(path(0))
    ensures (exists n: nat :: AllFinished(path(n))) <==> KeepsMoving(path)
  {
    if KeepsMoving(path) {
      var n := EveryScheduleFinishes(path, choices, 0);
    } else if end: nat :| AllFinished(path(end)) {
      forall n: nat
        ensures MovesOn(path, n)
      {
        if path(n) != path(end) && n <= end {
          var k := StaysOrMoves(path, n, end);
        } else if path(n) != path(end) {
          FinishedForGood(path, choices, end, n);
        }
      }
    }
  }

  // ---------------------------------------------------------------- fair schedules

  ghost predicate HasTurn(choices: nat -> Choice, t: nat, n: nat)
  {
    exists m: nat :: n <= m && choices(m).tid == t
  }

  /** Each of the threads is given a turn again and again; it may find file_mutex taken each time. */
  ghost predicate Fair(choices: nat -> Choice, threads: set<nat>)
  {
    forall t, n: nat :: t in threads ==> HasTurn(choices, t, n)
  }

  lemma SomeoneCanMove(s: State) returns (t: nat)
    requires Inv(s) && !AllFinished(s)
    ensures CanMove(s, t)
  {
    var waiting :| waiting in s.threads && !s.threads[waiting].phase.Finished?;
    t := if s.mutex.Some? then s.mutex.value else waiting;
    HolderOrFreeCanMove(s, t);
  }

  /** A thread that can move still can when its turn comes, unless something moves before. */
  lemma {:induction false} MovesByTurn(path: Path, choices: nat -> Choice, n: nat, m: nat, t: nat) returns (k: nat)
    requires Behaves(path, choices) && WellFormed(path(n).world.dev.ring) && CanMove(path(n), t)
    requires n <= m && choices(m).tid == t
    ensures n <= k && MovesAt(path, k)
    decreases m - n
  {
    k := n;
    PathStep(path, choices, n, path(n));
    if !MovesAt(path, n) {
      k := MovesByTurn(path, choices, n + 1, m, t);
    }
  }

  lemma {:induction false} PathKeepsThreads(path: Path, choices: nat -> Choice, n: nat)
    requires Behaves(path, choices)
    ensures path(n).threads.Keys == path(0).threads.Keys
  {
    if n == 0 {
    } else {
      PathKeepsThreads(path, choices, n - 1);
      PathStep(path, choices, n - 1, path(n - 1));
    }
  }

  lemma FairMovesLater(path: Path, choices: nat -> Choice, n: nat)
    requires Behaves(path, choices) && Inv(path(n)) && !AllFinished(path(n)) && Fair(choices, path(n).threads.Keys)
    ensures MovesLater(path, n)
  {
    var t := SomeoneCanMove(path(n));
    assert HasTurn(choices, t, n);
    var m: nat :| n <= m && choices(m).tid == t;
    var k := MovesByTurn(path, choices, n, m, t);
  }

  /** A fair schedule keeps moving, although blocked threads are given turns too. */
  lemma FairKeepsMoving(path: Path, choices: nat -> Choice)
    requires Behaves(path, choices) && Inv(path(0)) && Fair(choices, path(0).threads.Keys)
    ensures KeepsMoving(path)
  {
    forall n: nat
      ensures MovesOn(path, n)
    {
      if !AllFinished(path(n)) {
        PathKeepsInv(path, choices, n);
        PathKeepsThreads(path, choices, n);
        FairMovesLater(path, choices, n);
      }
    }
  }

  /** Under every fair schedule, whatever fails in it, all threads finish. */
  lemma FairScheduleFinishes(path: Path, choices: nat -> Choice) returns (n: nat)
    requires Behaves(path, choices) && Inv(path(0)) && Fair(choices, path(0).threads.Keys)
    ensures AllFinished(path(n))
  {
    FairKeepsMoving(path, choices);
    n := EveryScheduleFinishes(path, choices, 0);
  }

  // ---------------------------------------------------------------- schedules without idle turns

  /** A scheduler chooses from the turn and the state. */
  type Scheduler = (nat, State) -> Choice

  /** It never wastes a turn while some thread has not finished. */
  ghost predicate NeverIdles(pick: Scheduler)
  {
    forall turn: nat, s: State ::
      Inv(s) && !AllFinished(s) ==> pick(turn, s).tid in s.threads && Step(s, pick(turn, s)) != s
  }

  /** A thread that can move, if there is one. */
  ghost function Mover(s: State): nat
  {
    if WellFormed(s.world.dev.ring) && exists t: nat :: CanMove(s, t) then
      var t: nat :| CanMove(s, t);
      t
    else 0
  }

  ghost function Busy(luck: nat -> (Faults, bool)): Scheduler
  {
    (turn: nat, s: State) => Choice(Mover(s), luck(turn).0, luck(turn).1)
  }

  /** There is always a turn that is not wasted: whatever the kernel lets fail turn by turn, the
      scheduler that steps some thread that can move never idles. */
  lemma BusyNeverIdles(luck: nat -> (Faults, bool))
    ensures NeverIdles(Busy(luck))
  {
    forall turn: nat, s: State | Inv(s) && !AllFinished(s)
      ensures Busy(luck)(turn, s).tid in s.threads && Step(s, Busy(luck)(turn, s)) != s
    {
      var t := SomeoneCanMove(s);
      assert CanMove(s, Mover(s));
    }
  }

  /** A scheduler that never idles keeps moving. */
  lemma NeverIdlesKeepsMoving(path: Path, choices: nat -> Choice, pick: Scheduler)
    requires Behaves(path, choices) && Inv(path(0)) && NeverIdles(pick)
    requires forall n: nat :: choices(n) == pick(n, path(n))
    ensures KeepsMoving(path)
  {
    forall n: nat
      ensures MovesOn(path, n)
    {
      PathKeepsInv(path, choices, n);
      PathStep(path, choices, n, path(n));
      assert choices(n) == pick(n, path(n));
      assert AllFinished(path(n)) || MovesAt(path, n);
    }
  }

  // ---------------------------------------------------------------- everybody is answered

  /** The first n turns of an endless schedule. */
  function First(choices: nat -> Choice, n: nat): (schedule: seq<Choice>)
    ensures |schedule| == n
  {
    seq(n, i requires 0 <= i => choices(i))
  }

  function PathOf(requests: map<nat, Request>, choices: nat -> Choice): Path
  {
    (n: nat) => Play(requests, First(choices, n))
  }

  /** The states after ever longer parts of a schedule. */
  lemma PlayBehaves(requests: map<nat, Request>, choices: nat -> Choice)
    ensures Behaves(PathOf(requests, choices), choices)
  {
    forall n: nat
      ensures StepsAt(PathOf(requests, choices), choices, n)
    {
      assert First(choices, n + 1) == First(choices, n) + [choices(n)];
      PlaySnoc(requests, First(choices, n), choices(n));
    }
  }

  /** Under every endless fair schedule, whatever fails in it, the server comes to a turn after which
      every thread has finished and the reply of each is the snapshot of its own turn. */
  lemma EveryoneIsAnswered(requests: map<nat, Request>, choices: nat -> Choice) returns (n: nat)
    requires Fair(choices, requests.Keys)
    ensures AllFinished(Play(requests, First(choices, n)))
    ensures forall t :: t in requests && !requests[t].Unparsed? ==>
              exists i: nat :: AnsweredInTurn(requests, First(choices, n), t, i)
  {
    PlayBehaves(requests, choices);
    PlayKeepsInv(requests, First(choices, 0));
    n := FairScheduleFinishes(PathOf(requests, choices), choices);
    forall t | t in requests && !requests[t].Unparsed?
      ensures exists i: nat :: AnsweredInTurn(requests, First(choices, n), t, i)
    {
      var i := AtomicReply(requests, First(choices, n), t);
    }
  }

  /** And that is as if they had been served one after the other: the accepted messages are those of
      a serial service in which every client but the unparsed ones has one place, and each was sent
      the reply of its place. */
  lemma EveryoneIsServed(requests: map<nat, Request>, choices: nat -> Choice)
    returns (schedule: seq<Choice>, order: seq<Served>)
    requires Fair(choices, requests.Keys)
    ensures schedule == First(choices, |schedule|) && AllFinished(Play(requests, schedule))
    ensures NoneTwice(order) && AsRequested(order, requests)
    ensures Play(requests, schedule).world.accepted == Serial(order)
    ensures forall t :: t in requests && !requests[t].Unparsed? ==>
              HasReply(order, t, requests[t], Play(requests, schedule).threads[t].sent,
                       !Interrupted(requests, schedule, t))
  {
    var n := EveryoneIsAnswered(requests, choices);
    schedule := First(choices, n);
    order := Order(requests, schedule);
    OneTurnEach(requests, schedule);
    AcceptedIsSerial(requests, schedule);
    forall t | t in requests && !requests[t].Unparsed?
      ensures HasReply(order, t, requests[t], Play(requests, schedule).threads[t].sent,
                       !Interrupted(requests, schedule, t))
    {
      var k := ServedInOrder(requests, schedule, t);
    }
  }
}

/** Every interleaving of the server is as good as serving its clients one after the other. */
module SerialOrder {
  import opened Lines
  import opened LineRing
  import opened CommitLog
  import opened Driver
  import opened Runs
  import opened Drain
  import opened Interface
  import opened Server
  import opened ServerRuns

  /** A client's turn: its request and what the kernel let succeed in its write or ioctl. */
  datatype Served = Served(tid: nat, request: Request, f: Faults)

  /** The payloads accepted when these clients are served one after the other. */
  function Serial(order: seq<Served>): seq<bytes>
  {
    if order == [] then []
    else
      var before, v := Serial(order[..|order| - 1]), order[|order| - 1];
      if v.request.Message? && Stores(FeedAll(before), Passed(v.request.text), v.f)
      then before + [Passed(v.request.text)] else before
  }

  /** The reply to a request when the ring holds the newest ten lines of this history: for a message,
      all of them; for a seek, what they hold from its target on, or all when the ioctl was refused. */
  function ReplyTo(request: Request, f: Faults, history: seq<bytes>): bytes
  {
    var seen := Flatten(LastTen(history));
    if request.SeekCommand? && Accepted(true, request.cmd, f)
    then Rest(seen, SeekTarget(history, request.cmd, request.off)) else seen
  }

  /** The reply to the last of them. */
  function SerialReply(order: seq<Served>): bytes
    requires order != []
  {
    ReplyTo(order[|order| - 1].request, order[|order| - 1].f, FeedAll(Serial(order)).history)
  }

  /** The turn that a thread's step takes, if it takes its turn in it. */
  function TurnOf(s: State, c: Choice): seq<Served>
  {
    if c.tid in s.threads && s.threads[c.tid].phase.Locked? then [Served(c.tid, s.threads[c.tid].request, c.f)] else []
  }

  /** The turns of a schedule, in order. */
  function Order(requests: map<nat, Request>, schedule: seq<Choice>): seq<Served>
  {
    if schedule == [] then []
    else
      var init, c := schedule[..|schedule| - 1], schedule[|schedule| - 1];
      Order(requests, init) + TurnOf(Play(requests, init), c)
  }

  lemma OrderStep(requests: map<nat, Request>, schedule: seq<Choice>, i: nat)
    requires i < |schedule|
    ensures Order(requests, schedule[..i + 1])
         == Order(requests, schedule[..i]) + TurnOf(Play(requests, schedule[..i]), schedule[i])
  {
    assert schedule[..i + 1][..i] == schedule[..i];
  }

  lemma SerialStep(order: seq<Served>, s: State, c: Choice)
    requires s.world.accepted == Serial(order)
    ensures Serial(order + TurnOf(s, c)) == s.world.accepted + WrittenBy(s, c)
  {
    if TurnOf(s, c) == [] {
      assert order + TurnOf(s, c) == order;
    } else {
      assert (order + TurnOf(s, c))[..|order|] == order;
    }
  }

  /** The device has accepted what it accepts when the clients are served one after the other in
      the order of their turns. */
  lemma {:induction false} AcceptedIsSerial(requests: map<nat, Request>, schedule: seq<Choice>)
    ensures Play(requests, schedule).world.accepted == Serial(Order(requests, schedule))
  {
    if schedule == [] {
      assert Play(requests, schedule) == Init(requests);
    } else {
      var init, c := schedule[..|schedule| - 1], schedule[|schedule| - 1];
      AcceptedIsSerial(requests, init);
      PlayKeepsInv(requests, init);
      StepWrites(Play(requests, init), c);
      SerialStep(Order(requests, init), Play(requests, init), c);
    }
  }

  // ---------------------------------------------------------------- each client once

  /** The thread's turn is in the order. */
  predicate Has(order: seq<Served>, t: nat)
  {
    exists k :: 0 <= k < |order| && order[k].tid == t
  }

  predicate NoneTwice(order: seq<Served>)
  {
    forall k, l :: 0 <= k < l < |order| ==> order[k].tid != order[l].tid
  }

  lemma StepTakesTurn(s: State, c: Choice, t: nat)
    requires Inv(s) && t in s.threads
    ensures t in Step(s, c).threads
    ensures Placed(Step(s, c).threads[t]) <==> Placed(s.threads[t]) || (c.tid == t && s.threads[t].phase.Locked?)
  {
    if c.tid == t {
      assert ThreadOk(s.world, t, s.threads[t]);
      if Calls(s.threads[t].phase) {
        StepIsMove(s, c);
        MovePlacesLocked(s.world, t, s.threads[t], c);
      } else {
        MutexStepOwn(s, c);
      }
    } else if c.tid in s.threads {
      StepKeepsThread(s, c, t);
    }
  }

  lemma MovePlacesLocked(w: World, t: nat, th: Thread, c: Choice)
    requires WellFormed(w.dev.ring) && Calls(th.phase) && (th.phase.Locked? ==> !th.request.Unparsed?)
    requires Placed(th) ==> !th.request.Unparsed?
    ensures Placed(Move(w, t, th, c).thread) <==> Placed(th) || th.phase.Locked?
  {
  }

  lemma HasSnoc(order: seq<Served>, v: Served, t: nat)
    ensures Has(order + [v], t) <==> Has(order, t) || v.tid == t
  {
    var all := order + [v];
    assert all[|order|] == v;
    forall k | 0 <= k < |order|
      ensures all[k] == order[k]
    {
    }
  }

  /** A thread is in the order exactly when it has made its write or ioctl. */
  lemma {:induction false} OrderHasPlaced(requests: map<nat, Request>, schedule: seq<Choice>, t: nat)
    requires t in requests
    ensures Has(Order(requests, schedule), t) <==> Placed(Play(requests, schedule).threads[t])
  {
    if schedule == [] {
      assert Order(requests, schedule) == [];
    } else {
      var init, c := schedule[..|schedule| - 1], schedule[|schedule| - 1];
      var s := Play(requests, init);
      OrderHasPlaced(requests, init, t);
      PlayKeepsInv(requests, init);
      StepTakesTurn(s, c, t);
      if TurnOf(s, c) == [] {
        assert Order(requests, schedule) == Order(requests, init);
      } else {
        HasSnoc(Order(requests, init), TurnOf(s, c)[0], t);
      }
    }
  }

  lemma LockedIsNotPlaced(s: State, t: nat)
    requires Inv(s) && t in s.threads && s.threads[t].phase.Locked?
    ensures !Placed(s.threads[t])
  {
  }

  /** The clients served are those of the run, with the requests they came with. */
  predicate AsRequested(order: seq<Served>, requests: map<nat, Request>)
  {
    forall k :: 0 <= k < |order| ==> order[k].tid in requests && order[k].request == requests[order[k].tid]
  }

  lemma OneMoreTurn(order: seq<Served>, v: Served, requests: map<nat, Request>)
    requires NoneTwice(order) && AsRequested(order, requests)
    requires !Has(order, v.tid) && v.tid in requests && v.request == requests[v.tid]
    ensures NoneTwice(order + [v]) && AsRequested(order + [v], requests)
  {
    forall k | 0 <= k < |order|
      ensures order[k].tid != v.tid
    {
    }
  }

  /** A thread that takes its turn has not had one. */
  lemma TurnIsFirst(requests: map<nat, Request>, schedule: seq<Choice>, c: Choice, s: State)
    requires s == Play(requests, schedule) && TurnOf(s, c) != []
    ensures c.tid in requests && s.threads[c.tid].request == requests[c.tid]
    ensures !Has(Order(requests, schedule), c.tid)
  {
    PlayKeepsInv(requests, schedule);
    LockedIsNotPlaced(s, c.tid);
    OrderHasPlaced(requests, schedule, c.tid);
    RequestsStay(requests, schedule, c.tid);
  }

  /** Each client has one turn, with the request it came with. */
  lemma {:induction false} OneTurnEach(requests: map<nat, Request>, schedule: seq<Choice>)
    ensures NoneTwice(Order(requests, schedule)) && AsRequested(Order(requests, schedule), requests)
  {
    if schedule == [] {
      assert Order(requests, schedule) == [];
    } else {
      var init, c := schedule[..|schedule| - 1], schedule[|schedule| - 1];
      var s := Play(requests, init);
      OneTurnEach(requests, init);
      if TurnOf(s, c) == [] {
        assert Order(requests, schedule) == Order(requests, init);
      } else {
        TurnIsFirst(requests, init, c, s);
        OneMoreTurn(Order(requests, init), TurnOf(s, c)[0], requests);
      }
    }
  }

  // ---------------------------------------------------------------- the replies

  lemma {:induction false} OrderGrows(requests: map<nat, Request>, schedule: seq<Choice>, i: nat)
    requires i <= |schedule|
    ensures Order(requests, schedule[..i]) <= Order(requests, schedule)
    decreases |schedule|
  {
    var n := |schedule| - 1;
    if i == |schedule| {
      assert schedule[..i] == schedule;
    } else {
      OrderGrows(requests, schedule[..n], i);
      assert schedule[..n][..i] == schedule[..i];
    }
  }

  /** The thread's part of a serial service: everything up to its own turn, the k-th. */
  predicate ServedSerially(order: seq<Served>, k: nat, t: nat, request: Request, sent: bytes, whole: bool)
  {
    && k < |order| && order[k].tid == t && order[k].request == request
    && sent <= SerialReply(order[..k + 1])
    && (whole ==> sent == SerialReply(order[..k + 1]))
  }

  /** The thread's record of its turn is this one. */
  predicate PlacedBy(th: Thread, v: Served)
  {
    && v.request == th.request
    && th.placed == (v.f.lockOk && v.f.copyOk && (v.request.SeekCommand? || v.f.allocOk))
  }

  /** The thread has a place in the serial service, and the reply of that place. */
  predicate HasReply(order: seq<Served>, t: nat, request: Request, sent: bytes, whole: bool)
  {
    exists k :: 0 <= k < |order| && ServedSerially(order, k, t, request, sent, whole)
  }

  lemma ServedAt(all: seq<Served>, order: seq<Served>, v: Served, sent: bytes, whole: bool)
    requires order != [] && order <= all && order[|order| - 1] == v
    requires sent <= SerialReply(order) && (whole ==> sent == SerialReply(order))
    ensures order == all[..|order|]
    ensures ServedSerially(all, |order| - 1, v.tid, v.request, sent, whole)
  {
    assert all[..|order|] == order;
  }

  lemma ReplyAlike(request: Request, f: Faults, placed: bool, history: seq<bytes>)
    requires placed == (f.lockOk && f.copyOk && (request.SeekCommand? || f.allocOk)) && !request.Unparsed?
    ensures Rest(Flatten(LastTen(history)), StartOf(request, placed, history)) == ReplyTo(request, f, history)
  {
  }

  /** The reply of a turn, in terms of what is accepted right after it. */
  lemma AnsweredSerially(th: Thread, v: Served, now: World, history: seq<bytes>, whole: bool)
    requires Consistent(now) && history == LogOf(now).history
    requires Answered(th, now, whole) && !th.request.Unparsed? && PlacedBy(th, v)
    ensures th.sent <= ReplyTo(v.request, v.f, history) && (whole ==> th.sent == ReplyTo(v.request, v.f, history))
  {
    ContentIsLastTen(now.dev.ring, history);
    ReplyAlike(v.request, v.f, th.placed, history);
  }

  /** A turn of the schedule is a place in the order. */
  lemma PlaceInOrder(requests: map<nat, Request>, schedule: seq<Choice>, i: nat, order: seq<Served>, v: Served)
    requires i < |schedule| && order == Order(requests, schedule[..i + 1])
    requires TurnOf(Play(requests, schedule[..i]), schedule[i]) == [v]
    ensures order != [] && order[|order| - 1] == v
    ensures order <= Order(requests, schedule)
  {
    OrderStep(requests, schedule, i);
    OrderGrows(requests, schedule, i + 1);
  }

  lemma ReplyInPlace(requests: map<nat, Request>, schedule: seq<Choice>, i: nat, order: seq<Served>,
                     th: Thread, whole: bool)
    requires i <= |schedule| && order != [] && order == Order(requests, schedule[..i])
    requires Answered(th, Play(requests, schedule[..i]).world, whole) && !th.request.Unparsed?
    requires PlacedBy(th, order[|order| - 1])
    ensures th.sent <= SerialReply(order) && (whole ==> th.sent == SerialReply(order))
  {
    AcceptedIsSerial(requests, schedule[..i]);
    PlayKeepsInv(requests, schedule[..i]);
    AnsweredSerially(th, order[|order| - 1], Play(requests, schedule[..i]).world,
                     FeedAll(Serial(order)).history, whole);
  }

  lemma TurnIsServed(requests: map<nat, Request>, schedule: seq<Choice>, t: nat, i: nat, th: Thread, v: Served)
    requires i < |schedule| && t in requests && TurnAt(requests, schedule, t, i, th.turn, th.placed)
    requires th.request == requests[t] && v == Served(t, requests[t], schedule[i].f)
    ensures TurnOf(Play(requests, schedule[..i]), schedule[i]) == [v] && PlacedBy(th, v)
  {
    RequestsStay(requests, schedule[..i], t);
  }

  lemma AnswerInPlace(requests: map<nat, Request>, schedule: seq<Choice>, t: nat, i: nat, th: Thread, whole: bool)
    returns (k: nat)
    requires i < |schedule| && t in requests && th.request == requests[t] && !th.request.Unparsed?
    requires TurnAt(requests, schedule, t, i, th.turn, th.placed)
    requires Answered(th, Play(requests, schedule[..i + 1]).world, whole)
    ensures ServedSerially(Order(requests, schedule), k, t, requests[t], th.sent, whole)
  {
    var v, order := Served(t, requests[t], schedule[i].f), Order(requests, schedule[..i + 1]);
    TurnIsServed(requests, schedule, t, i, th, v);
    PlaceInOrder(requests, schedule, i, order, v);
    ReplyInPlace(requests, schedule, i + 1, order, th, whole);
    ServedAt(Order(requests, schedule), order, v, th.sent, whole);
    k := |order| - 1;
  }

  /** Serial service: in every interleaving, with any calls failing, there is one order of the
      clients such that the device has accepted what it accepts when they are served one after the
      other in that order, and each finished client was sent the reply of its place in it: all of
      it, unless a call of its own sending loop failed. */
  lemma ServedInOrder(requests: map<nat, Request>, schedule: seq<Choice>, t: nat) returns (k: nat)
    requires t in requests && !requests[t].Unparsed?
    requires Play(requests, schedule).threads[t].phase.Finished?
    ensures Play(requests, schedule).world.accepted == Serial(Order(requests, schedule))
    ensures ServedSerially(Order(requests, schedule), k, t, requests[t], Play(requests, schedule).threads[t].sent,
                           !Interrupted(requests, schedule, t))
  {
    AcceptedIsSerial(requests, schedule);
    var i := AtomicReply(requests, schedule, t);
    k := AnswerInPlace(requests, schedule, t, i, Play(requests, schedule).threads[t],
                       !Interrupted(requests, schedule, t));
  }

  lemma HasOnce(order: seq<Served>, all: seq<Served>, k: nat)
    requires order <= all && NoneTwice(all) && k < |all|
    ensures Has(order, all[k].tid) <==> k < |order|
  {
    if k < |order| {
      assert order[k] == all[k];
    } else {
      forall l | 0 <= l < |order|
        ensures order[l].tid != all[k].tid
      {
        assert order[l] == all[l];
      }
    }
  }

  /** The order is also the order in time: a client whose turn was over at some moment comes before
      one whose turn was still to come. */
  lemma OrderFollowsTime(requests: map<nat, Request>, schedule: seq<Choice>, n: nat, j: nat, k: nat)
    requires n <= |schedule| && j < |Order(requests, schedule)| && k < |Order(requests, schedule)|
    requires var a, b := Order(requests, schedule)[j].tid, Order(requests, schedule)[k].tid;
             && a in requests && Placed(Play(requests, schedule[..n]).threads[a])
             && b in requests && !Placed(Play(requests, schedule[..n]).threads[b])
    ensures j < k
  {
    var all, order := Order(requests, schedule), Order(requests, schedule[..n]);
    OrderGrows(requests, schedule, n);
    OneTurnEach(requests, schedule);
    OrderHasPlaced(requests, schedule[..n], all[j].tid);
    OrderHasPlaced(requests, schedule[..n], all[k].tid);
    HasOnce(order, all, j);
    HasOnce(order, all, k);
  }
}

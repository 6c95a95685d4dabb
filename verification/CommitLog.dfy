/** What the device promises its writers, with no ring and no memory: a pending byte string
    that becomes a committed line once it is one. */
module CommitLog {
  import opened Machine
  import opened Lines

  datatype Log = Log(history: seq<bytes>, pending: bytes)

  const NOTHING := Log([], [])

  /** One stored payload. */
  function Feed(log: Log, payload: bytes): Log
  {
    var all := log.pending + payload;
    if IsLine(all) then Log(log.history + [all], []) else Log(log.history, all)
  }

  function FeedAll(payloads: seq<bytes>): Log
  {
    if payloads == [] then NOTHING
    else Feed(FeedAll(payloads[..|payloads| - 1]), payloads[|payloads| - 1])
  }

  lemma FeedAllSnoc(payloads: seq<bytes>, p: bytes)
    ensures FeedAll(payloads + [p]) == Feed(FeedAll(payloads), p)
  {
    assert (payloads + [p])[..|payloads|] == payloads;
  }

  /** Every committed entry is a line; the pending string never is one. */
  lemma {:induction false} CommittedAreLines(payloads: seq<bytes>)
    ensures forall i :: 0 <= i < |FeedAll(payloads).history| ==> IsLine(FeedAll(payloads).history[i])
    ensures !IsLine(FeedAll(payloads).pending)
  {
    if payloads == [] {
    } else {
      CommittedAreLines(payloads[..|payloads| - 1]);
    }
  }

  /** One stored payload adds its own bytes at the end, committed or pending. */
  lemma FeedConserves(log: Log, payload: bytes)
    ensures Flatten(Feed(log, payload).history) + Feed(log, payload).pending
         == Flatten(log.history) + log.pending + payload
  {
    var all := log.pending + payload;
    FlattenSnoc(log.history, all);
    Associate(Flatten(log.history), log.pending, payload);
  }

  /** Conservation: no byte is lost, repeated or reordered between the payloads and the log. */
  lemma {:induction false} BytesConserved(payloads: seq<bytes>)
    ensures Flatten(FeedAll(payloads).history) + FeedAll(payloads).pending == Flatten(payloads)
  {
    if payloads == [] {
      assert FeedAll(payloads) == NOTHING;
    } else {
      var init, last := payloads[..|payloads| - 1], payloads[|payloads| - 1];
      BytesConserved(init);
      FeedConserves(FeedAll(init), last);
      FlattenSnoc(init, last);
      assert payloads == init + [last];
    }
  }

  /** A pending string is wedged when it already holds a newline. */
  predicate Wedged(log: Log)
  {
    NEWLINE in log.pending
  }

  lemma NewlineInConcat(a: bytes, b: bytes)
    ensures NEWLINE in a + b <==> NEWLINE in a || NEWLINE in b
  {
  }

  /** The last byte of a non-empty string, and the others. */
  lemma InnerOrLast(s: bytes)
    requires s != []
    ensures s == s[..|s| - 1] + [s[|s| - 1]]
    ensures NEWLINE in s <==> HasInnerNewline(s) || s[|s| - 1] == NEWLINE
  {
    NewlineInConcat(s[..|s| - 1], [s[|s| - 1]]);
  }

  /** A wedged log stays wedged and commits nothing, whatever is stored next. */
  lemma FeedWedged(log: Log, p: bytes)
    requires Wedged(log) && !IsLine(log.pending)
    ensures Wedged(Feed(log, p)) && Feed(log, p).history == log.history
  {
    var all := log.pending + p;
    NewlineInConcat(log.pending, p);
    InnerOrLast(log.pending);
    if p == [] {
      assert all == log.pending;
    } else {
      assert all[..|all| - 1] == log.pending + p[..|p| - 1];
      NewlineInConcat(log.pending, p[..|p| - 1]);
    }
  }

  /** A log that is not wedged becomes so exactly by a payload with an inner newline. */
  lemma FeedUnwedged(log: Log, p: bytes)
    requires !Wedged(log)
    ensures Wedged(Feed(log, p)) <==> HasInnerNewline(p)
  {
    var all := log.pending + p;
    NewlineInConcat(log.pending, p);
    if p == [] {
      assert all == log.pending;
    } else {
      InnerOrLast(p);
      assert all[..|all| - 1] == log.pending + p[..|p| - 1];
      NewlineInConcat(log.pending, p[..|p| - 1]);
    }
  }

  /** Over a whole run: wedged if and only if some payload had an inner newline. */
  lemma {:induction false} WedgedIffInnerNewline(payloads: seq<bytes>)
    ensures Wedged(FeedAll(payloads)) <==> exists i :: 0 <= i < |payloads| && HasInnerNewline(payloads[i])
  {
    if payloads == [] {
    } else {
      var init, last := payloads[..|payloads| - 1], payloads[|payloads| - 1];
      WedgedIffInnerNewline(init);
      CommittedAreLines(init);
      if Wedged(FeedAll(init)) {
        FeedWedged(FeedAll(init), last);
        var i :| 0 <= i < |init| && HasInnerNewline(init[i]);
        assert payloads[i] == init[i];
      } else {
        FeedUnwedged(FeedAll(init), last);
        assert forall i :: 0 <= i < |init| ==> init[i] == payloads[i];
      }
    }
  }

  /** Wedging is absorbing: nothing stored afterwards is ever committed. */
  lemma {:induction false} WedgedForever(payloads: seq<bytes>, more: seq<bytes>)
    requires Wedged(FeedAll(payloads))
    ensures FeedAll(payloads + more).history == FeedAll(payloads).history
    ensures Wedged(FeedAll(payloads + more))
  {
    if more == [] {
      assert payloads + more == payloads;
    } else {
      var init, last := more[..|more| - 1], more[|more| - 1];
      WedgedForever(payloads, init);
      assert payloads + more == (payloads + init) + [last];
      FeedAllSnoc(payloads + init, last);
      CommittedAreLines(payloads + init);
      FeedWedged(FeedAll(payloads + init), last);
    }
  }

  /** The device splits its input stream at newlines, however the stream was cut into writes,
      if and only if no write had a newline before its last byte. */
  lemma SplitsStreamIff(payloads: seq<bytes>)
    ensures FeedAll(payloads) == Log(CompleteLines(Flatten(payloads)), Tail(Flatten(payloads)))
       <==> forall i :: 0 <= i < |payloads| ==> !HasInnerNewline(payloads[i])
  {
    WedgedIffInnerNewline(payloads);
    var log := FeedAll(payloads);
    if !Wedged(log) {
      CommittedAreLines(payloads);
      BytesConserved(payloads);
      SplitIsUnique(log.history, log.pending);
    }
  }

  /** Chunking independence: another way of cutting the same stream leaves the same log exactly
      when it, too, puts no newline before the end of a write. */
  lemma ChunkingIndependentIff(a: seq<bytes>, b: seq<bytes>)
    requires Flatten(a) == Flatten(b)
    requires forall i :: 0 <= i < |a| ==> !HasInnerNewline(a[i])
    ensures FeedAll(a) == FeedAll(b) <==> forall i :: 0 <= i < |b| ==> !HasInnerNewline(b[i])
  {
    SplitsStreamIff(a);
    SplitsStreamIff(b);
  }

  /** The write that wedges the log commits nothing itself. */
  lemma WedgingCommitsNothing(payloads: seq<bytes>, bad: bytes)
    requires HasInnerNewline(bad) && !Wedged(FeedAll(payloads))
    ensures Wedged(FeedAll(payloads + [bad]))
    ensures FeedAll(payloads + [bad]).history == FeedAll(payloads).history
  {
    FeedAllSnoc(payloads, bad);
    FeedUnwedged(FeedAll(payloads), bad);
  }

  /** After the first write with an inner newline the history is, for ever, the complete lines
      of what was stored before that write. */
  lemma HistoryStopsAtInnerNewline(before: seq<bytes>, bad: bytes, after: seq<bytes>)
    requires forall i :: 0 <= i < |before| ==> !HasInnerNewline(before[i])
    requires HasInnerNewline(bad)
    ensures FeedAll(before + [bad] + after).history == CompleteLines(Flatten(before))
  {
    WedgedIffInnerNewline(before);
    WedgingCommitsNothing(before, bad);
    WedgedForever(before + [bad], after);
    SplitsStreamIff(before);
  }

  /** The history only grows. */
  lemma {:induction false} HistoryGrows(payloads: seq<bytes>, n: nat)
    requires n <= |payloads|
    ensures FeedAll(payloads[..n]).history <= FeedAll(payloads).history
  {
    if n == |payloads| {
      assert payloads[..n] == payloads;
    } else {
      var init := payloads[..|payloads| - 1];
      HistoryGrows(init, n);
      assert init[..n] == payloads[..n];
    }
  }

  /** Payloads that are lines are the history. */
  lemma {:induction false} LinesAreCommitted(payloads: seq<bytes>)
    requires forall i :: 0 <= i < |payloads| ==> IsLine(payloads[i])
    ensures FeedAll(payloads) == Log(payloads, [])
  {
    if payloads == [] {
    } else {
      var init, last := payloads[..|payloads| - 1], payloads[|payloads| - 1];
      LinesAreCommitted(init);
      assert [] + last == last;
    }
  }
}

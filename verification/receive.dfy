/** The receive loop of one command (`SilentCmd.Receive`, silent/cmd.go).
    The three channels the Go loop selects on become one finite sequence of
    events in arrival order; which channel fires first is the order of the
    sequence. The loop is a fold over that sequence. */
module ReceiveLoop {

  import opened Options
  import opened Strings
  import opened Seqs
  import opened Expect

  /** One message the loop can receive: a chunk read from stdout
      (`ReadChan`), an error from either reader (`ErrChan`, `io.EOF` when a
      stream closes cleanly), or a chunk read from stderr (`ErrStringChan`). */
  datatype Event = Stdout(chunk: string) | Err(error: Error) | Stderr(text: string)

  /** The mutable parts of a `SilentCmd` the loop touches: the receive
      buffer, the expectation table, and the writes made so far. */
  datatype State = State(buffer: string, expectations: seq<Expectation>, writes: seq<Written>)

  /** `Blocked`: the events ran out and the loop is still waiting.
      `Returned(e)`: the loop returned error `e`. */
  datatype Status = Blocked | Returned(error: Error)

  datatype Outcome = Outcome(state: State, status: Status)

  /** The error the loop returns for a non-stdout event: the error from
      `ErrChan` unchanged, or `errors.New(text)` for stderr text. */
  function SignalError(ev: Event): Error
    requires !ev.Stdout?
  {
    match ev
    case Err(e) => e
    case Stderr(text) => Message(text)
  }

  /** `n` is the position of the first event that is not a stdout chunk. */
  predicate FirstSignalAt(events: seq<Event>, n: int) {
    && 0 <= n < |events|
    && !events[n].Stdout?
    && forall k :: 0 <= k < n ==> events[k].Stdout?
  }

  /** The stdout case of the loop: the chunk is appended to the buffer and
      the buffer is matched. With no trigger in the buffer nothing else
      changes. On a match the response of the highest-indexed matching pair
      is written, that pair leaves the table, and the buffer is emptied;
      the writer's error is recorded and otherwise ignored. */
  function OnStdout(st: State, chunk: string, sink: Sink): (r: State)
    ensures var buffer := st.buffer + chunk;
      (forall j :: 0 <= j < |st.expectations| ==> !Hits(buffer, st.expectations[j])) ==>
        r == State(buffer, st.expectations, st.writes)
    ensures var buffer := st.buffer + chunk;
      (exists j :: 0 <= j < |st.expectations| && Hits(buffer, st.expectations[j])) ==>
        && r.buffer == ""
        && exists i :: && IsLastHit(st.expectations, buffer, i)
                       && r.expectations == Remove(st.expectations, i)
                       && r.writes == st.writes + [Write(st.expectations[i].output, sink)]
  {
    var buffer := st.buffer + chunk;
    var m := Match(st.expectations, buffer);
    if m.found then State("", m.remaining, st.writes + [Write(m.expectation.output, sink)])
    else State(buffer, m.remaining, st.writes)
  }

  /** The responses the pairs of a table would produce. */
  function Responses(exps: seq<Expectation>, sink: Sink): (r: seq<Written>)
    ensures |r| == |exps|
    ensures forall i :: 0 <= i < |exps| ==> r[i] == Write(exps[i].output, sink)
  {
    seq(|exps|, i requires 0 <= i < |exps| => Write(exps[i].output, sink))
  }

  /** Responses of consecutive stretches of pairs are consecutive. */
  lemma ResponsesAppend(f: seq<Expectation>, g: seq<Expectation>, sink: Sink)
    ensures Responses(f + g, sink) == Responses(f, sink) + Responses(g, sink)
  {
  }

  /** The pairs `fired`, in firing order, account for the step from
      `before` to `after`: together with the pairs still in the table they
      are exactly the pairs of the old table, and the writes added are
      their responses, one each, in the same order. */
  predicate FiredBetween(before: State, after: State, fired: seq<Expectation>, sink: Sink) {
    && multiset(after.expectations) + multiset(fired) == multiset(before.expectations)
    && after.writes == before.writes + Responses(fired, sink)
  }

  /** `after` is reachable from `before` by firing pairs: the table only
      lost elements (it is a subsequence of the old one), and some sequence
      of removed pairs accounts for every added write. Each pair of the old
      table is therefore fired at most as often as it occurs in the table. */
  ghost predicate Consumes(before: State, after: State, sink: Sink) {
    && IsSubsequence(after.expectations, before.expectations)
    && exists fired :: FiredBetween(before, after, fired, sink)
  }

  lemma ConsumesReflexive(st: State, sink: Sink)
    ensures Consumes(st, st, sink)
  {
    SubsequenceReflexive(st.expectations);
    assert FiredBetween(st, st, [], sink);
  }

  /** Pairs removed in two steps add up to the pairs removed overall. */
  lemma MultisetCompose<T>(a: seq<T>, b: seq<T>, c: seq<T>, f: seq<T>, g: seq<T>)
    requires multiset(b) + multiset(f) == multiset(a)
    requires multiset(c) + multiset(g) == multiset(b)
    ensures multiset(c) + multiset(f + g) == multiset(a)
  {
    assert multiset(f + g) == multiset(f) + multiset(g);
  }

  lemma AppendAssociates<T>(x: seq<T>, y: seq<T>, z: seq<T>)
    ensures (x + y) + z == x + (y + z)
  {
  }

  /** Firing `f` and then `g` is firing `f + g`. */
  lemma FiredCompose(a: State, b: State, c: State, f: seq<Expectation>, g: seq<Expectation>, sink: Sink)
    requires FiredBetween(a, b, f, sink) && FiredBetween(b, c, g, sink)
    ensures FiredBetween(a, c, f + g, sink)
  {
    ResponsesAppend(f, g, sink);
    AppendAssociates(a.writes, Responses(f, sink), Responses(g, sink));
    MultisetCompose(a.expectations, b.expectations, c.expectations, f, g);
  }

  lemma ConsumesTransitive(a: State, b: State, c: State, sink: Sink)
    requires Consumes(a, b, sink) && Consumes(b, c, sink)
    ensures Consumes(a, c, sink)
  {
    SubsequenceTransitive(c.expectations, b.expectations, a.expectations);
    var f :| FiredBetween(a, b, f, sink);
    var g :| FiredBetween(b, c, g, sink);
    FiredCompose(a, b, c, f, g, sink);
  }

  /** Splicing out pair `i` and writing its response fires exactly that pair. */
  lemma FiredOne(st: State, r: State, i: int, sink: Sink)
    requires 0 <= i < |st.expectations|
    requires r.expectations == Remove(st.expectations, i)
    requires r.writes == st.writes + [Write(st.expectations[i].output, sink)]
    ensures FiredBetween(st, r, [st.expectations[i]], sink)
  {
    assert Responses([st.expectations[i]], sink) == [Write(st.expectations[i].output, sink)];
  }

  /** One stdout step fires at most the one pair it writes for. */
  lemma OnStdoutConsumes(st: State, chunk: string, sink: Sink)
    ensures Consumes(st, OnStdout(st, chunk, sink), sink)
  {
    var buffer := st.buffer + chunk;
    var r := OnStdout(st, chunk, sink);
    if exists j :: 0 <= j < |st.expectations| && Hits(buffer, st.expectations[j]) {
      var i :| && IsLastHit(st.expectations, buffer, i)
               && r.expectations == Remove(st.expectations, i)
               && r.writes == st.writes + [Write(st.expectations[i].output, sink)];
      RemoveIsSubsequence(st.expectations, i);
      FiredOne(st, r, i, sink);
    } else {
      SubsequenceReflexive(st.expectations);
      assert FiredBetween(st, r, [], sink);
    }
  }

  /** Consumption bounds the writes: exactly one write per pair that left
      the table, so never more writes than the table held. */
  lemma ConsumesCountsWrites(before: State, after: State, sink: Sink)
    requires Consumes(before, after, sink)
    ensures |after.writes| == |before.writes| + |before.expectations| - |after.expectations|
    ensures |after.writes| <= |before.writes| + |before.expectations|
    ensures after.writes[..|before.writes|] == before.writes
  {
    var f :| FiredBetween(before, after, f, sink);
    assert |multiset(after.expectations)| + |multiset(f)| == |multiset(before.expectations)|;
    assert after.writes[..|before.writes|] == before.writes;
  }

  /** `SilentCmd.Receive` as a fold over the events. A stdout chunk never
      ends the loop. The first error or stderr event ends it, returning
      that error unchanged or an error whose text is the stderr chunk; if
      there is none the loop is still waiting when the events run out.
      The final state is reached from the initial one by firing pairs
      (`Consumes`): every write is the response of a distinct pair that
      left the table, so each pair fires at most once and there are never
      more writes than pairs (`ConsumesCountsWrites`). */
  function Receive(st: State, events: seq<Event>, sink: Sink): (o: Outcome)
    ensures o.status == Blocked <==> forall k :: 0 <= k < |events| ==> events[k].Stdout?
    ensures o.status.Returned? ==> exists n :: FirstSignalAt(events, n) && o.status.error == SignalError(events[n])
    ensures Consumes(st, o.state, sink)
    decreases |events|
  {
    if |events| == 0 then
      ConsumesReflexive(st, sink);
      Outcome(st, Blocked)
    else match events[0]
      case Stdout(chunk) =>
        var next := OnStdout(st, chunk, sink);
        var o := Receive(next, events[1..], sink);
        OnStdoutConsumes(st, chunk, sink);
        ConsumesTransitive(st, next, o.state, sink);
        StatusAfterStdout(events, o.status);
        o
      case _ =>
        ConsumesReflexive(st, sink);
        assert FirstSignalAt(events, 0);
        Outcome(st, Returned(SignalError(events[0])))
  }

  /** A leading stdout event does not change how the status relates to the
      events. */
  lemma StatusAfterStdout(events: seq<Event>, status: Status)
    requires |events| > 0 && events[0].Stdout?
    requires status == Blocked <==> forall k :: 0 <= k < |events| - 1 ==> events[1..][k].Stdout?
    requires status.Returned? ==> exists n :: FirstSignalAt(events[1..], n) && status.error == SignalError(events[1..][n])
    ensures status == Blocked <==> forall k :: 0 <= k < |events| ==> events[k].Stdout?
    ensures status.Returned? ==> exists n :: FirstSignalAt(events, n) && status.error == SignalError(events[n])
  {
    if forall k :: 0 <= k < |events| - 1 ==> events[1..][k].Stdout? {
      forall k | 0 <= k < |events|
        ensures events[k].Stdout?
      {
        if k > 0 {
          assert events[1..][k - 1] == events[k];
        }
      }
    } else {
      var k :| 0 <= k < |events| - 1 && !events[1..][k].Stdout?;
      assert !events[k + 1].Stdout?;
    }
    if status.Returned? {
      var n :| FirstSignalAt(events[1..], n) && status.error == SignalError(events[1..][n]);
      assert events[n + 1] == events[1..][n];
      forall k | 0 <= k < n + 1
        ensures events[k].Stdout?
      {
        if k > 0 {
          assert events[1..][k - 1] == events[k];
        }
      }
      assert FirstSignalAt(events, n + 1);
    }
  }
}

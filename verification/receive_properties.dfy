/** Properties of the receive loop that relate several runs or several
    events: what it does with events after the first signal, how it
    composes, what happens with an empty table, that write errors change
    nothing, and that a pair fires at most once. */
module ReceiveProperties {

  import opened Options
  import opened Strings
  import opened Seqs
  import opened Expect
  import opened ReceiveLoop

  /** The text of the stdout chunks that arrive before the first signal. */
  function StdoutText(events: seq<Event>): string
    decreases |events|
  {
    if |events| == 0 || !events[0].Stdout? then ""
    else events[0].chunk + StdoutText(events[1..])
  }

  /** Once the loop has returned, nothing that arrives later is looked at. */
  lemma {:induction false} ReceiveIgnoresLaterEvents(st: State, events: seq<Event>, more: seq<Event>, sink: Sink)
    requires exists k :: 0 <= k < |events| && !events[k].Stdout?
    ensures Receive(st, events + more, sink) == Receive(st, events, sink)
    decreases |events|
  {
    assert (events + more)[0] == events[0];
    if events[0].Stdout? {
      var k :| 0 <= k < |events| && !events[k].Stdout?;
      assert !events[1..][k - 1].Stdout?;
      assert (events + more)[1..] == events[1..] + more;
      ReceiveIgnoresLaterEvents(OnStdout(st, events[0].chunk, sink), events[1..], more, sink);
    }
  }

  /** While only stdout chunks arrive the loop keeps going from where it
      stood: receiving `events` and then `more` is receiving them in one go. */
  lemma {:induction false} ReceiveComposes(st: State, events: seq<Event>, more: seq<Event>, sink: Sink)
    requires forall k :: 0 <= k < |events| ==> events[k].Stdout?
    ensures Receive(st, events + more, sink) == Receive(Receive(st, events, sink).state, more, sink)
    decreases |events|
  {
    if |events| == 0 {
      assert events + more == more;
    } else {
      assert (events + more)[0] == events[0];
      assert (events + more)[1..] == events[1..] + more;
      ReceiveComposes(OnStdout(st, events[0].chunk, sink), events[1..], more, sink);
    }
  }

  /** With an empty table the buffer only grows: it ends as the old buffer
      followed by every stdout chunk before the first signal, and nothing
      is ever written. */
  lemma {:induction false} NoExpectationsAccumulates(st: State, events: seq<Event>, sink: Sink)
    requires st.expectations == []
    ensures Receive(st, events, sink).state == State(st.buffer + StdoutText(events), [], st.writes)
    decreases |events|
  {
    if |events| > 0 && events[0].Stdout? {
      var c := events[0].chunk;
      NoExpectationsAccumulates(OnStdout(st, c, sink), events[1..], sink);
      assert st.buffer + c + StdoutText(events[1..]) == st.buffer + (c + StdoutText(events[1..]));
    } else {
      assert st.buffer + "" == st.buffer;
    }
  }

  /** The same state up to the errors the writer reported. */
  predicate SameButWriteErrors(a: State, b: State) {
    && a.buffer == b.buffer
    && a.expectations == b.expectations
    && |a.writes| == |b.writes|
    && forall k :: 0 <= k < |a.writes| ==> a.writes[k].bytes == b.writes[k].bytes
  }

  /** One stdout step under two writers: the same bytes go out and the
      same pair is consumed, whatever errors the writers report. */
  lemma OnStdoutIgnoresWriteErrors(a: State, b: State, chunk: string, sinkA: Sink, sinkB: Sink)
    requires SameButWriteErrors(a, b)
    ensures SameButWriteErrors(OnStdout(a, chunk, sinkA), OnStdout(b, chunk, sinkB))
  {
    var m := Match(a.expectations, a.buffer + chunk);
    if m.found {
      var a', b' := OnStdout(a, chunk, sinkA), OnStdout(b, chunk, sinkB);
      assert a'.writes == a.writes + [Write(m.expectation.output, sinkA)];
      assert b'.writes == b.writes + [Write(m.expectation.output, sinkB)];
      assert Write(m.expectation.output, sinkA).bytes == Write(m.expectation.output, sinkB).bytes;
    }
  }

  /** Write errors never stop or steer the loop: under two writers that
      report different errors the loop ends the same way, with the same
      buffer and table, having written the same bytes. */
  lemma {:induction false} ReceiveIgnoresWriteErrors(a: State, b: State, events: seq<Event>, sinkA: Sink, sinkB: Sink)
    requires SameButWriteErrors(a, b)
    ensures Receive(a, events, sinkA).status == Receive(b, events, sinkB).status
    ensures SameButWriteErrors(Receive(a, events, sinkA).state, Receive(b, events, sinkB).state)
    decreases |events|
  {
    if |events| > 0 && events[0].Stdout? {
      var c := events[0].chunk;
      OnStdoutIgnoresWriteErrors(a, b, c, sinkA, sinkB);
      ReceiveIgnoresWriteErrors(OnStdout(a, c, sinkA), OnStdout(b, c, sinkB), events[1..], sinkA, sinkB);
    }
  }

  /** A pair fires once: with a single pair whose trigger occurs in `x`,
      receiving `x` twice and then a clean end writes the response once and
      leaves the second `x` in the buffer. */
  lemma TriggerFiresOnce(e: Expectation, x: string, sink: Sink)
    requires Contains(x, e.input)
    ensures Receive(State("", [e], []), [Stdout(x), Stdout(x), Err(EOF)], sink)
         == Outcome(State(x, [], [Write(e.output, sink)]), Returned(EOF))
  {
    var events := [Stdout(x), Stdout(x), Err(EOF)];
    var s0 := State("", [e], []);
    assert "" + x == x;
    assert LastHit([e], x) == 0;
    var s1 := State("", [], [Write(e.output, sink)]);
    assert OnStdout(s0, x, sink) == s1;
    var s2 := State(x, [], [Write(e.output, sink)]);
    assert OnStdout(s1, x, sink) == s2;
    assert events[1..] == [Stdout(x), Err(EOF)];
    assert events[1..][1..] == [Err(EOF)];
    assert Receive(s2, [Err(EOF)], sink) == Outcome(s2, Returned(EOF));
    assert Receive(s1, events[1..], sink) == Receive(s2, [Err(EOF)], sink);
    assert Receive(s0, events, sink) == Receive(s1, events[1..], sink);
  }

  /** A chunk whose text holds no trigger is only buffered; a later chunk
      that completes the trigger fires it and empties the buffer. */
  lemma SplitTriggerFires(e: Expectation, a: string, b: string, sink: Sink)
    requires !Contains(a, e.input) && Contains(a + b, e.input)
    ensures Receive(State("", [e], []), [Stdout(a), Stdout(b)], sink)
         == Outcome(State("", [], [Write(e.output, sink)]), Blocked)
  {
    var events := [Stdout(a), Stdout(b)];
    var s0 := State("", [e], []);
    assert "" + a == a;
    assert LastHit([e], a) == -1;
    var s1 := State(a, [e], []);
    assert OnStdout(s0, a, sink) == s1;
    assert LastHit([e], a + b) == 0;
    var s2 := State("", [], [Write(e.output, sink)]);
    assert OnStdout(s1, b, sink) == s2;
    assert events[1..] == [Stdout(b)];
    assert events[1..][1..] == [];
    assert Receive(s2, [], sink) == Outcome(s2, Blocked);
    assert Receive(s1, events[1..], sink) == Receive(s2, [], sink);
    assert Receive(s0, events, sink) == Receive(s1, events[1..], sink);
  }

  /** The read test of silent/cmd_test.go: one chunk "Hello!" and then a
      clean end, with no pairs, return `io.EOF` with "Hello!" buffered. */
  lemma ReadScenario(sink: Sink)
    ensures Receive(State("", [], []), [Stdout("Hello!"), Err(EOF)], sink)
         == Outcome(State("Hello!", [], []), Returned(EOF))
  {
    var events := [Stdout("Hello!"), Err(EOF)];
    NoExpectationsAccumulates(State("", [], []), events, sink);
    assert events[1..] == [Err(EOF)];
    assert StdoutText(events) == "Hello!" + StdoutText(events[1..]);
  }

  /** The pipe test of silent/cmd_test.go: two chunks and a clean end, with
      no pairs, return `io.EOF` without writing anything to the pipe. */
  lemma PipeScenario(sink: Sink)
    ensures Receive(State("", [], []), [Stdout("Hello!!!\n"), Stdout("Hi!"), Err(EOF)], sink)
         == Outcome(State("Hello!!!\nHi!", [], []), Returned(EOF))
  {
    var events := [Stdout("Hello!!!\n"), Stdout("Hi!"), Err(EOF)];
    NoExpectationsAccumulates(State("", [], []), events, sink);
    assert events[1..] == [Stdout("Hi!"), Err(EOF)];
    assert events[1..][1..] == [Err(EOF)];
    assert StdoutText(events) == "Hello!!!\n" + ("Hi!" + StdoutText(events[1..][1..]));
  }
}

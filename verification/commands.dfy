/** Commands and the sequence runner (silent/cmd.go): `SilentCmd.Exec`,
    `SilentCmds.Exec`, and the two string splits `NewSilentCmdsFromJSON`
    does while loading a configuration. */
module Commands {

  import opened Options
  import opened Strings
  import opened Expect
  import opened ReceiveLoop

  /** A command line split into the program and its arguments, the two
      things handed to `exec.Command`. */
  datatype CommandLine = CommandLine(program: string, args: seq<string>)

  /** The command-line split: `strings.Split` on a single space, the first
      token is the program and the rest are its arguments (both branches of
      the `len(args) > 1` test build the same command). There is always a
      program token, no token holds a space, and joining the tokens with
      single spaces gives back the command string; repeated spaces yield
      empty tokens and there is no quoting. */
  function ParseCommandLine(cmdString: string): (c: CommandLine)
    ensures ' ' !in c.program
    ensures forall i :: 0 <= i < |c.args| ==> ' ' !in c.args[i]
    ensures Join([c.program] + c.args, ' ') == cmdString
    ensures |c.args| == |Split(cmdString, ' ')| - 1
  {
    var args := Split(cmdString, ' ');
    assert args == [args[0]] + args[1..];
    CommandLine(args[0], args[1..])
  }

  /** The converse round trip: a program and arguments without spaces are
      recovered from the line they join to. */
  lemma ParseOfJoin(c: CommandLine)
    requires ' ' !in c.program
    requires forall i :: 0 <= i < |c.args| ==> ' ' !in c.args[i]
    ensures ParseCommandLine(Join([c.program] + c.args, ' ')) == c
  {
    var parts := [c.program] + c.args;
    forall i | 0 <= i < |parts|
      ensures ' ' !in parts[i]
    {
      if i > 0 {
        assert parts[i] == c.args[i - 1];
      }
    }
    SplitOfJoin(parts, ' ');
    assert parts[1..] == c.args;
  }

  /** Two spaces in a row give an empty argument. */
  lemma RepeatedSpaceGivesEmptyArgument()
    ensures ParseCommandLine("echo  hi") == CommandLine("echo", ["", "hi"])
  {
    ParseOfJoin(CommandLine("echo", ["", "hi"]));
    assert Join(["echo", "", "hi"], ' ') == "echo  hi";
  }

  /** The environment-entry split: `strings.Split(entry, "=")`, keeping
      pieces 0 and 1 as key and value. An entry without `=` makes the
      indexing panic, modelled as `None`. The key is the text before the
      first `=`, and the value runs from there to the second `=` or the end
      of the entry, so a value that itself holds `=` is truncated. */
  function EnvPair(entry: string): (r: Option<(string, string)>)
    ensures r.None? <==> '=' !in entry
    ensures r.Some? ==> '=' !in r.value.0 && '=' !in r.value.1
    ensures r.Some? ==> HasPrefix(entry, r.value.0 + "=" + r.value.1)
    ensures r.Some? ==> var n := |r.value.0| + 1 + |r.value.1|; n == |entry| || entry[n] == '='
  {
    var kv := Split(entry, '=');
    if |kv| < 2 then
      None
    else
      var tail := Join(kv[1..], '=');
      assert entry == kv[0] + "=" + tail;
      assert kv[1..][0] == kv[1];
      if |kv| == 2 then
        assert tail == kv[1];
        Some((kv[0], kv[1]))
      else
        assert tail == kv[1] + "=" + Join(kv[2..], '=');
        assert entry == kv[0] + "=" + kv[1] + "=" + Join(kv[2..], '=');
        Some((kv[0], kv[1]))
  }

  /** `m` holds exactly the keys of `pairs`, each bound to the value of
      the last pair with that key. */
  ghost predicate BindsLastValues(pairs: seq<(string, string)>, m: map<string, string>) {
    && (forall k :: k in m <==> exists i :: 0 <= i < |pairs| && pairs[i].0 == k)
    && forall i :: 0 <= i < |pairs| && (forall j :: i < j < |pairs| ==> pairs[j].0 != pairs[i].0) ==>
         pairs[i].0 in m && m[pairs[i].0] == pairs[i].1
  }

  /** Assigning `m[key] = value` for each pair in order. */
  function BindAll(pairs: seq<(string, string)>): (m: map<string, string>)
    ensures BindsLastValues(pairs, m)
    decreases |pairs|
  {
    if |pairs| == 0 then map[]
    else
      var n := |pairs| - 1;
      var m := BindAll(pairs[..n]);
      BindLast(pairs, m);
      m[pairs[n].0 := pairs[n].1]
  }

  /** Binding the last pair on top of the map of the earlier ones. */
  lemma BindLast(pairs: seq<(string, string)>, m: map<string, string>)
    requires |pairs| > 0 && BindsLastValues(pairs[..|pairs| - 1], m)
    ensures BindsLastValues(pairs, m[pairs[|pairs| - 1].0 := pairs[|pairs| - 1].1])
  {
    var n := |pairs| - 1;
    var init := pairs[..n];
    var m' := m[pairs[n].0 := pairs[n].1];
    forall k | k in m
      ensures exists i :: 0 <= i < |pairs| && pairs[i].0 == k
    {
      var i :| 0 <= i < |init| && init[i].0 == k;
      assert pairs[i] == init[i];
    }
    forall k | k != pairs[n].0 && exists i :: 0 <= i < |pairs| && pairs[i].0 == k
      ensures k in m
    {
      var i :| 0 <= i < |pairs| && pairs[i].0 == k;
      assert init[i] == pairs[i];
    }
    forall i | 0 <= i < n && (forall j :: i < j < |pairs| ==> pairs[j].0 != pairs[i].0)
      ensures pairs[i].0 in m' && m'[pairs[i].0] == pairs[i].1
    {
      assert init[i] == pairs[i];
      forall j | i < j < |init|
        ensures init[j].0 != init[i].0
      {
        assert init[j] == pairs[j];
      }
    }
  }

  /** Every entry of `environ` splits into a key and a value. */
  predicate WellFormed(environ: seq<string>) {
    forall i :: 0 <= i < |environ| ==> '=' in environ[i]
  }

  /** The environment map of `NewSilentCmdsFromJSON`: each entry is split
      by `EnvPair` and bound in order, so a later entry overrides an earlier
      one with the same key. It panics (`None`) exactly when some entry has
      no `=`; otherwise its keys are the entries' keys, and each key maps to
      the value of the last entry with that key. */
  function EnvMap(environ: seq<string>): (r: Option<map<string, string>>)
    ensures r.None? <==> !WellFormed(environ)
    ensures r.Some? ==>
      var pairs := seq(|environ|, i requires 0 <= i < |environ| && '=' in environ[i] => EnvPair(environ[i]).value);
      BindsLastValues(pairs, r.value)
  {
    if WellFormed(environ) then
      Some(BindAll(seq(|environ|, i requires 0 <= i < |environ| && '=' in environ[i] => EnvPair(environ[i]).value)))
    else None
  }

  /** A `SilentCmd` as the runner sees it: its `*exec.Cmd` (`NoProcess`
      when nil) and its expectation table. */
  datatype Process = NoProcess | Process(line: CommandLine)

  datatype SilentCmd = SilentCmd(process: Process, expectations: seq<Expectation>)

  /** How creating the three pipes and starting the child went; the OS
      decides this. */
  datatype Launch = Launched | LaunchFailed(error: Error)

  /** Everything that decides one command's run apart from its stdin:
      the command, how its launch went, and the events its receive loop
      sees. The stdin is the separate `sink` parameter of `Exec`. */
  datatype Script = Script(cmd: SilentCmd, launch: Launch, events: seq<Event>)

  /** What a call of `Exec` does: `Hangs` when it never returns, otherwise
      the error it returns (`None` for nil). */
  datatype Result = Hangs | Returns(err: Option<Error>)

  /** The error `SilentCmd.Exec` returns when its command was never built. */
  const NilCmd := Message("s.Cmd must not be nil")

  /** `SilentCmd.Exec`: a nil command and a failed pipe or start are
      returned as errors; otherwise the receive loop runs from an empty
      buffer over the command's table and its result is returned. It never
      returns nil: even a clean finish returns `io.EOF`. */
  function Exec(sc: Script, sink: Sink): (r: Result)
    ensures r != Returns(None)
    ensures sc.cmd.process.NoProcess? ==> r == Returns(Some(NilCmd))
    ensures sc.cmd.process.Process? && sc.launch.LaunchFailed? ==> r == Returns(Some(sc.launch.error))
    ensures sc.cmd.process.Process? && sc.launch.Launched? ==>
              (r == Hangs <==> forall k :: 0 <= k < |sc.events| ==> sc.events[k].Stdout?)
    ensures sc.cmd.process.Process? && sc.launch.Launched? && r.Returns? ==>
              exists n :: FirstSignalAt(sc.events, n) && r.err == Some(SignalError(sc.events[n]))
  {
    if sc.cmd.process.NoProcess? then Returns(Some(NilCmd))
    else if sc.launch.LaunchFailed? then Returns(Some(sc.launch.error))
    else
      var o := Receive(State("", sc.cmd.expectations, []), sc.events, sink);
      match o.status
      case Blocked => Hangs
      case Returned(e) => Returns(Some(e))
  }

  /** What the runner did: how many commands it called, and how it ended. */
  datatype RunResult = RunResult(calls: nat, result: Result)

  /** `SilentCmds.Exec` over what each command's `Exec` would do if called.
      Commands are called in list order; the runner stops at the first
      command that hangs or returns a non-nil error and passes that on
      without calling any later command; it returns nil only when every
      command returned nil, the empty list included. */
  function Run(results: seq<Result>): (r: RunResult)
    ensures r.calls <= |results|
    ensures forall i :: 0 <= i < r.calls - 1 ==> results[i] == Returns(None)
    ensures r.result == Returns(None) <==> forall i :: 0 <= i < |results| ==> results[i] == Returns(None)
    ensures r.result == Returns(None) ==> r.calls == |results|
    ensures r.result != Returns(None) ==> r.calls > 0 && r.result == results[r.calls - 1]
    decreases |results|
  {
    if |results| == 0 then RunResult(0, Returns(None))
    else if results[0] != Returns(None) then RunResult(1, results[0])
    else
      var rest := Run(results[1..]);
      assert forall i :: 0 < i < |results| ==> results[i] == results[1..][i - 1];
      RunResult(rest.calls + 1, rest.result)
  }

  /** The runner over concrete command scripts. Because a command's `Exec`
      never returns nil, the runner never gets past the first command: it
      calls exactly one command of a non-empty list and returns what that
      command returned, `io.EOF` after a clean finish included. */
  function ExecAll(scripts: seq<Script>, sink: Sink): (r: RunResult)
    ensures |scripts| == 0 ==> r == RunResult(0, Returns(None))
    ensures |scripts| > 0 ==> r.calls == 1 && r.result == Exec(scripts[0], sink)
  {
    var results := seq(|scripts|, i requires 0 <= i < |scripts| => Exec(scripts[i], sink));
    var r := Run(results);
    if |scripts| > 0 then
      assert results[0] != Returns(None);
      r
    else r
  }

  /** A clean first command stops the sequence: the second command is never
      started and the runner reports `io.EOF`. */
  lemma CleanFinishStopsSequence(first: Script, second: Script, sink: Sink)
    requires first.cmd.process.Process? && first.launch.Launched?
    requires |first.events| > 0 && first.events[|first.events| - 1] == Err(EOF)
    requires forall k :: 0 <= k < |first.events| - 1 ==> first.events[k].Stdout?
    ensures ExecAll([first, second], sink) == RunResult(1, Returns(Some(EOF)))
  {
    var n := |first.events| - 1;
    assert FirstSignalAt(first.events, n);
    var r := Exec(first, sink);
    assert r.Returns?;
    var m :| FirstSignalAt(first.events, m) && r.err == Some(SignalError(first.events[m]));
    assert m == n;
  }
}

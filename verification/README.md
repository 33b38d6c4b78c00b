# silentinstall expect engine, modelled in Dafny

silentinstall runs interactive installers without a human present. Each
configured command has an ordered table of (trigger, response) pairs.
While the child runs, its stdout is collected in a receive buffer. When a
trigger occurs in the buffer, the matching response is written to the
child's stdin, and that pair is removed from the table. Commands run one
after another.

This project models the engine in `silent/cmd.go` as pure functions over
immutable data:

- `Expect`: the expectation table, `Write` (the newline normaliser), and
  `Match` (last match wins, then the pair is spliced out). `MatchScan` is
  Go's forward scan loop as written, proved equal to `Match`.
- `ReceiveLoop`: `Receive` as a fold over a finite sequence of events. The
  goroutines and the three channels the Go loop selects on become that
  sequence. Which channel fires first is the order of the events. When the
  events run out without an error or stderr event, the status is
  `Blocked`: the Go loop would still be waiting.
- `ReceiveProperties`: lemmas that relate several runs of the loop.
- `Commands`: `SilentCmd.Exec`, the runner `SilentCmds.Exec`, the
  command-line split, and the environment-entry split of
  `NewSilentCmdsFromJSON`.
- `Strings`, `Seqs`, `Options`: the Go `strings` functions the engine
  uses, sequence splicing and the subsequence order, and an `Option` type.

The child's stdin is a parameter `sink`, of type `string -> Option<Error>`.
It says what error, or nil, the pipe reports for each byte string handed
to it. The answer depends on the bytes alone: the pipe's changing state is
not modelled. The loop
records the error and never reads it. The OS decides whether the pipes
open and the process starts; that outcome is the parameter `Launch`.
The runner takes, for each command, what its `Exec` would do if called.
Commands share no state, so this is the same as calling them one by one.
The runner's `calls` field counts how many commands it actually started.

The model keeps these behaviours of the code:

- A write error is not fatal. `Receive` discards the result of `Write`
  (cmd.go:238).
- Any stderr chunk ends the loop at once, with `errors.New(chunk)`. Stderr
  is not accumulated until the stream closes.
- Both readers send their errors to one channel. So an `io.EOF` from a
  closing stderr also ends the loop, and the loop cannot tell it apart
  from stdout's `io.EOF`. The model's `Err` event carries no stream tag
  for this reason.
- The command line is split on single spaces, not on runs of whitespace.
- `SilentCmd.Exec` never returns nil: a clean finish returns `io.EOF`. The
  runner stops at the first non-nil result, so it never gets past the
  first command (`ExecAll`, `CleanFinishStopsSequence`). A second command
  does not run after a clean first one. The model keeps this behaviour.

## Model

| member | source | states |
|---|---|---|
| Expect.Write | silent/cmd.go:187-193 | The bytes handed to the writer end in a newline and start with the line. They are at most one character longer than the line, so they equal it when it already ends in a newline. The returned error is the writer's. |
| Expect.WriteIsShortest | silent/cmd.go:187-190 | The written bytes are the shortest string that starts with the line and ends in a newline, so no newline is ever doubled. |
| Expect.WriteIdempotent | silent/cmd.go:187-190 | Writing an already normalised line sends the same bytes again. |
| Expect.LastHit | silent/cmd.go:254-263 | The scan settles on -1 exactly when no trigger occurs in the buffer. Otherwise it settles on an index whose trigger occurs, with no occurring trigger at a higher index. |
| Expect.Match | silent/cmd.go:250-271 | A match is reported exactly when some trigger occurs in the buffer. On a miss, the table is unchanged and the empty expectation is returned. On a hit, the highest-indexed matching pair is returned and exactly that element is removed. |
| Expect.MatchScan | silent/cmd.go:250-271 | Go's forward loop, which never breaks and overwrites its candidate on each hit, followed by the splice, gives the same result as `Match`. |
| Expect.ShadowedPairStaysAvailable | silent/cmd.go:254-268 | When two triggers occur in one buffer, the lower-indexed pair is not the one chosen, and it stays in the table at the same position. |
| Seqs.Remove | silent/cmd.go:265-268 | Splicing out index i shortens the table by one and keeps every other element in its relative order; the multiset loses exactly that element. |
| Seqs.RemoveIsSubsequence | silent/cmd.go:268 | The table left after a splice is a subsequence of the old table. |
| ReceiveLoop.OnStdout | silent/cmd.go:228-240 | If no trigger occurs in the buffer plus the chunk, the new buffer is that concatenation and the table and writes are unchanged. Otherwise the buffer is emptied, the highest-indexed matching pair is removed, and exactly one write of its normalised response is appended. |
| ReceiveLoop.OnStdoutConsumes | silent/cmd.go:234-240 | One stdout step leaves a subsequence of the table. The pairs it removes (none or one) together with the pairs left are exactly the old table, and the writes it adds are their responses, one per removed pair, in order. |
| ReceiveLoop.ConsumesTransitive | silent/cmd.go:226-240 | Consumption composes across iterations of the loop: the pairs fired in two stretches, one after the other, account for the whole run. |
| ReceiveLoop.ConsumesCountsWrites | silent/cmd.go:234-240 | After consumption the earlier writes are kept, and the number of new writes is the number of pairs that left the table. So there are never more new writes than the table held. |
| ReceiveLoop.Receive | silent/cmd.go:225-247 | The loop is still blocked exactly when every event is a stdout chunk. Otherwise it returns the error of the first non-stdout event: the `ErrChan` error unchanged, or `errors.New(text)` for stderr text. The final table is a subsequence of the initial one. Some sequence of fired pairs, which together with the final table makes up exactly the initial table as a multiset, accounts for the writes: the earlier writes are kept, and the added writes are the fired pairs' responses, one each, in firing order. So each pair fires at most as often as it occurs in the table. |
| ReceiveProperties.ReceiveIgnoresLaterEvents | silent/cmd.go:241-244 | Once an error or stderr event has arrived, events after it do not change the outcome. |
| ReceiveProperties.ReceiveComposes | silent/cmd.go:226-240 | While only stdout chunks arrive, receiving two stretches of events one after the other is the same as receiving them in one go. |
| ReceiveProperties.NoExpectationsAccumulates | silent/cmd.go:234-237 | With an empty table, the buffer ends as the old buffer followed by every stdout chunk before the first signal, and nothing is written. |
| ReceiveProperties.OnStdoutIgnoresWriteErrors | silent/cmd.go:236-238 | Under two writers that report different errors, one stdout step sends the same bytes and leaves the same buffer and table. |
| ReceiveProperties.ReceiveIgnoresWriteErrors | silent/cmd.go:236-240 | Write errors never end or steer the loop. Under any two writers the loop ends the same way, with the same buffer and table, having written the same bytes. |
| ReceiveProperties.TriggerFiresOnce | silent/cmd.go:236-240 | With one pair whose trigger occurs in x, receiving x twice and then `io.EOF` writes the response once. The second x stays in the buffer, and the loop returns `io.EOF`. |
| ReceiveProperties.SplitTriggerFires | silent/cmd.go:234-240 | A trigger split across two chunks fires only once the second chunk arrives. The first chunk is only buffered, and the buffer is emptied after the write. |
| ReceiveProperties.ReadScenario | silent/cmd_test.go:30-46 | The chunk "Hello!" followed by `io.EOF`, with no pairs, returns `io.EOF` with "Hello!" in the buffer. |
| ReceiveProperties.PipeScenario | silent/cmd_test.go:48-68 | Two chunks followed by `io.EOF`, with no pairs, return `io.EOF` and write nothing. |
| Commands.Exec | silent/cmd.go:125-174 | A nil command returns the "s.Cmd must not be nil" error, and a failed pipe or start returns its error. Otherwise the receive loop's result is returned: it hangs exactly when no error or stderr event arrives, and it never returns nil. |
| Commands.Run | silent/cmd.go:57-65 | Commands are called in list order, and every command before the last one called returned nil. The runner returns the first non-nil result (or a hang) without calling later commands. It returns nil exactly when every command returned nil, the empty list included, and then it has called them all. |
| Commands.ExecAll | silent/cmd.go:57-65 | The runner over real commands: an empty list returns nil without calls. A non-empty list calls exactly one command and returns that command's result. |
| Commands.CleanFinishStopsSequence | silent/cmd.go:57-65 | When the first command finishes cleanly, the runner returns `io.EOF` after one call, and the second command is never started. |
| Commands.ParseCommandLine | silent/cmd.go:87-94 | There is always a program token. No token holds a space, and joining program and arguments with single spaces gives back the command string. The number of arguments is the number of split pieces minus one. |
| Commands.ParseOfJoin | silent/cmd.go:87-94 | A program and arguments without spaces come back unchanged from parsing the line they join to. |
| Commands.RepeatedSpaceGivesEmptyArgument | silent/cmd.go:87 | "echo  hi" (two spaces) parses to program "echo" with the arguments "" and "hi". |
| Commands.EnvPair | silent/cmd.go:76-77 | An entry without `=` panics (`None`). Otherwise the key is the text before the first `=`, and the value runs from there to the second `=` or the end of the entry, so values holding `=` are truncated. Neither part holds `=`. |
| Commands.BindAll | silent/cmd.go:77 | Binding pairs in order gives a map whose keys are the pairs' keys, each bound to the value of the last pair with that key. |
| Commands.EnvMap | silent/cmd.go:74-78 | Loading the environment panics exactly when some entry has no `=`. Otherwise each key maps to the value of the last entry with that key. |
| Strings.ContainsIffOccurs | silent/cmd.go:258 | The substring test used by the matcher holds exactly when the trigger occurs at some position of the buffer, so the empty trigger matches every buffer. |
| Strings.Split | silent/cmd.go:87 | `strings.Split` on one character always gives at least one piece. No piece holds the separator, and joining the pieces with it gives back the input. |
| Strings.SplitOfJoin | silent/cmd.go:87 | Pieces without the separator are recovered by splitting their join. |

## Left out

- Process spawning, pipe creation and the deferred `closeFunc`
  (cmd.go:130-163): OS I/O. Their outcome is the `Launch` parameter of
  `Exec`.
- The reader goroutines `Read`, `ReadErr` and `ReadToChannel`
  (cmd.go:195-220): concurrency. Their output is only the order of the
  event sequence. After an error the Go reader still sends the chunk from
  the failing read; by then the loop has returned, so that send is not
  modelled. The 256-byte read size only decides where chunks break, and
  chunks are arbitrary strings here.
- Byte-to-string conversion: chunks and responses are sequences of
  characters. There is no UTF-8 decoding.
- `ExecTemplate` (cmd.go:111-122): a thin wrapper over Go's
  `text/template`. The model takes the substituted command string as
  given.
- JSON unmarshalling, `os.Environ`, `Init` and `NewSilentCmd`
  (cmd.go:43-51, 68-73, 79-85, 95, 102-108): configuration loading and
  field initialisation. The environment is a parameter of `EnvMap`.
- `coloredUI.Say`, `log.Println`, `Verbose` and the argument printing
  (cmd.go:89-90, 229-233): output only.
- `ReadLine` (cmd.go:177-184): deprecated, relies on `bufio`, unused by
  the engine.
- `main.go`: flag parsing, file reading and exit codes.
- Nil `*Expectation` entries in the table (a JSON `null`) make Go panic
  in `Match`. The table here holds values, so that panic is not modelled.
- `ReceiveLoop.Receive`: a run is a finite prefix of events. The Go loop
  waiting forever is the `Blocked` status, not an infinite run.

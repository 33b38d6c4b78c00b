/** The expectation table of one command and the two operations on it:
    `Write`, which normalises a response line before it goes to the child's
    stdin, and `Match`, which finds the pair whose trigger occurs in the
    receive buffer and splices it out of the table (silent/cmd.go). */
module Expect {

  import opened Options
  import opened Strings
  import opened Seqs

  /** The errors the engine passes around. `EOF` is Go's `io.EOF`, the
      error a stream reports when it closes cleanly; `Failure` is any other
      error a read, a pipe or a process start reports; `Message(text)` is
      `errors.New(text)`. */
  datatype Error = EOF | Failure(reason: string) | Message(text: string)

  /** One (trigger, response) pair: `Input` is looked for in the child's
      output, `Output` is sent back when it is seen. */
  datatype Expectation = Expectation(input: string, output: string)

  /** The child's stdin as seen by `Write`: the error (or nil) it reports
      for each byte string handed to it. The answer depends on the bytes
      alone; the pipe's changing state is not modelled. */
  type Sink = string -> Option<Error>

  /** One call of `writer.Write`: the bytes handed over and what the
      writer reported. */
  datatype Written = Written(bytes: string, err: Option<Error>)

  /** `SilentCmd.Write`: a newline is appended to `l` only when `l` does
      not already end in one, and the result goes to the writer. The bytes
      always end in a newline, start with `l`, and are at most one
      character longer than `l`. */
  function Write(l: string, sink: Sink): (w: Written)
    ensures HasSuffix(w.bytes, "\n")
    ensures HasPrefix(w.bytes, l)
    ensures |w.bytes| <= |l| + 1
    ensures HasSuffix(l, "\n") ==> w.bytes == l
    ensures w.err == sink(w.bytes)
  {
    var line := if HasSuffix(l, "\n") then l else l + "\n";
    Written(line, sink(line))
  }

  /** The written bytes are the shortest string that starts with `l` and
      ends in a newline: no newline is ever doubled. */
  lemma WriteIsShortest(l: string, s: string, sink: Sink)
    requires HasPrefix(s, l) && HasSuffix(s, "\n")
    ensures |Write(l, sink).bytes| <= |s|
  {
    if !HasSuffix(l, "\n") {
      assert s != l;
      assert s[..|l|] == l;
    }
  }

  /** Writing an already written line sends the same bytes again. */
  lemma WriteIdempotent(l: string, sink: Sink)
    ensures Write(Write(l, sink).bytes, sink) == Write(l, sink)
  {
  }

  /** The trigger of `e` occurs in the buffer text. */
  predicate Hits(buffer: string, e: Expectation) {
    Contains(buffer, e.input)
  }

  /** `i` is the highest index whose trigger occurs in the buffer. */
  predicate IsLastHit(exps: seq<Expectation>, buffer: string, i: int) {
    && 0 <= i < |exps|
    && Hits(buffer, exps[i])
    && forall j :: i < j < |exps| ==> !Hits(buffer, exps[j])
  }

  /** The index `Match` settles on, or -1 when no trigger occurs. */
  function LastHit(exps: seq<Expectation>, buffer: string): (r: int)
    ensures r == -1 <==> forall j :: 0 <= j < |exps| ==> !Hits(buffer, exps[j])
    ensures r != -1 ==> IsLastHit(exps, buffer, r)
    decreases |exps|
  {
    if |exps| == 0 then -1
    else if Hits(buffer, exps[|exps| - 1]) then |exps| - 1
    else LastHit(exps[..|exps| - 1], buffer)
  }

  /** What `Match` returns, together with the table it leaves behind. */
  datatype MatchResult = MatchResult(found: bool, expectation: Expectation, remaining: seq<Expectation>)

  /** The empty `&Expectation{}` `Match` returns when nothing matched. */
  const NoExpectation := Expectation("", "")

  /** `SilentCmd.Match`: reports a match exactly when some trigger occurs
      in the buffer. On a miss the table is unchanged and the empty
      expectation is returned; on a hit the pair with the highest matching
      index is returned and exactly that element is spliced out. */
  function Match(exps: seq<Expectation>, buffer: string): (m: MatchResult)
    ensures !m.found <==> forall j :: 0 <= j < |exps| ==> !Hits(buffer, exps[j])
    ensures !m.found ==> m.expectation == NoExpectation && m.remaining == exps
    ensures m.found ==> exists i :: IsLastHit(exps, buffer, i) && m.expectation == exps[i] && m.remaining == Remove(exps, i)
  {
    var i := LastHit(exps, buffer);
    if i == -1 then MatchResult(false, NoExpectation, exps)
    else MatchResult(true, exps[i], Remove(exps, i))
  }

  /** The loop of `SilentCmd.Match` as written: a forward scan that never
      breaks and overwrites its candidate on every hit, followed by the
      splice. It computes the same result as `Match`. */
  method MatchScan(exps: seq<Expectation>, buffer: string) returns (found: bool, expectation: Expectation, remaining: seq<Expectation>)
    ensures MatchResult(found, expectation, remaining) == Match(exps, buffer)
  {
    found := false;
    expectation := NoExpectation;
    var index := 0;
    for i := 0 to |exps|
      invariant found <==> exists j :: 0 <= j < i && Hits(buffer, exps[j])
      invariant found ==> index < i && Hits(buffer, exps[index]) && expectation == exps[index]
      invariant found ==> forall j :: index < j < i ==> !Hits(buffer, exps[j])
      invariant !found ==> expectation == NoExpectation
    {
      if Contains(buffer, exps[i].input) {
        found := true;
        expectation := exps[i];
        index := i;
      }
    }
    remaining := exps;
    if found {
      assert IsLastHit(exps, buffer, index);
      assert LastHit(exps, buffer) == index;
      remaining := Remove(exps, index);
    }
  }

  /** When two triggers occur in the same buffer, the lower-indexed pair is
      shadowed: it is not the one returned and it stays in the table for a
      later match. */
  lemma ShadowedPairStaysAvailable(exps: seq<Expectation>, buffer: string, i: nat, j: nat)
    requires i < j < |exps|
    requires Hits(buffer, exps[i]) && Hits(buffer, exps[j])
    ensures Match(exps, buffer).found
    ensures Match(exps, buffer).remaining[i] == exps[i]
    ensures exps[i] in Match(exps, buffer).remaining
  {
    var m := Match(exps, buffer);
    var k :| IsLastHit(exps, buffer, k) && m.expectation == exps[k] && m.remaining == Remove(exps, k);
    assert i < k;
  }
}

/** The logging path of `Execute`: two readers, a shared channel and the main goroutine, as a
    machine whose runs are all interleavings of their steps. */
module ProcessOutput {
  import opened Wrappers
  import opened Bytes

  /** Which of the two pipes a step concerns. */
  datatype Pipe = Stdout | Stderr

  /** A reader logs lines through the tee, then perhaps drains the pipe directly, then sends its
      error (or none) on the channel. */
  datatype Phase = Scanning | Draining | Sending(failed: bool) | Finished(failed: bool)

  /** `pos` bytes have been taken from the pipe, `buf` is what the buffer holds. */
  datatype Reader = Reader(phase: Phase, pos: nat, buf: Text)

  /** The main goroutine has received some results, and `Wait` closes the pipes. */
  datatype State = State(out: Reader, err: Reader, channel: seq<bool>, received: seq<bool>, waited: bool)

  /** Everything the process ever writes to its two outputs. */
  datatype Streams = Streams(out: Text, err: Text) {
    function Of(p: Pipe): Text { if p.Stdout? then out else err }
  }

  /** The capacity of the channel. */
  const CAPACITY: nat := 2

  datatype Action =
    | Scan(p: Pipe, n: nat)         // the scanner reads n more bytes through the tee
    | ScanEnd(p: Pipe)              // it reads the end of the stream
    | ScanFail(p: Pipe, n: nat)     // a read fails, after n more bytes
    | GiveUp(p: Pipe)               // a line is too long for the scanner
    | Copy(p: Pipe, n: nat)         // the rest is copied, n bytes at a time
    | CopyEnd(p: Pipe)
    | CopyFail(p: Pipe, n: nat)
    | Send(p: Pipe)
    | Receive
    | Wait

  function Of(s: State, p: Pipe): Reader {
    if p.Stdout? then s.out else s.err
  }

  function With(s: State, p: Pipe, r: Reader): State {
    if p.Stdout? then s.(out := r) else s.(err := r)
  }

  /** `n` bytes move from the pipe into the buffer. */
  function Take(r: Reader, stream: Text, n: nat, phase: Phase): Reader
    requires r.pos + n <= |stream|
  {
    Reader(phase, r.pos + n, r.buf + stream[r.pos..r.pos + n])
  }

  /** What a reader step does, if the reader can take it; a closed pipe gives no more bytes. */
  function ReaderStep(r: Reader, stream: Text, closed: bool, a: Action): Option<Reader> {
    match a
    case Scan(_, n) =>
      if r.phase.Scanning? && !closed && n > 0 && r.pos + n <= |stream|
      then Some(Take(r, stream, n, Scanning)) else None
    case ScanEnd(_) =>
      if r.phase.Scanning? && !closed && r.pos == |stream| then Some(r.(phase := Sending(false))) else None
    case ScanFail(_, n) =>
      if r.phase.Scanning? && r.pos + n <= |stream|
      then Some(Take(r, stream, n, Draining)) else None
    case GiveUp(_) =>
      if r.phase.Scanning? then Some(r.(phase := Draining)) else None
    case Copy(_, n) =>
      if r.phase.Draining? && !closed && n > 0 && r.pos + n <= |stream|
      then Some(Take(r, stream, n, Draining)) else None
    case CopyEnd(_) =>
      if r.phase.Draining? && !closed && r.pos == |stream| then Some(r.(phase := Sending(false))) else None
    case CopyFail(_, n) =>
      if r.phase.Draining? && r.pos + n <= |stream| then Some(Take(r, stream, n, Sending(true))) else None
    case _ => None
  }

  /** One step of the machine, if it is possible. */
  function Step(streams: Streams, s: State, a: Action): Option<State> {
    match a
    case Receive =>
      if s.channel != [] && |s.received| < 2
      then Some(s.(channel := s.channel[1..], received := s.received + [s.channel[0]])) else None
    case Wait =>
      if |s.received| == 2 && !s.waited then Some(s.(waited := true)) else None
    case Send(p) =>
      var r := Of(s, p);
      if r.phase.Sending? && |s.channel| < CAPACITY
      then Some(With(s, p, r.(phase := Finished(r.phase.failed))).(channel := s.channel + [r.phase.failed])) else None
    case _ =>
      match ReaderStep(Of(s, a.p), streams.Of(a.p), s.waited, a)
      case Some(r) => Some(With(s, a.p, r))
      case None => None
  }

  const INITIAL := State(Reader(Scanning, 0, []), Reader(Scanning, 0, []), [], [], false)

  /** The state after a run from the initial state, if every step of it is possible. */
  function Run(streams: Streams, actions: seq<Action>): Option<State> {
    if actions == [] then Some(INITIAL)
    else
      match Run(streams, actions[..|actions| - 1])
      case None => None
      case Some(s) => Step(streams, s, actions[|actions| - 1])
  }

  // ---------- the invariant ----------

  /** The buffer holds exactly the bytes taken, and a reader that reports no error took them all. */
  predicate ReaderOk(r: Reader, stream: Text) {
    && r.pos <= |stream| && r.buf == stream[..r.pos]
    && ((r.phase.Sending? || r.phase.Finished?) && !r.phase.failed ==> r.buf == stream)
  }

  function Result(r: Reader): multiset<bool> {
    if r.phase.Finished? then multiset{r.phase.failed} else multiset{}
  }

  /** The results in the channel and with the main goroutine are those of the finished readers. */
  predicate Inv(streams: Streams, s: State) {
    && ReaderOk(s.out, streams.out) && ReaderOk(s.err, streams.err)
    && multiset(s.channel) + multiset(s.received) == Result(s.out) + Result(s.err)
    && (s.waited ==> |s.received| == 2)
  }

  lemma Counts(streams: Streams, s: State)
    requires Inv(streams, s)
    ensures |s.channel| + |s.received| == |Result(s.out)| + |Result(s.err)|
  {
    assert |multiset(s.channel) + multiset(s.received)| == |s.channel| + |s.received|;
  }

  lemma ReaderStepKeeps(r: Reader, stream: Text, closed: bool, a: Action)
    requires ReaderOk(r, stream) && ReaderStep(r, stream, closed, a).Some?
    ensures var r' := ReaderStep(r, stream, closed, a).value;
            ReaderOk(r', stream) && Result(r') == Result(r) == multiset{} && r.pos <= r'.pos
  {
    var r' := ReaderStep(r, stream, closed, a).value;
    assert stream[..r.pos] + stream[r.pos..r'.pos] == stream[..r'.pos];
    assert stream[..|stream|] == stream;
  }

  lemma StepKeeps(streams: Streams, s: State, a: Action)
    requires Inv(streams, s) && Step(streams, s, a).Some?
    ensures Inv(streams, Step(streams, s, a).value)
  {
    hide ReaderOk, ReaderStep;
    match a
    case Receive => ReceiveKeeps(streams, s);
    case Wait =>
    case Send(p) => SendKeeps(streams, s, p);
    case _ => ReaderStepKeeps(Of(s, a.p), streams.Of(a.p), s.waited, a);
  }

  lemma ReceiveKeeps(streams: Streams, s: State)
    requires Inv(streams, s) && Step(streams, s, Receive).Some?
    ensures Inv(streams, Step(streams, s, Receive).value)
  {
    hide ReaderOk, ReaderStep;
    assert s.channel == [s.channel[0]] + s.channel[1..];
    var s' := Step(streams, s, Receive).value;
    assert multiset(s'.channel) + multiset(s'.received) == multiset(s.channel) + multiset(s.received);
  }

  lemma SendKeeps(streams: Streams, s: State, p: Pipe)
    requires Inv(streams, s) && Step(streams, s, Send(p)).Some?
    ensures Inv(streams, Step(streams, s, Send(p)).value)
  {
    hide ReaderOk, Step;
    SendStep(streams, s, p);
    FinishOk(Of(s, p), streams.Of(p));
    SendCounts(s, p, Step(streams, s, Send(p)).value);
  }

  lemma SendStep(streams: Streams, s: State, p: Pipe)
    requires Step(streams, s, Send(p)).Some?
    ensures var r := Of(s, p);
            && r.phase.Sending?
            && Step(streams, s, Send(p)).value
               == With(s, p, r.(phase := Finished(r.phase.failed))).(channel := s.channel + [r.phase.failed])
  {
  }

  lemma SendCounts(s: State, p: Pipe, s': State)
    requires Of(s, p).phase.Sending?
    requires var r := Of(s, p);
             s' == With(s, p, r.(phase := Finished(r.phase.failed))).(channel := s.channel + [r.phase.failed])
    requires multiset(s.channel) + multiset(s.received) == Result(s.out) + Result(s.err)
    ensures multiset(s'.channel) + multiset(s'.received) == Result(s'.out) + Result(s'.err)
  {
    var failed := Of(s, p).phase.failed;
    assert multiset(s'.channel) == multiset(s.channel) + multiset{failed};
    SumMoves(multiset(s.channel), multiset{failed}, multiset(s.received));
    SumMoves(Result(s.out), multiset{failed}, Result(s.err));
    assert Result(s'.out) + Result(s'.err) == Result(s.out) + Result(s.err) + multiset{failed} by {
      if p.Stdout? { assert Result(s.out) + multiset{failed} == Result(s'.out); }
    }
  }

  lemma SumMoves(a: multiset<bool>, x: multiset<bool>, b: multiset<bool>)
    ensures (a + x) + b == a + b + x && a + (b + x) == a + b + x
  {
  }

  lemma FinishOk(r: Reader, stream: Text)
    requires ReaderOk(r, stream) && r.phase.Sending?
    ensures ReaderOk(r.(phase := Finished(r.phase.failed)), stream)
  {
  }

  lemma {:induction false} RunKeeps(streams: Streams, actions: seq<Action>)
    requires Run(streams, actions).Some?
    ensures Inv(streams, Run(streams, actions).value)
  {
    hide Inv, Step;
    if actions == [] {
      InitialOk(streams);
    } else {
      var n := |actions| - 1;
      RunKeeps(streams, actions[..n]);
      StepKeeps(streams, Run(streams, actions[..n]).value, actions[n]);
    }
  }

  lemma InitialOk(streams: Streams)
    ensures Inv(streams, INITIAL)
  {
  }

  // ---------- what holds in every interleaving ----------

  /** In every reachable state: `Wait` runs only after both readers have finished, a reader that
      has a result to send is never blocked, each buffer is a prefix of its stream, and a finished
      reader without an error has all of it. */
  lemma EveryInterleaving(streams: Streams, actions: seq<Action>)
    requires Run(streams, actions).Some?
    ensures var s := Run(streams, actions).value;
            && (s.waited ==> s.out.phase.Finished? && s.err.phase.Finished?)
            && (forall p :: Of(s, p).phase.Sending? ==> |s.channel| < CAPACITY && Step(streams, s, Send(p)).Some?)
            && (forall p :: Of(s, p).buf <= streams.Of(p))
            && (forall p :: Of(s, p).phase == Finished(false) ==> Of(s, p).buf == streams.Of(p))
  {
    hide ReaderStep, Run;
    RunKeeps(streams, actions);
    Counts(streams, Run(streams, actions).value);
  }

  /** What `Execute` returns once `Wait` has run: the buffers, and whether some read failed. */
  lemma ReturnedOutput(streams: Streams, actions: seq<Action>)
    requires Run(streams, actions).Some? && Run(streams, actions).value.waited
    ensures var s := Run(streams, actions).value;
            && |s.received| == 2 && s.out.phase.Finished? && s.err.phase.Finished?
            && (true in s.received <==> s.out.phase.failed || s.err.phase.failed)
            && (true !in s.received ==> s.out.buf == streams.out && s.err.buf == streams.err)
  {
    hide ReaderStep, Run;
    RunKeeps(streams, actions);
    var s := Run(streams, actions).value;
    Counts(streams, s);
    assert s.channel == [] && multiset(s.channel) == multiset{};
    assert multiset(s.received) == multiset(s.channel) + multiset(s.received);
    assert multiset(s.received) == multiset{s.out.phase.failed, s.err.phase.failed};
    assert true in multiset(s.received) <==> true in s.received;
  }

  /** If no read fails, the returned output is complete wherever the scanner gives up. */
  lemma CompleteOutput(streams: Streams, actions: seq<Action>)
    requires Run(streams, actions).Some? && Run(streams, actions).value.waited
    requires forall k :: 0 <= k < |actions| ==> !actions[k].CopyFail?
    ensures var s := Run(streams, actions).value;
            s.out.buf == streams.out && s.err.buf == streams.err && true !in s.received
  {
    hide Step, ReaderStep, Run;
    NoFailure(streams, actions);
    ReturnedOutput(streams, actions);
    EveryInterleaving(streams, actions);
  }

  ghost predicate Failed(r: Reader) {
    (r.phase.Sending? || r.phase.Finished?) && r.phase.failed
  }

  lemma StepNoFailure(streams: Streams, s: State, a: Action)
    requires Step(streams, s, a).Some? && !a.CopyFail? && !Failed(s.out) && !Failed(s.err)
    ensures var s' := Step(streams, s, a).value; !Failed(s'.out) && !Failed(s'.err)
  {
  }

  lemma {:induction false} NoFailure(streams: Streams, actions: seq<Action>)
    requires Run(streams, actions).Some? && forall k :: 0 <= k < |actions| ==> !actions[k].CopyFail?
    ensures var s := Run(streams, actions).value; !Failed(s.out) && !Failed(s.err)
  {
    hide Step;
    if actions != [] {
      var n := |actions| - 1;
      NoFailure(streams, actions[..n]);
      StepNoFailure(streams, Run(streams, actions[..n]).value, actions[n]);
    }
  }

  // ---------- progress ----------

  function PhaseWeight(ph: Phase): nat {
    match ph
    case Scanning => 3
    case Draining => 2
    case Sending(_) => 1
    case Finished(_) => 0
  }

  function Weight(r: Reader, stream: Text): int {
    |stream| - r.pos + PhaseWeight(r.phase)
  }

  /** The steps left at most. */
  function Remaining(streams: Streams, s: State): int {
    Weight(s.out, streams.out) + Weight(s.err, streams.err) + (2 - |s.received|) + (if s.waited then 0 else 1)
  }

  lemma ReaderStepDecreases(r: Reader, stream: Text, closed: bool, a: Action)
    requires ReaderOk(r, stream) && ReaderStep(r, stream, closed, a).Some?
    ensures Weight(ReaderStep(r, stream, closed, a).value, stream) < Weight(r, stream)
  {
    hide ReaderOk;
  }

  lemma StepDecreases(streams: Streams, s: State, a: Action)
    requires Inv(streams, s) && Step(streams, s, a).Some?
    ensures Remaining(streams, Step(streams, s, a).value) < Remaining(streams, s)
  {
    hide ReaderOk, ReaderStep, PhaseWeight;
    match a
    case Receive =>
    case Wait =>
    case Send(p) => SendDecreases(Of(s, p));
    case _ => ReaderStepDecreases(Of(s, a.p), streams.Of(a.p), s.waited, a);
  }

  lemma SendDecreases(r: Reader)
    requires r.phase.Sending?
    ensures PhaseWeight(Finished(r.phase.failed)) < PhaseWeight(r.phase)
  {
  }

  lemma RemainingBound(streams: Streams, s: State)
    requires Inv(streams, s)
    ensures 0 <= Remaining(streams, s)
  {
    Counts(streams, s);
  }

  /** Every run is finite: it has at most as many steps as there are bytes, plus nine. */
  lemma {:induction false} RunsAreBounded(streams: Streams, actions: seq<Action>)
    requires Run(streams, actions).Some?
    ensures |actions| <= Remaining(streams, INITIAL) - Remaining(streams, Run(streams, actions).value)
    ensures |actions| <= |streams.out| + |streams.err| + 9
  {
    hide Step, Inv;
    RunKeeps(streams, actions);
    RemainingBound(streams, Run(streams, actions).value);
    if actions != [] {
      var n := |actions| - 1;
      RunKeeps(streams, actions[..n]);
      RunsAreBounded(streams, actions[..n]);
      StepDecreases(streams, Run(streams, actions[..n]).value, actions[n]);
    } else {
      assert Remaining(streams, INITIAL) == |streams.out| + |streams.err| + 9;
    }
  }

  /** Neither a failing read nor a scanner that gives up. */
  ghost predicate Regular(a: Action) {
    !a.ScanFail? && !a.CopyFail? && !a.GiveUp?
  }

  /** No deadlock: as long as `Wait` has not run, some regular step is possible. */
  lemma NeverStuck(streams: Streams, actions: seq<Action>)
    requires Run(streams, actions).Some? && !Run(streams, actions).value.waited
    ensures exists a :: Regular(a) && Step(streams, Run(streams, actions).value, a).Some?
  {
    hide Run, ReaderStep;
    RunKeeps(streams, actions);
    var s := Run(streams, actions).value;
    Counts(streams, s);
    if s.channel != [] && |s.received| < 2 {
      assert Regular(Receive) && Step(streams, s, Receive).Some?;
    } else if s.out.phase.Finished? && s.err.phase.Finished? {
      assert Regular(Wait) && Step(streams, s, Wait).Some?;
    } else {
      ReaderCanMove(streams, s, if s.out.phase.Finished? then Stderr else Stdout);
    }
  }

  lemma ReaderCanMove(streams: Streams, s: State, p: Pipe)
    requires !s.waited && !Of(s, p).phase.Finished? && |s.channel| < CAPACITY && ReaderOk(Of(s, p), streams.Of(p))
    ensures exists a :: Regular(a) && Step(streams, s, a).Some?
  {
    var r := Of(s, p);
    var more := r.pos < |streams.Of(p)|;
    var a := match r.phase
             case Scanning => if more then Scan(p, 1) else ScanEnd(p)
             case Draining => if more then Copy(p, 1) else CopyEnd(p)
             case _ => Send(p);
    assert Regular(a) && Step(streams, s, a).Some?;
  }

  /** A run that cannot be continued has returned from `Wait`. */
  lemma MaximalRunsReturn(streams: Streams, actions: seq<Action>)
    requires Run(streams, actions).Some?
    requires forall a :: Step(streams, Run(streams, actions).value, a).None?
    ensures Run(streams, actions).value.waited
  {
    hide Run, Step;
    if !Run(streams, actions).value.waited { NeverStuck(streams, actions); }
  }
}

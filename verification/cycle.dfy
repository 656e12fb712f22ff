/** The capture loop of `main` (main.cpp, lines 69-194): each iteration builds a fresh
    snapshot, waits for a capture, hands it to the tracker, pops the tracked bodies,
    extracts them, and posts the serialized snapshot when it holds at least one body.
    The device, the tracker and the HTTP client are not modelled: what they return is the
    input `CycleInput`, and each POST is an output event. */
module Cycle {
  import opened Kinect
  import opened Tracking
  import opened Extraction

  /** What the outside world supplies to one iteration: the clock reading taken when the
      snapshot is constructed, the results of the three blocking calls, and the popped frame. */
  datatype CycleInput = CycleInput(clock: int64, capture: WaitResult, enqueue: WaitResult,
                                   pop: WaitResult, frame: seq<BodyEntry>)

  /** The blocking call whose result ended the loop. */
  datatype Stage = GetCapture | EnqueueCapture | PopResult

  /** How one iteration ends: it runs to the end (and possibly posts a document), it
      `break`s out of the loop, or a failed skeleton fetch exits the process. */
  datatype CycleOutcome =
    | Completed(bods: BodyTracking, sent: Option<string>)
    | LoopBreak(stage: Stage, result: WaitResult)
    | ProcessExit

  /** What the outside world observes: a POST of a document, the shutdown sequence that
      follows the loop (tracker shutdown and destroy, camera stop, device close), or
      `exit(1)` from `VERIFY`. */
  datatype Event = Sent(doc: string) | Shutdown | Exited(code: int)

  predicate WaitsSucceeded(c: CycleInput) {
    c.capture == Succeeded && c.enqueue == Succeeded && c.pop == Succeeded
  }

  /** The iteration reaches the send guard. */
  predicate Completes(c: CycleInput) {
    WaitsSucceeded(c) && AllFetched(c.frame)
  }

  /** The snapshot a completing iteration holds at the send guard. */
  function SnapshotOf(c: CycleInput): BodyTracking
    requires AllFetched(c.frame)
  {
    BodyTracking(c.clock, Positions(c.frame))
  }

  /** One iteration of the `do { ... } while (true)` loop. */
  function RunCycle(c: CycleInput, elem: BodyPosition -> string): (o: CycleOutcome)
    ensures o.LoopBreak? <==> !WaitsSucceeded(c)
    ensures o.LoopBreak? ==> o.result != Succeeded
    ensures o.ProcessExit? <==> WaitsSucceeded(c) && !AllFetched(c.frame)
    ensures o.Completed? ==> o.bods.time == c.clock && |o.bods.bodies| == |c.frame|
    ensures o.Completed? ==> (o.sent.Some? <==> |c.frame| > 0)
  {
    if c.capture != Succeeded then LoopBreak(GetCapture, c.capture)
    else if c.enqueue == Timeout || c.enqueue == Failed then LoopBreak(EnqueueCapture, c.enqueue)
    else if c.pop != Succeeded then LoopBreak(PopResult, c.pop)
    else match ExtractFrame(c.clock, c.frame)
      case None => ProcessExit
      case Some(e) => Completed(e.bods, if |e.bods.bodies| > 0 then Some(JSONOut(e.bods, elem)) else None)
  }

  /** The guard before `JSONOut` makes the malformed empty rendering unreachable: every
      posted document is the well-shaped one, of the snapshot taken at the top of the
      iteration, and reports that iteration's clock reading. */
  lemma SentDocumentIsWellShaped(c: CycleInput, elem: BodyPosition -> string)
    requires RunCycle(c, elem).Completed? && RunCycle(c, elem).sent.Some?
    ensures Completes(c)
    ensures RunCycle(c, elem).sent.value == JSONOutIntended(SnapshotOf(c), elem)
    ensures HasArrayBodies(RunCycle(c, elem).sent.value, c.clock)
    ensures ReadTimestamp(RunCycle(c, elem).sent.value) == Some(c.clock as int)
  {
    JSONOutNonEmpty(SnapshotOf(c), elem);
    TimestampRoundTrip(SnapshotOf(c), elem);
  }

  /** The events of a run over the given iterations. An empty input means the loop is still
      waiting for its next capture, so nothing more is observed. */
  function Run(cycles: seq<CycleInput>, elem: BodyPosition -> string): (events: seq<Event>)
    ensures |events| <= |cycles|
    ensures forall i :: 0 <= i < |events| - 1 ==> events[i].Sent?
    ensures forall i :: 0 <= i < |events| && events[i].Exited? ==> events[i].code == 1
    decreases |cycles|
  {
    if |cycles| == 0 then []
    else match RunCycle(cycles[0], elem)
      case Completed(_, sent) =>
        (if sent.Some? then [Sent(sent.value)] else []) + Run(cycles[1..], elem)
      case LoopBreak(_, _) => [Shutdown]
      case ProcessExit => [Exited(1)]
  }

  /** One step of `Run`, by the outcome of its first iteration. */
  lemma RunStep(cs: seq<CycleInput>, elem: BodyPosition -> string)
    requires |cs| > 0
    ensures RunCycle(cs[0], elem).LoopBreak? ==> Run(cs, elem) == [Shutdown]
    ensures RunCycle(cs[0], elem).ProcessExit? ==> Run(cs, elem) == [Exited(1)]
    ensures RunCycle(cs[0], elem).Completed? && RunCycle(cs[0], elem).sent.None? ==>
              Run(cs, elem) == Run(cs[1..], elem)
    ensures RunCycle(cs[0], elem).Completed? && RunCycle(cs[0], elem).sent.Some? ==>
              Run(cs, elem) == [Sent(RunCycle(cs[0], elem).sent.value)] + Run(cs[1..], elem)
  {
  }

  /** The reference for a run in which every iteration completes: one well-shaped document
      per iteration with at least one body, in iteration order. */
  function ExpectedSends(cycles: seq<CycleInput>, elem: BodyPosition -> string): seq<Event>
    requires forall i :: 0 <= i < |cycles| ==> Completes(cycles[i])
    decreases |cycles|
  {
    if |cycles| == 0 then []
    else
      assert Completes(cycles[0]);
      (if |cycles[0].frame| > 0 then [Sent(JSONOutIntended(SnapshotOf(cycles[0]), elem))] else [])
      + ExpectedSends(cycles[1..], elem)
  }

  function CountNonEmpty(cycles: seq<CycleInput>): nat
    decreases |cycles|
  {
    if |cycles| == 0 then 0 else (if |cycles[0].frame| > 0 then 1 else 0) + CountNonEmpty(cycles[1..])
  }

  /** While every iteration completes, the run posts exactly the well-shaped documents of
      the non-empty snapshots, one each, in order, and nothing else. */
  lemma {:induction false} CompletedRunSendsNonEmptySnapshots(cycles: seq<CycleInput>, elem: BodyPosition -> string)
    requires forall i :: 0 <= i < |cycles| ==> Completes(cycles[i])
    ensures Run(cycles, elem) == ExpectedSends(cycles, elem)
    ensures |Run(cycles, elem)| == CountNonEmpty(cycles)
    decreases |cycles|
  {
    if |cycles| > 0 {
      var c := cycles[0];
      CompletedRunSendsNonEmptySnapshots(cycles[1..], elem);
      if |c.frame| > 0 {
        SentDocumentIsWellShaped(c, elem);
      }
    }
  }

  /** No state crosses iterations: a run that completes `a` and then continues with `b`
      observes `a`'s events followed by `b`'s, as if `b` had run alone. */
  lemma {:induction false} RunComposes(a: seq<CycleInput>, b: seq<CycleInput>, elem: BodyPosition -> string)
    requires forall i :: 0 <= i < |a| ==> Completes(a[i])
    ensures Run(a + b, elem) == Run(a, elem) + Run(b, elem)
    decreases |a|
  {
    if |a| == 0 {
      assert a + b == b;
    } else {
      assert (a + b)[0] == a[0];
      assert (a + b)[1..] == a[1..] + b;
      RunComposes(a[1..], b, elem);
    }
  }

  /** The first iteration that does not complete ends the run, and nothing it or any later
      iteration would have sent is observed. A failed or timed-out wait `break`s out of the
      loop and the shutdown sequence runs once; a failed skeleton fetch exits with status 1
      and skips the shutdown. */
  lemma FirstFailureEndsRun(a: seq<CycleInput>, c: CycleInput, b: seq<CycleInput>, elem: BodyPosition -> string)
    requires forall i :: 0 <= i < |a| ==> Completes(a[i])
    requires !Completes(c)
    ensures Run(a + [c] + b, elem) ==
      ExpectedSends(a, elem) + (if WaitsSucceeded(c) then [Exited(1)] else [Shutdown])
  {
    assert a + [c] + b == a + ([c] + b);
    RunComposes(a, [c] + b, elem);
    CompletedRunSendsNonEmptySnapshots(a, elem);
    assert ([c] + b)[0] == c;
  }

  /** One pass through the loop body (lines 71-183): construct the snapshot, wait for a
      capture, enqueue it, pop the tracked bodies, extract them, and serialize the snapshot
      only when it is non-empty. */
  method Iteration(c: CycleInput, elem: BodyPosition -> string) returns (o: CycleOutcome)
    ensures o == RunCycle(c, elem)
  {
    var bods := New(c.clock);
    if c.capture != Succeeded {
      return LoopBreak(GetCapture, c.capture);
    }
    if c.enqueue == Timeout || c.enqueue == Failed {
      return LoopBreak(EnqueueCapture, c.enqueue);
    }
    if c.pop != Succeeded {
      return LoopBreak(PopResult, c.pop);
    }
    var extracted := ExtractBodies(bods.time, c.frame);
    if extracted.None? {
      return ProcessExit;
    }
    bods := extracted.value.bods;
    var sent: Option<string> := None;
    if |bods.bodies| > 0 {
      sent := Some(JSONOut(bods, elem));
    }
    return Completed(bods, sent);
  }

  /** The loop of `main` as written: a `do`/`while (true)` whose iterations leave only by
      `break`, after which the shutdown sequence runs, or by `exit(1)`. */
  method MainLoop(cycles: seq<CycleInput>, elem: BodyPosition -> string) returns (events: seq<Event>)
    ensures events == Run(cycles, elem)
  {
    events := [];
    var k := 0;
    var broke := false;
    while k < |cycles|
      invariant 0 <= k <= |cycles|
      invariant events + Run(cycles[k..], elem) == Run(cycles, elem)
    {
      assert cycles[k..][1..] == cycles[k + 1..];
      RunStep(cycles[k..], elem);
      var o := Iteration(cycles[k], elem);
      if o.LoopBreak? {
        broke := true;
        break;
      } else if o.ProcessExit? {
        events := events + [Exited(1)];
        return;
      }
      if o.sent.Some? {
        events := events + [Sent(o.sent.value)];
      }
      k := k + 1;
    }
    if broke {
      events := events + [Shutdown];
    } else {
      assert cycles[k..] == [];
    }
  }
}

/**
 * The start/stop guards of `CycleMonitor` and `RamTester`, shared by the
 * three structured testers. A monitor or the checker is running exactly when
 * its coroutine handle is set. `RamTester.start` starts the input monitor,
 * then the output monitor, then the checker; `RamTester.stop` stops the two
 * monitors, then kills the checker. A call that raises keeps whatever it had
 * already changed.
 */
module Lifecycle {
  import opened Outcomes

  /** The RuntimeError messages of the guards. */
  datatype Failure =
    | MonitorAlreadyStarted
    | MonitorNeverStarted
    | CheckerAlreadyStarted
    | CheckerNeverStarted

  /** Which coroutine handles are set. */
  datatype Tester = Tester(input: bool, output: bool, checker: bool)

  /** A raised RuntimeError together with the state the call left behind. */
  datatype Raised = Raised(failure: Failure, left: Tester)

  /** `CycleMonitor.start`: refuses a running monitor. */
  function MonitorStart(running: bool): (r: Result<bool, Failure>)
    ensures r.Ok? <==> !running
    ensures r.Ok? ==> r.value
    ensures r.Err? ==> r.error == MonitorAlreadyStarted
  {
    if running then Err(MonitorAlreadyStarted) else Ok(true)
  }

  /** `CycleMonitor.stop`: refuses a monitor that is not running. */
  function MonitorStop(running: bool): (r: Result<bool, Failure>)
    ensures r.Ok? <==> running
    ensures r.Ok? ==> !r.value
    ensures r.Err? ==> r.error == MonitorNeverStarted
  {
    if running then Ok(false) else Err(MonitorNeverStarted)
  }

  /** A fresh tester: no monitor and no checker running. */
  const Idle := Tester(false, false, false)

  /** Every handle set, as after a successful `start`. */
  const Running := Tester(true, true, true)

  /** `RamTester.start`. */
  function Start(t: Tester): (r: Result<Tester, Raised>)
    ensures r.Ok? <==> !t.checker && !t.input && !t.output
    ensures r.Ok? ==> r.value == Running
    ensures t.checker ==> r == Err(Raised(CheckerAlreadyStarted, t))
    ensures !t.checker && t.input ==> r == Err(Raised(MonitorAlreadyStarted, t))
    ensures !t.checker && !t.input && t.output ==> r == Err(Raised(MonitorAlreadyStarted, t.(input := true)))
  {
    if t.checker then Err(Raised(CheckerAlreadyStarted, t))
    else
      match MonitorStart(t.input)
      case Err(f) => Err(Raised(f, t))
      case Ok(input) =>
        var t1 := t.(input := input);
        match MonitorStart(t.output)
        case Err(f) => Err(Raised(f, t1))
        case Ok(output) => Ok(t1.(output := output, checker := true))
  }

  /** `RamTester.stop`. */
  function Stop(t: Tester): (r: Result<Tester, Raised>)
    ensures r.Ok? <==> t.checker && t.input && t.output
    ensures r.Ok? ==> r.value == Idle
    ensures !t.checker ==> r == Err(Raised(CheckerNeverStarted, t))
    ensures t.checker && !t.input ==> r == Err(Raised(MonitorNeverStarted, t))
    ensures t.checker && t.input && !t.output ==> r == Err(Raised(MonitorNeverStarted, t.(input := false)))
  {
    if !t.checker then Err(Raised(CheckerNeverStarted, t))
    else
      match MonitorStop(t.input)
      case Err(f) => Err(Raised(f, t))
      case Ok(input) =>
        var t1 := t.(input := input);
        match MonitorStop(t.output)
        case Err(f) => Err(Raised(f, t1))
        case Ok(output) => Ok(t1.(output := output, checker := false))
  }

  /** The monitors run exactly when the checker does. */
  predicate Consistent(t: Tester)
  {
    t.input == t.checker && t.output == t.checker
  }

  datatype Op = StartOp | StopOp

  function Apply(t: Tester, op: Op): Result<Tester, Raised>
  {
    match op
    case StartOp => Start(t)
    case StopOp => Stop(t)
  }

  /** The state after the calls `ops`, or the first RuntimeError. */
  function Calls(t: Tester, ops: seq<Op>): (r: Result<Tester, Raised>)
    decreases |ops|
  {
    if |ops| == 0 then Ok(t)
    else
      match Apply(t, ops[0])
      case Err(e) => Err(e)
      case Ok(t') => Calls(t', ops[1..])
  }

  /** Whether `ops` alternates start and stop, beginning with `first`. */
  predicate Alternates(ops: seq<Op>, first: Op)
  {
    forall k :: 0 <= k < |ops| ==> ops[k] == if k % 2 == 0 then first else Other(first)
  }

  function Other(op: Op): (o: Op)
    ensures o != op
  {
    match op
    case StartOp => StopOp
    case StopOp => StartOp
  }

  /** Under the guards only a consistent tester can be running or idle: every call keeps consistency. */
  lemma CallsKeepConsistent(t: Tester, op: Op)
    requires Consistent(t)
    ensures Apply(t, op).Ok? ==> Consistent(Apply(t, op).value)
    ensures Apply(t, op).Err? ==> Apply(t, op).error.left == t
  {
  }

  /**
   * From a consistent tester a sequence of calls raises nothing exactly when
   * it alternates, beginning with `start` when idle and with `stop` when
   * running; it then ends in the state opposite to its starting one after
   * an odd number of calls, and in its starting state after an even number.
   */
  lemma {:induction false} CallsSucceedIff(t: Tester, ops: seq<Op>)
    requires Consistent(t)
    ensures var first := if t.checker then StopOp else StartOp;
            Calls(t, ops).Ok? <==> Alternates(ops, first)
    ensures Calls(t, ops).Ok? ==> Calls(t, ops).value == if (|ops| % 2 == 0) == t.checker then Running else Idle
    decreases |ops|
  {
    var first := if t.checker then StopOp else StartOp;
    if |ops| > 0 {
      if ops[0] == first {
        var t' := Apply(t, ops[0]).value;
        CallsSucceedIff(t', ops[1..]);
        assert Alternates(ops, first) <==> Alternates(ops[1..], Other(first)) by {
          AlternatesTail(ops, first);
        }
      } else {
        assert !Alternates(ops, first);
      }
    }
  }

  lemma AlternatesTail(ops: seq<Op>, first: Op)
    requires |ops| > 0 && ops[0] == first
    ensures Alternates(ops, first) <==> Alternates(ops[1..], Other(first))
  {
    if Alternates(ops[1..], Other(first)) {
      forall k | 0 <= k < |ops|
        ensures ops[k] == if k % 2 == 0 then first else Other(first)
      {
        if k > 0 {
          assert ops[k] == ops[1..][k - 1];
        }
      }
    }
    if Alternates(ops, first) {
      forall k | 0 <= k < |ops| - 1
        ensures ops[1..][k] == if k % 2 == 0 then Other(first) else first
      {
        assert ops[1..][k] == ops[k + 1];
        assert Other(Other(first)) == first;
      }
    }
  }

  /** `stop` returns the tester to idle, so `start` may succeed again. */
  lemma Restart()
    ensures Start(Idle).Ok?
    ensures Stop(Start(Idle).value).Ok?
    ensures Start(Stop(Start(Idle).value).value) == Start(Idle)
  {
  }
}

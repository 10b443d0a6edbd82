/**
 * The checker coroutine `RamTester._check` as a fold over the two monitor
 * queues: the k-th output sample is paired with the k-th input sample, the
 * input is fed to the golden model and the model's word must equal the
 * sampled output.
 *
 * The structured cocotb tester skips a pair whose address is not below
 * G_DEPTH (neither stepping the model nor comparing); the FIFO-bench tester
 * feeds every pair to the model, which raises IndexError when it indexes a
 * storage list out of range.
 */
module Checker {
  import opened RamModel

  datatype AddressPolicy = SkipOutOfRange | Unguarded

  /** How the fold ends: every pair consumed, a failed assertion, or an out-of-range index. */
  datatype Verdict =
    | Pass(state: State, compared: nat)
    | Mismatch(index: nat, expected: nat, actual: nat)
    | IndexError(index: nat)

  predicate AllFit(cfg: Config, ins: seq<Input>)
  {
    forall t :: 0 <= t < |ins| ==> Fits(cfg, ins[t])
  }

  /** The verdict of the remaining pairs, seen from one pair earlier. */
  function Later(v: Verdict, compared: nat): (v': Verdict)
  {
    match v
    case Pass(st, c) => Pass(st, c + compared)
    case Mismatch(k, e, a) => Mismatch(k + 1, e, a)
    case IndexError(k) => IndexError(k + 1)
  }

  function Check(cfg: Config, policy: AddressPolicy, s: State, ins: seq<Input>, outs: seq<nat>): (v: Verdict)
    requires Valid(cfg, s) && |ins| == |outs| && AllFit(cfg, ins)
    ensures v.Pass? ==> Valid(cfg, v.state) && v.compared <= |ins|
    ensures v.Mismatch? ==> v.index < |ins| && v.actual == outs[v.index] && v.expected != v.actual
    ensures v.IndexError? ==>
              && v.index < |ins| && policy == Unguarded
              && Indexes(cfg, ins[v.index]) && ins[v.index].adr >= cfg.depth
    decreases |ins|
  {
    if |ins| == 0 then
      Pass(s, 0)
    else if policy == SkipOutOfRange && ins[0].adr >= cfg.depth then
      Later(Check(cfg, policy, s, ins[1..], outs[1..]), 0)
    else if !InputOk(cfg, ins[0]) then
      assert Fits(cfg, ins[0]);
      assert policy == Unguarded;
      assert Indexes(cfg, ins[0]);
      IndexError(0)
    else
      var o := Step(cfg, s, ins[0]);
      if o.out != outs[0] then Mismatch(0, o.out, outs[0])
      else Later(Check(cfg, policy, o.state, ins[1..], outs[1..]), 1)
  }

  /** The pairs the skipping checker feeds to the model: those whose address is below G_DEPTH. */
  function Kept(cfg: Config, ins: seq<Input>, outs: seq<nat>): (r: (seq<Input>, seq<nat>))
    requires |ins| == |outs|
    ensures |r.0| == |r.1| <= |ins|
    ensures forall t :: 0 <= t < |r.0| ==> r.0[t].adr < cfg.depth && r.0[t] in ins
    ensures AllFit(cfg, ins) ==> InputsOk(cfg, r.0)
    decreases |ins|
  {
    if |ins| == 0 then ([], [])
    else
      var rest := Kept(cfg, ins[1..], outs[1..]);
      if ins[0].adr < cfg.depth then ([ins[0]] + rest.0, [outs[0]] + rest.1) else rest
  }

  /** The statement of `SkippingPassIff` for one stream. */
  predicate SkippingVerdict(cfg: Config, s: State, ins: seq<Input>, outs: seq<nat>)
    requires Valid(cfg, s) && |ins| == |outs| && AllFit(cfg, ins)
  {
    var kept := Kept(cfg, ins, outs);
    var v := Check(cfg, SkipOutOfRange, s, ins, outs);
    && !v.IndexError?
    && (v.Pass? <==> kept.1 == Run(cfg, s, kept.0).outs)
    && (v.Pass? ==> v.compared == |kept.0| && v.state == Run(cfg, s, kept.0).states[|kept.0|])
  }

  /** A skipped leading pair changes neither the kept queues nor the verdict. */
  lemma SkippingVerdictSkip(cfg: Config, s: State, ins: seq<Input>, outs: seq<nat>)
    requires Valid(cfg, s) && |ins| == |outs| && AllFit(cfg, ins) && |ins| > 0 && ins[0].adr >= cfg.depth
    requires SkippingVerdict(cfg, s, ins[1..], outs[1..])
    ensures SkippingVerdict(cfg, s, ins, outs)
  {
    assert Check(cfg, SkipOutOfRange, s, ins, outs) == Later(Check(cfg, SkipOutOfRange, s, ins[1..], outs[1..]), 0);
    assert Kept(cfg, ins, outs) == Kept(cfg, ins[1..], outs[1..]);
  }

  /** A kept leading pair is compared first, then the rest is checked from the model's next state. */
  lemma SkippingVerdictKeep(cfg: Config, s: State, ins: seq<Input>, outs: seq<nat>)
    requires Valid(cfg, s) && |ins| == |outs| && AllFit(cfg, ins) && |ins| > 0 && ins[0].adr < cfg.depth
    requires InputOk(cfg, ins[0]) && SkippingVerdict(cfg, Step(cfg, s, ins[0]).state, ins[1..], outs[1..])
    ensures SkippingVerdict(cfg, s, ins, outs)
  {
    var o := Step(cfg, s, ins[0]);
    var v, v' := Check(cfg, SkipOutOfRange, s, ins, outs), Check(cfg, SkipOutOfRange, o.state, ins[1..], outs[1..]);
    assert v == if o.out != outs[0] then Mismatch(0, o.out, outs[0]) else Later(v', 1);
    KeptRunCons(cfg, s, ins, outs);
    var kept, rest := Kept(cfg, ins, outs), Kept(cfg, ins[1..], outs[1..]);
    var run, tail := Run(cfg, s, kept.0), Run(cfg, o.state, rest.0);
    assert !v'.IndexError? && (v'.Pass? <==> rest.1 == tail.outs);
    assert v'.Pass? ==> v'.compared == |rest.0| && v'.state == tail.states[|rest.0|];
    ConsEquals(outs[0], rest.1, o.out, tail.outs);
    assert v.Pass? <==> kept.1 == run.outs;
    assert v.Pass? ==> v.compared == |kept.0| && v.state == run.states[|kept.0|];
  }

  /** Two sequences with a first element are equal exactly when their heads and their tails are. */
  lemma ConsEquals<T>(x: T, xs: seq<T>, y: T, ys: seq<T>)
    ensures [x] + xs == [y] + ys <==> x == y && xs == ys
  {
    if [x] + xs == [y] + ys {
      assert ([x] + xs)[0] == x && ([y] + ys)[0] == y;
      assert ([x] + xs)[1..] == xs && ([y] + ys)[1..] == ys;
    }
  }

  /**
   * The skipping checker passes exactly when the kept output samples are the
   * model's outputs on the kept input samples; it then compared every kept
   * pair and never raises IndexError.
   */
  lemma {:induction false} SkippingPassIff(cfg: Config, s: State, ins: seq<Input>, outs: seq<nat>)
    requires Valid(cfg, s) && |ins| == |outs| && AllFit(cfg, ins)
    ensures var kept := Kept(cfg, ins, outs);
            var v := Check(cfg, SkipOutOfRange, s, ins, outs);
            && !v.IndexError?
            && (v.Pass? <==> kept.1 == Run(cfg, s, kept.0).outs)
            && (v.Pass? ==> v.compared == |kept.0| && v.state == Run(cfg, s, kept.0).states[|kept.0|])
    decreases |ins|
  {
    if |ins| > 0 {
      if ins[0].adr >= cfg.depth {
        SkippingPassIff(cfg, s, ins[1..], outs[1..]);
        SkippingVerdictSkip(cfg, s, ins, outs);
      } else {
        assert Fits(cfg, ins[0]);
        var o := Step(cfg, s, ins[0]);
        SkippingPassIff(cfg, o.state, ins[1..], outs[1..]);
        SkippingVerdictKeep(cfg, s, ins, outs);
      }
    }
    assert SkippingVerdict(cfg, s, ins, outs);
  }

  /**
   * The unguarded checker on a stream whose every index is in range passes
   * exactly when the output samples are the model's outputs, having
   * compared every pair (the two queues are consumed in lock step).
   */
  lemma {:induction false} UnguardedPassIff(cfg: Config, s: State, ins: seq<Input>, outs: seq<nat>)
    requires Valid(cfg, s) && |ins| == |outs| && InputsOk(cfg, ins)
    ensures var v := Check(cfg, Unguarded, s, ins, outs);
            && !v.IndexError?
            && (v.Pass? <==> outs == Run(cfg, s, ins).outs)
            && (v.Pass? ==> v.compared == |ins| && v.state == Run(cfg, s, ins).states[|ins|])
    decreases |ins|
  {
    if |ins| > 0 {
      var o := Step(cfg, s, ins[0]);
      UnguardedPassIff(cfg, o.state, ins[1..], outs[1..]);
      UnguardedVerdictCons(cfg, s, ins, outs);
    }
    assert UnguardedVerdict(cfg, s, ins, outs);
  }

  /** The statement of `UnguardedPassIff` for one stream. */
  predicate UnguardedVerdict(cfg: Config, s: State, ins: seq<Input>, outs: seq<nat>)
    requires Valid(cfg, s) && |ins| == |outs| && InputsOk(cfg, ins)
  {
    var v := Check(cfg, Unguarded, s, ins, outs);
    && !v.IndexError?
    && (v.Pass? <==> outs == Run(cfg, s, ins).outs)
    && (v.Pass? ==> v.compared == |ins| && v.state == Run(cfg, s, ins).states[|ins|])
  }

  /** The first pair is compared, then the rest is checked from the model's next state. */
  lemma UnguardedVerdictCons(cfg: Config, s: State, ins: seq<Input>, outs: seq<nat>)
    requires Valid(cfg, s) && |ins| == |outs| && InputsOk(cfg, ins) && |ins| > 0
    requires InputsOk(cfg, ins[1..]) && UnguardedVerdict(cfg, Step(cfg, s, ins[0]).state, ins[1..], outs[1..])
    ensures UnguardedVerdict(cfg, s, ins, outs)
  {
    var o := Step(cfg, s, ins[0]);
    var v, v' := Check(cfg, Unguarded, s, ins, outs), Check(cfg, Unguarded, o.state, ins[1..], outs[1..]);
    assert v == if o.out != outs[0] then Mismatch(0, o.out, outs[0]) else Later(v', 1);
    var run, tail := Run(cfg, s, ins), Run(cfg, o.state, ins[1..]);
    assert run.outs == [o.out] + tail.outs && run.states == [s] + tail.states;
    assert outs == [outs[0]] + outs[1..];
    ConsEquals(outs[0], outs[1..], o.out, tail.outs);
  }

  /**
   * The unguarded checker never passes over an out-of-range pair: on samples
   * that fit their buses it passes exactly when every pair indexes storage in
   * range and the output samples are the model's outputs.
   */
  lemma {:induction false} UnguardedPassInRange(cfg: Config, s: State, ins: seq<Input>, outs: seq<nat>)
    requires Valid(cfg, s) && |ins| == |outs| && AllFit(cfg, ins)
    ensures Check(cfg, Unguarded, s, ins, outs).Pass? ==> InputsOk(cfg, ins)
    ensures Check(cfg, Unguarded, s, ins, outs).Pass? <==> InputsOk(cfg, ins) && outs == Run(cfg, s, ins).outs
    decreases |ins|
  {
    var v := Check(cfg, Unguarded, s, ins, outs);
    if |ins| > 0 && v.Pass? {
      assert InputOk(cfg, ins[0]);
      var o := Step(cfg, s, ins[0]);
      var v' := Check(cfg, Unguarded, o.state, ins[1..], outs[1..]);
      assert o.out == outs[0] && v == Later(v', 1);
      UnguardedPassInRange(cfg, o.state, ins[1..], outs[1..]);
      forall t | 0 <= t < |ins| ensures InputOk(cfg, ins[t]) {
        if t > 0 {
          assert ins[t] == ins[1..][t - 1];
        }
      }
    }
    if InputsOk(cfg, ins) {
      UnguardedPassIff(cfg, s, ins, outs);
    }
  }

  /** Running the model on the first `k` samples takes the first step, then runs the next `k-1` samples. */
  lemma RunPrefix(cfg: Config, s: State, ins: seq<Input>, k: nat)
    requires Valid(cfg, s) && 0 < k <= |ins| && InputOk(cfg, ins[0]) && InputsOk(cfg, ins[1..][..k - 1])
    ensures InputsOk(cfg, ins[..k])
    ensures var o := Step(cfg, s, ins[0]);
            Run(cfg, s, ins[..k]).outs == [o.out] + Run(cfg, o.state, ins[1..][..k - 1]).outs
  {
    var pre := ins[..k];
    assert pre[1..] == ins[1..][..k - 1];
    forall t | 0 <= t < k ensures InputOk(cfg, pre[t]) {
      if t > 0 {
        assert pre[t] == ins[1..][..k - 1][t - 1];
      }
    }
  }

  /**
   * The first `k` samples are in range and their sampled outputs are the
   * model's: the unguarded checker has nothing to object to before pair `k`.
   */
  predicate MatchesBefore(cfg: Config, s: State, ins: seq<Input>, outs: seq<nat>, k: nat)
    requires Valid(cfg, s) && |ins| == |outs|
  {
    && k <= |ins| && InputsOk(cfg, ins[..k])
    && var run := Run(cfg, s, ins[..k]).outs;
       forall t :: 0 <= t < k ==> outs[t] == run[t]
  }

  /** Pair `k` is the first to differ: the pairs before it match and `expected` is the model's output on it. */
  predicate FailsAt(cfg: Config, s: State, ins: seq<Input>, outs: seq<nat>, k: nat, expected: nat)
    requires Valid(cfg, s) && |ins| == |outs|
  {
    && k < |ins| && InputsOk(cfg, ins[..k + 1])
    && var run := Run(cfg, s, ins[..k + 1]).outs;
       && expected == run[k]
       && forall t :: 0 <= t < k ==> outs[t] == run[t]
  }

  /** Sampled outputs that agree from the second pair on, after a first pair that matches, agree from the first. */
  lemma MatchesAfterMatch(cfg: Config, s: State, ins: seq<Input>, outs: seq<nat>, k: nat)
    requires Valid(cfg, s) && |ins| == |outs| && |ins| > 0
    requires InputOk(cfg, ins[0]) && Step(cfg, s, ins[0]).out == outs[0]
    requires MatchesBefore(cfg, Step(cfg, s, ins[0]).state, ins[1..], outs[1..], k)
    ensures MatchesBefore(cfg, s, ins, outs, k + 1)
  {
    var o := Step(cfg, s, ins[0]);
    RunPrefix(cfg, s, ins, k + 1);
    var run, tail := Run(cfg, s, ins[..k + 1]).outs, Run(cfg, o.state, ins[1..][..k]).outs;
    forall t | 0 <= t < k + 1
      ensures outs[t] == run[t]
    {
      if t > 0 {
        assert outs[t] == outs[1..][t - 1] && run[t] == tail[t - 1];
      }
    }
  }

  /** After a first pair that matches, the first differing pair of the rest is the first differing pair. */
  lemma FailsAfterMatch(cfg: Config, s: State, ins: seq<Input>, outs: seq<nat>, k: nat, expected: nat)
    requires Valid(cfg, s) && |ins| == |outs| && |ins| > 0
    requires InputOk(cfg, ins[0]) && Step(cfg, s, ins[0]).out == outs[0]
    requires FailsAt(cfg, Step(cfg, s, ins[0]).state, ins[1..], outs[1..], k, expected)
    ensures FailsAt(cfg, s, ins, outs, k + 1, expected)
  {
    var o := Step(cfg, s, ins[0]);
    RunPrefix(cfg, s, ins, k + 2);
    var run, tail := Run(cfg, s, ins[..k + 2]).outs, Run(cfg, o.state, ins[1..][..k + 1]).outs;
    assert run[k + 1] == tail[k];
    forall t | 0 <= t < k + 1
      ensures outs[t] == run[t]
    {
      if t > 0 {
        assert outs[t] == outs[1..][t - 1] && run[t] == tail[t - 1];
      }
    }
  }

  /**
   * The unguarded checker raises IndexError at the first out-of-range
   * sample: every earlier sample was in range and every earlier output was
   * the model's.
   */
  lemma {:induction false} UnguardedFirstIndexError(cfg: Config, s: State, ins: seq<Input>, outs: seq<nat>)
    requires Valid(cfg, s) && |ins| == |outs| && AllFit(cfg, ins)
    ensures var v := Check(cfg, Unguarded, s, ins, outs);
            v.IndexError? ==> MatchesBefore(cfg, s, ins, outs, v.index)
    decreases |ins|
  {
    if |ins| > 0 && InputOk(cfg, ins[0]) {
      var o := Step(cfg, s, ins[0]);
      var v := Check(cfg, Unguarded, s, ins, outs);
      if o.out == outs[0] {
        var v' := Check(cfg, Unguarded, o.state, ins[1..], outs[1..]);
        UnguardedFirstIndexError(cfg, o.state, ins[1..], outs[1..]);
        assert v == Later(v', 1);
        if v.IndexError? {
          MatchesAfterMatch(cfg, s, ins, outs, v'.index);
        }
      }
    }
  }

  /**
   * The unguarded checker stops at the first pair that differs: every
   * earlier output was the model's, and `expected` is the model's output
   * for the failing pair.
   */
  lemma {:induction false} UnguardedFirstMismatch(cfg: Config, s: State, ins: seq<Input>, outs: seq<nat>)
    requires Valid(cfg, s) && |ins| == |outs| && AllFit(cfg, ins)
    ensures var v := Check(cfg, Unguarded, s, ins, outs);
            v.Mismatch? ==> FailsAt(cfg, s, ins, outs, v.index, v.expected)
    decreases |ins|
  {
    if |ins| > 0 && InputOk(cfg, ins[0]) {
      var o := Step(cfg, s, ins[0]);
      var v := Check(cfg, Unguarded, s, ins, outs);
      if o.out == outs[0] {
        var v' := Check(cfg, Unguarded, o.state, ins[1..], outs[1..]);
        UnguardedFirstMismatch(cfg, o.state, ins[1..], outs[1..]);
        assert v == Later(v', 1);
        if v.Mismatch? {
          FailsAfterMatch(cfg, s, ins, outs, v'.index, v'.expected);
        }
      } else {
        RunPrefix(cfg, s, ins, 1);
      }
    }
  }

  /** The kept pairs of the first `k` samples, seen from the first sample. */
  lemma KeptPrefix(cfg: Config, ins: seq<Input>, outs: seq<nat>, k: nat)
    requires |ins| == |outs| && 0 < k <= |ins|
    ensures var kept, rest := Kept(cfg, ins[..k], outs[..k]), Kept(cfg, ins[1..][..k - 1], outs[1..][..k - 1]);
            kept == if ins[0].adr < cfg.depth then ([ins[0]] + rest.0, [outs[0]] + rest.1) else rest
  {
    assert ins[..k][1..] == ins[1..][..k - 1] && outs[..k][1..] == outs[1..][..k - 1];
  }

  /** Running the model on one more leading sample adds its output in front and ends in the same state. */
  lemma RunCons(cfg: Config, s: State, i: Input, ins: seq<Input>)
    requires Valid(cfg, s) && InputOk(cfg, i) && InputsOk(cfg, ins)
    ensures InputsOk(cfg, [i] + ins)
    ensures var o := Step(cfg, s, i);
            var run, tail := Run(cfg, s, [i] + ins), Run(cfg, o.state, ins);
            run.outs == [o.out] + tail.outs && run.states[|ins| + 1] == tail.states[|ins|]
  {
    assert ([i] + ins)[1..] == ins;
  }

  /**
   * Pair `k` is the first kept pair to differ: it is in range, the kept
   * pairs before it are the model's outputs on the kept inputs before it,
   * and `expected` is the model's next output, on pair `k`'s input.
   */
  predicate SkipFailsAt(cfg: Config, s: State, ins: seq<Input>, outs: seq<nat>, k: nat, expected: nat)
    requires Valid(cfg, s) && |ins| == |outs| && AllFit(cfg, ins)
  {
    && k < |ins| && ins[k].adr < cfg.depth
    && var kept := Kept(cfg, ins[..k], outs[..k]);
       var run := Run(cfg, s, kept.0);
       && kept.1 == run.outs
       && expected == Step(cfg, run.states[|kept.0|], ins[k]).out
  }

  /** A skipped leading pair moves the first differing kept pair one place on. */
  lemma SkipFailsAfterSkip(cfg: Config, s: State, ins: seq<Input>, outs: seq<nat>, k: nat, expected: nat)
    requires Valid(cfg, s) && |ins| == |outs| && AllFit(cfg, ins) && |ins| > 0 && ins[0].adr >= cfg.depth
    requires SkipFailsAt(cfg, s, ins[1..], outs[1..], k, expected)
    ensures SkipFailsAt(cfg, s, ins, outs, k + 1, expected)
  {
    assert ins[k + 1] == ins[1..][k];
    KeptPrefix(cfg, ins, outs, k + 1);
  }

  /** A leading kept pair that matches moves the first differing kept pair one place on. */
  lemma SkipFailsAfterMatch(cfg: Config, s: State, ins: seq<Input>, outs: seq<nat>, k: nat, expected: nat)
    requires Valid(cfg, s) && |ins| == |outs| && AllFit(cfg, ins) && |ins| > 0 && ins[0].adr < cfg.depth
    requires InputOk(cfg, ins[0]) && Step(cfg, s, ins[0]).out == outs[0]
    requires SkipFailsAt(cfg, Step(cfg, s, ins[0]).state, ins[1..], outs[1..], k, expected)
    ensures SkipFailsAt(cfg, s, ins, outs, k + 1, expected)
  {
    var o := Step(cfg, s, ins[0]);
    assert ins[k + 1] == ins[1..][k];
    KeptPrefix(cfg, ins, outs, k + 1);
    var kept := Kept(cfg, ins[..k + 1], outs[..k + 1]);
    var rest := Kept(cfg, ins[1..][..k], outs[1..][..k]);
    assert kept.0 == [ins[0]] + rest.0;
    assert kept.1 == [outs[0]] + rest.1;
    RunCons(cfg, s, ins[0], rest.0);
  }

  /** A leading in-range pair is kept first, and the model's run on the kept inputs starts with its step. */
  lemma KeptRunCons(cfg: Config, s: State, ins: seq<Input>, outs: seq<nat>)
    requires Valid(cfg, s) && |ins| == |outs| && AllFit(cfg, ins) && |ins| > 0 && InputOk(cfg, ins[0])
    requires ins[0].adr < cfg.depth
    ensures var kept, rest := Kept(cfg, ins, outs), Kept(cfg, ins[1..], outs[1..]);
            var o := Step(cfg, s, ins[0]);
            var run, tail := Run(cfg, s, kept.0), Run(cfg, o.state, rest.0);
            && kept.0 == [ins[0]] + rest.0 && kept.1 == [outs[0]] + rest.1
            && run.outs == [o.out] + tail.outs && run.states == [s] + tail.states
  {
    var kept, rest := Kept(cfg, ins, outs), Kept(cfg, ins[1..], outs[1..]);
    assert kept.0[1..] == rest.0;
  }

  /**
   * The skipping checker stops at the first kept pair that differs: the
   * pair is in range, the kept pairs before it are the model's outputs on
   * the kept inputs before it, and `expected` is the model's next output.
   */
  lemma {:induction false} SkippingFirstMismatch(cfg: Config, s: State, ins: seq<Input>, outs: seq<nat>)
    requires Valid(cfg, s) && |ins| == |outs| && AllFit(cfg, ins)
    ensures var v := Check(cfg, SkipOutOfRange, s, ins, outs);
            v.Mismatch? ==> SkipFailsAt(cfg, s, ins, outs, v.index, v.expected)
    decreases |ins|
  {
    if |ins| > 0 {
      var v := Check(cfg, SkipOutOfRange, s, ins, outs);
      if ins[0].adr >= cfg.depth {
        var v' := Check(cfg, SkipOutOfRange, s, ins[1..], outs[1..]);
        SkippingFirstMismatch(cfg, s, ins[1..], outs[1..]);
        assert v == Later(v', 0);
        if v.Mismatch? {
          SkipFailsAfterSkip(cfg, s, ins, outs, v'.index, v'.expected);
        }
      } else {
        assert Fits(cfg, ins[0]);
        var o := Step(cfg, s, ins[0]);
        if o.out == outs[0] {
          var v' := Check(cfg, SkipOutOfRange, o.state, ins[1..], outs[1..]);
          SkippingFirstMismatch(cfg, o.state, ins[1..], outs[1..]);
          assert v == Later(v', 1);
          if v.Mismatch? {
            SkipFailsAfterMatch(cfg, s, ins, outs, v'.index, v'.expected);
          }
        } else {
          assert Kept(cfg, ins[..0], outs[..0]) == ([], []);
        }
      }
    }
  }

  /** The in-range sample positions from `from` on, in increasing order. */
  function KeptFrom(cfg: Config, ins: seq<Input>, from: nat): (idx: seq<nat>)
    requires from <= |ins|
    ensures forall k :: 0 <= k < |idx| ==> from <= idx[k] < |ins| && ins[idx[k]].adr < cfg.depth
    decreases |ins| - from
  {
    if from == |ins| then []
    else
      var rest := KeptFrom(cfg, ins, from + 1);
      if ins[from].adr < cfg.depth then [from] + rest else rest
  }

  /** The kept positions increase. */
  lemma {:induction false} KeptFromIncreasing(cfg: Config, ins: seq<Input>, from: nat)
    requires from <= |ins|
    ensures var idx := KeptFrom(cfg, ins, from);
            forall j, k :: 0 <= j < k < |idx| ==> idx[j] < idx[k]
    decreases |ins| - from
  {
    if from < |ins| && ins[from].adr < cfg.depth {
      KeptFromIncreasing(cfg, ins, from + 1);
      var idx, rest := KeptFrom(cfg, ins, from), KeptFrom(cfg, ins, from + 1);
      assert idx == [from] + rest;
      forall j, k | 0 <= j < k < |idx|
        ensures idx[j] < idx[k]
      {
        assert idx[k] == rest[k - 1] && from + 1 <= rest[k - 1];
        if j > 0 {
          assert idx[j] == rest[j - 1] && rest[j - 1] < rest[k - 1];
        }
      }
    } else if from < |ins| {
      KeptFromIncreasing(cfg, ins, from + 1);
      assert KeptFrom(cfg, ins, from) == KeptFrom(cfg, ins, from + 1);
    }
  }

  /** Every in-range position from `from` on is kept. */
  lemma {:induction false} KeptFromComplete(cfg: Config, ins: seq<Input>, from: nat)
    requires from <= |ins|
    ensures forall t :: from <= t < |ins| && ins[t].adr < cfg.depth ==> t in KeptFrom(cfg, ins, from)
    decreases |ins| - from
  {
    if from < |ins| {
      KeptFromComplete(cfg, ins, from + 1);
      var idx, rest := KeptFrom(cfg, ins, from), KeptFrom(cfg, ins, from + 1);
      assert forall t :: t in rest ==> t in idx;
    }
  }

  lemma {:induction false} KeptSuffix(cfg: Config, ins: seq<Input>, outs: seq<nat>, from: nat)
    requires |ins| == |outs| && from <= |ins|
    ensures var r, idx := Kept(cfg, ins[from..], outs[from..]), KeptFrom(cfg, ins, from);
            && |r.0| == |idx|
            && forall k :: 0 <= k < |idx| ==> r.0[k] == ins[idx[k]] && r.1[k] == outs[idx[k]]
    decreases |ins| - from
  {
    if from < |ins| {
      KeptSuffix(cfg, ins, outs, from + 1);
      var r, idx := Kept(cfg, ins[from..], outs[from..]), KeptFrom(cfg, ins, from);
      var rest, ridx := Kept(cfg, ins[from + 1..], outs[from + 1..]), KeptFrom(cfg, ins, from + 1);
      assert ins[from..][1..] == ins[from + 1..] && outs[from..][1..] == outs[from + 1..];
      if ins[from].adr < cfg.depth {
        assert r == ([ins[from]] + rest.0, [outs[from]] + rest.1);
        assert idx == [from] + ridx;
        forall k | 0 <= k < |idx|
          ensures r.0[k] == ins[idx[k]] && r.1[k] == outs[idx[k]]
        {
          if k > 0 {
            assert r.0[k] == rest.0[k - 1] && r.1[k] == rest.1[k - 1] && idx[k] == ridx[k - 1];
          }
        }
      } else {
        assert r == rest && idx == ridx;
      }
    }
  }

  /**
   * The skipping checker's queues are the subsequence of in-range pairs:
   * pair k of the kept queues is pair `idx[k]` of the sampled queues, the
   * positions increase, and a position is among them exactly when its
   * address is below G_DEPTH.
   */
  lemma KeptIsFilter(cfg: Config, ins: seq<Input>, outs: seq<nat>)
    requires |ins| == |outs|
    ensures var r, idx := Kept(cfg, ins, outs), KeptFrom(cfg, ins, 0);
            && |r.0| == |r.1| == |idx|
            && (forall j, k :: 0 <= j < k < |idx| ==> idx[j] < idx[k])
            && (forall t :: 0 <= t < |ins| ==> (t in idx <==> ins[t].adr < cfg.depth))
            && (forall k :: 0 <= k < |idx| ==> r.0[k] == ins[idx[k]] && r.1[k] == outs[idx[k]])
  {
    KeptSuffix(cfg, ins, outs, 0);
    KeptFromIncreasing(cfg, ins, 0);
    KeptFromComplete(cfg, ins, 0);
    assert ins[0..] == ins && outs[0..] == outs;
  }

  /** On a stream whose addresses are all below G_DEPTH the two address policies give one verdict. */
  lemma {:induction false} PoliciesAgree(cfg: Config, s: State, ins: seq<Input>, outs: seq<nat>)
    requires Valid(cfg, s) && |ins| == |outs| && AllFit(cfg, ins)
    requires forall t :: 0 <= t < |ins| ==> ins[t].adr < cfg.depth
    ensures Check(cfg, SkipOutOfRange, s, ins, outs) == Check(cfg, Unguarded, s, ins, outs)
    decreases |ins|
  {
    if |ins| > 0 && InputOk(cfg, ins[0]) {
      var o := Step(cfg, s, ins[0]);
      PoliciesAgree(cfg, o.state, ins[1..], outs[1..]);
    }
  }
}

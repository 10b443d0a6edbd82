/**
 * Timing properties of the integer golden model over whole runs: the
 * registered storage tracks a plain memory that applies every enabled
 * write, reads see only earlier steps' writes, a disabled step is a stall,
 * and a read appears exactly `latency` enabled steps later.
 */
module RamTiming {
  import opened Bits
  import opened ColumnWrite
  import opened RamModel

  /** A plain memory with no registers: an enabled input writes its masked columns at once. */
  function Write(cfg: Config, m: seq<nat>, i: Input): (m': seq<nat>)
    requires ValidConfig(cfg) && |m| == cfg.depth && Words(cfg, m) && InputOk(cfg, i)
    ensures |m'| == |m| && Words(cfg, m')
  {
    if i.en == 1 then m[i.adr := MaskedWrite(m[i.adr], i.we, i.din, cfg.nCol, cfg.colW)] else m
  }

  /** The plain memory after the inputs `ins`, in order. */
  function Memory(cfg: Config, m: seq<nat>, ins: seq<Input>): (m': seq<nat>)
    requires ValidConfig(cfg) && |m| == cfg.depth && Words(cfg, m) && InputsOk(cfg, ins)
    ensures |m'| == |m| && Words(cfg, m')
    decreases |ins|
  {
    if |ins| == 0 then m
    else Write(cfg, Memory(cfg, m, ins[..|ins| - 1]), ins[|ins| - 1])
  }

  /** The next-state storage after one step is the plain memory's write. */
  lemma StepWrites(cfg: Config, s: State, i: Input)
    requires Valid(cfg, s) && InputOk(cfg, i)
    ensures Step(cfg, s, i).state.nxtRam == Write(cfg, s.nxtRam, i)
  {
    if i.en == 1 {
      var t := Step(cfg, s, i).state;
      StepColumns(cfg, s, i);
      MaskedWriteUnique(s.nxtRam[i.adr], i.we, i.din, cfg.nCol, cfg.colW, t.nxtRam[i.adr]);
      assert t.nxtRam == Write(cfg, s.nxtRam, i);
    }
  }

  /** Step `t` of a trace. */
  lemma TraceStep(cfg: Config, s: State, ins: seq<Input>, r: Trace, t: nat)
    requires InputsOk(cfg, ins) && IsTrace(cfg, s, ins, r) && t < |ins|
    ensures Valid(cfg, r.states[t]) && InputOk(cfg, ins[t])
    ensures Step(cfg, r.states[t], ins[t]) == StepOut(r.states[t + 1], r.outs[t])
  {
    assert StepsTo(cfg, ins, r, t);
  }

  /** Before step `t` the next-state storage holds the plain memory after the first `t` inputs. */
  lemma {:induction false} TraceTracksMemory(cfg: Config, s: State, ins: seq<Input>, r: Trace, t: nat)
    requires Valid(cfg, s) && InputsOk(cfg, ins) && IsTrace(cfg, s, ins, r) && t <= |ins|
    ensures r.states[t].nxtRam == Memory(cfg, s.nxtRam, ins[..t])
  {
    if t > 0 {
      TraceTracksMemory(cfg, s, ins, r, t - 1);
      TraceStep(cfg, s, ins, r, t - 1);
      StepWrites(cfg, r.states[t - 1], ins[t - 1]);
      assert ins[..t][..t - 1] == ins[..t - 1];
    } else {
      assert ins[..0] == [];
    }
  }

  /**
   * Latency 0: the output of step `t` is the addressed word of the memory
   * after the first `t` inputs, so a step never sees its own write.
   */
  lemma ZeroLatencyRead(cfg: Config, s: State, ins: seq<Input>, t: nat)
    requires Valid(cfg, s) && InputsOk(cfg, ins) && cfg.latency == 0 && t < |ins|
    ensures ins[t].adr < cfg.depth
    ensures Run(cfg, s, ins).outs[t] == Memory(cfg, s.nxtRam, ins[..t])[ins[t].adr]
  {
    var r := Run(cfg, s, ins);
    TraceTracksMemory(cfg, s, ins, r, t);
    TraceStep(cfg, s, ins, r, t);
  }

  predicate Stalled(ins: seq<Input>)
  {
    forall t :: 0 <= t < |ins| ==> ins[t].en != 1
  }

  predicate Enabled(ins: seq<Input>)
  {
    forall t :: 0 <= t < |ins| ==> ins[t].en == 1
  }

  /**
   * A run of disabled steps is a stall: the next values never change, the
   * committed registers equal them from the first step on, and at a read
   * latency above 0 the output stays the pipeline head.
   */
  lemma {:induction false} StallHolds(cfg: Config, s: State, ins: seq<Input>, r: Trace, t: nat)
    requires Valid(cfg, s) && InputsOk(cfg, ins) && IsTrace(cfg, s, ins, r) && Stalled(ins) && t <= |ins|
    ensures r.states[t].nxtRam == s.nxtRam
    ensures r.states[t].nxtDout == s.nxtDout
    ensures t > 0 ==> r.states[t].ram == s.nxtRam
    ensures cfg.latency > 0 && t < |ins| ==> r.outs[t] == s.nxtDout[0]
  {
    if t > 0 {
      StallHolds(cfg, s, ins, r, t - 1);
      TraceStep(cfg, s, ins, r, t - 1);
    }
    if t < |ins| {
      TraceStep(cfg, s, ins, r, t);
    }
  }

  /** With every step enabled, the word read at step `t` sits in pipeline slot `L-(u-t)` before step `u`. */
  lemma {:induction false} PipelineCarries(cfg: Config, s: State, ins: seq<Input>, r: Trace, t: nat, u: nat)
    requires Valid(cfg, s) && InputsOk(cfg, ins) && IsTrace(cfg, s, ins, r) && Enabled(ins)
    requires cfg.latency > 0 && t < u <= t + cfg.latency && u <= |ins|
    ensures ins[t].adr < cfg.depth
    ensures r.states[u].nxtDout[cfg.latency - (u - t)] == r.states[t].nxtRam[ins[t].adr]
  {
    TraceShift(cfg, s, ins, r, u - 1);
    if u > t + 1 {
      PipelineCarries(cfg, s, ins, r, t, u - 1);
    }
  }

  /** An enabled step of a trace shifts the pipeline and appends the addressed committed word. */
  lemma TraceShift(cfg: Config, s: State, ins: seq<Input>, r: Trace, t: nat)
    requires InputsOk(cfg, ins) && IsTrace(cfg, s, ins, r) && t < |ins| && ins[t].en == 1 && cfg.latency > 0
    ensures ins[t].adr < cfg.depth && |r.states[t].nxtDout| == cfg.latency
    ensures r.states[t + 1].nxtDout == r.states[t].nxtDout[1..] + [r.states[t].nxtRam[ins[t].adr]]
  {
    TraceStep(cfg, s, ins, r, t);
  }

  /**
   * Exact read latency: with every step enabled and latency `L > 0`, the
   * output of step `t + L` is the word addressed at step `t`, as the memory
   * held it after the first `t` inputs.
   */
  lemma ReadLatency(cfg: Config, s: State, ins: seq<Input>, t: nat)
    requires Valid(cfg, s) && InputsOk(cfg, ins) && Enabled(ins) && cfg.latency > 0
    requires t + cfg.latency < |ins|
    ensures ins[t].adr < cfg.depth
    ensures Run(cfg, s, ins).outs[t + cfg.latency] == Memory(cfg, s.nxtRam, ins[..t])[ins[t].adr]
  {
    var r := Run(cfg, s, ins);
    TraceLatency(cfg, s, ins, r, t);
    TraceTracksMemory(cfg, s, ins, r, t);
  }

  /** Exact read latency along a trace: output `t + L` is the word addressed at step `t` before that step. */
  lemma TraceLatency(cfg: Config, s: State, ins: seq<Input>, r: Trace, t: nat)
    requires Valid(cfg, s) && InputsOk(cfg, ins) && IsTrace(cfg, s, ins, r) && Enabled(ins) && cfg.latency > 0
    requires t + cfg.latency < |ins|
    ensures ins[t].adr < cfg.depth
    ensures r.outs[t + cfg.latency] == r.states[t].nxtRam[ins[t].adr]
  {
    var u := t + cfg.latency;
    PipelineCarries(cfg, s, ins, r, t, u);
    TraceStep(cfg, s, ins, r, u);
  }

  /**
   * Write then read: a write of `v` with every column enabled at latency 0
   * is returned by the step right after it, when that step addresses the
   * same word (`WriteReadAfter` allows other steps in between).
   */
  lemma WriteThenRead(cfg: Config, s: State, v: nat, we: nat, a: nat, next: Input)
    requires Valid(cfg, s) && cfg.latency == 0 && a < cfg.depth
    requires InputOk(cfg, Input(1, we, a, v))
    requires forall k :: 0 <= k < cfg.nCol ==> MaskBit(we, k) == 1
    requires next.adr == a && InputOk(cfg, next)
    ensures Step(cfg, Step(cfg, s, Input(1, we, a, v)).state, next).out == v
  {
    var t := Step(cfg, s, Input(1, we, a, v)).state;
    StepColumns(cfg, s, Input(1, we, a, v));
    ColumnsDetermineWord(t.nxtRam[a], v, cfg.nCol, cfg.colW);
  }

  /**
   * In the plain memory, a write with every column enabled leaves its data
   * at its address through any later inputs that do not write that address.
   */
  lemma {:induction false} WrittenWordStays(cfg: Config, m: seq<nat>, ins: seq<Input>, j: nat)
    requires ValidConfig(cfg) && |m| == cfg.depth && Words(cfg, m) && InputsOk(cfg, ins)
    requires 0 < j <= |ins| && ins[0].en == 1 && ins[0].adr < cfg.depth
    requires forall k :: 0 <= k < cfg.nCol ==> MaskBit(ins[0].we, k) == 1
    requires forall t :: 0 < t < j ==> ins[t].en != 1 || ins[t].adr != ins[0].adr
    ensures Memory(cfg, m, ins[..j])[ins[0].adr] == ins[0].din
  {
    var a, pre := ins[0].adr, ins[..j];
    assert pre[..j - 1] == ins[..j - 1];
    if j == 1 {
      assert pre[..0] == [];
      var w := MaskedWrite(m[a], ins[0].we, ins[0].din, cfg.nCol, cfg.colW);
      assert Memory(cfg, m, pre) == m[a := w];
      ColumnsDetermineWord(w, ins[0].din, cfg.nCol, cfg.colW);
    } else {
      WrittenWordStays(cfg, m, ins, j - 1);
      assert InputOk(cfg, ins[j - 1]);
    }
  }

  /**
   * Write then read, across any number of steps: at latency 0, after a write
   * of every column, any later step that addresses the same word returns the
   * written data, provided no step in between writes that word.
   */
  lemma WriteReadAfter(cfg: Config, s: State, ins: seq<Input>, k: nat)
    requires Valid(cfg, s) && InputsOk(cfg, ins) && cfg.latency == 0 && 0 < k < |ins|
    requires ins[0].en == 1 && forall c :: 0 <= c < cfg.nCol ==> MaskBit(ins[0].we, c) == 1
    requires forall t :: 0 < t < k ==> ins[t].en != 1 || ins[t].adr != ins[0].adr
    requires ins[k].adr == ins[0].adr
    ensures Run(cfg, s, ins).outs[k] == ins[0].din
  {
    assert InputOk(cfg, ins[0]);
    ZeroLatencyRead(cfg, s, ins, k);
    WrittenWordStays(cfg, s.nxtRam, ins, k);
  }

  /**
   * Column masking: after a write of `v1` to every column and a write of
   * `v2` to column `j` only, column `j` holds `v2`'s column and every other
   * column holds `v1`'s.
   */
  lemma OverwriteOneColumn(cfg: Config, s: State, a: nat, full: nat, v1: nat, one: nat, v2: nat, j: nat)
    requires Valid(cfg, s) && a < cfg.depth && j < cfg.nCol
    requires InputOk(cfg, Input(1, full, a, v1)) && InputOk(cfg, Input(1, one, a, v2))
    requires forall k :: 0 <= k < cfg.nCol ==> MaskBit(full, k) == 1
    requires forall k :: 0 <= k < cfg.nCol ==> (MaskBit(one, k) == 1 <==> k == j)
    ensures var t := Step(cfg, Step(cfg, s, Input(1, full, a, v1)).state, Input(1, one, a, v2)).state;
            forall k :: 0 <= k < cfg.nCol ==>
              Column(t.nxtRam[a], k, cfg.colW) == if k == j then Column(v2, k, cfg.colW) else Column(v1, k, cfg.colW)
  {
    var t1 := Step(cfg, s, Input(1, full, a, v1)).state;
    StepColumns(cfg, s, Input(1, full, a, v1));
    StepColumns(cfg, t1, Input(1, one, a, v2));
  }
}

/**
 * The integer-word golden model of the single-port RAM (`RamTester.model`
 * of the structured cocotb tester and of the FIFO-bench tester).
 *
 * The state is double-buffered like the hardware's registers: `ram` and
 * `dout` are the committed registers, `nxtRam` and `nxtDout` their next
 * values. A step commits, drives the combinational read path when the read
 * latency is 0, and, when enabled, performs the column-masked write into
 * `nxtRam[adr]` and shifts the read pipeline.
 */
module RamModel {
  import opened Bits
  import opened ColumnWrite
  import opened Outcomes

  /** The generics G_DAT_N_COL, G_DAT_COL_W, G_DEPTH and G_RD_LATENCY. */
  datatype Config = Config(nCol: nat, colW: nat, depth: nat, latency: int)

  /** The hardware's word geometry: at least one column of at least one bit. */
  predicate Geometry(cfg: Config)
  {
    cfg.nCol >= 1 && cfg.colW >= 1
  }

  predicate ValidConfig(cfg: Config)
  {
    Geometry(cfg) && cfg.latency >= 0
  }

  /** Number of output registers: one per latency cycle, one combinational register at latency 0. */
  function Stages(cfg: Config): nat
  {
    if cfg.latency > 0 then cfg.latency else 1
  }

  datatype State = State(ram: seq<nat>, nxtRam: seq<nat>, dout: seq<nat>, nxtDout: seq<nat>)

  predicate Words(cfg: Config, ws: seq<nat>)
  {
    forall a :: 0 <= a < |ws| ==> IsWord(ws[a], cfg.nCol, cfg.colW)
  }

  predicate Valid(cfg: Config, s: State)
  {
    && ValidConfig(cfg)
    && |s.ram| == cfg.depth && |s.nxtRam| == cfg.depth
    && |s.dout| == Stages(cfg) && |s.nxtDout| == Stages(cfg)
    && Words(cfg, s.ram) && Words(cfg, s.nxtRam) && Words(cfg, s.dout) && Words(cfg, s.nxtDout)
  }

  /** One sampled input transaction: EN, WE, AD, DI. */
  datatype Input = Input(en: nat, we: nat, adr: nat, din: nat)

  /** The step indexes the storage lists at `adr`: always at latency 0, otherwise only when enabled. */
  predicate Indexes(cfg: Config, i: Input)
  {
    cfg.latency == 0 || i.en == 1
  }

  /** The mask and data fit their bus widths, as every value sampled off the buses does. */
  predicate Fits(cfg: Config, i: Input)
  {
    i.we < Pow2(cfg.nCol) && IsWord(i.din, cfg.nCol, cfg.colW)
  }

  /** The input fits its buses and every list index the step performs is in range. */
  predicate InputOk(cfg: Config, i: Input)
  {
    Fits(cfg, i) && (Indexes(cfg, i) ==> i.adr < cfg.depth)
  }

  datatype ConfigError = NegativeLatency

  function Zeros(n: nat): (z: seq<nat>)
    ensures |z| == n && forall a :: 0 <= a < n ==> z[a] == 0
  {
    seq(n, _ => 0)
  }

  /** The tester's constructor: zeroed storage and pipeline, or the error for a negative latency. */
  function New(cfg: Config): (r: Result<State, ConfigError>)
    ensures r.Err? <==> cfg.latency < 0
    ensures r.Ok? && Geometry(cfg) ==> Valid(cfg, r.value)
    ensures r.Ok? ==> |r.value.ram| == |r.value.nxtRam| == cfg.depth
    ensures r.Ok? ==> |r.value.dout| == |r.value.nxtDout| == Stages(cfg)
    ensures r.Ok? ==> forall a :: 0 <= a < cfg.depth ==> r.value.ram[a] == 0 && r.value.nxtRam[a] == 0
    ensures r.Ok? ==> forall j :: 0 <= j < Stages(cfg) ==> r.value.dout[j] == 0 && r.value.nxtDout[j] == 0
  {
    if cfg.latency < 0 then
      Err(NegativeLatency)
    else
      Ok(State(Zeros(cfg.depth), Zeros(cfg.depth), Zeros(Stages(cfg)), Zeros(Stages(cfg))))
  }

  datatype StepOut = StepOut(state: State, out: nat)

  /**
   * One call of the model, with the column loop copying slices of `span`
   * characters: commit, combinational read at latency 0, then the enabled
   * write and pipeline shift. The result is the head of the output registers.
   */
  function Advance(cfg: Config, span: nat, s: State, i: Input): (r: StepOut)
    requires Valid(cfg, s) && InputOk(cfg, i) && span <= cfg.colW
    ensures Valid(cfg, r.state)
    ensures r.state.ram == s.nxtRam
    ensures cfg.latency > 0 ==> r.state.dout == s.nxtDout
    ensures cfg.latency == 0 ==> r.state.dout[0] == s.nxtRam[i.adr]
    ensures cfg.latency == 0 ==> r.out == s.nxtRam[i.adr] && r.state.nxtDout == s.nxtDout
    ensures cfg.latency > 0 ==> r.out == s.nxtDout[0]
    ensures i.en != 1 ==> r.state.nxtRam == s.nxtRam && r.state.nxtDout == s.nxtDout
    ensures i.en == 1 ==>
              r.state.nxtRam == s.nxtRam[i.adr := WriteWord(s.nxtRam[i.adr], i.we, i.din, cfg.nCol, cfg.colW, span)]
    ensures i.en == 1 && cfg.latency > 0 ==> r.state.nxtDout == s.nxtDout[1..] + [s.nxtRam[i.adr]]
  {
    // register commit
    var ram := s.nxtRam;
    var dout := s.nxtDout;
    // combinational read path
    var dout := if cfg.latency == 0 then dout[0 := ram[i.adr]] else dout;
    if i.en == 1 then
      var word := WriteWord(s.nxtRam[i.adr], i.we, i.din, cfg.nCol, cfg.colW, span);
      var nxtDout := if cfg.latency > 0 then dout[1..] + [ram[i.adr]] else s.nxtDout;
      StepOut(State(ram, s.nxtRam[i.adr := word], dout, nxtDout), dout[0])
    else
      StepOut(State(ram, s.nxtRam, dout, s.nxtDout), dout[0])
  }

  /** `RamTester.model`: one clock cycle of the golden model. */
  function Step(cfg: Config, s: State, i: Input): (r: StepOut)
    requires Valid(cfg, s) && InputOk(cfg, i)
    ensures Valid(cfg, r.state)
    // the registers take the previous step's next values
    ensures r.state.ram == s.nxtRam
    ensures cfg.latency > 0 ==> r.state.dout == s.nxtDout
    // latency 0: the single output register holds the committed addressed word
    ensures cfg.latency == 0 ==> r.state.dout[0] == s.nxtRam[i.adr]
    // latency 0: the committed word, blind to this step's own write
    ensures cfg.latency == 0 ==> r.out == s.nxtRam[i.adr] && r.state.nxtDout == s.nxtDout
    // latency L > 0: the head of the committed pipeline
    ensures cfg.latency > 0 ==> r.out == s.nxtDout[0]
    // a disabled step changes no next value
    ensures i.en != 1 ==> r.state.nxtRam == s.nxtRam && r.state.nxtDout == s.nxtDout
    // an enabled step changes only the addressed word (its columns: StepColumns)
    ensures i.en == 1 ==> forall a :: 0 <= a < cfg.depth && a != i.adr ==> r.state.nxtRam[a] == s.nxtRam[a]
    // an enabled step shifts the pipeline and injects the committed word at its tail
    ensures i.en == 1 && cfg.latency > 0 ==> r.state.nxtDout == s.nxtDout[1..] + [s.nxtRam[i.adr]]
  {
    Advance(cfg, cfg.colW, s, i)
  }

  /**
   * Column isolation: an enabled step gives column `k` of the addressed word
   * the input's column when write-enable bit `k` is set and keeps it otherwise.
   */
  lemma StepColumns(cfg: Config, s: State, i: Input)
    requires Valid(cfg, s) && InputOk(cfg, i) && i.en == 1
    ensures i.adr < cfg.depth
    ensures forall k :: 0 <= k < cfg.nCol ==>
              Column(Step(cfg, s, i).state.nxtRam[i.adr], k, cfg.colW) ==
              if MaskBit(i.we, k) == 1 then Column(i.din, k, cfg.colW) else Column(s.nxtRam[i.adr], k, cfg.colW)
  {
    assert Step(cfg, s, i).state.nxtRam[i.adr] == MaskedWrite(s.nxtRam[i.adr], i.we, i.din, cfg.nCol, cfg.colW);
  }

  /** After any step the committed storage and its next value differ at most at the addressed word. */
  lemma CommitThenWrite(cfg: Config, s: State, i: Input)
    requires Valid(cfg, s) && InputOk(cfg, i)
    ensures var t := Step(cfg, s, i).state;
            forall a :: 0 <= a < cfg.depth && a != i.adr ==> t.nxtRam[a] == t.ram[a]
  {
  }

  predicate InputsOk(cfg: Config, ins: seq<Input>)
  {
    forall t :: 0 <= t < |ins| ==> InputOk(cfg, ins[t])
  }

  /** The states before each step and the outputs of a run of the model. */
  datatype Trace = Trace(states: seq<State>, outs: seq<nat>)

  /** `r` records the model stepping through `ins` from `s`: state `t+1` and output `t` come from step `t`. */
  predicate IsTrace(cfg: Config, s: State, ins: seq<Input>, r: Trace)
    requires InputsOk(cfg, ins)
  {
    && |r.states| == |ins| + 1 && |r.outs| == |ins| && r.states[0] == s
    && (forall t :: 0 <= t <= |ins| ==> Valid(cfg, r.states[t]))
    && (forall t :: 0 <= t < |ins| ==> StepsTo(cfg, ins, r, t))
  }

  /** Step `t` of the trace `r` takes state `t` to state `t+1` and output `t`. */
  predicate StepsTo(cfg: Config, ins: seq<Input>, r: Trace, t: nat)
    requires InputsOk(cfg, ins) && t < |ins| && t + 1 < |r.states| && t < |r.outs| && Valid(cfg, r.states[t])
  {
    Step(cfg, r.states[t], ins[t]) == StepOut(r.states[t + 1], r.outs[t])
  }

  function Run(cfg: Config, s: State, ins: seq<Input>): (r: Trace)
    requires Valid(cfg, s) && InputsOk(cfg, ins)
    ensures IsTrace(cfg, s, ins, r)
    decreases |ins|
  {
    if |ins| == 0 then
      Trace([s], [])
    else
      var o := Step(cfg, s, ins[0]);
      var rest := Run(cfg, o.state, ins[1..]);
      var r := Trace([s] + rest.states, [o.out] + rest.outs);
      assert forall t :: 0 <= t <= |ins| ==> Valid(cfg, r.states[t]) by {
        forall t | 0 <= t <= |ins|
          ensures Valid(cfg, r.states[t])
        {
          if t > 0 {
            assert r.states[t] == rest.states[t - 1];
          }
        }
      }
      assert forall t :: 0 <= t < |ins| ==> StepsTo(cfg, ins, r, t) by {
        forall t | 0 <= t < |ins|
          ensures StepsTo(cfg, ins, r, t)
        {
          if t > 0 {
            assert StepsTo(cfg, ins[1..], rest, t - 1);
            assert r.states[t] == rest.states[t - 1] && r.states[t + 1] == rest.states[t];
            assert r.outs[t] == rest.outs[t - 1] && ins[t] == ins[1..][t - 1];
          }
        }
      }
      r
  }
}

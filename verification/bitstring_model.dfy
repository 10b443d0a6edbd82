/**
 * The bit-string golden model of the coco structured tester. Every word is
 * kept as the characters of its binary string, MSB first, and the write
 * copies the characters of the enabled columns one position at a time. The
 * characters are not restricted to '0' and '1': a sampled bus may carry
 * 'X', 'Z' and the other logic values, which the model copies unchanged.
 *
 * On binary strings the model is the integer model seen through the
 * MSB-first encoding (`Simulation`), and its checker gives the verdict of
 * the unguarded integer checker (`CheckersAgree`).
 */
module BitStringModel {
  import opened Bits
  import opened ColumnWrite
  import opened Outcomes
  import opened RamModel
  import opened Checker

  type Chars = seq<char>

  datatype BitState = BitState(ram: seq<Chars>, nxtRam: seq<Chars>, dout: seq<Chars>, nxtDout: seq<Chars>)

  /** Every word is a string of N*W characters. */
  predicate Sized(cfg: Config, ws: seq<Chars>)
  {
    forall a :: 0 <= a < |ws| ==> |ws[a]| == cfg.nCol * cfg.colW
  }

  predicate BitValid(cfg: Config, s: BitState)
  {
    && ValidConfig(cfg)
    && |s.ram| == cfg.depth && |s.nxtRam| == cfg.depth
    && |s.dout| == Stages(cfg) && |s.nxtDout| == Stages(cfg)
    && Sized(cfg, s.ram) && Sized(cfg, s.nxtRam) && Sized(cfg, s.dout) && Sized(cfg, s.nxtDout)
  }

  /** One sampled transaction: the binary strings of EN, WE and DI, and the integer of AD. */
  datatype BitInput = BitInput(en: Chars, we: Chars, adr: nat, din: Chars)

  /** The step writes when the first character of EN is '1'. */
  predicate Enables(i: BitInput)
  {
    |i.en| > 0 && i.en[0] == '1'
  }

  /** The step indexes the storage lists: always at latency 0, otherwise only when enabled. */
  predicate BitIndexes(cfg: Config, i: BitInput)
  {
    cfg.latency == 0 || Enables(i)
  }

  /** EN is a one-bit bus; WE and DI are read back at N and N*W characters. */
  predicate BitFits(cfg: Config, i: BitInput)
  {
    |i.en| == 1 && |i.we| == cfg.nCol && |i.din| == cfg.nCol * cfg.colW
  }

  predicate BitInputOk(cfg: Config, i: BitInput)
  {
    BitFits(cfg, i) && (BitIndexes(cfg, i) ==> i.adr < cfg.depth)
  }

  function ZeroWord(n: nat): (z: Chars)
    ensures |z| == n && forall p :: 0 <= p < n ==> z[p] == '0'
  {
    seq(n, _ => '0')
  }

  /** The tester's constructor: every register the all-'0' string, or the error for a negative latency. */
  function BitNew(cfg: Config): (r: Result<BitState, ConfigError>)
    ensures r.Err? <==> cfg.latency < 0
    ensures r.Ok? && Geometry(cfg) ==> BitValid(cfg, r.value)
    ensures r.Ok? ==> |r.value.ram| == |r.value.nxtRam| == cfg.depth
    ensures r.Ok? ==> |r.value.dout| == |r.value.nxtDout| == Stages(cfg)
  {
    if cfg.latency < 0 then
      Err(NegativeLatency)
    else
      var zero := ZeroWord(cfg.nCol * cfg.colW);
      var words := seq(cfg.depth, _ => zero);
      var stages := seq(Stages(cfg), _ => zero);
      Ok(BitState(words, words, stages, stages))
  }

  datatype BitStepOut = BitStepOut(state: BitState, out: Chars)

  /** `RamTester.model` of the coco tester: one clock cycle on bit strings. */
  function BitStep(cfg: Config, s: BitState, i: BitInput): (r: BitStepOut)
    requires BitValid(cfg, s) && BitInputOk(cfg, i)
    ensures BitValid(cfg, r.state)
    ensures r.state.ram == s.nxtRam
    ensures cfg.latency > 0 ==> r.state.dout == s.nxtDout
    ensures cfg.latency == 0 ==> r.state.dout[0] == s.nxtRam[i.adr]
    ensures cfg.latency == 0 ==> r.out == s.nxtRam[i.adr] && r.state.nxtDout == s.nxtDout
    ensures cfg.latency > 0 ==> r.out == s.nxtDout[0]
    ensures !Enables(i) ==> r.state.nxtRam == s.nxtRam && r.state.nxtDout == s.nxtDout
    ensures Enables(i) ==> forall a :: 0 <= a < cfg.depth && a != i.adr ==> r.state.nxtRam[a] == s.nxtRam[a]
    // an enabled step copies DI's character at every position of a column whose WE character is '1'
    ensures Enables(i) ==>
              forall p :: 0 <= p < cfg.nCol * cfg.colW ==>
                r.state.nxtRam[i.adr][p] ==
                if Selected(i.we, cfg.colW, cfg.colW, 0, p) then i.din[p] else s.nxtRam[i.adr][p]
    ensures Enables(i) && cfg.latency > 0 ==>
              && r.state.nxtDout[cfg.latency - 1] == s.nxtRam[i.adr]
              && forall j :: 0 <= j < cfg.latency - 1 ==> r.state.nxtDout[j] == s.nxtDout[j + 1]
  {
    // register commit
    var ram := s.nxtRam;
    var dout := if cfg.latency == 0 then [ram[i.adr]] else s.nxtDout;
    if Enables(i) then
      var word := WriteBitwise(s.nxtRam[i.adr], i.din, i.we, cfg.colW);
      BitwiseIsSlices(s.nxtRam[i.adr], i.din, i.we, cfg.colW);
      var nxtDout := if cfg.latency > 0 then dout[1..] + [ram[i.adr]] else s.nxtDout;
      BitStepOut(BitState(ram, s.nxtRam[i.adr := word], dout, nxtDout), dout[0])
    else
      BitStepOut(BitState(ram, s.nxtRam, dout, s.nxtDout), dout[0])
  }

  /** The MSB-first strings of a list of words. */
  function EncodeWords(cfg: Config, ws: seq<nat>): (bs: seq<Chars>)
    requires Words(cfg, ws)
    ensures |bs| == |ws| && Sized(cfg, bs)
    ensures forall a :: 0 <= a < |ws| ==> bs[a] == IntToBlist(ws[a], cfg.nCol * cfg.colW)
  {
    seq(|ws|, a requires 0 <= a < |ws| => IntToBlist(ws[a], cfg.nCol * cfg.colW))
  }

  function Encode(cfg: Config, s: State): (b: BitState)
    requires Valid(cfg, s)
    ensures BitValid(cfg, b)
  {
    BitState(EncodeWords(cfg, s.ram), EncodeWords(cfg, s.nxtRam), EncodeWords(cfg, s.dout), EncodeWords(cfg, s.nxtDout))
  }

  /** The integer input sampled as bit strings; EN is a one-bit value. */
  function EncodeInput(cfg: Config, i: Input): (b: BitInput)
    requires Fits(cfg, i) && i.en < 2
    ensures BitFits(cfg, b) && b.adr == i.adr
    ensures Enables(b) <==> i.en == 1
  {
    BitInput(IntToBlist(i.en, 1), IntToBlist(i.we, cfg.nCol), i.adr, IntToBlist(i.din, cfg.nCol * cfg.colW))
  }

  /** The all-'0' string is the encoding of the word 0. */
  lemma {:induction false} ZeroEncoding(n: nat)
    ensures IntToBlist(0, n) == ZeroWord(n)
  {
    if n > 0 {
      ZeroEncoding(n - 1);
      assert ZeroWord(n) == ZeroWord(n - 1) + ['0'];
    }
  }

  /** Both constructors agree: the bit-string state is the encoding of the zeroed integer state. */
  lemma NewAgrees(cfg: Config)
    ensures BitNew(cfg).Ok? <==> New(cfg).Ok?
    ensures New(cfg).Ok? && Geometry(cfg) ==> BitNew(cfg).value == Encode(cfg, New(cfg).value)
  {
    if cfg.latency >= 0 && Geometry(cfg) {
      ZeroEncoding(cfg.nCol * cfg.colW);
      var b, s := BitNew(cfg).value, Encode(cfg, New(cfg).value);
      assert b.ram == s.ram && b.dout == s.dout;
    }
  }

  /** The word written by an enabled step, read back as a string, is the character-wise write. */
  lemma WrittenEncoding(cfg: Config, prev: nat, i: Input)
    requires ValidConfig(cfg) && IsWord(prev, cfg.nCol, cfg.colW) && Fits(cfg, i)
    ensures var n, w := cfg.nCol, cfg.colW;
            IntToBlist(WriteWord(prev, i.we, i.din, n, w, w), n * w) ==
            WriteBitwise(IntToBlist(prev, n * w), IntToBlist(i.din, n * w), IntToBlist(i.we, n), w)
  {
    var n, w := cfg.nCol, cfg.colW;
    var so, sd, sw := IntToBlist(prev, n * w), IntToBlist(i.din, n * w), IntToBlist(i.we, n);
    BitwiseIsSlices(so, sd, sw, w);
    WriteSlicesBinary(so, sd, sw, w, w);
    IntRoundTrip(WriteSlices(so, sd, sw, w, w, 0));
  }

  /**
   * Simulation: on the encoding of a valid state and of an in-range input,
   * the bit-string step yields the encoding of the integer step's state and
   * output.
   */
  lemma Simulation(cfg: Config, s: State, i: Input)
    requires Valid(cfg, s) && InputOk(cfg, i) && i.en < 2
    ensures BitInputOk(cfg, EncodeInput(cfg, i))
    ensures var o := Step(cfg, s, i);
            BitStep(cfg, Encode(cfg, s), EncodeInput(cfg, i)) ==
            BitStepOut(Encode(cfg, o.state), IntToBlist(o.out, cfg.nCol * cfg.colW))
  {
    var n, w := cfg.nCol, cfg.colW;
    var o := Step(cfg, s, i);
    var b := BitStep(cfg, Encode(cfg, s), EncodeInput(cfg, i));
    var e := Encode(cfg, o.state);
    assert b.state.ram == e.ram;
    if i.en == 1 {
      WrittenEncoding(cfg, s.nxtRam[i.adr], i);
      assert b.state.nxtRam == e.nxtRam;
    }
    if cfg.latency > 0 {
      if i.en == 1 {
        assert b.state.nxtDout == e.nxtDout;
      }
      assert b.state.dout == e.dout;
    } else {
      assert b.state.dout == e.dout;
    }
  }

  /** How the coco checker ends: every pair consumed, a failed string comparison, or an out-of-range index. */
  datatype BitVerdict =
    | BitPass(state: BitState, compared: nat)
    | BitMismatch(index: nat, expected: Chars, actual: Chars)
    | BitIndexError(index: nat)

  function BitLater(v: BitVerdict): (v': BitVerdict)
  {
    match v
    case BitPass(st, c) => BitPass(st, c + 1)
    case BitMismatch(k, e, a) => BitMismatch(k + 1, e, a)
    case BitIndexError(k) => BitIndexError(k + 1)
  }

  predicate AllBitFit(cfg: Config, ins: seq<BitInput>)
  {
    forall t :: 0 <= t < |ins| ==> BitFits(cfg, ins[t])
  }

  /**
   * The coco `RamTester._check`: every pair is fed to the model, with no
   * address guard, and the sampled output string must equal the model's.
   */
  function BitCheck(cfg: Config, s: BitState, ins: seq<BitInput>, outs: seq<Chars>): (v: BitVerdict)
    requires BitValid(cfg, s) && |ins| == |outs| && AllBitFit(cfg, ins)
    ensures v.BitPass? ==> BitValid(cfg, v.state) && v.compared == |ins|
    ensures v.BitMismatch? ==> v.index < |ins| && v.actual == outs[v.index] && v.expected != v.actual
    ensures v.BitIndexError? ==>
              v.index < |ins| && BitIndexes(cfg, ins[v.index]) && ins[v.index].adr >= cfg.depth
    decreases |ins|
  {
    if |ins| == 0 then
      BitPass(s, 0)
    else if !BitInputOk(cfg, ins[0]) then
      BitIndexError(0)
    else
      var o := BitStep(cfg, s, ins[0]);
      if o.out != outs[0] then BitMismatch(0, o.out, outs[0])
      else BitLater(BitCheck(cfg, o.state, ins[1..], outs[1..]))
  }

  /** Every EN sample is a one-bit value. */
  predicate OneBitEnables(ins: seq<Input>)
  {
    forall t :: 0 <= t < |ins| ==> ins[t].en < 2
  }

  function EncodeInputs(cfg: Config, ins: seq<Input>): (bs: seq<BitInput>)
    requires AllFit(cfg, ins) && OneBitEnables(ins)
    ensures |bs| == |ins| && AllBitFit(cfg, bs)
    ensures forall t :: 0 <= t < |ins| ==> bs[t] == EncodeInput(cfg, ins[t])
  {
    seq(|ins|, t requires 0 <= t < |ins| => EncodeInput(cfg, ins[t]))
  }

  /** Two words are equal exactly when their strings are. */
  lemma EncodingInjective(x: nat, y: nat, n: nat)
    requires x < Pow2(n) && y < Pow2(n)
    ensures IntToBlist(x, n) == IntToBlist(y, n) <==> x == y
  {
    BlistRoundTrip(x, n);
    BlistRoundTrip(y, n);
  }

  /** Encoding commutes with dropping the first sample. */
  lemma EncodeTails(cfg: Config, ins: seq<Input>, outs: seq<nat>)
    requires AllFit(cfg, ins) && OneBitEnables(ins) && Words(cfg, outs) && |ins| > 0 && |outs| > 0
    ensures EncodeInputs(cfg, ins)[1..] == EncodeInputs(cfg, ins[1..])
    ensures EncodeWords(cfg, outs)[1..] == EncodeWords(cfg, outs[1..])
    ensures EncodeInputs(cfg, ins)[0] == EncodeInput(cfg, ins[0])
    ensures EncodeWords(cfg, outs)[0] == IntToBlist(outs[0], cfg.nCol * cfg.colW)
  {
  }

  /**
   * On encoded samples the coco checker gives the verdict of the unguarded
   * integer checker: both pass together, ending in encoded states; both
   * raise IndexError at the same pair; and both fail an assertion at the
   * same pair, with the encodings of the integer checker's words.
   */
  lemma {:induction false} CheckersAgree(cfg: Config, s: State, ins: seq<Input>, outs: seq<nat>)
    requires Valid(cfg, s) && AllFit(cfg, ins) && OneBitEnables(ins)
    requires |ins| == |outs| && Words(cfg, outs)
    ensures var b := BitCheck(cfg, Encode(cfg, s), EncodeInputs(cfg, ins), EncodeWords(cfg, outs));
            var v := Check(cfg, Unguarded, s, ins, outs);
            && (b.BitPass? <==> v.Pass?)
            && (v.Pass? ==> b.state == Encode(cfg, v.state) && b.compared == v.compared)
            && (b.BitIndexError? <==> v.IndexError?)
            && (v.IndexError? ==> b.index == v.index)
            && (b.BitMismatch? <==> v.Mismatch?)
            && (v.Mismatch? ==>
                  && b.index == v.index && IsWord(v.expected, cfg.nCol, cfg.colW)
                  && b.expected == IntToBlist(v.expected, cfg.nCol * cfg.colW)
                  && b.actual == IntToBlist(v.actual, cfg.nCol * cfg.colW))
    decreases |ins|
  {
    if |ins| > 0 {
      EncodeTails(cfg, ins, outs);
      if InputOk(cfg, ins[0]) {
        var o := Step(cfg, s, ins[0]);
        Simulation(cfg, s, ins[0]);
        EncodingInjective(o.out, outs[0], cfg.nCol * cfg.colW);
        if o.out == outs[0] {
          CheckersAgree(cfg, o.state, ins[1..], outs[1..]);
        }
      } else {
        assert !BitInputOk(cfg, EncodeInput(cfg, ins[0]));
      }
    }
  }

  predicate BitInputsOk(cfg: Config, ins: seq<BitInput>)
  {
    forall t :: 0 <= t < |ins| ==> BitInputOk(cfg, ins[t])
  }

  /** The strings the bit-string model outputs, stepping from `s` through `ins`. */
  function BitOuts(cfg: Config, s: BitState, ins: seq<BitInput>): (r: seq<Chars>)
    requires BitValid(cfg, s) && BitInputsOk(cfg, ins)
    ensures |r| == |ins|
    decreases |ins|
  {
    if |ins| == 0 then []
    else
      var o := BitStep(cfg, s, ins[0]);
      [o.out] + BitOuts(cfg, o.state, ins[1..])
  }

  /** The outputs on the first `k` samples are the first step's output, then the outputs on the next `k-1`. */
  lemma BitOutsPrefix(cfg: Config, s: BitState, ins: seq<BitInput>, k: nat)
    requires BitValid(cfg, s) && 0 < k <= |ins| && BitInputOk(cfg, ins[0]) && BitInputsOk(cfg, ins[1..][..k - 1])
    ensures BitInputsOk(cfg, ins[..k])
    ensures var o := BitStep(cfg, s, ins[0]);
            BitOuts(cfg, s, ins[..k]) == [o.out] + BitOuts(cfg, o.state, ins[1..][..k - 1])
  {
    var pre := ins[..k];
    assert pre[1..] == ins[1..][..k - 1];
    forall t | 0 <= t < k ensures BitInputOk(cfg, pre[t]) {
      if t > 0 {
        assert pre[t] == ins[1..][..k - 1][t - 1];
      }
    }
  }

  /**
   * On in-range samples the coco checker never raises, and it passes
   * exactly when the sampled strings are the model's outputs.
   */
  lemma {:induction false} BitPassIff(cfg: Config, s: BitState, ins: seq<BitInput>, outs: seq<Chars>)
    requires BitValid(cfg, s) && |ins| == |outs| && BitInputsOk(cfg, ins)
    ensures AllBitFit(cfg, ins)
    ensures var v := BitCheck(cfg, s, ins, outs);
            !v.BitIndexError? && (v.BitPass? <==> outs == BitOuts(cfg, s, ins))
    decreases |ins|
  {
    assert AllBitFit(cfg, ins) by {
      forall t | 0 <= t < |ins| ensures BitFits(cfg, ins[t]) {
        assert BitInputOk(cfg, ins[t]);
      }
    }
    if |ins| > 0 {
      var o := BitStep(cfg, s, ins[0]);
      BitPassIff(cfg, o.state, ins[1..], outs[1..]);
      assert outs == [outs[0]] + outs[1..];
    }
  }

  /**
   * The coco checker never passes over an out-of-range pair: on samples that
   * fit their buses it passes exactly when every pair indexes storage in
   * range and the sampled strings are the model's outputs.
   */
  lemma {:induction false} BitPassInRange(cfg: Config, s: BitState, ins: seq<BitInput>, outs: seq<Chars>)
    requires BitValid(cfg, s) && |ins| == |outs| && AllBitFit(cfg, ins)
    ensures BitCheck(cfg, s, ins, outs).BitPass? ==> BitInputsOk(cfg, ins)
    ensures BitCheck(cfg, s, ins, outs).BitPass? <==> BitInputsOk(cfg, ins) && outs == BitOuts(cfg, s, ins)
    decreases |ins|
  {
    var v := BitCheck(cfg, s, ins, outs);
    if |ins| > 0 && v.BitPass? {
      assert BitInputOk(cfg, ins[0]);
      var o := BitStep(cfg, s, ins[0]);
      var v' := BitCheck(cfg, o.state, ins[1..], outs[1..]);
      assert o.out == outs[0] && v == BitLater(v');
      BitPassInRange(cfg, o.state, ins[1..], outs[1..]);
      forall t | 0 <= t < |ins| ensures BitInputOk(cfg, ins[t]) {
        if t > 0 {
          assert ins[t] == ins[1..][t - 1];
        }
      }
    }
    if BitInputsOk(cfg, ins) {
      BitPassIff(cfg, s, ins, outs);
    }
  }

  /** The first `k` samples are in range and their sampled strings are the model's. */
  predicate BitMatchesBefore(cfg: Config, s: BitState, ins: seq<BitInput>, outs: seq<Chars>, k: nat)
    requires BitValid(cfg, s) && |ins| == |outs|
  {
    && k <= |ins| && BitInputsOk(cfg, ins[..k])
    && var run := BitOuts(cfg, s, ins[..k]);
       forall t :: 0 <= t < k ==> outs[t] == run[t]
  }

  /** Pair `k` is the first whose strings differ, and `expected` is the model's string on it. */
  predicate BitFailsAt(cfg: Config, s: BitState, ins: seq<BitInput>, outs: seq<Chars>, k: nat, expected: Chars)
    requires BitValid(cfg, s) && |ins| == |outs|
  {
    && k < |ins| && BitInputsOk(cfg, ins[..k + 1])
    && var run := BitOuts(cfg, s, ins[..k + 1]);
       && expected == run[k]
       && forall t :: 0 <= t < k ==> outs[t] == run[t]
  }

  lemma BitMatchesAfterMatch(cfg: Config, s: BitState, ins: seq<BitInput>, outs: seq<Chars>, k: nat)
    requires BitValid(cfg, s) && |ins| == |outs| && |ins| > 0
    requires BitInputOk(cfg, ins[0]) && BitStep(cfg, s, ins[0]).out == outs[0]
    requires BitMatchesBefore(cfg, BitStep(cfg, s, ins[0]).state, ins[1..], outs[1..], k)
    ensures BitMatchesBefore(cfg, s, ins, outs, k + 1)
  {
    var o := BitStep(cfg, s, ins[0]);
    BitOutsPrefix(cfg, s, ins, k + 1);
    var run, tail := BitOuts(cfg, s, ins[..k + 1]), BitOuts(cfg, o.state, ins[1..][..k]);
    forall t | 0 <= t < k + 1
      ensures outs[t] == run[t]
    {
      if t > 0 {
        assert outs[t] == outs[1..][t - 1] && run[t] == tail[t - 1];
      }
    }
  }

  lemma BitFailsAfterMatch(cfg: Config, s: BitState, ins: seq<BitInput>, outs: seq<Chars>, k: nat, expected: Chars)
    requires BitValid(cfg, s) && |ins| == |outs| && |ins| > 0
    requires BitInputOk(cfg, ins[0]) && BitStep(cfg, s, ins[0]).out == outs[0]
    requires BitFailsAt(cfg, BitStep(cfg, s, ins[0]).state, ins[1..], outs[1..], k, expected)
    ensures BitFailsAt(cfg, s, ins, outs, k + 1, expected)
  {
    var o := BitStep(cfg, s, ins[0]);
    BitOutsPrefix(cfg, s, ins, k + 2);
    var run, tail := BitOuts(cfg, s, ins[..k + 2]), BitOuts(cfg, o.state, ins[1..][..k + 1]);
    assert run[k + 1] == tail[k];
    forall t | 0 <= t < k + 1
      ensures outs[t] == run[t]
    {
      if t > 0 {
        assert outs[t] == outs[1..][t - 1] && run[t] == tail[t - 1];
      }
    }
  }

  /**
   * The coco checker stops at the first pair whose strings differ: every
   * earlier sampled string was the model's, and `expected` is the model's
   * string for the failing pair.
   */
  lemma {:induction false} BitFirstMismatch(cfg: Config, s: BitState, ins: seq<BitInput>, outs: seq<Chars>)
    requires BitValid(cfg, s) && |ins| == |outs| && AllBitFit(cfg, ins)
    ensures var v := BitCheck(cfg, s, ins, outs);
            v.BitMismatch? ==> BitFailsAt(cfg, s, ins, outs, v.index, v.expected)
    decreases |ins|
  {
    if |ins| > 0 && BitInputOk(cfg, ins[0]) {
      var o := BitStep(cfg, s, ins[0]);
      var v := BitCheck(cfg, s, ins, outs);
      if o.out == outs[0] {
        var v' := BitCheck(cfg, o.state, ins[1..], outs[1..]);
        BitFirstMismatch(cfg, o.state, ins[1..], outs[1..]);
        assert v == BitLater(v');
        if v.BitMismatch? {
          BitFailsAfterMatch(cfg, s, ins, outs, v'.index, v'.expected);
        }
      } else {
        BitOutsPrefix(cfg, s, ins, 1);
      }
    }
  }

  /**
   * The coco checker raises IndexError at the first out-of-range sample:
   * every earlier sample was in range and every earlier string the model's.
   */
  lemma {:induction false} BitFirstIndexError(cfg: Config, s: BitState, ins: seq<BitInput>, outs: seq<Chars>)
    requires BitValid(cfg, s) && |ins| == |outs| && AllBitFit(cfg, ins)
    ensures var v := BitCheck(cfg, s, ins, outs);
            v.BitIndexError? ==> BitMatchesBefore(cfg, s, ins, outs, v.index)
    decreases |ins|
  {
    if |ins| > 0 && BitInputOk(cfg, ins[0]) {
      var o := BitStep(cfg, s, ins[0]);
      var v := BitCheck(cfg, s, ins, outs);
      if o.out == outs[0] {
        var v' := BitCheck(cfg, o.state, ins[1..], outs[1..]);
        BitFirstIndexError(cfg, o.state, ins[1..], outs[1..]);
        assert v == BitLater(v');
        if v.BitIndexError? {
          BitMatchesAfterMatch(cfg, s, ins, outs, v'.index);
        }
      }
    }
  }
}

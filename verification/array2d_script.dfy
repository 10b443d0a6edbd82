/**
 * The array2dtest.py script: the integer golden model at fixed generics
 * (4 columns of 4 bits, depth 8, read latency 0) driven with EN = 1 and
 * AD = 1 on every sample.
 *
 * Its column loop assigns `blist[j*W : j*W+W-1]`, a slice of W-1
 * characters, so an enabled column takes every bit of DI except its least
 * significant one, which keeps its old value (`NarrowColumn`). The
 * whole-column write of the structured tester is the intended behaviour
 * (`ColumnWrite.MaskedWrite`); `NarrowLosesLowBits` exhibits the difference.
 */
module Array2dScript {
  import opened Bits
  import opened ColumnWrite
  import opened RamModel

  /** G_DAT_N_COL = 4, G_DAT_COL_W = 4, G_DEPTH = 8, G_RD_LATENCY = 0. */
  const Script := Config(4, 4, 8, 0)

  /** The script's write as written: each enabled column copies W-1 characters. */
  function NarrowWrite(prev: nat, we: nat, din: nat, n: nat, w: nat): (r: nat)
    requires 1 <= w && IsWord(prev, n, w) && IsWord(din, n, w) && we < Pow2(n)
    ensures IsWord(r, n, w)
  {
    WriteWord(prev, we, din, n, w, w - 1)
  }

  /** A bit list with one more character at its end: twice the value plus the bit. */
  lemma Append(x: seq<char>, c: char)
    requires IsBinary(x) && (c == '0' || c == '1')
    ensures IsBinary(x + [c])
    ensures BlistToInt(x + [c]) == 2 * BlistToInt(x) + BitValue(c)
  {
    assert (x + [c])[..|x|] == x;
  }

  /** Block `k` of the narrow write: DI's block without its last character, then the old last character. */
  lemma NarrowBlock(word: seq<char>, din: seq<char>, we: seq<char>, n: nat, w: nat, k: nat)
    requires 1 <= w && |we| == n && |word| == n * w && |din| == |word| && k < n
    ensures we[n - 1 - k] == '1' ==>
              Block(WriteSlices(word, din, we, w, w - 1, 0), n, w, k)
              == Block(din, n, w, k)[..w - 1] + [Block(word, n, w, k)[w - 1]]
    ensures we[n - 1 - k] != '1' ==>
              Block(WriteSlices(word, din, we, w, w - 1, 0), n, w, k) == Block(word, n, w, k)
  {
    var b := Block(WriteSlices(word, din, we, w, w - 1, 0), n, w, k);
    var bd, bo := Block(din, n, w, k), Block(word, n, w, k);
    var expected := if we[n - 1 - k] == '1' then bd[..w - 1] + [bo[w - 1]] else bo;
    forall q | 0 <= q < w
      ensures b[q] == expected[q]
    {
      WrittenBlock(word, din, we, w, w - 1, k, q);
    }
    assert b == expected;
  }

  /** `d` with its least significant bit replaced by that of `p`. */
  function LowBitFrom(d: nat, p: nat): nat
  {
    d / 2 * 2 + p % 2
  }

  /**
   * The narrow write per column: an enabled column takes DI's column with
   * its least significant bit replaced by the old one; a disabled column
   * keeps its old value.
   */
  lemma NarrowColumn(prev: nat, we: nat, din: nat, n: nat, w: nat, k: nat)
    requires 1 <= w && IsWord(prev, n, w) && IsWord(din, n, w) && we < Pow2(n) && k < n
    ensures MaskBit(we, k) == 1 ==>
              Column(NarrowWrite(prev, we, din, n, w), k, w) == LowBitFrom(Column(din, k, w), Column(prev, k, w))
    ensures MaskBit(we, k) != 1 ==> Column(NarrowWrite(prev, we, din, n, w), k, w) == Column(prev, k, w)
  {
    MaskBitOfBlist(we, n, k);
    if MaskBit(we, k) == 1 {
      NarrowColumnOn(prev, we, din, n, w, k);
    } else {
      NarrowColumnOff(prev, we, din, n, w, k);
    }
  }

  lemma NarrowColumnOn(prev: nat, we: nat, din: nat, n: nat, w: nat, k: nat)
    requires 1 <= w && IsWord(prev, n, w) && IsWord(din, n, w) && we < Pow2(n) && k < n
    requires IntToBlist(we, n)[n - 1 - k] == '1'
    ensures Column(NarrowWrite(prev, we, din, n, w), k, w) == LowBitFrom(Column(din, k, w), Column(prev, k, w))
  {
    NarrowColumnValue(prev, we, din, n, w, k);
    ValueColumn(din, n, w, k);
    ValueColumn(prev, n, w, k);
  }

  /** The enabled narrow column, through the bit lists of the operands. */
  lemma NarrowColumnValue(prev: nat, we: nat, din: nat, n: nat, w: nat, k: nat)
    requires 1 <= w && IsWord(prev, n, w) && IsWord(din, n, w) && we < Pow2(n) && k < n
    requires IntToBlist(we, n)[n - 1 - k] == '1'
    ensures var so, sd := IntToBlist(prev, n * w), IntToBlist(din, n * w);
            Column(NarrowWrite(prev, we, din, n, w), k, w)
            == LowBitFrom(BlistToInt(Block(sd, n, w, k)), BlistToInt(Block(so, n, w, k)))
  {
    var so, sd, sw := IntToBlist(prev, n * w), IntToBlist(din, n * w), IntToBlist(we, n);
    assert NarrowWrite(prev, we, din, n, w) == BlistToInt(WriteSlices(so, sd, sw, w, w - 1, 0));
    NarrowColumnOfBlist(so, sd, sw, n, w, k);
  }

  lemma NarrowColumnOff(prev: nat, we: nat, din: nat, n: nat, w: nat, k: nat)
    requires 1 <= w && IsWord(prev, n, w) && IsWord(din, n, w) && we < Pow2(n) && k < n
    requires IntToBlist(we, n)[n - 1 - k] != '1'
    ensures Column(NarrowWrite(prev, we, din, n, w), k, w) == Column(prev, k, w)
  {
    var so, sd, sw := IntToBlist(prev, n * w), IntToBlist(din, n * w), IntToBlist(we, n);
    assert Column(NarrowWrite(prev, we, din, n, w), k, w) == BlistToInt(Block(so, n, w, k)) by {
      assert NarrowWrite(prev, we, din, n, w) == BlistToInt(WriteSlices(so, sd, sw, w, w - 1, 0));
      NarrowColumnOfBlist(so, sd, sw, n, w, k);
    }
    ValueColumn(prev, n, w, k);
  }

  /** The narrow write per column, on bit lists. */
  lemma NarrowColumnOfBlist(so: seq<char>, sd: seq<char>, sw: seq<char>, n: nat, w: nat, k: nat)
    requires 1 <= w && |sw| == n && |so| == n * w && |sd| == |so| && k < n
    requires IsBinary(so) && IsBinary(sd)
    ensures IsBinary(WriteSlices(so, sd, sw, w, w - 1, 0))
    ensures Column(BlistToInt(WriteSlices(so, sd, sw, w, w - 1, 0)), k, w)
            == if sw[n - 1 - k] == '1' then LowBitFrom(BlistToInt(Block(sd, n, w, k)), BlistToInt(Block(so, n, w, k)))
               else BlistToInt(Block(so, n, w, k))
  {
    WriteSlicesBinary(so, sd, sw, w, w - 1);
    var rs := WriteSlices(so, sd, sw, w, w - 1, 0);
    ColumnOfBlist(rs, n, w, k);
    NarrowBlock(so, sd, sw, n, w, k);
    var bd, bo := Block(sd, n, w, k), Block(so, n, w, k);
    if sw[n - 1 - k] == '1' {
      NarrowValue(bd, bo);
    }
  }

  /** DI's block with its last bit replaced by the old block's: DI's value rounded down to even, plus the old parity. */
  lemma NarrowValue(bd: seq<char>, bp: seq<char>)
    requires IsBinary(bd) && IsBinary(bp) && |bd| == |bp| >= 1
    ensures IsBinary(bd[..|bd| - 1] + [bp[|bp| - 1]])
    ensures BlistToInt(bd[..|bd| - 1] + [bp[|bp| - 1]]) == LowBitFrom(BlistToInt(bd), BlistToInt(bp))
  {
    var w := |bd|;
    Append(bd[..w - 1], bp[w - 1]);
    LastBit(bd);
    LastBit(bp);
  }

  /** Halving drops the last bit of a bit list; the remainder is that bit. */
  lemma LastBit(s: seq<char>)
    requires IsBinary(s) && |s| >= 1
    ensures BlistToInt(s) / 2 == BlistToInt(s[..|s| - 1])
    ensures BlistToInt(s) % 2 == BitValue(s[|s| - 1])
  {
    var q, b := BlistToInt(s[..|s| - 1]), BitValue(s[|s| - 1]);
    assert BlistToInt(s) == q * 2 + b;
    DivModOf(q, b, 2);
  }

  /** The script's model step, slices of W-1 characters. */
  function NarrowStep(s: State, i: Input): (r: StepOut)
    requires Valid(Script, s) && InputOk(Script, i)
    ensures Valid(Script, r.state) && r.state.ram == s.nxtRam
    ensures r.out == s.nxtRam[i.adr] && r.state.nxtDout == s.nxtDout
    ensures i.en == 1 ==> r.state.nxtRam == s.nxtRam[i.adr := NarrowWrite(s.nxtRam[i.adr], i.we, i.din, 4, 4)]
    ensures i.en != 1 ==> r.state.nxtRam == s.nxtRam
  {
    Advance(Script, 3, s, i)
  }

  lemma Pow2Values()
    ensures Pow2(4) == 16 && Pow2(8) == 256 && Pow2(12) == 4096 && Pow2(16) == 65536
  {
    assert Pow2(2) == 4;
    assert Pow2(4) == 16;
    Pow2Add(4, 4);
    Pow2Add(8, 4);
    Pow2Add(8, 8);
  }

  /** Every column of 0x1111 holds 1, and every bit of 0xF is set. */
  lemma OnesColumns(k: nat)
    requires k < 4
    ensures Column(0x1111, k, 4) == 1 && Column(0, k, 4) == 0 && MaskBit(0xF, k) == 1
  {
    Pow2Values();
    assert Pow2(0) == 1 && Pow2(1) == 2 && Pow2(2) == 4 && Pow2(3) == 8;
  }

  /**
   * Counterexample: from the zeroed memory, writing 0x1111 with every column
   * enabled leaves 0 in the script's model, while the whole-column write
   * stores 0x1111.
   */
  lemma NarrowLosesLowBits()
    ensures New(Script).Ok?
    ensures var s, i := New(Script).value, Input(1, 0xF, 1, 0x1111);
            && InputOk(Script, i)
            && NarrowStep(s, i).state.nxtRam[1] == 0
            && Step(Script, s, i).state.nxtRam[1] == 0x1111
  {
    Pow2Values();
    var s, i := New(Script).value, Input(1, 0xF, 1, 0x1111);
    assert InputOk(Script, i);
    var narrow := NarrowStep(s, i).state.nxtRam[1];
    var whole := Step(Script, s, i).state.nxtRam[1];
    StepColumns(Script, s, i);
    forall k | 0 <= k < 4
      ensures Column(narrow, k, 4) == Column(0, k, 4) && Column(whole, k, 4) == Column(0x1111, k, 4)
    {
      OnesColumns(k);
      NarrowColumn(0, 0xF, 0x1111, 4, 4, k);
    }
    ColumnsDetermineWord(narrow, 0, 4, 4);
    ColumnsDetermineWord(whole, 0x1111, 4, 4);
  }

  /** One sample of the script's stimulus: WE and DI; EN and AD are held at 1. */
  datatype Sample = Sample(we: nat, din: nat)

  function Stimulus(x: Sample): Input
  {
    Input(1, x.we, 1, x.din)
  }

  /** WE and DI fit their buses, as the script's random draws of 4 and 16 bits do. */
  predicate SampleOk(x: Sample)
  {
    Fits(Script, Stimulus(x))
  }

  /** Word 1 after one turn of the loop writes sample `x` into `prev` with slices of `span` characters. */
  function Fed(span: nat, prev: nat, x: Sample): nat
    requires 1 <= span <= 4 && IsWord(prev, 4, 4) && SampleOk(x)
  {
    WriteWord(prev, x.we, x.din, 4, 4, span)
  }

  /**
   * The script's loop: the printed outputs of the model stepping through the
   * samples, with slices of `span` characters (3 as written, 4 intended).
   */
  function Drive(span: nat, s: State, xs: seq<Sample>): (outs: seq<nat>)
    requires Valid(Script, s) && 1 <= span <= 4 && forall t :: 0 <= t < |xs| ==> SampleOk(xs[t])
    ensures |outs| == |xs|
    ensures |xs| > 0 ==> outs[0] == s.nxtRam[1]
    ensures forall t :: 0 <= t < |outs| ==> IsWord(outs[t], 4, 4)
    // each later output is word 1 after the previous sample's write
    ensures forall t :: 0 <= t < |outs| - 1 ==> outs[t + 1] == Fed(span, outs[t], xs[t])
    decreases |xs|
  {
    if |xs| == 0 then []
    else
      assert SampleOk(xs[0]);
      var o := Advance(Script, span, s, Stimulus(xs[0]));
      [o.out] + Drive(span, o.state, xs[1..])
  }

  /**
   * What the script prints: each output after the first is the previous one
   * after the previous sample's write.
   */
  lemma {:induction false} DriveFeedsBack(span: nat, s: State, xs: seq<Sample>, t: nat)
    requires Valid(Script, s) && 1 <= span <= 4 && forall u :: 0 <= u < |xs| ==> SampleOk(xs[u])
    requires t + 1 < |xs|
    ensures var outs := Drive(span, s, xs);
            outs[t + 1] == WriteWord(outs[t], xs[t].we, xs[t].din, 4, 4, span)
    decreases t
  {
    DriveStep(span, s, xs);
    var s' := Advance(Script, span, s, Stimulus(xs[0])).state;
    if t == 0 {
      DriveStep(span, s', xs[1..]);
    } else {
      DriveFeedsBack(span, s', xs[1..], t - 1);
      assert xs[1..][t - 1] == xs[t];
    }
  }

  /** One turn of the loop: print word 1, then write the sample into it. */
  lemma DriveStep(span: nat, s: State, xs: seq<Sample>)
    requires Valid(Script, s) && 1 <= span <= 4 && forall u :: 0 <= u < |xs| ==> SampleOk(xs[u])
    requires |xs| > 0 && SampleOk(xs[0])
    ensures var s' := Advance(Script, span, s, Stimulus(xs[0])).state;
            && Valid(Script, s')
            && s'.nxtRam[1] == WriteWord(s.nxtRam[1], xs[0].we, xs[0].din, 4, 4, span)
            && Drive(span, s, xs) == [s.nxtRam[1]] + Drive(span, s', xs[1..])
  {
  }

  /**
   * From the zeroed memory the script as written prints 0 first and then the
   * running value of word 1 under the narrowed writes.
   */
  lemma ScriptOutputs(xs: seq<Sample>, t: nat)
    requires (forall u :: 0 <= u < |xs| ==> SampleOk(xs[u])) && t + 1 < |xs|
    ensures New(Script).Ok?
    ensures var outs := Drive(3, New(Script).value, xs);
            outs[0] == 0 && outs[t + 1] == NarrowWrite(outs[t], xs[t].we, xs[t].din, 4, 4)
  {
    DriveFeedsBack(3, New(Script).value, xs, t);
  }

  /**
   * With whole-column slices the same loop prints 0 first and then the
   * running value of word 1 under the masked writes.
   */
  lemma IntendedOutputs(xs: seq<Sample>, t: nat)
    requires (forall u :: 0 <= u < |xs| ==> SampleOk(xs[u])) && t + 1 < |xs|
    ensures New(Script).Ok?
    ensures var outs := Drive(4, New(Script).value, xs);
            outs[0] == 0 && outs[t + 1] == MaskedWrite(outs[t], xs[t].we, xs[t].din, 4, 4)
  {
    DriveFeedsBack(4, New(Script).value, xs, t);
  }
}

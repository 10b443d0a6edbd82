# Single-port RAM golden model in Dafny

This project models the cycle-accurate golden model of a synchronous
single-port RAM that the repository's cocotb testbenches compare the RTL
against, and proves its timing and column-masking behaviour.

The model is parameterised by the generics `G_DAT_N_COL` (number of columns),
`G_DAT_COL_W` (column width), `G_DEPTH` and `G_RD_LATENCY`. Its state is
double-buffered like the hardware: committed storage and output registers, and
their next values. One call of `RamTester.model` with the sampled `EN`, `WE`,
`AD` and `DI` does three things in order:

1. It commits the next values.
2. At latency 0 it drives the combinational read of the committed word.
3. When enabled, it writes the enabled columns of `DI` into the next-value
   word and shifts the read pipeline, with the committed word entering at the
   tail.

Modules:

- `Bits` (bits.dfy): `int_to_blist` / `blist_to_int` on MSB-first strings, and
  column arithmetic. Column `k` of a word is `(x / 2^(k*W)) % 2^W` and
  write-enable bit `k` is `(we / 2^k) % 2`.
- `ColumnWrite` (column_write.dfy): the column loop of the testers, with the
  slice length as a parameter, and the per-character write of the coco tester.
- `RamModel` (ram_model.dfy): the integer-word model shared by the structured
  cocotb tester and the FIFO-bench tester, its constructor, and runs of it.
- `RamTiming` (ram_timing.dfy): whole-run properties. These are stall, exact
  read latency, a same-step write being invisible to the read, and column
  isolation against a plain reference memory.
- `Checker` (checker.dfy): the `_check` coroutine as a fold over the paired
  output and input samples. One policy skips `AD >= G_DEPTH` (structured
  cocotb tester); the other indexes unguarded (FIFO bench).
- `BitStringModel` (bitstring_model.dfy): the coco tester, whose words are
  lists of `'0'`/`'1'` characters. On binary strings it is proved to be the
  integer model seen through the encoding. On encoded samples, in range or
  not, its checker gives the verdict of the unguarded integer checker.
- `Array2dScript` (array2d_script.dfy): the fixed-configuration script
  array2dtest.py and its driving loop. Its narrowed slice is a finding, below.
- `ZeroTime` (zero_time.dfy): the separate `ram_model` class of the plain
  cocotb bench. It does a whole-word write, and a read of the previously
  latched address.
- `Lifecycle` (lifecycle.dfy): the `start`/`stop` guards of `CycleMonitor` and
  `RamTester`.
- `Outcomes` (outcomes.dfy): the `Result` type that carries the Python
  exceptions.

## Model

| member | source | states |
|---|---|---|
| `Bits.IntToBlist` | memory/ram_sp/sim/cocotb/test_ram_sp_structured.py:29-30 | the string of a value below 2^n has exactly n characters, each '0' or '1' |
| `Bits.BlistToInt` | memory/ram_sp/sim/cocotb/test_ram_sp_structured.py:32-33 | the value of a binary string of length n is below 2^n |
| `Bits.BlistRoundTrip` | memory/ram_sp/sim/cocotb/test_ram_sp_structured.py:29-33 | decoding the n-bit string of x gives back x, for every x below 2^n |
| `Bits.IntRoundTrip` | memory/ram_sp/sim/cocotb/test_ram_sp_structured.py:29-33 | encoding the value of a binary string at its own length gives back the string |
| `Bits.BlistInjective` | memory/ram_sp/sim/cocotb/test_ram_sp_structured.py:32-33 | two binary strings of one length with one value are the same string |
| `Bits.ColumnOfBlist` | memory/ram_sp/sim/cocotb/test_ram_sp_structured.py:162-168 | integer column k of a word is the value of list block n-1-k of its MSB-first string |
| `Bits.MaskBitOfBlist` | memory/ram_sp/sim/cocotb/test_ram_sp_structured.py:161-163 | write-enable bit k is set exactly when character n-1-k of the mask's string is '1' |
| `Bits.ColumnsDetermineWord` | memory/ram_sp/sim/cocotb/test_ram_sp_structured.py:157-168 | two N*W-bit words with the same N columns are equal |
| `ColumnWrite.WriteSlices` | memory/ram_sp/sim/cocotb/test_ram_sp_structured.py:162-165 | after the column loop, a position takes DI's character exactly when it is among the first `span` positions of a list column whose mask character is '1'; every other position keeps its character |
| `ColumnWrite.CopySlice` | memory/ram_sp/sim/cocotb/test_ram_sp_structured.py:164-165 | the slice assignment replaces exactly the positions `[a, a+span)` with DI's characters |
| `ColumnWrite.MaskedWrite` | memory/ram_sp/sim/cocotb/test_ram_sp_structured.py:157-168 | column k of the written word is DI's column k when write-enable bit k is set, and the old column k otherwise |
| `ColumnWrite.MaskedWriteUnique` | memory/ram_sp/sim/cocotb/test_ram_sp_structured.py:157-168 | any word whose columns satisfy those equations is the written word |
| `ColumnWrite.BitwiseIsSlices` | memory/ram_sp/sim/coco/test_ram_sp_structured.py:159-163 | the coco tester's per-character copy of enabled columns equals the integer testers' slice assignment of whole columns |
| `RamModel.New` | memory/ram_sp/sim/cocotb/test_ram_sp_structured.py:100-113 | for every configuration, construction fails exactly for a negative latency; otherwise storage holds G_DEPTH zero words and there are L zero output registers, or one at latency 0 |
| `RamModel.Advance` | memory/ram_sp/sim/cocotb/array2dtest.py:44-70 | a step commits, reads the committed word at latency 0 or the pipeline head otherwise, and when enabled writes the column loop's word and shifts the pipeline; a disabled step changes no next value |
| `RamModel.Step` | memory/ram_sp/sim/cocotb/test_ram_sp_structured.py:147-175 | the committed storage and output registers become the previous next values, except that at latency 0 the single output register takes the committed addressed word; the output is the committed word at latency 0 and the pipeline head otherwise; a disabled step changes no next value; an enabled step changes only the addressed word and shifts the pipeline with the committed word at the tail |
| `RamModel.StepColumns` | memory/ram_sp/sim/cocotb/test_ram_sp_structured.py:157-168 | an enabled step gives column k of the addressed word DI's column k when WE bit k is set, and keeps it otherwise |
| `RamModel.CommitThenWrite` | memory/ram_sp/sim/cocotb/test_ram_sp_structured.py:149-168 | after any step the committed storage and its next value differ at most at the addressed word |
| `RamModel.Run` | gen_logic/fifo_sync/sim/cocotb/test_fifo_sync.py:196-210 | the states and outputs of stepping through the samples in order form a trace: state t+1 and output t come from step t |
| `RamTiming.StepWrites` | memory/ram_sp/sim/cocotb/test_ram_sp_structured.py:157-168 | one step's next-value storage is a plain memory that applies each enabled input's masked write at once |
| `RamTiming.TraceTracksMemory` | memory/ram_sp/sim/cocotb/test_ram_sp_structured.py:147-168 | before step t the next-value storage holds the plain memory after the first t inputs |
| `RamTiming.ZeroLatencyRead` | memory/ram_sp/sim/cocotb/test_ram_sp_structured.py:153-154 | at latency 0 output t is the addressed word of the memory after the first t inputs, so a step never sees its own write |
| `RamTiming.StallHolds` | memory/ram_sp/sim/cocotb/test_ram_sp_structured.py:157-173 | over disabled steps the next values never change, the committed storage equals them from the first step on, and at latency L > 0 the output stays the pipeline head |
| `RamTiming.PipelineCarries` | memory/ram_sp/sim/cocotb/test_ram_sp_structured.py:170-173 | with every step enabled, the word read at step t sits in pipeline slot L-(u-t) before step u |
| `RamTiming.TraceShift` | memory/ram_sp/sim/cocotb/test_ram_sp_structured.py:170-173 | an enabled step of a trace shifts the pipeline by one and appends the addressed committed word |
| `RamTiming.TraceLatency` | memory/ram_sp/sim/cocotb/test_ram_sp_structured.py:170-175 | with every step enabled and L > 0, output t+L is the word addressed at step t as committed before that step |
| `RamTiming.ReadLatency` | memory/ram_sp/sim/cocotb/test_ram_sp_structured.py:170-175 | with every step enabled and L > 0, output t+L is the addressed word of the memory after the first t inputs |
| `RamTiming.WriteThenRead` | memory/ram_sp/sim/cocotb/test_ram_sp_structured.py:153-168 | at latency 0 a write with every column enabled is returned by the step right after it, when that step addresses the same word |
| `RamTiming.WriteReadAfter` | memory/ram_sp/sim/cocotb/test_ram_sp_structured.py:153-168 | at latency 0, after a write of every column, any later step that addresses the same word returns the written data, provided no step in between writes that word |
| `RamTiming.OverwriteOneColumn` | memory/ram_sp/sim/cocotb/test_ram_sp_structured.py:162-165 | after a full write of v1 and a write of v2 to column j only, column j holds v2's column and every other column holds v1's |
| `Checker.Check` | memory/ram_sp/sim/cocotb/test_ram_sp_structured.py:177-191 | the fold passes with a valid final state; or it fails an assertion at a pair whose sampled output differs from the expected word; or, only when unguarded, it raises IndexError at a pair that indexes storage out of range |
| `Checker.Kept` | memory/ram_sp/sim/cocotb/test_ram_sp_structured.py:184 | the pairs the guard lets through all have addresses below G_DEPTH, and the two kept queues have the same length |
| `Checker.KeptIsFilter` | memory/ram_sp/sim/cocotb/test_ram_sp_structured.py:181-184 | the kept queues are the subsequence of sampled pairs at increasing positions, each input kept with its own output sample, and a position is kept exactly when its address is below G_DEPTH |
| `Checker.SkippingPassIff` | memory/ram_sp/sim/cocotb/test_ram_sp_structured.py:177-191 | the skipping checker never raises IndexError, and it passes exactly when the kept output samples are the model's outputs on the kept input samples |
| `Checker.UnguardedPassIff` | gen_logic/fifo_sync/sim/cocotb/test_fifo_sync.py:196-210 | on in-range samples the unguarded checker passes exactly when the output samples are the model's outputs, having compared every pair |
| `Checker.UnguardedPassInRange` | gen_logic/fifo_sync/sim/cocotb/test_fifo_sync.py:196-210 | on samples that fit their buses, in range or not, the unguarded checker passes exactly when every pair indexes storage in range and the output samples are the model's outputs; a stream with an out-of-range indexing pair never passes |
| `Checker.SkippingFirstMismatch` | memory/ram_sp/sim/cocotb/test_ram_sp_structured.py:177-191 | when the skipping checker fails an assertion, the failing pair is in range; the kept pairs before it are the model's outputs on the kept inputs; and the expected word is the model's next output, on the failing pair's input |
| `Checker.UnguardedFirstMismatch` | gen_logic/fifo_sync/sim/cocotb/test_fifo_sync.py:196-210 | when the unguarded checker fails an assertion, every earlier sample was in range and every earlier output was the model's, and the expected word is the model's output for the failing pair |
| `Checker.UnguardedFirstIndexError` | gen_logic/fifo_sync/sim/cocotb/test_fifo_sync.py:204-208 | when the unguarded checker raises IndexError, every earlier sample was in range and every earlier output was the model's |
| `Checker.PoliciesAgree` | gen_logic/fifo_sync/sim/cocotb/test_fifo_sync.py:204-210 | on samples whose addresses are all below G_DEPTH the skipping and the unguarded checkers give one verdict |
| `BitStringModel.BitNew` | memory/ram_sp/sim/coco/test_ram_sp_structured.py:100-110 | for every configuration, construction fails exactly for a negative latency; otherwise storage holds G_DEPTH words and there are L output registers, or one at latency 0, each an N*W-character string |
| `BitStringModel.BitStep` | memory/ram_sp/sim/coco/test_ram_sp_structured.py:144-174 | commit; output is the committed word at latency 0 and the pipeline head otherwise; when the first EN character is '1', every position of a column whose WE character is '1' takes DI's character, no other word changes, and the pipeline shifts with the committed word at the tail |
| `BitStringModel.EncodeInput` | memory/ram_sp/sim/coco/test_ram_sp_structured.py:184-188 | the sampled inputs as strings of N and N*W characters; the step is enabled exactly when EN is 1 |
| `BitStringModel.ZeroEncoding` | memory/ram_sp/sim/coco/test_ram_sp_structured.py:100-101 | the all-'0' string is the encoding of the word 0 |
| `BitStringModel.NewAgrees` | memory/ram_sp/sim/coco/test_ram_sp_structured.py:100-110 | both constructors fail for the same configurations, and the string state is the encoding of the zeroed integer state |
| `BitStringModel.WrittenEncoding` | memory/ram_sp/sim/coco/test_ram_sp_structured.py:159-163 | the string of the integer written word is the per-character write of the strings |
| `BitStringModel.Simulation` | memory/ram_sp/sim/coco/test_ram_sp_structured.py:144-174 | on encoded state and input the string step gives the encoding of the integer step's state and output |
| `BitStringModel.BitCheck` | memory/ram_sp/sim/coco/test_ram_sp_structured.py:176-190 | the unguarded string fold passes having compared every pair; or it fails an assertion at a pair whose sampled string differs from the expected one; or it raises IndexError at a pair that indexes storage out of range |
| `BitStringModel.BitPassIff` | memory/ram_sp/sim/coco/test_ram_sp_structured.py:176-190 | on in-range samples the string checker never raises, and it passes exactly when the sampled strings are the model's outputs |
| `BitStringModel.BitPassInRange` | memory/ram_sp/sim/coco/test_ram_sp_structured.py:176-190 | on samples that fit their buses, in range or not, the string checker passes exactly when every pair indexes storage in range and the sampled strings are the model's outputs; a stream with an out-of-range indexing pair never passes |
| `BitStringModel.BitFirstMismatch` | memory/ram_sp/sim/coco/test_ram_sp_structured.py:176-190 | when the string checker fails an assertion, every earlier sample was in range and every earlier string was the model's, and the expected string is the model's output for the failing pair |
| `BitStringModel.BitFirstIndexError` | memory/ram_sp/sim/coco/test_ram_sp_structured.py:184-188 | when the string checker raises IndexError, every earlier sample was in range and every earlier string was the model's |
| `BitStringModel.EncodingInjective` | memory/ram_sp/sim/coco/test_ram_sp_structured.py:190 | two words are equal exactly when their strings are |
| `BitStringModel.CheckersAgree` | memory/ram_sp/sim/coco/test_ram_sp_structured.py:176-190 | on encoded samples, in range or not, the string checker and the unguarded integer checker pass together, ending in encoded states; they raise IndexError at the same pair; and they fail an assertion at the same pair, with the encodings of the integer checker's words |
| `Array2dScript.NarrowWrite` | memory/ram_sp/sim/cocotb/array2dtest.py:55-63 | the script's write, with each enabled column copying W-1 characters, is a word of N*W bits |
| `Array2dScript.NarrowColumn` | memory/ram_sp/sim/cocotb/array2dtest.py:60-63 | an enabled column takes DI's column with its least significant bit replaced by the old one; a disabled column keeps its value |
| `Array2dScript.NarrowStep` | memory/ram_sp/sim/cocotb/array2dtest.py:44-70 | at the fixed latency 0 the output is the committed word, the pipeline never changes, and an enabled step applies the narrowed write to the addressed word |
| `Array2dScript.NarrowLosesLowBits` | memory/ram_sp/sim/cocotb/array2dtest.py:62 | from the zeroed memory, writing 0x1111 to every column leaves 0 in the script's model but 0x1111 in the whole-column model |
| `Array2dScript.Drive` | memory/ram_sp/sim/cocotb/array2dtest.py:97-105 | the loop prints one word per sample, the first being word 1 before any write and each later one word 1 after the previous sample's write |
| `Array2dScript.DriveFeedsBack` | memory/ram_sp/sim/cocotb/array2dtest.py:97-105 | each printed word after the first is the previous one after the previous sample's write |
| `Array2dScript.ScriptOutputs` | memory/ram_sp/sim/cocotb/array2dtest.py:90-105 | from the fresh model the script prints 0, then the running value of word 1 under the narrowed writes |
| `Array2dScript.IntendedOutputs` | memory/ram_sp/sim/cocotb/array2dtest.py:90-105 | with whole-column slices the same loop prints 0, then the running value of word 1 under the masked writes |
| `ZeroTime.Init` | memory/ram_sp/sim/cocotb/test_ram_sp.py:90-92 | the fresh model holds G_DEPTH zero words and has address 0 latched |
| `ZeroTime.Write` | memory/ram_sp/sim/cocotb/test_ram_sp.py:94-97 | when `enable` and `write_enable` are both truthy, the addressed word becomes DI whole, or IndexError is raised for an address past the list; otherwise nothing changes |
| `ZeroTime.Read` | memory/ram_sp/sim/cocotb/test_ram_sp.py:99-103 | returns the word at the latched address, or raises IndexError when that is past the list, and then latches the address only when enabled; storage never changes |
| `ZeroTime.DisabledReadRepeats` | memory/ram_sp/sim/cocotb/test_ram_sp.py:99-103 | a disabled read changes nothing, so reading again returns the same word |
| `ZeroTime.WholeWordWrite` | memory/ram_sp/sim/cocotb/test_ram_sp.py:94-97 | an enabled write stores DI outright, with no column mask, and moves no other word |
| `ZeroTime.IdleWrite` | memory/ram_sp/sim/cocotb/test_ram_sp.py:95-96 | a write that is not both enabled and write-enabled leaves the model as it was |
| `ZeroTime.WriteThenRead` | memory/ram_sp/sim/cocotb/test_ram_sp.py:94-103 | after an enabled read latches an address and a write stores DI there, the next read returns DI |
| `ZeroTime.ReadsLag` | memory/ram_sp/sim/cocotb/test_ram_sp.py:99-103 | a run of enabled reads returns the word at the address latched before the run, then the word at each read address one call late; it raises exactly when one of those addresses is past the list |
| `Lifecycle.MonitorStart` | memory/ram_sp/sim/cocotb/test_ram_sp_structured.py:60-65 | starting succeeds exactly when the monitor is not running, and it then runs; otherwise "Monitor already started" |
| `Lifecycle.MonitorStop` | memory/ram_sp/sim/cocotb/test_ram_sp_structured.py:67-75 | stopping succeeds exactly when the monitor is running, and it then stops; otherwise "Monitor never started" |
| `Lifecycle.Start` | memory/ram_sp/sim/cocotb/test_ram_sp_structured.py:130-136 | start succeeds exactly when neither the checker nor a monitor runs, leaving all three running; a running checker raises with nothing changed, and a running output monitor raises after the input monitor was started |
| `Lifecycle.Stop` | memory/ram_sp/sim/cocotb/test_ram_sp_structured.py:138-145 | stop succeeds exactly when the checker and both monitors run, leaving all idle; a checker that never started raises with nothing changed, and a stopped output monitor raises after the input monitor was stopped |
| `Lifecycle.CallsKeepConsistent` | memory/ram_sp/sim/cocotb/test_ram_sp_structured.py:130-145 | from a tester whose monitors run exactly when its checker does, a call keeps that so, and a call that raises changes nothing |
| `Lifecycle.CallsSucceedIff` | memory/ram_sp/sim/cocotb/test_ram_sp_structured.py:130-145 | from such a tester a sequence of calls raises nothing exactly when start and stop alternate, beginning with the one the state allows; it then ends in the state opposite to its starting one after an odd number of calls, and in its starting state after an even number |
| `Lifecycle.Restart` | memory/ram_sp/sim/coco/test_ram_sp_structured.py:135-142 | after start and stop, start succeeds again exactly as from a fresh tester |

## Left out

- Simulator scheduling is not modelled. This covers `Clock`, the `RisingEdge`/`FallingEdge` awaits, the blocking `Queue.get`, and `start_soon`/`kill`. The monitors' queues become the sequences of samples the checker folds over, and `Lifecycle` keeps only whether each coroutine handle is set.
- `CycleMonitor._run` and `_sample` are not modelled: sampling the DUT's signals on clock edges is I/O.
- The random stimulus generators and `NUM_SAMPLES` are not modelled, because they are randomness. The checker lemmas hold for every sample sequence.
- Logging, `print`, and the `tb_blip` pokes are left out; they are output side effects.
- `test1` of test_fifo_sync.py is left out. It drives the FIFO ports and never builds a `RamTester`.
- In test_ram_sp.py, `TB.truncate` (floating point), `cycle_reset` and `test2` are left out. That module does not parse as written (line 218), so only its `ram_model` class is modelled.
- The exploratory `LogicArray` scripts, the VUnit `run.py` build scripts and the `reggie` JSON reader are left out; they have no stated behaviour to model.
- `LogicArray` is taken as a fixed-width MSB-first binary string. A value too wide for its range raises ValueError in `LogicArray`; here it is a precondition of `Bits.IntToBlist`, and every sampled input is assumed to fit its bus (`RamModel.Fits`).
- Non-binary logic values (`X`, `Z`, ...) reach only the string model, which copies them like any other character. The integer testers' `.integer` conversion of such a value raises, and so does the coco tester's `.integer` conversion of AD (memory/ram_sp/sim/coco/test_ram_sp_structured.py:184-186); neither is modelled, since addresses are natural numbers here.
- Addresses are natural numbers, as `.integer` of an unsigned bus gives. Python's negative list indices therefore never arise.
- The constructors raise a bare `Exception` for a negative latency. It is modelled as the error value `NegativeLatency`.
- At latency 0 the coco tester keeps its output register as one flat list. It is modelled as a sequence holding one word.
- List aliasing is not modelled. The testers copy lists on commit (`copy.copy`, `[:]`, element-wise loops), so value semantics give the same results.
- `ZeroTime.Write`, `ZeroTime.Read`: `enable` and `write_enable` are integers with Python truthiness `x != 0`. The unused `clock` argument is dropped, and the truthiness of a `LogicArray` argument is not modelled.

## Findings

| source | as written | input that shows it | evidently intended | confidence | as-written member | corrected member |
|---|---|---|---|---|---|---|
| memory/ram_sp/sim/cocotb/array2dtest.py:62 | the column slice `j*W : j*W+W-1` copies only W-1 characters, so each enabled column keeps its old least significant bit | N = W = 4, from the zeroed memory write DI = 0x1111 with WE = 0xF to address 1: word 1 stays 0 | the whole column copied (`j*W : j*W+W`), as in the structured and FIFO-bench testers, storing 0x1111 | high; not executed | `Array2dScript.NarrowLosesLowBits` | `ColumnWrite.MaskedWrite` |

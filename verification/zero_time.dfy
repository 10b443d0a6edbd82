/**
 * The `ram_model` class of the plain cocotb bench: a RAM that "takes zero
 * time". A write stores the whole word at once (no column mask), and a read
 * returns the word at the address latched by the previous enabled read,
 * then latches its own address when enabled.
 *
 * Python truthiness of an integer argument is `x != 0`. An index outside
 * the list raises IndexError before any state changes.
 */
module ZeroTime {
  import opened Outcomes

  /** The storage list and the latched read address. */
  datatype Ram = Ram(ram: seq<int>, latched: nat)

  /** The list index that raised IndexError. */
  datatype Fault = IndexError(index: nat)

  predicate Truthy(x: int)
  {
    x != 0
  }

  /** A freshly constructed model: `depth` zero words and address 0 latched. */
  function Init(depth: nat): (m: Ram)
    ensures |m.ram| == depth && m.latched == 0
    ensures forall a :: 0 <= a < depth ==> m.ram[a] == 0
  {
    Ram(seq(depth, _ => 0), 0)
  }

  /** `ram_wr`: overwrites the whole addressed word when `enable` and `write_enable` are both truthy. */
  function Write(m: Ram, enable: int, writeEnable: int, address: nat, din: int): (r: Result<Ram, Fault>)
    ensures r.Err? <==> Truthy(enable) && Truthy(writeEnable) && address >= |m.ram|
    ensures r.Err? ==> r.error == IndexError(address)
    ensures r.Ok? ==> |r.value.ram| == |m.ram| && r.value.latched == m.latched
    ensures r.Ok? ==> forall a :: 0 <= a < |m.ram| ==>
              r.value.ram[a] == if Truthy(enable) && Truthy(writeEnable) && a == address then din else m.ram[a]
  {
    if Truthy(enable) && Truthy(writeEnable) then
      if address < |m.ram| then Ok(m.(ram := m.ram[address := din])) else Err(IndexError(address))
    else
      Ok(m)
  }

  /** `ram_rd`: the word at the latched address, then the new latch. */
  function Read(m: Ram, enable: int, address: nat): (r: Result<(Ram, int), Fault>)
    ensures r.Err? <==> m.latched >= |m.ram|
    ensures r.Err? ==> r.error == IndexError(m.latched)
    ensures r.Ok? ==> r.value.1 == m.ram[m.latched]
    ensures r.Ok? ==> r.value.0.ram == m.ram
    ensures r.Ok? ==> r.value.0.latched == if Truthy(enable) then address else m.latched
  {
    if m.latched < |m.ram| then
      var out := m.ram[m.latched];
      var latched := if Truthy(enable) then address else m.latched;
      Ok((m.(latched := latched), out))
    else
      Err(IndexError(m.latched))
  }

  /** A disabled read changes nothing, so reading again returns the same word. */
  lemma DisabledReadRepeats(m: Ram, a: nat, b: nat)
    requires Read(m, 0, a).Ok?
    ensures Read(m, 0, a).value.0 == m
    ensures Read(m, 0, b) == Read(m, 0, a)
  {
  }

  /** The write is whole-word: the addressed word becomes `din` outright and no other word moves. */
  lemma WholeWordWrite(m: Ram, address: nat, din: int, other: nat)
    requires address < |m.ram| && other < |m.ram| && other != address
    ensures Write(m, 1, 1, address, din).Ok?
    ensures Write(m, 1, 1, address, din).value.ram[address] == din
    ensures Write(m, 1, 1, address, din).value.ram[other] == m.ram[other]
  {
  }

  /** A write that is not both enabled and write-enabled leaves the model as it was. */
  lemma IdleWrite(m: Ram, enable: int, writeEnable: int, address: nat, din: int)
    requires !Truthy(enable) || !Truthy(writeEnable)
    ensures Write(m, enable, writeEnable, address, din) == Ok(m)
  {
  }

  /**
   * Write then read: after an enabled read latches `address` and a write
   * stores `din` there, the next read returns `din`.
   */
  lemma WriteThenRead(m: Ram, address: nat, din: int, next: nat)
    requires address < |m.ram| && m.latched < |m.ram|
    ensures var l := Read(m, 1, address);
            && l.Ok?
            && Write(l.value.0, 1, 1, address, din).Ok?
            && var w := Write(l.value.0, 1, 1, address, din).value;
               Read(w, 1, next).Ok? && Read(w, 1, next).value.1 == din
  {
  }

  /**
   * The outputs of enabled reads of `addrs`, in order, with no writes in
   * between; the first read that indexes out of range raises.
   */
  function Reads(m: Ram, addrs: seq<nat>): (r: Result<seq<int>, Fault>)
    ensures r.Ok? ==> |r.value| == |addrs|
    decreases |addrs|
  {
    if |addrs| == 0 then Ok([])
    else
      match Read(m, 1, addrs[0])
      case Err(e) => Err(e)
      case Ok((m', out)) =>
        match Reads(m', addrs[1..])
        case Err(e) => Err(e)
        case Ok(outs) => Ok([out] + outs)
  }

  /**
   * One-call read latency: a run of enabled reads returns the word at the
   * address latched before the run, then the word at each address one call
   * late; it raises exactly when one of those addresses but the last is out
   * of range.
   */
  lemma {:induction false} ReadsLag(m: Ram, addrs: seq<nat>)
    requires |addrs| > 0
    ensures var lagged := [m.latched] + addrs[..|addrs| - 1];
            && (Reads(m, addrs).Ok? <==> forall t :: 0 <= t < |lagged| ==> lagged[t] < |m.ram|)
            && (Reads(m, addrs).Ok? ==> forall t :: 0 <= t < |addrs| ==> Reads(m, addrs).value[t] == m.ram[lagged[t]])
    decreases |addrs|
  {
    var lagged := [m.latched] + addrs[..|addrs| - 1];
    if m.latched < |m.ram| {
      var m' := m.(latched := addrs[0]);
      assert Read(m, 1, addrs[0]) == Ok((m', m.ram[m.latched]));
      if |addrs| > 1 {
        var tail := addrs[1..];
        ReadsLag(m', tail);
        var lagged' := [m'.latched] + tail[..|tail| - 1];
        assert lagged == [m.latched] + lagged';
        assert Reads(m, addrs).Ok? <==> Reads(m', tail).Ok?;
        if !Reads(m, addrs).Ok? {
          var t :| 0 <= t < |lagged'| && lagged'[t] >= |m.ram|;
          assert lagged[t + 1] >= |m.ram|;
        }
        if Reads(m, addrs).Ok? {
          assert Reads(m, addrs).value == [m.ram[m.latched]] + Reads(m', tail).value;
        }
      } else {
        assert lagged == [m.latched];
      }
    } else {
      assert lagged[0] >= |m.ram|;
    }
  }
}

/**
 The loop of `main` in gpio.c as a state machine: write the counter to the
 GPIO register, read it back, report a mismatch, advance the counter with
 wrap-around, spin for a while, repeat. The register is reached through a
 port object; the diagnostic sink is a log of emitted lines.
 */
module GpioLoop {
  import opened LoopSpec

  /** Address of a memory-mapped register. */
  type Addr = nat

  /** Spin count of the visibility delay. */
  const DELAY_SPINS: nat := 500000

  datatype Option<T> = None | Some(value: T)

  /** One bus transaction seen by the register port. */
  datatype Access = WriteOp(addr: Addr, value: Word) | ReadOp(addr: Addr)

  /** What a read returns: the injected value if there is one, otherwise the
      value the register latched. */
  function Answer(injected: Option<Word>, latched: Word): (v: Word)
    ensures injected.None? ==> v == latched
    ensures injected.Some? ==> v == injected.value
  {
    match injected
    case Some(w) => w
    case None => latched
  }

  /** A register port that stands in for the hardware: writes latch a value
      per address; the k-th read answers fault(k) when that is Some, and the
      latched value otherwise. A port whose fault function is always None is
      a faithful register. */
  class MockPort {
    const fault: nat -> Option<Word>
    var latched: map<Addr, Word>
    var readCount: nat
    var accesses: seq<Access>

    constructor (fault: nat -> Option<Word>)
      ensures this.fault == fault
      ensures latched == map[] && readCount == 0 && accesses == []
    {
      this.fault := fault;
      latched := map[];
      readCount := 0;
      accesses := [];
    }

    /** The value latched at addr; a register never written holds 0. */
    function Latched(addr: Addr): (v: Word)
      reads this
      ensures addr in latched ==> v == latched[addr]
      ensures addr !in latched ==> v == 0
    {
      if addr in latched then latched[addr] else 0
    }

    method Write(addr: Addr, value: Word)
      modifies this
      ensures latched == old(latched)[addr := value] && Latched(addr) == value
      ensures readCount == old(readCount)
      ensures accesses == old(accesses) + [WriteOp(addr, value)]
    {
      latched := latched[addr := value];
      accesses := accesses + [WriteOp(addr, value)];
    }

    method Read(addr: Addr) returns (value: Word)
      modifies this
      ensures value == Answer(fault(old(readCount)), old(Latched(addr)))
      ensures latched == old(latched)
      ensures readCount == old(readCount) + 1
      ensures accesses == old(accesses) + [ReadOp(addr)]
    {
      value := Answer(fault(readCount), Latched(addr));
      readCount := readCount + 1;
      accesses := accesses + [ReadOp(addr)];
    }
  }

  /** The visibility delay: a spin of a local counter from 0 up to
      DELAY_SPINS. It has no modifies clause, so it changes no state of the
      port or of the loop; it only returns how far the counter spun. */
  method Delay() returns (spins: nat)
    ensures spins == DELAY_SPINS
  {
    var i := 0;
    while i < DELAY_SPINS
      invariant i <= DELAY_SPINS
    {
      i := i + 1;
    }
    spins := i;
  }

  /** The bus transactions of iterations that wrote the values ws in order:
      each writes its value to addr and then reads the same addr. */
  function BusTrace(addr: Addr, ws: seq<Word>): (t: seq<Access>)
    ensures |t| == 2 * |ws|
  {
    if ws == [] then []
    else
      var n := |ws| - 1;
      BusTrace(addr, ws[..n]) + [WriteOp(addr, ws[n]), ReadOp(addr)]
  }

  /** One more iteration appends its write and its read to the bus trace. */
  lemma BusTraceExtend(addr: Addr, ws: seq<Word>, w: Word)
    ensures BusTrace(addr, ws + [w]) == BusTrace(addr, ws) + [WriteOp(addr, w), ReadOp(addr)]
  {
    assert (ws + [w])[..|ws|] == ws;
  }

  /** In the bus trace, access 2k writes the k-th value and access 2k + 1
      reads back; every access, read or write, goes to the same address. */
  lemma {:induction false} BusTraceAt(addr: Addr, ws: seq<Word>, k: nat)
    requires k < |ws|
    ensures BusTrace(addr, ws)[2 * k] == WriteOp(addr, ws[k])
    ensures BusTrace(addr, ws)[2 * k + 1] == ReadOp(addr)
  {
    var n := |ws| - 1;
    if k < n {
      BusTraceAt(addr, ws[..n], k);
    }
  }

  /** How a run continues an earlier state: the values written and read
      before are kept as a prefix, the bus trace of the new iterations is
      appended to the port's access log, and addr holds the last value
      written (every other register keeps its value). */
  ghost predicate Continues(written: seq<Word>, readbacks: seq<Word>,
                            accesses: seq<Access>, latched: map<Addr, Word>, addr: Addr,
                            written0: seq<Word>, readbacks0: seq<Word>,
                            accesses0: seq<Access>, latched0: map<Addr, Word>)
  {
    |written0| <= |written| && written[..|written0|] == written0 &&
    |readbacks0| <= |readbacks| && readbacks[..|readbacks0|] == readbacks0 &&
    accesses == accesses0 + BusTrace(addr, written[|written0|..]) &&
    latched == (if |written| == |written0| then latched0 else latched0[addr := written[|written| - 1]])
  }

  /** Any state continues itself. */
  lemma ContinuesRefl(written: seq<Word>, readbacks: seq<Word>,
                      accesses: seq<Access>, latched: map<Addr, Word>, addr: Addr)
    ensures Continues(written, readbacks, accesses, latched, addr, written, readbacks, accesses, latched)
  {
    assert written[|written|..] == [];
  }

  /** One more iteration, writing w to addr and reading r back, keeps the
      continuation. */
  lemma ContinuesStep(written: seq<Word>, readbacks: seq<Word>,
                      accesses: seq<Access>, latched: map<Addr, Word>, addr: Addr,
                      written0: seq<Word>, readbacks0: seq<Word>,
                      accesses0: seq<Access>, latched0: map<Addr, Word>, w: Word, r: Word)
    requires Continues(written, readbacks, accesses, latched, addr, written0, readbacks0, accesses0, latched0)
    ensures Continues(written + [w], readbacks + [r], accesses + [WriteOp(addr, w), ReadOp(addr)],
                      latched[addr := w], addr, written0, readbacks0, accesses0, latched0)
  {
    var n0 := |written0|;
    var written', readbacks' := written + [w], readbacks + [r];
    assert written'[..n0] == written0 by {
      assert written'[..n0] == written[..n0];
    }
    assert readbacks'[..|readbacks0|] == readbacks0 by {
      assert readbacks'[..|readbacks0|] == readbacks[..|readbacks0|];
    }
    assert accesses + [WriteOp(addr, w), ReadOp(addr)] == accesses0 + BusTrace(addr, written'[n0..]) by {
      assert written'[n0..] == written[n0..] + [w];
      BusTraceExtend(addr, written[n0..], w);
    }
    assert latched[addr := w] == latched0[addr := w] by {
      if |written| != n0 {
        assert latched0[addr := written[|written| - 1]][addr := w] == latched0[addr := w];
      }
    }
  }

  /** The loop invariant, over the loop's state as values: after n
      iterations from counter 0, the values written are the first n of
      0, 1, ..., 15, 0, ..., the counter is the value the next iteration
      writes, every read was answered as the fault schedule says, and the
      console holds exactly the reports of the mismatching iterations. */
  ghost predicate Consistent(counter: Counter, written: seq<Word>, readbacks: seq<Word>,
                             messages: seq<string>, fault: nat -> Option<Word>)
  {
    |readbacks| == |written| &&
    (forall k :: 0 <= k < |written| ==> written[k] == k % 16) &&
    counter == |written| % 16 &&
    (forall k :: 0 <= k < |written| ==> readbacks[k] == Answer(fault(k), written[k])) &&
    messages == Reports(written, readbacks)
  }

  /** Writing the counter and advancing it keeps the written values equal to
      0, 1, ..., 15, 0, ... and the counter equal to the next of them. */
  lemma CountingExtend(written: seq<Word>, counter: Counter)
    requires forall k :: 0 <= k < |written| ==> written[k] == k % 16
    requires counter == |written| % 16
    ensures forall k :: 0 <= k < |written| + 1 ==> (written + [counter])[k] == k % 16
    ensures Next(counter) == (|written| + 1) % 16
  {
  }

  /** Under the loop invariant the written values are those of the pure
      counter from 0, and the counter is where they continue. */
  lemma ConsistentFollowsCounter(counter: Counter, written: seq<Word>, readbacks: seq<Word>,
                                 messages: seq<string>, fault: nat -> Option<Word>)
    requires Consistent(counter, written, readbacks, messages, fault)
    ensures written == WrittenValues(|written|)
    ensures counter == CounterAfter(|written|)
  {
    ModularAreWrittenValues(written);
  }

  /** One iteration keeps the loop invariant. */
  lemma ConsistentStep(counter: Counter, written: seq<Word>, readbacks: seq<Word>,
                       messages: seq<string>, fault: nat -> Option<Word>, readVal: Word)
    requires Consistent(counter, written, readbacks, messages, fault)
    requires readVal == Answer(fault(|written|), counter)
    ensures Consistent(Next(counter), written + [counter], readbacks + [readVal],
                       messages + Report(counter, readVal), fault)
  {
    var n := |written|;
    var written', readbacks' := written + [counter], readbacks + [readVal];
    CountingExtend(written, counter);
    assert messages + Report(counter, readVal) == Reports(written', readbacks') by {
      ReportsExtend(written, readbacks, counter, readVal);
    }
    forall k | 0 <= k < n + 1
      ensures readbacks'[k] == Answer(fault(k), written'[k])
    {
      if k < n {
        assert readbacks'[k] == readbacks[k] && written'[k] == written[k];
      }
    }
  }

  /** Under the loop invariant, a fault schedule that corrupts only the read
      of iteration k, with a value other than the one written there, leaves
      exactly one diagnostic line on the console, and iteration k is the one
      that emitted it. */
  lemma SingleFaultReportsOnce(counter: Counter, written: seq<Word>, readbacks: seq<Word>,
                               messages: seq<string>, fault: nat -> Option<Word>, k: nat)
    requires Consistent(counter, written, readbacks, messages, fault)
    requires k < |written|
    requires fault(k).Some? && fault(k).value != k % 16
    requires forall j :: j != k ==> fault(j).None?
    ensures messages == [READBACK_FAILED]
    ensures Reports(written[..k], readbacks[..k]) == []
    ensures Reports(written[..k + 1], readbacks[..k + 1]) == [READBACK_FAILED]
  {
    forall j | 0 <= j < |written| && j != k
      ensures written[j] == readbacks[j]
    {
      assert fault(j).None?;
    }
    SingleMismatchReportsOnce(written, readbacks, k);
    SingleMismatchReportedByIteration(written, readbacks, k);
  }

  /** The state of the readback loop. `written` and `messages` are what an
      observer of the bus and of the console sees; `readbacks` records the
      values the loop read, which the firmware discards after comparing. */
  class VerificationLoop {
    const port: MockPort
    const addr: Addr
    var counter: Counter
    var written: seq<Word>
    var messages: seq<string>
    ghost var readbacks: seq<Word>

    /** Consistent, with the port having served one read per iteration. */
    ghost predicate Valid()
      reads this, port
    {
      port.readCount == |written| &&
      Consistent(counter, written, readbacks, messages, port.fault)
    }

    /** The loop before its first iteration: the counter is 0 and nothing
        has been written, read or emitted. */
    constructor (port: MockPort, addr: Addr)
      requires port.readCount == 0
      ensures Valid()
      ensures this.port == port && this.addr == addr
      ensures counter == 0 && written == [] && readbacks == [] && messages == []
    {
      this.port := port;
      this.addr := addr;
      counter := 0;
      written := [];
      readbacks := [];
      messages := [];
    }

    /** One iteration: write the counter, read the same address back, emit
        the diagnostic line if the two differ, advance the counter, then
        delay unless the delay is stubbed out. What it writes, the new
        counter and the emitted lines do not depend on runDelay, and the new
        counter does not depend on the value read back. */
    method Step(runDelay: bool)
      requires Valid()
      modifies this, port
      ensures Valid()
      ensures port.accesses == old(port.accesses) + [WriteOp(addr, old(counter)), ReadOp(addr)]
      ensures port.latched == old(port.latched)[addr := old(counter)]
      ensures written == old(written) + [old(counter)]
      ensures readbacks == old(readbacks) + [Answer(port.fault(old(port.readCount)), old(counter))]
      ensures messages == old(messages) + Report(old(counter), readbacks[|readbacks| - 1])
      ensures counter == Next(old(counter))
    {
      ghost var rv := Answer(port.fault(port.readCount), counter);
      ghost var counter', written', readbacks', messages' :=
        Next(counter), written + [counter], readbacks + [rv], messages + Report(counter, rv);
      ConsistentStep(counter, written, readbacks, messages, port.fault, rv);
      var value := ToWord(counter);
      assert value == counter;
      port.Write(addr, value);
      var readVal := port.Read(addr);
      assert port.accesses == old(port.accesses) + [WriteOp(addr, value), ReadOp(addr)];
      if readVal != ToWord(counter) {
        messages := messages + [READBACK_FAILED];
      }
      written := written + [value];
      readbacks := readbacks + [readVal];
      var c: int := counter + 1;
      if c > COUNTER_MAX {
        c := 0;
      }
      counter := c;
      assert counter == counter' && written == written' && readbacks == readbacks' && messages == messages';
      if runDelay {
        var spins := Delay();
      }
    }

    /** n more iterations of the endless loop. */
    method Run(n: nat)
      requires Valid()
      modifies this, port
      ensures Valid()
      ensures |written| == old(|written|) + n
      ensures readbacks[..old(|readbacks|)] == old(readbacks)
      ensures port.accesses == old(port.accesses) + BusTrace(addr, written[old(|written|)..])
      ensures n == 0 ==> port.latched == old(port.latched)
      ensures n > 0 ==> port.latched == old(port.latched)[addr := written[|written| - 1]]
    {
      ghost var written0, readbacks0 := written, readbacks;
      ghost var accesses0, latched0 := port.accesses, port.latched;
      ContinuesRefl(written, readbacks, port.accesses, port.latched, addr);
      for i := 0 to n
        invariant Valid()
        invariant |written| == |written0| + i
        invariant Continues(written, readbacks, port.accesses, port.latched, addr,
                            written0, readbacks0, accesses0, latched0)
      {
        ghost var w, ws, rs, accesses, latched := counter, written, readbacks, port.accesses, port.latched;
        Step(true);
        ContinuesStep(ws, rs, accesses, latched, addr, written0, readbacks0, accesses0, latched0,
                      w, readbacks[|readbacks| - 1]);
      }
    }
  }

  /** The firmware's main, cut off after n iterations: counting starts at 0
      and the loop runs against the given register port. */
  method Firmware(port: MockPort, addr: Addr, n: nat) returns (loop: VerificationLoop)
    requires port.readCount == 0
    modifies port
    ensures fresh(loop) && loop.port == port && loop.addr == addr
    ensures loop.Valid() && |loop.written| == n
    ensures loop.written == WrittenValues(n) && loop.counter == CounterAfter(n)
    ensures loop.messages == Reports(loop.written, loop.readbacks)
    ensures port.accesses == old(port.accesses) + BusTrace(addr, WrittenValues(n))
    ensures n == 0 ==> port.latched == old(port.latched)
    ensures n > 0 ==> port.latched == old(port.latched)[addr := (n - 1) % 16]
  {
    loop := new VerificationLoop(port, addr);
    loop.Run(n);
    assert loop.written[0..] == loop.written;
    ConsistentFollowsCounter(loop.counter, loop.written, loop.readbacks, loop.messages, port.fault);
  }

  /** A faithful register returns what was last written to it. */
  method EchoRoundTrip(addr: Addr, value: Word) returns (readBack: Word)
    ensures readBack == value
  {
    var port := new MockPort(_ => None);
    port.Write(addr, value);
    readBack := port.Read(addr);
  }

  /** n iterations against a faithful register: the values 0, 1, ..., 15,
      0, ... are written and nothing is reported. */
  method HealthyRun(addr: Addr, n: nat) returns (written: seq<Word>, messages: seq<string>)
    ensures written == WrittenValues(n)
    ensures messages == []
  {
    var port := new MockPort(_ => None);
    var loop := Firmware(port, addr, n);
    written, messages := loop.written, loop.messages;
    assert loop.readbacks == written;
    NoReportsIffNoMismatch(written, loop.readbacks);
  }

  /** n iterations against a register whose read in iteration k alone is
      corrupted: exactly one line is reported, by iteration k, and the
      counter ends where a healthy run leaves it. */
  method SingleFaultRun(addr: Addr, n: nat, k: nat, bad: Word)
    returns (messages: seq<string>, counter: Counter)
    requires k < n && bad != k % 16
    ensures messages == [READBACK_FAILED]
    ensures counter == n % 16
  {
    var fault: nat -> Option<Word> := j => if j == k then Some(bad) else None;
    var port := new MockPort(fault);
    var loop := Firmware(port, addr, n);
    messages, counter := loop.messages, loop.counter;
    SingleFaultReportsOnce(counter, loop.written, loop.readbacks, messages, fault, k);
  }

  /** n iterations against a register that always answers a value the
      counter never takes: one line per iteration, none suppressed, and the
      counter still advances as in a healthy run. */
  method StuckRun(addr: Addr, n: nat, stuck: Word) returns (messages: seq<string>, counter: Counter)
    requires stuck > COUNTER_MAX
    ensures |messages| == n
    ensures forall m :: m in messages ==> m == READBACK_FAILED
    ensures counter == n % 16
  {
    var port := new MockPort(_ => Some(stuck));
    var loop := Firmware(port, addr, n);
    messages, counter := loop.messages, loop.counter;
    AllMismatchReportsEach(loop.written, loop.readbacks);
  }
}

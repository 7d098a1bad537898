# GPIO readback loop, modelled in Dafny

This project models the firmware of a bring-up diagnostic. The firmware runs
on a soft RISC-V core and exercises one memory-mapped GPIO register exposed by
the FPGA fabric. `main` in `basicRISCV/Firmware/gpio.c` loops forever. Each
iteration does five things:

1. It writes a counter to the register.
2. It reads the same register back.
3. It prints `Error: Readback Failed!` if the value read differs from the counter.
4. It increments the counter, wrapping from 15 to 0.
5. It spins in a `volatile` delay loop of 500000 steps.

There are two modules:

- `LoopSpec` (`loop_spec.dfy`) is the pure part. It holds the wrap-around
  counter (`Next`), the counter after n iterations (`CounterAfter`), the values
  the loop writes (`WrittenValues`), the report rule for one iteration
  (`Report`), and the reports of a whole run (`Reports`, `Mismatches`). Lemmas
  state the period-16 counting and the rule "exactly one message per
  mismatching iteration".
- `GpioLoop` (`gpio_loop.dfy`) is the imperative part. It has a register port
  (`MockPort`, which logs every bus access) and the loop state
  (`VerificationLoop`). `Step` is one
  iteration; its `runDelay` flag runs or stubs out the delay. `Run` is a
  bounded prefix of the endless loop, and `Firmware` is `main` cut off after n
  iterations. The loop invariant `Consistent` is a predicate over the loop's
  state as values, and `ConsistentStep` proves that one iteration keeps it.
  `Continues` relates the state after more iterations to an earlier state,
  including the bus trace (`BusTrace`) and the latched register.

Register words are integers in 0..2^32-1. The counter is an integer in 0..15.
The source declares `counter` as a signed `int`. It is converted to `uint32_t`
where it is written and where it is compared with the value read back. The
model writes that conversion out as `ToWord` (reduction modulo 2^32). On the
counter's range it is the identity, so the comparison is plain equality.

The register port is a mock. Writes latch a value per address. The k-th read
returns `fault(k)` when that is `Some`, and the latched value otherwise. A
fault function that is always `None` gives a faithful register. Other fault
functions corrupt chosen reads, or every read.

## Model

| member | source | states |
|---|---|---|
| LoopSpec.ToWord | basicRISCV/Firmware/gpio.c:9-13 | Converting the int counter to uint32_t leaves any value in 0..2^32-1 unchanged and is otherwise congruent modulo 2^32, so the readback comparison is numeric equality on the counter's range |
| LoopSpec.Next | basicRISCV/Firmware/gpio.c:18-19 | Increment, then reset to 0 once above 15. The result is (c + 1) mod 16, so the counter wraps from 15 to 0, never saturates, and never stays put |
| LoopSpec.CounterAfter | basicRISCV/Firmware/gpio.c:4-19 | Starting from 0 (line 4), the counter after n iterations is n mod 16. The recursive definition, one Next per iteration, is proved against this closed form |
| LoopSpec.WrittenValues | basicRISCV/Firmware/gpio.c:9-19 | n iterations write n values, and the last of them is (n - 1) mod 16 |
| LoopSpec.Report | basicRISCV/Firmware/gpio.c:13-15 | One iteration emits nothing exactly when the readback equals the value written, and otherwise exactly the one diagnostic line |
| LoopSpec.Reports | basicRISCV/Firmware/gpio.c:12-15 | The console of a run, iteration by iteration: at most one line per iteration |
| LoopSpec.WrittenValueAt | basicRISCV/Firmware/gpio.c:9-19 | Iteration k writes the counter as it stands after k iterations, before its own increment |
| LoopSpec.WrittenValuesAreModular | basicRISCV/Firmware/gpio.c:4-19 | The value written in iteration k is k mod 16, so the writes are 0, 1, ..., 15, 0, 1, ... |
| LoopSpec.ModularAreWrittenValues | basicRISCV/Firmware/gpio.c:4-19 | Conversely, a sequence whose k-th value is k mod 16 is exactly what the loop writes in that many iterations |
| LoopSpec.CounterPeriodic | basicRISCV/Firmware/gpio.c:18-19 | Sixteen more iterations bring the counter back to the same value |
| LoopSpec.WrittenValuesPeriodic | basicRISCV/Firmware/gpio.c:4-19 | The written values repeat with period 16 |
| LoopSpec.WrittenValuesStep | basicRISCV/Firmware/gpio.c:18-19 | Consecutive written values go up by one, except that 15 is followed by 0 |
| LoopSpec.WrittenValuesPrefix | basicRISCV/Firmware/gpio.c:7-23 | Running more iterations only extends the written values and never changes earlier ones |
| LoopSpec.ReportsExtend | basicRISCV/Firmware/gpio.c:12-15 | One more iteration appends exactly that iteration's report to everything emitted before |
| LoopSpec.MismatchesExtend | basicRISCV/Firmware/gpio.c:12-15 | The failing iterations of a run are those of its earlier iterations plus the last one exactly when its readback differs |
| LoopSpec.ReportsCountMismatches | basicRISCV/Firmware/gpio.c:12-15 | A run emits exactly as many lines as it has mismatching iterations, and every line is the fixed diagnostic: nothing is aggregated or suppressed |
| LoopSpec.NoReportsIffNoMismatch | basicRISCV/Firmware/gpio.c:12-15 | A run emits nothing if and only if every readback equals the value written |
| LoopSpec.AllMismatchReportsEach | basicRISCV/Firmware/gpio.c:12-15 | A run in which every readback fails emits the diagnostic once per iteration |
| LoopSpec.SingleMismatchReportsOnce | basicRISCV/Firmware/gpio.c:12-15 | A run whose only failed readback is in iteration k emits exactly one line |
| LoopSpec.SingleMismatchReportedByIteration | basicRISCV/Firmware/gpio.c:12-15 | That one line is emitted by iteration k: the iterations before k emit nothing |
| LoopSpec.OneIterationScenarios | basicRISCV/Firmware/gpio.c:9-19 | One iteration from 15 wraps to 0. From 7 with a faithful readback it emits nothing and gives 8. From 3 with readback 99 it emits one line and still gives 4 |
| GpioLoop.MockPort.Write | basicRISCV/Firmware/gpio.c:9 | A write latches the value at its address and is logged as a write access |
| GpioLoop.MockPort.Read | basicRISCV/Firmware/gpio.c:12 | A read returns the latched value unless the fault schedule injects one for this read; it changes no latched value and is logged as a read access |
| GpioLoop.Delay | basicRISCV/Firmware/gpio.c:22 | The spin counts from 0 up to 500000. It has no modifies clause, so it leaves the port, the counter and the console as they were |
| GpioLoop.BusTrace | basicRISCV/Firmware/gpio.c:9-12 | The bus traffic of iterations that wrote given values: two accesses per iteration |
| GpioLoop.BusTraceExtend | basicRISCV/Firmware/gpio.c:9-12 | Each further iteration appends exactly a write of its value and then a read, both to the loop's address |
| GpioLoop.BusTraceAt | basicRISCV/Firmware/gpio.c:9-12 | Access 2k writes the k-th value and access 2k + 1 reads back. The read always uses the same address as the write, and nothing else is accessed |
| GpioLoop.ContinuesRefl | basicRISCV/Firmware/gpio.c:7-23 | Zero further iterations change nothing: the state continues itself |
| GpioLoop.ContinuesStep | basicRISCV/Firmware/gpio.c:9-12 | One more iteration keeps earlier writes and readbacks as a prefix. It extends the bus trace by its write and read, and leaves its value latched at the loop's address, with other registers untouched |
| GpioLoop.EchoRoundTrip | basicRISCV/Firmware/gpio.c:9-12 | With a faithful register, writing a value and reading the same address back returns that value |
| GpioLoop.CountingExtend | basicRISCV/Firmware/gpio.c:9-19 | Writing the counter and advancing it keeps the writes equal to 0, 1, ..., 15, 0, ... and the counter equal to the next value in that sequence |
| GpioLoop.ConsistentStep | basicRISCV/Firmware/gpio.c:9-19 | One iteration keeps the loop invariant. The counter advances to Next whatever was read back, the counter is appended to the writes, and the iteration's report is appended to the console |
| GpioLoop.ConsistentFollowsCounter | basicRISCV/Firmware/gpio.c:4-19 | Under the loop invariant, the values written are WrittenValues of their count and the counter is CounterAfter of it |
| GpioLoop.SingleFaultReportsOnce | basicRISCV/Firmware/gpio.c:12-19 | If only the read of iteration k is corrupted, the console holds exactly one line, and iteration k emitted it |
| GpioLoop.VerificationLoop.constructor | basicRISCV/Firmware/gpio.c:4-5 | Before the first iteration the counter is 0 and nothing has been written, read or emitted |
| GpioLoop.VerificationLoop.Step | basicRISCV/Firmware/gpio.c:9-22 | One iteration. It writes the counter to the fixed address and then reads that same address. The port's access log grows by exactly that write and that read. The register at the address now holds the old counter, and no other register changes. It appends the diagnostic only if the readback differs. The new counter is Next(old counter) whatever was read. None of this depends on whether the delay ran |
| GpioLoop.VerificationLoop.Run | basicRISCV/Firmware/gpio.c:7-23 | n more iterations keep the loop invariant, add n writes and never rewrite earlier readbacks. The port's access log grows by the bus trace of exactly the new writes. After at least one iteration the register holds the last value written; after none it is unchanged |
| GpioLoop.Firmware | basicRISCV/Firmware/gpio.c:3-24 | main cut off after n iterations. It writes WrittenValues(n), ends with counter CounterAfter(n), and its console is Reports of what was written and read. The port saw exactly the write/read pairs of 0, 1, ..., 15, 0, ... at the one address, and the register is left holding (n - 1) mod 16 |
| GpioLoop.HealthyRun | basicRISCV/Firmware/gpio.c:7-23 | Against a faithful register, n iterations write 0, 1, ..., 15, 0, ... and emit nothing |
| GpioLoop.SingleFaultRun | basicRISCV/Firmware/gpio.c:7-23 | Against a register that corrupts only the read of iteration k, exactly one line is emitted and the counter ends at n mod 16, as in a healthy run |
| GpioLoop.StuckRun | basicRISCV/Firmware/gpio.c:7-23 | Against a register stuck at a value above 15, every iteration emits the diagnostic, none is suppressed, and the counter still ends at n mod 16 |

## Left out

- The memory-mapped I/O behind `IO_OUT`, `IO_IN` and `IO_GPIO_ADDR` comes from `io.h`, which is not part of this model. The register is the `MockPort` class, and the address is a parameter of the loop, fixed when it is constructed.
- `printf` is a library call. Emitting the line is modelled as appending the fixed string to `messages`. Delivery to a console is not modelled.
- The delay loop at gpio.c:22 is `Delay`, a spin of 500000 steps over a local variable. Its wall-clock duration and the effect of `volatile` cannot be stated in Dafny. The model keeps only the fact that the delay changes no state of the loop.
- `while (1)` never terminates. The model reasons about finite prefixes: `Run(n)` and `Firmware(port, addr, n)` run n iterations. Divergence itself is not stated.
- The initial value 0 of `read_val` (gpio.c:5) is never observed, because the variable is assigned before it is compared. The model keeps the values read only as the ghost history `readbacks`, which the firmware does not have.
- MockPort.Read: a read of an address never written returns 0. This is the mock's choice. The loop always writes before it reads, so the choice is never exercised.
- Register width: the model assumes that `IO_OUT`/`IO_IN` move a 32-bit word, as the `uint32_t` type of `read_val` suggests. The definition of the macros is not available.
- Signedness of the counter: it only ever holds 0..15, so it could be unsigned. The code declares it `int` (gpio.c:4) and compares it with a `uint32_t`. The model follows the code with the conversion made explicit (`ToWord`), and on 0..15 the two readings agree.

/**
 The pure part of the GPIO readback loop of `main` in gpio.c: the
 wrap-around counter, the values the loop writes over a run, and the rule
 that decides when the loop reports a failed readback. The imperative loop
 in module GpioLoop is proved against these definitions.
 */
module LoopSpec {

  /** Largest value the counter holds; one more wraps it to 0. The counter
      therefore takes COUNTER_MAX + 1 = 16 values, and the contracts below
      state its arithmetic modulo 16. */
  const COUNTER_MAX: int := 15

  /** The register is a 32-bit unsigned word (`uint32_t`). */
  const WORD_MODULUS: int := 0x1_0000_0000

  /** The one diagnostic line the loop ever emits. */
  const READBACK_FAILED: string := "Error: Readback Failed!\n"

  /** Values the counter can hold between iterations. */
  type Counter = c: int | 0 <= c <= COUNTER_MAX

  /** Values a read or write of the register carries. */
  type Word = w: int | 0 <= w < WORD_MODULUS

  /** C's conversion of an `int` to `uint32_t`: reduction modulo 2^32. It is
      applied when the counter is written and when it is compared with the
      value read back. */
  function ToWord(x: int): (w: Word)
    ensures 0 <= x < WORD_MODULUS ==> w == x
    ensures (x - w) % WORD_MODULUS == 0
  {
    x % WORD_MODULUS
  }

  /** The counter after one iteration: incremented, and reset to 0 once it
      exceeds COUNTER_MAX. It is the successor modulo 16, so it wraps rather
      than saturates, and it never stays put. */
  function Next(c: Counter): (n: Counter)
    ensures n == (c + 1) % 16
    ensures n != c
  {
    if c + 1 > COUNTER_MAX then 0 else c + 1
  }

  /** The counter after the first n iterations of `main`, which starts it at
      0: n modulo 16. */
  function CounterAfter(n: nat): (c: Counter)
    ensures c == n % 16
  {
    if n == 0 then 0
    else
      var p := CounterAfter(n - 1);
      assert p == COUNTER_MAX ==> n % 16 == 0;
      assert p < COUNTER_MAX ==> n % 16 == p + 1;
      Next(p)
  }

  /** The values written by the first n iterations: iteration k writes the
      counter as it stands before its own increment. */
  function WrittenValues(n: nat): (t: seq<Counter>)
    ensures |t| == n
    ensures n > 0 ==> t[n - 1] == (n - 1) % 16
  {
    if n == 0 then [] else WrittenValues(n - 1) + [CounterAfter(n - 1)]
  }

  /** What one iteration emits: the diagnostic line exactly when the value
      read back differs from the value written. */
  function Report(wrote: Word, readback: Word): (r: seq<string>)
    ensures r == [] <==> readback == wrote
    ensures r != [] ==> r == [READBACK_FAILED]
  {
    if readback != wrote then [READBACK_FAILED] else []
  }

  /** Everything emitted over a run in which iteration k wrote wrote[k] and
      read back read[k], in iteration order. */
  function Reports(wrote: seq<Word>, read: seq<Word>): (r: seq<string>)
    requires |wrote| == |read|
    ensures |r| <= |wrote|
  {
    if wrote == [] then []
    else
      var n := |wrote| - 1;
      Reports(wrote[..n], read[..n]) + Report(wrote[n], read[n])
  }

  /** The iterations of a run whose readback differs from what they wrote. */
  function Mismatches(wrote: seq<Word>, read: seq<Word>): (m: set<nat>)
    requires |wrote| == |read|
  {
    set k: nat | k < |wrote| && wrote[k] != read[k]
  }

  // ---------------------------------------------------------------------
  // The counter

  /** Iteration k writes the counter as it stands after k iterations. */
  lemma {:induction false} WrittenValueAt(n: nat, k: nat)
    requires k < n
    ensures WrittenValues(n)[k] == CounterAfter(k)
  {
    if k < n - 1 {
      WrittenValueAt(n - 1, k);
    }
  }

  /** The value written in iteration k is k modulo 16: 0, 1, ..., 15, 0, 1, ... */
  lemma WrittenValuesAreModular(n: nat, k: nat)
    requires k < n
    ensures WrittenValues(n)[k] == k % 16
  {
    WrittenValueAt(n, k);
  }

  /** Conversely, a sequence whose k-th value is k modulo 16 is exactly what
      the loop writes in that many iterations. */
  lemma ModularAreWrittenValues(s: seq<Word>)
    requires forall k :: 0 <= k < |s| ==> s[k] == k % 16
    ensures s == WrittenValues(|s|)
  {
    forall k | 0 <= k < |s|
      ensures s[k] == WrittenValues(|s|)[k]
    {
      WrittenValuesAreModular(|s|, k);
    }
  }

  /** Sixteen more iterations bring the counter back to where it was. */
  lemma CounterPeriodic(n: nat)
    ensures CounterAfter(n + 16) == CounterAfter(n)
  {
  }

  /** The written values repeat with period 16. */
  lemma WrittenValuesPeriodic(n: nat, k: nat)
    requires k + 16 < n
    ensures WrittenValues(n)[k + 16] == WrittenValues(n)[k]
  {
    WrittenValueAt(n, k);
    WrittenValueAt(n, k + 16);
    CounterPeriodic(k);
  }

  /** Consecutive written values go up by one, except that 15 is followed by 0. */
  lemma WrittenValuesStep(n: nat, k: nat)
    requires k + 1 < n
    ensures WrittenValues(n)[k] < COUNTER_MAX ==> WrittenValues(n)[k + 1] == WrittenValues(n)[k] + 1
    ensures WrittenValues(n)[k] == COUNTER_MAX ==> WrittenValues(n)[k + 1] == 0
  {
    WrittenValueAt(n, k);
    WrittenValueAt(n, k + 1);
  }

  /** Running more iterations only extends the written values. */
  lemma WrittenValuesPrefix(m: nat, n: nat)
    requires m <= n
    ensures WrittenValues(n)[..m] == WrittenValues(m)
  {
    forall k | 0 <= k < m
      ensures WrittenValues(n)[k] == WrittenValues(m)[k]
    {
      WrittenValueAt(n, k);
      WrittenValueAt(m, k);
    }
  }

  // ---------------------------------------------------------------------
  // The reports

  /** One more iteration appends exactly that iteration's report. */
  lemma ReportsExtend(wrote: seq<Word>, read: seq<Word>, w: Word, r: Word)
    requires |wrote| == |read|
    ensures Reports(wrote + [w], read + [r]) == Reports(wrote, read) + Report(w, r)
  {
    assert (wrote + [w])[..|wrote|] == wrote;
    assert (read + [r])[..|read|] == read;
  }

  /** The mismatches of a run are those of its first n iterations plus,
      when it failed, the last iteration n. */
  lemma MismatchesExtend(wrote: seq<Word>, read: seq<Word>)
    requires |wrote| == |read| && wrote != []
    ensures var n := |wrote| - 1;
      var earlier := Mismatches(wrote[..n], read[..n]);
      n !in earlier &&
      Mismatches(wrote, read) == earlier + (if wrote[n] != read[n] then {n} else {})
  {
    var n := |wrote| - 1;
    var w, r := wrote[..n], read[..n];
    forall k: nat | k < n
      ensures k in Mismatches(wrote, read) <==> k in Mismatches(w, r)
    {
      assert w[k] == wrote[k] && r[k] == read[k];
    }
  }

  /** Exactly one report per mismatching iteration: nothing is aggregated or
      suppressed, and every report is the fixed diagnostic line. */
  lemma {:induction false} ReportsCountMismatches(wrote: seq<Word>, read: seq<Word>)
    requires |wrote| == |read|
    ensures |Reports(wrote, read)| == |Mismatches(wrote, read)|
    ensures forall m :: m in Reports(wrote, read) ==> m == READBACK_FAILED
  {
    if wrote == [] {
      assert Mismatches(wrote, read) == {};
    } else {
      var n := |wrote| - 1;
      var w, r := wrote[..n], read[..n];
      ReportsCountMismatches(w, r);
      MismatchesExtend(wrote, read);
      var earlier := Mismatches(w, r);
      if wrote[n] != read[n] {
        assert |Mismatches(wrote, read)| == |earlier| + 1;
      } else {
        assert |Mismatches(wrote, read)| == |earlier|;
      }
    }
  }

  /** A run reports nothing if and only if every readback matched. */
  lemma NoReportsIffNoMismatch(wrote: seq<Word>, read: seq<Word>)
    requires |wrote| == |read|
    ensures Reports(wrote, read) == [] <==> wrote == read
  {
    ReportsCountMismatches(wrote, read);
    if wrote == read {
      assert Mismatches(wrote, read) == {};
    } else {
      var k :| 0 <= k < |wrote| && wrote[k] != read[k];
      assert k in Mismatches(wrote, read);
    }
  }

  /** A run in which every readback failed reports once per iteration. */
  lemma {:induction false} AllMismatchReportsEach(wrote: seq<Word>, read: seq<Word>)
    requires |wrote| == |read|
    requires forall k :: 0 <= k < |wrote| ==> wrote[k] != read[k]
    ensures Reports(wrote, read) == seq(|wrote|, _ => READBACK_FAILED)
  {
    if wrote != [] {
      var n := |wrote| - 1;
      AllMismatchReportsEach(wrote[..n], read[..n]);
    }
  }

  /** A run whose only failed readback is in iteration k reports exactly one
      line. */
  lemma SingleMismatchReportsOnce(wrote: seq<Word>, read: seq<Word>, k: nat)
    requires |wrote| == |read| && k < |wrote|
    requires wrote[k] != read[k]
    requires forall j :: 0 <= j < |wrote| && j != k ==> wrote[j] == read[j]
    ensures Reports(wrote, read) == [READBACK_FAILED]
  {
    ReportsCountMismatches(wrote, read);
    assert Mismatches(wrote, read) == {k};
    var all := Reports(wrote, read);
    assert |all| == 1 && all[0] in all;
  }

  /** ... and that line is emitted by iteration k: the iterations before k
      report nothing, iteration k reports it. */
  lemma SingleMismatchReportedByIteration(wrote: seq<Word>, read: seq<Word>, k: nat)
    requires |wrote| == |read| && k < |wrote|
    requires wrote[k] != read[k]
    requires forall j :: 0 <= j < |wrote| && j != k ==> wrote[j] == read[j]
    ensures Reports(wrote[..k], read[..k]) == []
    ensures Reports(wrote[..k + 1], read[..k + 1]) == [READBACK_FAILED]
  {
    NoReportsIffNoMismatch(wrote[..k], read[..k]);
    assert wrote[..k + 1] == wrote[..k] + [wrote[k]];
    assert read[..k + 1] == read[..k] + [read[k]];
    ReportsExtend(wrote[..k], read[..k], wrote[k], read[k]);
  }

  // ---------------------------------------------------------------------
  // One iteration from a given counter

  /** Counter 15: the iteration writes 15 and wraps the counter to 0.
      Counter 7 with a faithful register: writes 7, reports nothing, counter 8.
      Counter 3 with a register that answers 99: one report, counter 4. */
  lemma OneIterationScenarios()
    ensures Next(COUNTER_MAX) == 0
    ensures Report(7, 7) == [] && Next(7) == 8
    ensures Report(3, 99) == [READBACK_FAILED] && Next(3) == 4
  {
  }
}

/** Busy-waiting on the ACPI power-management timer, whose counter wraps at 24 or 32 bits. */
module AcpiTimer {
  import opened Words

  const CLOCK := 3_579_545

  function Period(wide: bool): nat { if wide then TWO_32 else 0x100_0000 }

  /** The hardware counter at true time t. */
  function Reading(t: nat, wide: bool): u32 { t % Period(wide) }

  /** What one loop iteration adds for two successive readings. */
  function Delta(last: u32, current: u32, wide: bool): int {
    var a: int := current;
    if a < last then Period(wide) + a - last else a - last
  }

  /** The addition is the true time passed exactly when less than a period passed. */
  lemma DeltaExactIff(t: nat, u: nat, wide: bool)
    requires t <= u
    ensures Delta(Reading(t, wide), Reading(u, wide), wide) == u - t
            <==> u - t < if wide then 0x1_0000_0000 else 0x100_0000
  {
    var p := Period(wide);
    var a, b := t / p, u / p;
    assert t == p * a + t % p && u == p * b + u % p;
    QuotientGap(t, u, wide);
  }

  /** It is never more than the true time passed. */
  lemma DeltaAtMost(t: nat, u: nat, wide: bool)
    requires t <= u
    ensures 0 <= Delta(Reading(t, wide), Reading(u, wide), wide) <= u - t
  {
    QuotientGap(t, u, wide);
    if u / Period(wide) >= t / Period(wide) + 2 {
      assert Delta(Reading(t, wide), Reading(u, wide), wide) <= Period(wide);
    }
  }

  lemma QuotientGap(t: nat, u: nat, wide: bool)
    requires t <= u
    ensures var p := Period(wide);
            && (u - t < p ==> u / p == t / p || u / p == t / p + 1)
            && (u / p == t / p ==> u - t == u % p - t % p)
            && (u / p == t / p + 1 ==> u - t == p + u % p - t % p)
            && (u / p >= t / p + 2 ==> u - t >= p)
  {
    if wide {
      var a, b := t / TWO_32, u / TWO_32;
      assert t == TWO_32 * a + t % TWO_32 && u == TWO_32 * b + u % TWO_32;
    } else {
      var a, b := t / 0x100_0000, u / 0x100_0000;
      assert t == 0x100_0000 * a + t % 0x100_0000 && u == 0x100_0000 * b + u % 0x100_0000;
    }
  }

  /** The tick count waited for: the product is taken in 64 bits. */
  function WaitTicks(microseconds: u64): u64 { Wrap64(CLOCK * microseconds) / 1_000_000 }

  /** It is the duration in ticks of 3.579545 MHz, rounded down, exactly when the product does not wrap. */
  lemma WaitTicksIff(microseconds: u64)
    ensures WaitTicks(microseconds) == 3_579_545 * microseconds / 1_000_000
            <==> 3_579_545 * microseconds < 0x1_0000_0000_0000_0000
  {
    var x := CLOCK * microseconds;
    if x >= TWO_64 {
      assert Wrap64(x) <= x - TWO_64;
      DivideApart(Wrap64(x), x);
    }
  }

  lemma DivideApart(a: nat, b: nat)
    requires a + 1_000_000 <= b
    ensures a / 1_000_000 < b / 1_000_000
  {
  }

  ghost predicate Ascending(times: seq<nat>) { forall i | 0 <= i < |times| - 1 :: times[i] <= times[i + 1] }

  /** The loop reads the counter at least once in every period. */
  ghost predicate Sampled(times: seq<nat>, wide: bool) {
    forall i | 0 <= i < |times| - 1 :: times[i] <= times[i + 1] && times[i + 1] - times[i] < Period(wide)
  }

  /** Where the wait ends: the first reading at which enough ticks have passed; None while
      the listed readings are not enough. */
  datatype Wait = Finished(count: nat) | StillWaiting

  /** SleepMicroseconds, against the readings the hardware gives at the listed true times. However
      far apart the readings are, the wait never ends early. When less than a period lies between
      any two, the counter is the true time passed at every reading, so the wait is over at the first
      reading that is late enough and overshoots by less than the last sampling gap. */
  method SleepMicroseconds(microseconds: u64, wide: bool, times: seq<nat>) returns (w: Wait)
    requires times != [] && Ascending(times)
    ensures w.Finished? ==> w.count < |times| && times[w.count] >= times[0] + WaitTicks(microseconds)
    ensures Sampled(times, wide) && w.Finished? ==>
              && (forall i | 0 <= i < w.count :: times[i] < times[0] + WaitTicks(microseconds))
              && (w.count > 0 ==>
                    var gap := times[w.count] - times[w.count - 1];
                    times[w.count] < times[0] + WaitTicks(microseconds) + gap && gap < Period(wide))
    ensures (forall i | 0 <= i < |times| :: times[i] < times[0] + WaitTicks(microseconds)) ==> w == StillWaiting
    ensures Sampled(times, wide) && w == StillWaiting ==>
              forall i | 0 <= i < |times| :: times[i] < times[0] + WaitTicks(microseconds)
  {
    hide WaitTicks, Reading, Delta;
    var clock := WaitTicks(microseconds);
    var last := Reading(times[0], wide);
    var counter: int := 0;
    var k := 0;
    while counter < clock
      invariant k < |times| && last == Reading(times[k], wide)
      invariant 0 <= counter && counter + times[0] <= times[k]
      invariant Sampled(times, wide) ==> counter + times[0] == times[k]
      invariant Sampled(times, wide) ==> forall i | 0 <= i < k :: times[i] < times[0] + clock
      decreases |times| - k
    {
      if k + 1 == |times| {
        return StillWaiting;
      }
      var current := Reading(times[k + 1], wide);
      assert times[k] <= times[k + 1];
      DeltaAtMost(times[k], times[k + 1], wide);
      DeltaExactIff(times[k], times[k + 1], wide);
      counter := counter + Delta(last, current, wide);
      last := current;
      k := k + 1;
    }
    return Finished(k);
  }

  /** The 64-bit accumulator cannot wrap: it stays below the target plus one period. */
  lemma CounterFits(microseconds: u64, wide: bool, counter: nat, gap: nat)
    requires counter < WaitTicks(microseconds) && gap < Period(wide)
    ensures counter + gap < TWO_64
  {
  }
}

/** The sleep call: a loop around a countdown timer that counts in whole ticks per millisecond. */
module Sleeping {
  /** The clock reading in milliseconds. */
  function Millis(ticks: nat, freq: nat): nat
    requires freq > 0
  {
    ticks * 1000 / freq
  }

  /** The ticks the timer is set to for `ms` milliseconds. */
  function Countdown(ms: nat, freq: nat): nat {
    freq / 1000 * ms
  }

  function Left(deadline: nat, ticks: nat, freq: nat): nat
    requires freq > 0
  {
    if Millis(ticks, freq) < deadline then deadline - Millis(ticks, freq) else 0
  }

  /** The time still to pass, in units of a thousandth tick; not rounded, unlike the reading. */
  function Remaining(deadline: nat, ticks: nat, freq: nat): int {
    deadline * freq - ticks * 1000
  }

  lemma ReadingBounds(ticks: nat, freq: nat)
    requires freq > 0
    ensures Millis(ticks, freq) * freq <= ticks * 1000 < Millis(ticks, freq) * freq + freq
  {
    assert ticks * 1000 == Millis(ticks, freq) * freq + ticks * 1000 % freq;
  }

  /** The loop goes on exactly while time remains. */
  lemma GoesOn(deadline: nat, ticks: nat, freq: nat)
    requires freq > 0
    ensures Left(deadline, ticks, freq) > 0 <==> Remaining(deadline, ticks, freq) > 0
  {
    ReadingBounds(ticks, freq);
    var ms := Millis(ticks, freq);
    if ms < deadline { Scale(ms + 1, deadline, freq); } else { Scale(deadline, ms, freq); }
  }

  lemma Scale(x: nat, y: nat, k: nat)
    requires x <= y
    ensures x * k <= y * k
  {}

  /** What is left, in ticks, covers the remaining time. */
  lemma LeftCovers(deadline: nat, ticks: nat, freq: nat)
    requires freq > 0 && Left(deadline, ticks, freq) > 0
    ensures (var left := Left(deadline, ticks, freq);
             && left * freq >= Remaining(deadline, ticks, freq)
             && ticks * 1000 + left * freq < deadline * freq + freq)
  {
    ReadingBounds(ticks, freq);
    assert Left(deadline, ticks, freq) * freq == deadline * freq - Millis(ticks, freq) * freq;
  }

  /** The timer never runs for longer than what is left; with 1000 ticks a second or more, for more than half of it. */
  lemma CountdownBounds(left: nat, freq: nat)
    requires left > 0
    ensures Countdown(left, freq) * 1000 <= left * freq
    ensures freq % 1000 == 0 ==> Countdown(left, freq) * 1000 == left * freq
    ensures freq >= 1000 ==> left * freq < 2 * (Countdown(left, freq) * 1000)
  {
    TicksParts(left, freq / 1000, freq % 1000);
  }

  lemma TicksParts(left: nat, a: nat, b: nat)
    requires left > 0 && b < 1000
    ensures left * (1000 * a + b) == a * left * 1000 + left * b
    ensures 0 <= left * b < left * 1000
    ensures a >= 1 ==> left * 1000 <= a * left * 1000
  {
    assert a >= 1 ==> left <= a * left;
  }

  lemma ReadingAtMost(ticks: nat, freq: nat, ms: nat)
    requires freq > 0 && ticks * 1000 < ms * freq + freq
    ensures Millis(ticks, freq) <= ms
  {
    ReadingBounds(ticks, freq);
    var m := Millis(ticks, freq);
    assert m > ms ==> m * freq >= (ms + 1) * freq;
  }

  lemma ReadingAtLeast(ticks: nat, freq: nat, ms: nat)
    requires freq > 0 && ms * freq <= ticks * 1000
    ensures ms <= Millis(ticks, freq)
  {
    ReadingBounds(ticks, freq);
    var m := Millis(ticks, freq);
    assert m < ms ==> (m + 1) * freq <= ms * freq;
  }

  /** When the timer fires on time, the reading has not passed the deadline. */
  lemma WakesInTime(deadline: nat, ticks: nat, freq: nat)
    requires freq > 0 && Left(deadline, ticks, freq) > 0
    ensures (var wake := ticks + Countdown(Left(deadline, ticks, freq), freq);
             && Millis(wake, freq) <= deadline
             && (freq % 1000 == 0 ==> Millis(wake, freq) == deadline))
  {
    var left := Left(deadline, ticks, freq);
    var wake := ticks + Countdown(left, freq);
    LeftCovers(deadline, ticks, freq);
    CountdownBounds(left, freq);
    ReadingAtMost(wake, freq, deadline);
    if freq % 1000 == 0 { ReadingAtLeast(wake, freq, deadline); }
  }

  /** However late it fires, more than half of the remaining time is over then. */
  lemma RemainingHalves(deadline: nat, ticks: nat, freq: nat, wake: nat)
    requires freq >= 1000 && Left(deadline, ticks, freq) > 0
    requires wake >= ticks + Countdown(Left(deadline, ticks, freq), freq)
    ensures 2 * Remaining(deadline, wake, freq) < Remaining(deadline, ticks, freq)
  {
    LeftCovers(deadline, ticks, freq);
    CountdownBounds(Left(deadline, ticks, freq), freq);
  }

  /** On time or not at all: below 1000 ticks a second the timer is set to nothing and the loop stands still. */
  lemma HalvesIff(deadline: nat, ticks: nat, freq: nat)
    requires freq > 0 && Left(deadline, ticks, freq) > 0
    ensures (var wake := ticks + Countdown(Left(deadline, ticks, freq), freq);
             2 * Remaining(deadline, wake, freq) < Remaining(deadline, ticks, freq) <==> freq >= 1000)
  {
    if freq >= 1000 {
      RemainingHalves(deadline, ticks, freq, ticks + Countdown(Left(deadline, ticks, freq), freq));
    } else {
      GoesOn(deadline, ticks, freq);
    }
  }

  /** The number of binary digits. */
  function Bits(m: int): nat
    decreases if m > 0 then m else 0
  {
    if m <= 0 then 0 else 1 + Bits(m / 2)
  }

  lemma {:induction false} BitsGrow(m: int, n: int)
    requires m <= n
    ensures Bits(m) <= Bits(n)
    decreases if n > 0 then n else 0
  {
    if m > 0 { BitsGrow(m / 2, n / 2); }
  }

  lemma FewerBits(m: int, n: int)
    requires 2 * m < n && n > 0
    ensures Bits(m) < Bits(n)
  {
    BitsGrow(m, n / 2);
  }

  predicate Overflows(ticks: nat) {
    ticks * 1000 >= 0x1_0000_0000_0000_0000
  }

  ghost predicate OnTime(delays: nat -> nat) {
    forall k: nat :: delays(k) == 0
  }

  /** Where the loop stands: the rounds left over are enough, it has not overslept if every wake-up
      came on time, and a clock of whole ticks per millisecond needs one round. */
  ghost predicate InRound(deadline: nat, freq: nat, delays: nat -> nat, start: nat, limit: nat, ticks: nat, rounds: nat)
    requires freq > 0
  {
    && start <= rounds && rounds + Bits(Remaining(deadline, ticks, freq)) <= limit
    && (OnTime(delays) ==> Millis(ticks, freq) <= deadline)
    && (freq % 1000 == 0 && rounds > start ==> rounds == start + 1 && Millis(ticks, freq) >= deadline)
  }

  lemma LaterReading(ticks: nat, later: nat, freq: nat)
    requires freq > 0 && ticks <= later
    ensures Millis(ticks, freq) <= Millis(later, freq)
  {
    ReadingBounds(ticks, freq);
    ReadingAtLeast(later, freq, Millis(ticks, freq));
  }

  lemma RoundKeeps(deadline: nat, freq: nat, delays: nat -> nat, start: nat, limit: nat, ticks: nat, rounds: nat)
    requires freq >= 1000 && InRound(deadline, freq, delays, start, limit, ticks, rounds)
             && Left(deadline, ticks, freq) > 0
    ensures (var wake := ticks + Countdown(Left(deadline, ticks, freq), freq) + delays(rounds);
             && InRound(deadline, freq, delays, start, limit, wake, rounds + 1)
             && Bits(Remaining(deadline, wake, freq)) < Bits(Remaining(deadline, ticks, freq)))
  {
    var due := ticks + Countdown(Left(deadline, ticks, freq), freq);
    var wake := due + delays(rounds);
    WakesInTime(deadline, ticks, freq);
    LaterReading(due, wake, freq);
    GoesOn(deadline, ticks, freq);
    RemainingHalves(deadline, ticks, freq, wake);
    FewerBits(Remaining(deadline, wake, freq), Remaining(deadline, ticks, freq));
  }

  /** The timer register holds 31 bits of countdown. */
  const TIMER_LIMIT: nat := 0x8000_0000

  /** What is left is never more than what was asked for, so a countdown that fits at first fits in every round. */
  lemma LeftFits(start: nat, ticks: nat, freq: nat, ms: nat)
    requires freq > 0 && start <= ticks
    ensures (var left := Left(Millis(start, freq) + ms, ticks, freq);
             left <= ms && Countdown(left, freq) <= Countdown(ms, freq))
  {
    LaterReading(start, ticks, freq);
    Scale(Left(Millis(start, freq) + ms, ticks, freq), ms, freq / 1000);
  }

  /** The counter and its timer. Every wake-up comes when the timer fires or later, how much later is
      up to `delays`. */
  class Clock {
    const freq: nat
    const delays: nat -> nat
    var ticks: nat
    /** How often the timer has been set. */
    var rounds: nat

    constructor (freq: nat, delays: nat -> nat, ticks: nat)
      ensures this.freq == freq && this.delays == delays && this.ticks == ticks && rounds == 0
    {
      this.freq, this.delays, this.ticks, rounds := freq, delays, ticks, 0;
    }

    /** Sets the timer and waits for it. */
    method Wait(ms: nat)
      requires Countdown(ms, freq) < TIMER_LIMIT
      modifies this
      ensures rounds == old(rounds) + 1
      ensures ticks == old(ticks) + Countdown(ms, freq) + delays(old(rounds))
    {
      ticks := ticks + freq / 1000 * ms + delays(rounds);
      rounds := rounds + 1;
    }

    /** Sleeps for `sec` seconds. Answers false when a reading overflows 64 bits. */
    method SleepSec(sec: nat) returns (done: bool)
      requires freq >= 1000 && Countdown(sec * 1000, freq) < TIMER_LIMIT
      modifies this
      ensures !done ==> Overflows(ticks)
      ensures done ==> Millis(ticks, freq) >= Millis(old(ticks), freq) + sec * 1000
      ensures done && OnTime(delays) ==> Millis(ticks, freq) == Millis(old(ticks), freq) + sec * 1000
      ensures rounds <= old(rounds) + Bits(Remaining(Millis(old(ticks), freq) + sec * 1000, old(ticks), freq))
      ensures done && sec > 0 && freq % 1000 == 0 ==> rounds == old(rounds) + 1
    {
      if Overflows(ticks) {
        return false;
      }
      var deadline := Millis(ticks, freq) + sec * 1000;
      ghost var start := rounds;
      ghost var limit := rounds + Bits(Remaining(deadline, ticks, freq));
      while true
        invariant InRound(deadline, freq, delays, start, limit, ticks, rounds)
        invariant ticks >= old(ticks) && (rounds == start ==> ticks == old(ticks))
        decreases Bits(Remaining(deadline, ticks, freq))
      {
        if Overflows(ticks) {
          return false;
        }
        var left := Left(deadline, ticks, freq);
        if left == 0 {
          return true;
        }
        RoundKeeps(deadline, freq, delays, start, limit, ticks, rounds);
        LeftFits(old(ticks), ticks, freq, sec * 1000);
        Wait(left);
      }
    }
  }
}

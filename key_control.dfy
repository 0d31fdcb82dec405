/**
 * The console controls of the tick loop: the key switch over the pause flag
 * and the real-time delay per tick, and the display refresh cadence.
 */
module KeyControl {

  const MicrosPerSecond: nat := 1000000

  /** The `pause` flag of `run` and `_real_microseconds_per_tick`. */
  datatype Controls = Controls(paused: bool, delay: nat)

  /** `getch()` codes: 'p' and 'P' toggle the pause, '+' halves the delay, '-' doubles it. */
  predicate IsToggle(key: int) {
    key == 'p' as int || key == 'P' as int
  }

  const SpeedUpKey: int := '+' as int
  const SlowDownKey: int := '-' as int

  /** The `switch(key)` of one loop iteration; any other code (including "no key") has no effect. */
  function ApplyKey(c: Controls, key: int): (r: Controls)
    ensures IsToggle(key) ==> r.paused != c.paused && r.delay == c.delay
    ensures key == SpeedUpKey ==> r.paused == c.paused && 2 * r.delay <= c.delay <= 2 * r.delay + 1
    ensures key == SlowDownKey ==> r.paused == c.paused && r.delay == 2 * c.delay
    ensures !IsToggle(key) && key != SpeedUpKey && key != SlowDownKey ==> r == c
  {
    if IsToggle(key) then c.(paused := !c.paused)
    else if key == SpeedUpKey then c.(delay := c.delay / 2)
    else if key == SlowDownKey then c.(delay := c.delay * 2)
    else c
  }

  /** The controls after handling `keys` in order. */
  function ApplyKeys(c: Controls, keys: seq<int>): Controls
    decreases |keys|
  {
    if keys == [] then c
    else ApplyKey(ApplyKeys(c, keys[..|keys| - 1]), keys[|keys| - 1])
  }

  /** The number of pause-toggle keys. */
  function Toggles(keys: seq<int>): nat
    decreases |keys|
  {
    if keys == [] then 0
    else Toggles(keys[..|keys| - 1]) + (if IsToggle(keys[|keys| - 1]) then 1 else 0)
  }

  /** The pause state after a run of keys depends only on how many of them toggle it. */
  lemma {:induction false} PauseParity(c: Controls, keys: seq<int>)
    ensures ApplyKeys(c, keys).paused == (c.paused != (Toggles(keys) % 2 == 1))
    decreases |keys|
  {
    if keys != [] {
      PauseParity(c, keys[..|keys| - 1]);
    }
  }

  /** The delay after a run of keys does not depend on the pause state. */
  lemma {:induction false} DelayIgnoresPause(c: Controls, paused: bool, keys: seq<int>)
    ensures ApplyKeys(c, keys).delay == ApplyKeys(c.(paused := paused), keys).delay
    decreases |keys|
  {
    if keys != [] {
      DelayIgnoresPause(c, paused, keys[..|keys| - 1]);
    }
  }

  /** Two presses of the pause key restore the pause state. */
  lemma ToggleTwice(c: Controls, k1: int, k2: int)
    requires IsToggle(k1) && IsToggle(k2)
    ensures ApplyKey(ApplyKey(c, k1), k2) == c
  {
  }

  /** '-' then '+' restores the delay. */
  lemma SlowDownThenSpeedUp(c: Controls)
    ensures ApplyKey(ApplyKey(c, SlowDownKey), SpeedUpKey) == c
  {
  }

  /** '+' then '-' restores the delay exactly when it was even: halving truncates. */
  lemma SpeedUpThenSlowDown(c: Controls)
    ensures ApplyKey(ApplyKey(c, SpeedUpKey), SlowDownKey) == c <==> c.delay % 2 == 0
  {
  }

  /**
   * The keys leave the range where the refresh condition is defined: `+` from
   * a delay of 1 gives 0, and `-` from any delay above half a second gives one
   * above a second, where the refresh period would be 0.
   */
  lemma DelayLeavesRange(c: Controls)
    ensures ApplyKey(c, SpeedUpKey).delay == 0 <==> c.delay <= 1
    ensures ApplyKey(c, SlowDownKey).delay > MicrosPerSecond <==> c.delay > MicrosPerSecond / 2
    ensures c.delay > MicrosPerSecond / 2 ==> MicrosPerSecond / ApplyKey(c, SlowDownKey).delay == 0
  {
  }

  /** The whole ticks per second at a given delay; this is the refresh period. */
  function TicksPerSecond(delay: nat): (n: nat)
    requires 0 < delay <= MicrosPerSecond
    ensures 0 < n <= MicrosPerSecond
    ensures n * delay <= MicrosPerSecond < (n + 1) * delay
  {
    MicrosPerSecond / delay
  }

  /**
   * The refresh condition `_time_counter % ticks_per_second == 0`. Outside
   * `0 < delay <= 1000000` the source divides or takes a remainder by zero.
   * Within the first period it holds only at the start.
   */
  predicate DisplayDue(counter: nat, delay: nat)
    requires 0 < delay <= MicrosPerSecond
    ensures counter < TicksPerSecond(delay) ==> (DisplayDue(counter, delay) <==> counter == 0)
  {
    var n := TicksPerSecond(delay);
    FirstMultiple(counter, n);
    counter % n == 0
  }

  /** The refresh condition recurs one period later. */
  lemma DisplayPeriodic(counter: nat, delay: nat)
    requires 0 < delay <= MicrosPerSecond
    ensures DisplayDue(counter + TicksPerSecond(delay), delay) <==> DisplayDue(counter, delay)
  {
    ShiftRemainder(counter, TicksPerSecond(delay));
  }

  /** Helper arithmetic: a factor of a positive product with a positive factor is positive. */
  lemma PositiveFactor(a: int, n: int)
    requires n > 0 && a * n > 0
    ensures a > 0
  {
  }

  /** Helper arithmetic: a multiple of `n` leaves no remainder. */
  lemma MultipleHasNoRemainder(y: nat, n: nat)
    requires n > 0
    ensures (y * n) % n == 0
  {
    var z := y * n;
    assert z == (z / n) * n + z % n;
    assert (y - z / n + 1) * n == z % n + n;
    PositiveFactor(y - z / n + 1, n);
    assert (z / n - y + 1) * n == n - z % n;
    PositiveFactor(z / n - y + 1, n);
  }

  /** Helper arithmetic: two multiples of `n` less than `n` apart are equal. */
  lemma CloseMultiplesEqual(x: nat, y: nat, n: nat)
    requires n > 0 && x % n == 0 && y % n == 0 && x <= y < x + n
    ensures x == y
  {
    var a, b := x / n, y / n;
    assert x == a * n && y == b * n;
    assert (b - a + 1) * n == y - x + n;
    PositiveFactor(b - a + 1, n);
    assert (a - b + 1) * n == n - (y - x);
    PositiveFactor(a - b + 1, n);
  }

  /** Helper arithmetic: below `n` only 0 is a multiple of `n`. */
  lemma FirstMultiple(c: nat, n: nat)
    requires n > 0
    ensures c < n ==> (c % n == 0 <==> c == 0)
  {
    if c < n && c % n == 0 {
      CloseMultiplesEqual(0, c, n);
    }
  }

  /** Helper arithmetic: adding `n` keeps the remainder by `n`. */
  lemma ShiftRemainder(c: nat, n: nat)
    requires n > 0
    ensures (c + n) % n == c % n
  {
    var q, r := c / n, c % n;
    var q2, r2 := (c + n) / n, (c + n) % n;
    assert c == q * n + r && c + n == q2 * n + r2;
    assert (q2 - q) * n == n + r - r2;
    PositiveFactor(q2 - q, n);
    assert (q - q2 + 2) * n == n + r2 - r;
    PositiveFactor(q - q2 + 2, n);
    assert q2 - q == 1;
  }

  /** Helper arithmetic: exactly one multiple of `n` lies in `[c, c + n)`, at `c + k`. */
  lemma OneMultipleInWindow(c: nat, n: nat) returns (k: nat)
    requires n > 0
    ensures k < n && (c + k) % n == 0
    ensures forall x: nat | c <= x < c + n && x % n == 0 :: x == c + k
  {
    var q, r := c / n, c % n;
    assert c == q * n + r;
    if r == 0 {
      k := 0;
    } else {
      k := n - r;
      assert c + k == (q + 1) * n;
      MultipleHasNoRemainder(q + 1, n);
    }
    forall x: nat | c <= x < c + n && x % n == 0
      ensures x == c + k
    {
      if x <= c + k {
        CloseMultiplesEqual(x, c + k, n);
      } else {
        CloseMultiplesEqual(c + k, x, n);
      }
    }
  }

  /** When a tick takes more than half a second the display refreshes on every iteration. */
  lemma DisplayEveryIterationWhenSlow(counter: nat, delay: nat)
    requires MicrosPerSecond / 2 < delay <= MicrosPerSecond
    ensures DisplayDue(counter, delay)
  {
    var n := TicksPerSecond(delay);
    assert (2 - n) * delay == 2 * delay - n * delay;
    PositiveFactor(2 - n, delay);
  }
}

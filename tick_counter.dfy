/**
 * The tick counter of the `run` loop: `_time_counter` advances once per
 * iteration that is not paused, in `unsigned int` arithmetic, and the value
 * before each increment is the tick published in that iteration.
 */
module TickCounter {
  import opened KeyControl

  /** `_time_counter` is an `unsigned int`, so `_time_counter++` wraps at 2^32. */
  const CounterModulus: nat := 0x1_0000_0000

  /** The `unsigned int` value of a mathematical count. */
  function Wrap(n: nat): nat {
    n % CounterModulus
  }

  /** `_time_counter++`. */
  function Increment(counter: nat): (r: nat)
    ensures r < CounterModulus
    ensures counter + 1 < CounterModulus ==> r == counter + 1
    ensures counter == CounterModulus - 1 ==> r == 0
  {
    Wrap(counter + 1)
  }

  /** The counter after one iteration per key, starting from `counter` and the controls `c`. */
  function CounterAfter(counter: nat, c: Controls, keys: seq<int>): nat
    decreases |keys|
  {
    if keys == [] then counter
    else
      var before := CounterAfter(counter, c, keys[..|keys| - 1]);
      if ApplyKeys(c, keys).paused then before else Increment(before)
  }

  /** The counter values published, one per iteration that is not paused, in order. */
  function Ticks(counter: nat, c: Controls, keys: seq<int>): seq<nat>
    decreases |keys|
  {
    if keys == [] then []
    else
      var front := keys[..|keys| - 1];
      Ticks(counter, c, front) + (if ApplyKeys(c, keys).paused then [] else [CounterAfter(counter, c, front)])
  }

  /** `ticks` counts up from `first` in `unsigned int` arithmetic. */
  predicate CountsUpFrom(ticks: seq<nat>, first: nat) {
    forall j | 0 <= j < |ticks| :: ticks[j] == Wrap(first + j)
  }

  /** Helper arithmetic: incrementing commutes with the wrap-around. */
  lemma WrapSucc(b: nat)
    ensures Increment(Wrap(b)) == Wrap(b + 1)
  {
  }

  /** A counter below 2^32 is its own `unsigned int` value. */
  lemma WrapSmall(n: nat)
    requires n < CounterModulus
    ensures Wrap(n) == n
  {
  }

  /** The counter has advanced once per published tick. */
  lemma {:induction false} CounterCountsTicks(counter: nat, c: Controls, keys: seq<int>)
    requires counter < CounterModulus
    ensures CounterAfter(counter, c, keys) == Wrap(counter + |Ticks(counter, c, keys)|)
    decreases |keys|
  {
    if keys == [] {
      WrapSmall(counter);
    } else {
      var front := keys[..|keys| - 1];
      CounterCountsTicks(counter, c, front);
      WrapSucc(counter + |Ticks(counter, c, front)|);
    }
  }

  /** The published ticks are consecutive counter values starting at the initial counter. */
  lemma {:induction false} TicksConsecutive(counter: nat, c: Controls, keys: seq<int>)
    requires counter < CounterModulus
    ensures CountsUpFrom(Ticks(counter, c, keys), counter)
    decreases |keys|
  {
    if keys != [] {
      var front := keys[..|keys| - 1];
      TicksConsecutive(counter, c, front);
      CounterCountsTicks(counter, c, front);
      var t := Ticks(counter, c, front);
      assert forall j | 0 <= j < |t| :: t[j] == Wrap(counter + j);
    }
  }

  /** While paused and no toggle key arrives, nothing is published and the counter stays. */
  lemma {:induction false} PausedWithoutToggles(counter: nat, c: Controls, keys: seq<int>)
    requires c.paused && Toggles(keys) == 0
    ensures ApplyKeys(c, keys).paused
    ensures Ticks(counter, c, keys) == [] && CounterAfter(counter, c, keys) == counter
    decreases |keys|
  {
    if keys != [] {
      PausedWithoutToggles(counter, c, keys[..|keys| - 1]);
    }
  }

  /** Without toggle keys an unpaused run publishes on every iteration. */
  lemma {:induction false} PlayingWithoutToggles(counter: nat, c: Controls, keys: seq<int>)
    requires !c.paused && Toggles(keys) == 0
    ensures !ApplyKeys(c, keys).paused
    ensures |Ticks(counter, c, keys)| == |keys|
    decreases |keys|
  {
    if keys != [] {
      PlayingWithoutToggles(counter, c, keys[..|keys| - 1]);
    }
  }

  /**
   * Between refreshes pass exactly `TicksPerSecond(delay)` consecutive counter
   * values: any window of that many values below 2^32 holds exactly one refresh.
   */
  lemma DisplayOncePerSecond(counter: nat, delay: nat) returns (k: nat)
    requires 0 < delay <= MicrosPerSecond
    requires counter + TicksPerSecond(delay) <= CounterModulus
    ensures k < TicksPerSecond(delay) && DisplayDue(counter + k, delay)
    ensures forall c: nat | counter <= c < counter + TicksPerSecond(delay) && DisplayDue(c, delay) :: c == counter + k
  {
    k := OneMultipleInWindow(counter, TicksPerSecond(delay));
  }

  /**
   * Across the wrap the cadence restarts: at a delay of 250001 the period is
   * 3, yet the consecutive counter values 2^32 - 1 and 0 both refresh.
   */
  lemma RefreshTwiceAtWrap()
    ensures TicksPerSecond(250001) == 3
    ensures Increment(CounterModulus - 1) == 0
    ensures DisplayDue(CounterModulus - 1, 250001) && DisplayDue(0, 250001)
  {
  }
}

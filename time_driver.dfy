/**
 * The `TimeDriver` hardware model: construction of the time-bus entries and
 * the iterations of the `run` loop, driven by a finite sequence of key codes.
 */
module Nos3 {
  import opened TimeBus
  import opened Registration
  import opened KeyControl
  import opened TickCounter

  /** The state one loop iteration reads and writes. */
  datatype Loop = Loop(counter: nat, paused: bool, delay: nat, infos: seq<TimeBusInfo>)

  /** One iteration of the `while(1)` body, leaving out the display. */
  function Iterate(s: Loop, key: int): (r: Loop)
    requires Armed(s.infos)
    ensures Armed(r.infos) && |r.infos| == |s.infos|
    ensures Unique(s.infos) ==> Unique(r.infos)
    ensures Controls(r.paused, r.delay) == ApplyKey(Controls(s.paused, s.delay), key)
    ensures r.counter == if r.paused then s.counter else Increment(s.counter)
    ensures r.paused ==> r.infos == s.infos
    ensures forall i | 0 <= i < |s.infos| ::
      r.infos[i].uri == s.infos[i].uri && r.infos[i].name == s.infos[i].name &&
      r.infos[i].bus.published == s.infos[i].bus.published + (if r.paused then [] else [s.counter])
  {
    var c := ApplyKey(Controls(s.paused, s.delay), key);
    if c.paused then s.(paused := c.paused, delay := c.delay)
    else Loop(Increment(s.counter), c.paused, c.delay, Broadcast(s.infos, s.counter))
  }

  /** The loop state after one iteration per key. */
  function IterateAll(s: Loop, keys: seq<int>): (r: Loop)
    requires Armed(s.infos)
    ensures Armed(r.infos) && |r.infos| == |s.infos|
    ensures Unique(s.infos) ==> Unique(r.infos)
    ensures s.counter < CounterModulus ==> r.counter < CounterModulus
    ensures Controls(r.paused, r.delay) == ApplyKeys(Controls(s.paused, s.delay), keys)
    ensures r.counter == CounterAfter(s.counter, Controls(s.paused, s.delay), keys)
    ensures forall i | 0 <= i < |s.infos| :: r.infos[i].uri == s.infos[i].uri && r.infos[i].name == s.infos[i].name
    decreases |keys|
  {
    if keys == [] then s
    else Iterate(IterateAll(s, keys[..|keys| - 1]), keys[|keys| - 1])
  }

  /** Every iteration's delay lies where the refresh condition is defined. */
  predicate Paceable(delay: nat, keys: seq<int>) {
    forall k | 0 <= k < |keys| :: 0 < ApplyKeys(Controls(false, delay), keys[..k]).delay <= MicrosPerSecond
  }

  /**
   * Every bus receives exactly the ticks of the run: one per iteration that is
   * not paused, none skipped, none repeated, the same on every bus.
   */
  lemma {:induction false} RunPublishesTicks(s: Loop, keys: seq<int>)
    requires Armed(s.infos)
    ensures forall i | 0 <= i < |s.infos| ::
      IterateAll(s, keys).infos[i].bus.published == s.infos[i].bus.published + Ticks(s.counter, Controls(s.paused, s.delay), keys)
    decreases |keys|
  {
    if keys != [] {
      var front := keys[..|keys| - 1];
      RunPublishesTicks(s, front);
      var prev := IterateAll(s, front);
      var t := Ticks(s.counter, Controls(s.paused, s.delay), front);
      forall i | 0 <= i < |s.infos|
        ensures IterateAll(s, keys).infos[i].bus.published == s.infos[i].bus.published + Ticks(s.counter, Controls(s.paused, s.delay), keys)
      {
        assert prev.infos[i].bus.published == s.infos[i].bus.published + t;
      }
    }
  }

  /** While paused and no toggle key arrives, the buses stay untouched. */
  lemma {:induction false} PausedRunIsInert(s: Loop, keys: seq<int>)
    requires Armed(s.infos) && s.paused && Toggles(keys) == 0
    ensures IterateAll(s, keys).counter == s.counter && IterateAll(s, keys).infos == s.infos
    decreases |keys|
  {
    PausedWithoutToggles(s.counter, Controls(s.paused, s.delay), keys);
    if keys != [] {
      PausedRunIsInert(s, keys[..|keys| - 1]);
    }
  }

  /**
   * Reconnection over a run, for entry `i`: a connected bus is never replaced;
   * a disconnected one is replaced on the first iteration that publishes and
   * stays up if its hub is reachable; on an unreachable hub the replacement is
   * down again, so the bus is replaced on every iteration that publishes.
   */
  lemma {:induction false} RunReconnects(s: Loop, keys: seq<int>, i: nat)
    requires Armed(s.infos) && i < |s.infos|
    ensures var b, n := IterateAll(s, keys).infos[i].bus, |Ticks(s.counter, Controls(s.paused, s.delay), keys)|;
      b.reachable == s.infos[i].bus.reachable &&
      (b.connected <==> s.infos[i].bus.connected || (s.infos[i].bus.reachable && n > 0)) &&
      b.reconnects == s.infos[i].bus.reconnects +
        (if s.infos[i].bus.connected then 0 else if s.infos[i].bus.reachable then (if n > 0 then 1 else 0) else n)
    decreases |keys|
  {
    if keys != [] {
      var front := keys[..|keys| - 1];
      RunReconnects(s, front, i);
      var prev := IterateAll(s, front);
      var r := IterateAll(s, keys);
      assert r == Iterate(prev, keys[|keys| - 1]);
      if !r.paused {
        assert r.infos == Broadcast(prev.infos, prev.counter);
      }
    }
  }

  class TimeDriver {
    const active: bool
    var timeCounter: nat
    var realUsPerTick: nat
    /** The `pause` local of `run`. */
    var paused: bool
    var timeBusInfo: seq<TimeBusInfo>

    ghost predicate Valid()
      reads this
    {
      timeCounter < CounterModulus && Unique(timeBusInfo) && Armed(timeBusInfo) &&
      (!active ==> timeBusInfo == [])
    }

    function State(): Loop
      reads this
    {
      Loop(timeCounter, paused, realUsPerTick, timeBusInfo)
    }

    /**
     * `TimeDriver(config)`. `realUsPerTick` is `_real_microseconds_per_tick`,
     * which the base class reads from the configuration.
     */
    constructor (config: Config, realUsPerTick: nat)
      ensures Valid()
      ensures active == config.active.GetOr(true)
      ensures timeCounter == 0 && this.realUsPerTick == realUsPerTick && !paused
      ensures timeBusInfo == Configured(config)
    {
      var isActive := config.active.GetOr(true);
      var defaultUri := config.connectionString.GetOr(DefaultConnectionString);
      var infos: seq<TimeBusInfo> := [];
      if isActive && config.connections.Some? {
        infos := ScanConnections(config.connections.value, defaultUri);
      }
      active := isActive;
      timeCounter := 0;
      this.realUsPerTick := realUsPerTick;
      paused := false;
      timeBusInfo := infos;
    }

    /** The environment: the hub connection of entry `i` drops, so `is_connected()` turns false. */
    method LoseConnection(i: nat)
      requires Valid() && i < |timeBusInfo|
      modifies this
      ensures Valid()
      ensures timeBusInfo == old(timeBusInfo)[i := old(timeBusInfo)[i].(bus := old(timeBusInfo)[i].bus.(connected := false))]
      ensures timeCounter == old(timeCounter) && paused == old(paused) && realUsPerTick == old(realUsPerTick)
    {
      timeBusInfo := timeBusInfo[i := timeBusInfo[i].(bus := timeBusInfo[i].bus.(connected := false))];
    }

    /** The environment: the hub of entry `i` starts or stops accepting connection attempts. */
    method SetReachable(i: nat, up: bool)
      requires Valid() && i < |timeBusInfo|
      modifies this
      ensures Valid()
      ensures timeBusInfo == old(timeBusInfo)[i := old(timeBusInfo)[i].(bus := old(timeBusInfo)[i].bus.(reachable := up))]
      ensures timeCounter == old(timeCounter) && paused == old(paused) && realUsPerTick == old(realUsPerTick)
    {
      timeBusInfo := timeBusInfo[i := timeBusInfo[i].(bus := timeBusInfo[i].bus.(reachable := up))];
    }

    /**
     * One iteration of the `while(1)` body, reading `key`. Returns whether the
     * display is refreshed, which is decided before the key is handled.
     */
    method Step(key: int) returns (refresh: bool)
      requires Valid() && 0 < realUsPerTick <= MicrosPerSecond
      modifies this
      ensures Valid()
      ensures refresh == DisplayDue(old(timeCounter), old(realUsPerTick))
      ensures State() == Iterate(old(State()), key)
    {
      var ticksPerSecond := TicksPerSecond(realUsPerTick);
      refresh := timeCounter % ticksPerSecond == 0;

      if key == 'p' as int || key == 'P' as int {
        paused := !paused;
      } else if key == '+' as int {
        realUsPerTick := realUsPerTick / 2;
      } else if key == '-' as int {
        realUsPerTick := realUsPerTick * 2;
      }

      if !paused {
        var n := |timeBusInfo|;
        ghost var controls := Controls(paused, realUsPerTick);
        for i := 0 to n
          invariant |timeBusInfo| == n
          invariant timeCounter == old(timeCounter)
          invariant Controls(paused, realUsPerTick) == controls
          invariant forall j | 0 <= j < i :: timeBusInfo[j] == Publish(old(timeBusInfo)[j], timeCounter)
          invariant forall j | i <= j < n :: timeBusInfo[j] == old(timeBusInfo)[j]
        {
          var e := timeBusInfo[i];
          if !e.bus.connected {
            e := e.(bus := EnableSetTime(Attach(e.bus.reachable, e.bus.reconnects + 1, e.bus.published)));
          }
          timeBusInfo := timeBusInfo[i := e.(bus := SetTime(e.bus, timeCounter))];
        }
        assert timeBusInfo == Broadcast(old(timeBusInfo), old(timeCounter));
        timeCounter := (timeCounter + 1) % CounterModulus;
      }
      assert Controls(paused, realUsPerTick) == ApplyKey(Controls(old(paused), old(realUsPerTick)), key);
    }

    /**
     * `run()` with the infinite loop cut to one iteration per key: the first
     * key is the one read before the loop, each later one is read at the end
     * of the previous iteration. An inactive driver does nothing.
     */
    method Run(keys: seq<int>)
      requires Valid()
      requires active ==> Paceable(realUsPerTick, keys)
      modifies this
      ensures Valid()
      ensures !active ==> State() == old(State())
      ensures active ==> State() == IterateAll(old(State()).(paused := false), keys)
    {
      if active {
        paused := false;
        ghost var start := State();
        for k := 0 to |keys|
          invariant Valid()
          invariant State() == IterateAll(start, keys[..k])
        {
          assert keys[..k + 1][..k] == keys[..k];
          var _ := Step(keys[k]);
        }
        assert keys[..|keys|] == keys;
      }
    }
  }
}

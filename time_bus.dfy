/**
 * The time driver's view of a NosEngine client bus and of one entry of the
 * driver's `_time_bus_info` vector.
 */
module TimeBus {

  /**
   * A client connection to a named bus on the hub.
   * - `connected`: what `is_connected()` reports;
   * - `setTimeEnabled`: `enable_set_time()` has been called on this connection;
   * - `reconnects`: how many times the entry's connection has been recreated;
   * - `published`: the `set_time` calls made through this entry, oldest first,
   *   whether or not the connection was up. A reconnect attaches to the same
   *   named bus, so the calls already made stay in the log;
   * - `reachable`: the environment's side, whether the hub at the entry's
   *   connection string accepts a connection attempt at this moment.
   */
  datatype Bus = Bus(connected: bool, setTimeEnabled: bool, reconnects: nat, published: seq<nat>, reachable: bool)

  /** One `TimeBusInfo`: the connection string, the bus name and the owned bus. */
  datatype TimeBusInfo = TimeBusInfo(uri: string, name: string, bus: Bus)

  /**
   * `new NosEngine::Client::Bus(_hub, uri, name)`: a connection that cannot set
   * time yet and is up exactly when the hub is reachable.
   */
  function Attach(reachable: bool, reconnects: nat, published: seq<nat>): Bus {
    Bus(reachable, false, reconnects, published, reachable)
  }

  /** `bus->enable_set_time()`. */
  function EnableSetTime(b: Bus): Bus {
    b.(setTimeEnabled := true)
  }

  /** `bus->set_time(t)`, which needs the capability armed by `EnableSetTime`. */
  function SetTime(b: Bus, t: nat): (r: Bus)
    requires b.setTimeEnabled
    ensures r.published == b.published + [t]
    ensures r.connected == b.connected && r.setTimeEnabled && r.reconnects == b.reconnects && r.reachable == b.reachable
  {
    b.(published := b.published + [t])
  }

  /** The bus the constructor gives each new entry, attached to a reachable hub, then armed. */
  function NewBus(): (b: Bus)
    ensures b.connected && b.setTimeEnabled && b.reachable
    ensures b.reconnects == 0 && b.published == []
  {
    EnableSetTime(Attach(true, 0, []))
  }

  /**
   * The replacement connection `run` creates for a bus found disconnected; its
   * outcome is decided by the hub, not checked by the driver.
   */
  function Reconnect(b: Bus): (r: Bus)
    ensures r.connected == b.reachable && r.reachable == b.reachable && r.setTimeEnabled
    ensures r.reconnects == b.reconnects + 1 && r.published == b.published
  {
    EnableSetTime(Attach(b.reachable, b.reconnects + 1, b.published))
  }

  /** Every entry's bus accepts `set_time`. */
  predicate Armed(infos: seq<TimeBusInfo>) {
    forall i | 0 <= i < |infos| :: infos[i].bus.setTimeEnabled
  }

  /** Some entry has connection string `uri` and bus name `name`. */
  predicate Listed(infos: seq<TimeBusInfo>, uri: string, name: string) {
    exists i | 0 <= i < |infos| :: infos[i].uri == uri && infos[i].name == name
  }

  /** No two entries share both connection string and bus name. */
  predicate Unique(infos: seq<TimeBusInfo>) {
    forall i, j | 0 <= i < j < |infos| :: !(infos[i].uri == infos[j].uri && infos[i].name == infos[j].name)
  }

  /**
   * The body of the publish loop for one entry: reconnect in place when the
   * bus reports it is not connected, then call `set_time(t)` whether or not the
   * new connection came up.
   */
  function Publish(e: TimeBusInfo, t: nat): (r: TimeBusInfo)
    requires e.bus.setTimeEnabled
    ensures r.uri == e.uri && r.name == e.name
    ensures r.bus.setTimeEnabled && r.bus.reachable == e.bus.reachable
    ensures r.bus.published == e.bus.published + [t]
    ensures r.bus.connected <==> e.bus.connected || e.bus.reachable
    ensures e.bus.connected ==> r.bus == e.bus.(published := e.bus.published + [t])
    ensures !e.bus.connected ==> r.bus.reconnects == e.bus.reconnects + 1
  {
    var b := if e.bus.connected then e.bus else Reconnect(e.bus);
    e.(bus := SetTime(b, t))
  }

  /** One pass of the publish loop over every entry, in index order. */
  function Broadcast(infos: seq<TimeBusInfo>, t: nat): (r: seq<TimeBusInfo>)
    requires Armed(infos)
    ensures |r| == |infos| && Armed(r)
    ensures forall i | 0 <= i < |infos| ::
      r[i].uri == infos[i].uri && r[i].name == infos[i].name && r[i].bus.published == infos[i].bus.published + [t]
    ensures forall i | 0 <= i < |infos| ::
      r[i].bus.reachable == infos[i].bus.reachable &&
      (r[i].bus.connected <==> infos[i].bus.connected || infos[i].bus.reachable) &&
      r[i].bus.reconnects == infos[i].bus.reconnects + (if infos[i].bus.connected then 0 else 1)
    ensures Unique(infos) ==> Unique(r)
  {
    seq(|infos|, i requires 0 <= i < |infos| => Publish(infos[i], t))
  }

  /**
   * A connected bus is left alone apart from the one `set_time` call; a
   * disconnected one is replaced, and the replacement is up only if the hub
   * is reachable, so a bus on an unreachable hub is disconnected again.
   */
  lemma ReconnectOnlyWhenDisconnected(infos: seq<TimeBusInfo>, t: nat, i: nat)
    requires Armed(infos) && i < |infos|
    ensures infos[i].bus.connected <==> Broadcast(infos, t)[i].bus.reconnects == infos[i].bus.reconnects
    ensures infos[i].bus.connected ==> Broadcast(infos, t)[i].bus == SetTime(infos[i].bus, t)
    ensures !infos[i].bus.connected ==> (Broadcast(infos, t)[i].bus.connected <==> infos[i].bus.reachable)
  {
  }
}

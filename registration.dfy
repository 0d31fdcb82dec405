/**
 * The `TimeDriver` constructor's scan of the configured connections: keep the
 * descriptors of type "time", fill in the defaults, and add one entry per
 * distinct (connection string, bus name) pair in order of first occurrence.
 */
module Registration {
  import opened Wrappers
  import opened TimeBus

  /** One child of `simulator.hardware-model.connections`; every key may be absent. */
  datatype Descriptor = Descriptor(kind: Option<string>, busName: Option<string>, connectionOverride: Option<string>)

  /** The parts of the configuration tree the constructor reads. */
  datatype Config = Config(
    active: Option<bool>,                    // simulator.active
    connectionString: Option<string>,        // common.nos-connection-string
    connections: Option<seq<Descriptor>>)    // simulator.hardware-model.connections

  const DefaultConnectionString: string := "tcp://127.0.0.1:12001"
  const DefaultBusName: string := "command"
  const TimeType: string := "time"

  /** A missing `type` reads as the empty string, which is not "time". */
  predicate IsTime(d: Descriptor) {
    d.kind.GetOr("") == TimeType
  }

  function NameOf(d: Descriptor): string {
    d.busName.GetOr(DefaultBusName)
  }

  function UriOf(d: Descriptor, defaultUri: string): string {
    d.connectionOverride.GetOr(defaultUri)
  }

  /** Some time descriptor in `conns` asks for the pair (`uri`, `name`). */
  predicate Requested(conns: seq<Descriptor>, defaultUri: string, uri: string, name: string) {
    exists k | 0 <= k < |conns| :: IsTime(conns[k]) && UriOf(conns[k], defaultUri) == uri && NameOf(conns[k]) == name
  }

  /** The linear search followed by a conditional `push_back`. */
  function Register(infos: seq<TimeBusInfo>, uri: string, name: string): (r: seq<TimeBusInfo>)
    ensures Listed(r, uri, name)
    ensures infos <= r && |r| <= |infos| + 1
    ensures Listed(infos, uri, name) ==> r == infos
    ensures |r| == |infos| + 1 ==> r[|infos|].bus == NewBus()
    ensures Unique(infos) ==> Unique(r)
    ensures Armed(infos) ==> Armed(r)
  {
    if Listed(infos, uri, name) then infos
    else
      var r := infos + [TimeBusInfo(uri, name, NewBus())];
      assert r[|infos|].uri == uri && r[|infos|].name == name;
      r
  }

  /** One iteration of the scan over the connection descriptors. */
  function Accept(infos: seq<TimeBusInfo>, d: Descriptor, defaultUri: string): (r: seq<TimeBusInfo>)
    ensures infos <= r
    ensures !IsTime(d) ==> r == infos
    ensures IsTime(d) ==> Listed(r, UriOf(d, defaultUri), NameOf(d))
    ensures IsTime(d) ==> r == Register(infos, UriOf(d, defaultUri), NameOf(d))
  {
    if IsTime(d) then Register(infos, UriOf(d, defaultUri), NameOf(d)) else infos
  }

  /** `_time_bus_info` after scanning `conns` in order. */
  function Scan(conns: seq<Descriptor>, defaultUri: string): (r: seq<TimeBusInfo>)
    ensures Unique(r) && Armed(r)
    ensures |r| <= |conns|
    decreases |conns|
  {
    if conns == [] then []
    else Accept(Scan(conns[..|conns| - 1], defaultUri), conns[|conns| - 1], defaultUri)
  }

  /** `_time_bus_info` at the end of the constructor. */
  function Configured(config: Config): (r: seq<TimeBusInfo>)
    ensures Unique(r) && Armed(r)
    ensures !config.active.GetOr(true) || config.connections.None? ==> r == []
    ensures config.active.GetOr(true) && config.connections.Some? ==>
      forall i | 0 <= i < |r| ::
        Requested(config.connections.value, config.connectionString.GetOr(DefaultConnectionString), r[i].uri, r[i].name)
  {
    if config.active.GetOr(true) && config.connections.Some? then
      var conns, defaultUri := config.connections.value, config.connectionString.GetOr(DefaultConnectionString);
      ScanKeys(conns, defaultUri);
      var r := Scan(conns, defaultUri);
      assert forall i | 0 <= i < |r| :: Listed(r, r[i].uri, r[i].name);
      r
    else
      []
  }

  /** The search loop of the constructor, with its early `break`. */
  method Find(infos: seq<TimeBusInfo>, uri: string, name: string) returns (found: bool)
    ensures found <==> Listed(infos, uri, name)
  {
    found := false;
    var i := 0;
    while i < |infos|
      invariant 0 <= i <= |infos|
      invariant !found
      invariant forall j | 0 <= j < i :: !(infos[j].uri == uri && infos[j].name == name)
    {
      if name == infos[i].name && uri == infos[i].uri {
        found := true;
        break;
      }
      i := i + 1;
    }
  }

  /** The loop over the connection descriptors, appending to the entry vector. */
  method ScanConnections(conns: seq<Descriptor>, defaultUri: string) returns (infos: seq<TimeBusInfo>)
    ensures infos == Scan(conns, defaultUri)
  {
    infos := [];
    for k := 0 to |conns|
      invariant infos == Scan(conns[..k], defaultUri)
    {
      var v := conns[k];
      if v.kind.GetOr("") == TimeType {
        var name := v.busName.GetOr(DefaultBusName);
        var uri := v.connectionOverride.GetOr(defaultUri);
        var found := Find(infos, uri, name);
        if !found {
          infos := infos + [TimeBusInfo(uri, name, NewBus())];
        }
      }
      assert conns[..k + 1][..k] == conns[..k];
    }
    assert conns[..|conns|] == conns;
  }

  /** Appending descriptors never removes, reorders or changes existing entries. */
  lemma {:induction false} ScanAppendOnly(conns: seq<Descriptor>, more: seq<Descriptor>, defaultUri: string)
    ensures Scan(conns, defaultUri) <= Scan(conns + more, defaultUri)
    decreases |more|
  {
    if more != [] {
      var front := more[..|more| - 1];
      ScanAppendOnly(conns, front, defaultUri);
      assert (conns + more)[..|conns + more| - 1] == conns + front;
      assert Scan(conns + front, defaultUri) <= Scan(conns + more, defaultUri);
    } else {
      assert conns + more == conns;
    }
  }

  /**
   * The effect of one more descriptor: a non-time descriptor and a duplicate
   * leave the entries unchanged, a new pair is appended with a fresh bus.
   */
  lemma ScanSnoc(conns: seq<Descriptor>, d: Descriptor, defaultUri: string)
    ensures !IsTime(d) ==> Scan(conns + [d], defaultUri) == Scan(conns, defaultUri)
    ensures IsTime(d) && Listed(Scan(conns, defaultUri), UriOf(d, defaultUri), NameOf(d)) ==>
      Scan(conns + [d], defaultUri) == Scan(conns, defaultUri)
    ensures IsTime(d) && !Listed(Scan(conns, defaultUri), UriOf(d, defaultUri), NameOf(d)) ==>
      Scan(conns + [d], defaultUri) == Scan(conns, defaultUri) + [TimeBusInfo(UriOf(d, defaultUri), NameOf(d), NewBus())]
  {
  }

  /** The pairs that end up registered are exactly the pairs some time descriptor asks for. */
  lemma {:induction false} ScanKeys(conns: seq<Descriptor>, defaultUri: string)
    ensures forall uri, name :: Listed(Scan(conns, defaultUri), uri, name) <==> Requested(conns, defaultUri, uri, name)
    decreases |conns|
  {
    if conns != [] {
      var front := conns[..|conns| - 1];
      var d := conns[|conns| - 1];
      ScanKeys(front, defaultUri);
      ScanSnoc(front, d, defaultUri);
      assert front + [d] == conns;
      var prev := Scan(front, defaultUri);
      forall uri, name
        ensures Listed(Scan(conns, defaultUri), uri, name) <==> Requested(conns, defaultUri, uri, name)
      {
        if Requested(conns, defaultUri, uri, name) {
          var k :| 0 <= k < |conns| && IsTime(conns[k]) && UriOf(conns[k], defaultUri) == uri && NameOf(conns[k]) == name;
          if k < |front| {
            assert front[k] == conns[k];
            assert Requested(front, defaultUri, uri, name);
            ListedPrefix(prev, Scan(conns, defaultUri), uri, name);
          } else {
            assert k == |front| && conns[k] == d;
          }
        }
        if Listed(Scan(conns, defaultUri), uri, name) {
          var i :| 0 <= i < |Scan(conns, defaultUri)| && Scan(conns, defaultUri)[i].uri == uri && Scan(conns, defaultUri)[i].name == name;
          if i < |prev| {
            assert Listed(prev, uri, name);
            var k :| 0 <= k < |front| && IsTime(front[k]) && UriOf(front[k], defaultUri) == uri && NameOf(front[k]) == name;
            assert conns[k] == front[k];
          } else {
            assert IsTime(d) && UriOf(d, defaultUri) == uri && NameOf(d) == name;
          }
        }
      }
    }
  }

  /** `k` is the first descriptor that asks for its pair. */
  predicate FirstRequest(conns: seq<Descriptor>, defaultUri: string, k: nat)
    requires k < |conns|
  {
    IsTime(conns[k]) && !Requested(conns[..k], defaultUri, UriOf(conns[k], defaultUri), NameOf(conns[k]))
  }

  /** A pair listed in a prefix is listed in the whole. */
  lemma ListedPrefix(a: seq<TimeBusInfo>, b: seq<TimeBusInfo>, uri: string, name: string)
    requires a <= b && Listed(a, uri, name)
    ensures Listed(b, uri, name)
  {
  }

  /** The entry for the pair first asked for at `k` lies in `Scan(conns[..k + 1])`, at its end. */
  lemma FirstRequestAppends(conns: seq<Descriptor>, defaultUri: string, k: nat)
    requires k < |conns| && FirstRequest(conns, defaultUri, k)
    ensures var b := Scan(conns[..k], defaultUri);
      Scan(conns[..k + 1], defaultUri) == b + [TimeBusInfo(UriOf(conns[k], defaultUri), NameOf(conns[k]), NewBus())]
  {
    ScanKeys(conns[..k], defaultUri);
    ScanSnoc(conns[..k], conns[k], defaultUri);
    assert conns[..k] + [conns[k]] == conns[..k + 1];
  }

  /** Scanning a prefix of the descriptors gives a prefix of the entries. */
  lemma ScanPrefixOf(conns: seq<Descriptor>, k: nat, defaultUri: string)
    requires k <= |conns|
    ensures Scan(conns[..k], defaultUri) <= Scan(conns, defaultUri)
  {
    ScanAppendOnly(conns[..k], conns[k..], defaultUri);
    assert conns[..k] + conns[k..] == conns;
  }

  /** Entries appear in the order their pairs were first asked for. */
  lemma FirstOccurrenceOrder(conns: seq<Descriptor>, defaultUri: string, k1: nat, k2: nat) returns (p: nat, q: nat)
    requires k1 < k2 < |conns|
    requires FirstRequest(conns, defaultUri, k1) && FirstRequest(conns, defaultUri, k2)
    ensures p < q < |Scan(conns, defaultUri)|
    ensures Scan(conns, defaultUri)[p].uri == UriOf(conns[k1], defaultUri) && Scan(conns, defaultUri)[p].name == NameOf(conns[k1])
    ensures Scan(conns, defaultUri)[q].uri == UriOf(conns[k2], defaultUri) && Scan(conns, defaultUri)[q].name == NameOf(conns[k2])
  {
    var a := Scan(conns[..k1 + 1], defaultUri);
    var b := Scan(conns[..k2], defaultUri);
    var c := Scan(conns[..k2 + 1], defaultUri);
    FirstRequestAppends(conns, defaultUri, k1);
    FirstRequestAppends(conns, defaultUri, k2);
    ScanPrefixOf(conns[..k2], k1 + 1, defaultUri);
    assert conns[..k2][..k1 + 1] == conns[..k1 + 1];
    ScanPrefixOf(conns, k2 + 1, defaultUri);
    p, q := |a| - 1, |b|;
  }

  /** A descriptor that gives only its type gets the default bus name and connection string. */
  lemma DefaultsFilled(config: Config)
    requires config.active.GetOr(true)
    requires config.connections == Some([Descriptor(Some(TimeType), None, None)])
    ensures Configured(config) == [TimeBusInfo(config.connectionString.GetOr(DefaultConnectionString), DefaultBusName, NewBus())]
  {
  }

  /** Registering the same pair twice gives one entry. */
  lemma DuplicateDescriptorsMerge(d: Descriptor, defaultUri: string)
    requires IsTime(d)
    ensures |Scan([d, d], defaultUri)| == 1
  {
  }
}

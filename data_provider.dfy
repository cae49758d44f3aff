/**
  The data access hub. It picks its backend once, when it is built: the
  database when a live connection was obtained, the two snapshot tables
  otherwise. Every query then either defers to the database manager or
  computes its answer from the snapshot tables.
 */
module DataProvider {
  import opened Wrappers
  import opened Tally
  import Ranking
  import opened Ipv4
  import opened Inventory
  import Taxonomy

  /** What loading the two snapshot files produced: both tables, or no files at all. */
  datatype SnapshotLoad = Loaded(devices: seq<DeviceRow>, ports: seq<PortRow>) | FilesMissing

  /** A query's answer: deferred to the database manager, or computed from the snapshot. */
  datatype Routed<T> = Delegated | Snapshot(value: T)

  // ---------------------------------------------------------------- stats

  /** The snapshot statistics; an empty table gives all zeros and no vendors. */
  function SnapshotStats(rows: seq<DeviceRow>): Stats {
    if rows == [] then Stats(0, 0, 0, 0, map[])
    else Stats(|rows|, ActiveCount(rows), DistinctDomains(rows), 189, VendorDistribution(rows))
  }

  /**
    What the snapshot statistics mean: the row count, the rows not marked
    "DOWN" (a missing status counts as active), the distinct present
    domains, the estimate 189 for subnets, and at most eight vendors each
    with its true count, none left out that outnumbers one kept.
   */
  lemma SnapshotStatsFacts(rows: seq<DeviceRow>)
    ensures rows == [] ==> SnapshotStats(rows) == Stats(0, 0, 0, 0, map[])
    ensures rows != [] ==> SnapshotStats(rows).totalDevices == |rows| && SnapshotStats(rows).subnets == 189
    ensures SnapshotStats(rows).activeDevices + DownCount(rows) == |rows|
    ensures SnapshotStats(rows).activeDevices <= SnapshotStats(rows).totalDevices
    ensures SnapshotStats(rows).domains == |DomainValues(rows)| <= |rows|
    ensures |SnapshotStats(rows).vendorDistribution| <= 8
    ensures forall v :: v in SnapshotStats(rows).vendorDistribution ==>
              SnapshotStats(rows).vendorDistribution[v] == VendorCount(rows, v) >= 1
    ensures forall v, u :: v in SnapshotStats(rows).vendorDistribution && u !in SnapshotStats(rows).vendorDistribution ==>
              VendorCount(rows, u) <= SnapshotStats(rows).vendorDistribution[v]
  {
    ActivePlusDown(rows);
    if rows != [] {
      VendorDistributionCounts(rows);
      VendorDistributionTop(rows);
    }
  }

  // ---------------------------------------------------------------- port analysis

  /** The `ifIP` filter: present, and neither "-" nor the empty string. */
  predicate HasIp(r: PortRow) {
    r.ifIP.Some? && r.ifIP.value != "-" && r.ifIP.value != ""
  }

  /** The subnet column: `get_subnet(ifIP)` for a row that passed the filter, `None` when it fails. */
  function PortSubnet(r: PortRow): Option<string> {
    if HasIp(r) then SubnetOf(r.ifIP.value) else None
  }

  /** The rows that pass the `ifIP` filter. */
  function EligibleCount(ports: seq<PortRow>): nat
    decreases |ports|
  {
    if ports == [] then 0 else EligibleCount(ports[..|ports| - 1]) + (if HasIp(ports[|ports| - 1]) then 1 else 0)
  }

  /** The rows whose subnet is `s`. */
  function RowsInSubnet(ports: seq<PortRow>, s: string): nat
    decreases |ports|
  {
    if ports == [] then 0
    else RowsInSubnet(ports[..|ports| - 1], s) + (if PortSubnet(ports[|ports| - 1]) == Some(s) then 1 else 0)
  }

  /** One entry per row left after dropping the rows with no subnet. */
  function SubnetEntries(ports: seq<PortRow>): seq<Entry>
    decreases |ports|
  {
    if ports == [] then []
    else
      var r := ports[|ports| - 1];
      SubnetEntries(ports[..|ports| - 1]) + (if PortSubnet(r).Some? then [Entry(PortSubnet(r).value, 1)] else [])
  }

  /** `groupby('subnet').size()` sorted by count, largest first, first 20. */
  function SubnetHistogram(ports: seq<PortRow>): seq<Entry> {
    Ranking.TopN(Tallies(SubnetEntries(ports)), Weight, 20)
  }

  lemma SubnetEntriesSnoc(p: seq<PortRow>, r: PortRow)
    ensures SubnetEntries(p + [r]) == SubnetEntries(p) + (if PortSubnet(r).Some? then [Entry(PortSubnet(r).value, 1)] else [])
  {
    assert (p + [r])[..|p|] == p;
  }

  lemma {:induction false} SubnetEntriesWeights(ports: seq<PortRow>, s: string)
    ensures WeightOf(SubnetEntries(ports), s) == RowsInSubnet(ports, s)
    ensures Total(SubnetEntries(ports)) <= EligibleCount(ports)
    decreases |ports|
  {
    if ports != [] {
      var p := ports[..|ports| - 1];
      var r := ports[|ports| - 1];
      assert ports == p + [r];
      SubnetEntriesWeights(p, s);
      SubnetEntriesSnoc(p, r);
      var sub := PortSubnet(r);
      assert !HasIp(r) ==> sub.None?;
      assert RowsInSubnet(ports, s) == RowsInSubnet(p, s) + (if sub == Some(s) then 1 else 0);
      assert EligibleCount(ports) == EligibleCount(p) + (if HasIp(r) then 1 else 0);
      if sub.Some? {
        WeightOfSnoc(SubnetEntries(p), Entry(sub.value, 1), s);
        TotalSnoc(SubnetEntries(p), Entry(sub.value, 1));
      } else {
        assert SubnetEntries(ports) == SubnetEntries(p);
      }
    }
  }

  lemma {:induction false} SubnetEntriesUnit(ports: seq<PortRow>)
    ensures forall i :: 0 <= i < |SubnetEntries(ports)| ==> SubnetEntries(ports)[i].weight == 1
    decreases |ports|
  {
    if ports != [] {
      var p := ports[..|ports| - 1];
      var r := ports[|ports| - 1];
      assert ports == p + [r];
      SubnetEntriesUnit(p);
      SubnetEntriesSnoc(p, r);
    }
  }

  lemma {:induction false} SubnetEntriesKeys(ports: seq<PortRow>, s: string)
    ensures s in KeySet(SubnetEntries(ports)) <==> exists r :: r in ports && PortSubnet(r) == Some(s)
    decreases |ports|
  {
    if ports != [] {
      var p := ports[..|ports| - 1];
      var r := ports[|ports| - 1];
      assert ports == p + [r];
      SubnetEntriesKeys(p, s);
      SubnetEntriesSnoc(p, r);
      var sub := PortSubnet(r);
      if sub.Some? {
        KeySetSnoc(SubnetEntries(p), Entry(sub.value, 1));
      } else {
        assert SubnetEntries(ports) == SubnetEntries(p);
      }
      if exists x :: x in ports && PortSubnet(x) == Some(s) {
        var x :| x in ports && PortSubnet(x) == Some(s);
        if x != r {
          assert x in p;
        }
      }
      if exists x :: x in p && PortSubnet(x) == Some(s) {
        var x :| x in p && PortSubnet(x) == Some(s);
        assert x in ports;
      }
    }
  }

  lemma SubnetEntriesFacts(ports: seq<PortRow>, s: string)
    ensures WeightOf(SubnetEntries(ports), s) == RowsInSubnet(ports, s)
    ensures Total(SubnetEntries(ports)) <= EligibleCount(ports)
    ensures forall i :: 0 <= i < |SubnetEntries(ports)| ==> SubnetEntries(ports)[i].weight == 1
    ensures s in KeySet(SubnetEntries(ports)) <==> exists r :: r in ports && PortSubnet(r) == Some(s)
  {
    SubnetEntriesWeights(ports, s);
    SubnetEntriesUnit(ports);
    SubnetEntriesKeys(ports, s);
  }

  lemma {:induction false} TotalCons(e: Entry, s: seq<Entry>)
    ensures Total([e] + s) == e.weight + Total(s)
    decreases |s|
  {
    if s != [] {
      var p := s[..|s| - 1];
      assert ([e] + s)[..|s|] == [e] + p;
      TotalCons(e, p);
    }
  }

  lemma {:induction false} SumRankIsTotal(s: seq<Entry>)
    ensures Ranking.SumRank(s, Weight) == Total(s)
    decreases |s|
  {
    if s != [] {
      SumRankIsTotal(s[1..]);
      TotalCons(s[0], s[1..]);
      assert s == [s[0]] + s[1..];
    }
  }

  /**
    The histogram's shape: at most 20 subnets, largest count first, no
    subnet twice, each with the number of rows in it.
   */
  lemma SubnetHistogramShape(ports: seq<PortRow>)
    ensures |SubnetHistogram(ports)| <= 20
    ensures Ranking.Descending(SubnetHistogram(ports), Weight)
    ensures forall i, j :: 0 <= i < j < |SubnetHistogram(ports)| ==> SubnetHistogram(ports)[i].key != SubnetHistogram(ports)[j].key
    ensures forall t :: t in SubnetHistogram(ports) ==> t.weight == RowsInSubnet(ports, t.key) >= 1
  {
    var es := SubnetEntries(ports);
    var ts := Tallies(es);
    var h := SubnetHistogram(ports);
    Ranking.TopNShape(ts, Weight, 20);
    TalliesListing(es);
    Ranking.TopNDistinct(ts, Weight, 20, Key);
    forall t | t in h ensures t.weight == RowsInSubnet(ports, t.key) >= 1 {
      assert t in multiset(h);
      assert t in ts;
      assert t.key in KeySet(ts);
      SubnetEntriesFacts(ports, t.key);
      WeightOfPresent(es, t.key);
    }
  }

  /** No subnet left out has more rows than a subnet kept. */
  lemma SubnetHistogramTop(ports: seq<PortRow>)
    ensures forall t, s :: t in SubnetHistogram(ports) && s !in KeySet(SubnetHistogram(ports)) ==>
              RowsInSubnet(ports, s) <= t.weight
  {
    var es := SubnetEntries(ports);
    var ts := Tallies(es);
    var h := SubnetHistogram(ports);
    Ranking.TopNKeepsLargest(ts, Weight, 20);
    TalliesListing(es);
    forall t, s | t in h && s !in KeySet(h) ensures RowsInSubnet(ports, s) <= t.weight {
      SubnetEntriesWeights(ports, s);
      if s in KeySet(es) {
        assert s in KeySet(ts);
        var u :| u in ts && u.key == s;
        assert u !in h;
        assert Weight(u) <= Weight(t);
      } else {
        WeightOfAbsent(es, s);
      }
    }
  }

  /** The kept counts add up to at most the rows that passed the filter. */
  lemma SubnetHistogramTotal(ports: seq<PortRow>)
    ensures Total(SubnetHistogram(ports)) <= EligibleCount(ports)
  {
    var es := SubnetEntries(ports);
    var ts := Tallies(es);
    Ranking.TopNSum(ts, Weight, 20);
    SumRankIsTotal(ts);
    SumRankIsTotal(SubnetHistogram(ports));
    TalliesConserve(es);
    SubnetEntriesFacts(ports, "");
  }

  /**
    Which rows reach the histogram: only rows that passed the filter and
    whose address parses, each under the /24 network of its address.
   */
  lemma PortSubnetCases(r: PortRow)
    ensures !HasIp(r) ==> PortSubnet(r).None?
    ensures HasIp(r) && ParseAddress(r.ifIP.value).None? ==> PortSubnet(r).None?
    ensures HasIp(r) && ParseAddress(r.ifIP.value).Some? ==> PortSubnet(r) == Some(Slash24(ParseAddress(r.ifIP.value).value))
  {
    if HasIp(r) {
      SubnetOfAddress(r.ifIP.value);
    }
  }

  /** An empty port table gives an empty histogram. */
  lemma EmptyPortsNoSubnets()
    ensures SubnetHistogram([]) == []
  {
    Ranking.TopNShape(Tallies(SubnetEntries([])), Weight, 20);
  }

  /** The final loop: each kept record gains `device_count = 0`. */
  method AddDeviceCounts(h: seq<Entry>) returns (buckets: seq<SubnetBucket>)
    ensures |buckets| == |h|
    ensures forall i :: 0 <= i < |h| ==> buckets[i] == SubnetBucket(h[i].key, h[i].weight, 0)
  {
    buckets := [];
    for i := 0 to |h|
      invariant |buckets| == i
      invariant forall m :: 0 <= m < i ==> buckets[m] == SubnetBucket(h[m].key, h[m].weight, 0)
    {
      buckets := buckets + [SubnetBucket(h[i].key, h[i].weight, 0)];
    }
  }

  // ---------------------------------------------------------------- the provider

  class Provider {
    /** Set once, when the provider is built; no query changes it. */
    const isDbConnected: bool
    const csvData: seq<DeviceRow>
    const portData: seq<PortRow>

    /**
      `dbLive` is whether a manager with a live connection was obtained.
      Without one the snapshot tables are loaded; missing files leave both
      empty. In database mode no table is held.
     */
    constructor (dbLive: bool, load: SnapshotLoad)
      ensures isDbConnected == dbLive
      ensures !dbLive && load.Loaded? ==> csvData == load.devices && portData == load.ports
      ensures dbLive || load.FilesMissing? ==> csvData == [] && portData == []
    {
      isDbConnected := dbLive;
      if !dbLive && load.Loaded? {
        csvData := load.devices;
        portData := load.ports;
      } else {
        csvData := [];
        portData := [];
      }
    }

    method GetNetworkStats() returns (r: Routed<Stats>)
      ensures isDbConnected <==> r.Delegated?
      ensures r.Snapshot? ==> r.value == SnapshotStats(csvData)
    {
      if isDbConnected {
        return Delegated;
      }
      r := Snapshot(SnapshotStats(csvData));
    }

    method GetNetworkTree() returns (r: Routed<Taxonomy.NetworkTree>)
      ensures isDbConnected <==> r.Delegated?
      ensures r.Snapshot? && csvData == [] ==> r.value == Taxonomy.EmptyTree
      ensures r.Snapshot? && csvData != [] ==>
                r.value.id == Some("root") && r.value.count == |csvData| == Taxonomy.SumCounts(r.value.children) &&
                forall n :: n in r.value.children ==> n.count == Taxonomy.RowsIn(csvData, n.name) >= 1
      ensures r.Snapshot? && csvData != [] ==>
                r.value == Taxonomy.NetworkTree(Taxonomy.RootName, "root", Some("root"), |csvData|,
                                                Taxonomy.Nodes(Tallies(Taxonomy.DeviceEntries(csvData))))
    {
      if isDbConnected {
        return Delegated;
      }
      var tree := Taxonomy.BuildDeviceTree(csvData);
      if csvData != [] {
        Taxonomy.DeviceTreeCounts(csvData);
      }
      r := Snapshot(tree);
    }

    /** Without the database there is no conflict analysis: the report is always empty. */
    method GetIpConflicts() returns (r: Routed<ConflictReport>)
      ensures isDbConnected <==> r.Delegated?
      ensures r.Snapshot? ==> r.value == ConflictReport(0, [])
    {
      if isDbConnected {
        return Delegated;
      }
      r := Snapshot(ConflictReport(0, []));
    }

    method GetPortAnalysis() returns (r: Routed<seq<SubnetBucket>>)
      ensures isDbConnected <==> r.Delegated?
      ensures r.Snapshot? ==> |r.value| == |SubnetHistogram(portData)| <= 20
      ensures r.Snapshot? ==> forall i :: 0 <= i < |r.value| ==>
                r.value[i] == SubnetBucket(SubnetHistogram(portData)[i].key, SubnetHistogram(portData)[i].weight, 0)
      ensures r.Snapshot? && portData == [] ==> r.value == []
    {
      if isDbConnected {
        return Delegated;
      }
      if portData == [] {
        EmptyPortsNoSubnets();
        return Snapshot([]);
      }
      SubnetHistogramShape(portData);
      var buckets := AddDeviceCounts(SubnetHistogram(portData));
      r := Snapshot(buckets);
    }
  }
}

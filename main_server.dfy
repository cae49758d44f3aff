/**
  The web server's own snapshot fallbacks: the device tree summary, the
  per-/24 port address analysis with distinct-address counts, the snapshot
  statistics branch, and the reshaping of a database port analysis into the
  per-subnet records the front end reads.
 */
module MainServer {
  import opened Wrappers
  import opened Text
  import opened Tally
  import Ranking
  import opened Ipv4
  import opened Inventory
  import Taxonomy
  import DataProvider

  // ---------------------------------------------------------------- tree

  /** `create_network_tree_summary` over the loaded device table. */
  method CreateNetworkTreeSummary(rows: seq<DeviceRow>) returns (tree: Taxonomy.NetworkTree)
    ensures rows == [] ==> tree == Taxonomy.EmptyTree
    ensures rows != [] ==> tree.id == Some("root") && tree.count == |rows| == Taxonomy.SumCounts(tree.children)
    ensures rows != [] ==> forall n :: n in tree.children ==> n.count == Taxonomy.RowsIn(rows, n.name) >= 1
    ensures forall n :: n in tree.children ==> n.id == Taxonomy.CategoryId(n.name) && n.name in Taxonomy.CategoryNames
    ensures rows != [] ==>
              tree == Taxonomy.NetworkTree(Taxonomy.RootName, "root", Some("root"), |rows|,
                                           Taxonomy.Nodes(Tallies(Taxonomy.DeviceEntries(rows))))
  {
    tree := Taxonomy.BuildDeviceTree(rows);
    if rows != [] {
      Taxonomy.DeviceTreeCounts(rows);
      Taxonomy.DeviceEntriesFacts(rows, "");
      Taxonomy.ChildrenCounts(Taxonomy.DeviceEntries(rows));
    }
  }

  // ---------------------------------------------------------------- stats

  /**
    The snapshot statistics branch of `get_stats`. Unlike the provider, it
    counts domains with `unique()`, where a missing domain is one more value.
    `None` stands for an empty table, where the server answers with fixed
    demonstration figures instead.
   */
  function CsvStats(rows: seq<DeviceRow>): Option<Stats> {
    if rows == [] then None
    else Some(Stats(|rows|, ActiveCount(rows), UniqueDomainCells(rows), 189, VendorDistribution(rows)))
  }

  /**
    `get_stats` before its demonstration fallback: the database figures when
    a manager answered with a positive device count, the snapshot otherwise.
   */
  function GetStats(db: Option<Stats>, rows: seq<DeviceRow>): (r: Option<Stats>)
    ensures db.Some? && db.value.totalDevices > 0 ==> r == db
    ensures !(db.Some? && db.value.totalDevices > 0) ==> r == CsvStats(rows)
  {
    if db.Some? && db.value.totalDevices > 0 then db else CsvStats(rows)
  }

  /**
    What the snapshot branch reports: the row count, the rows not marked
    "DOWN", the distinct domains counting a missing one once more, the
    estimate 189, and at most eight vendors with their true counts.
   */
  lemma CsvStatsFacts(rows: seq<DeviceRow>)
    ensures CsvStats(rows).None? <==> rows == []
    ensures CsvStats(rows).Some? ==>
              var s := CsvStats(rows).value;
              s.totalDevices == |rows| && s.activeDevices + DownCount(rows) == |rows| &&
              s.domains == DistinctDomains(rows) + (if exists r :: r in rows && r.domain.None? then 1 else 0) &&
              s.domains <= s.totalDevices && s.subnets == 189 && |s.vendorDistribution| <= 8 &&
              forall v :: v in s.vendorDistribution ==> s.vendorDistribution[v] == VendorCount(rows, v) >= 1
  {
    if rows != [] {
      ActivePlusDown(rows);
      UniqueVersusDistinct(rows);
      VendorDistributionCounts(rows);
    }
  }

  // ---------------------------------------------------------------- subnet views

  /** `{total_ips, total_devices, unique_ips}` of one subnet; `unique_ips` holds no order. */
  datatype SubnetUsage = SubnetUsage(totalIps: nat, totalDevices: nat, uniqueIps: set<string>)

  /** A `(subnet, usage)` item of a dict being built. */
  datatype Ranked = Ranked(subnet: string, usage: SubnetUsage)

  function Subnet(u: Ranked): string {
    u.subnet
  }

  function TotalIps(u: Ranked): nat {
    u.usage.totalIps
  }

  /** A dict from subnet to usage: keys in insertion order, and the values. */
  datatype PortView = PortView(order: seq<string>, entries: map<string, SubnetUsage>)

  function Keys(ps: seq<Ranked>): (es: seq<Entry>)
    ensures |es| == |ps|
  {
    seq(|ps|, i requires 0 <= i < |ps| => Entry(ps[i].subnet, 0))
  }

  /** The values of `dict(items)`: a later item for a subnet replaces an earlier one. */
  function Entries(ps: seq<Ranked>): map<string, SubnetUsage>
    decreases |ps|
  {
    if ps == [] then map[] else Entries(ps[..|ps| - 1])[ps[|ps| - 1].subnet := ps[|ps| - 1].usage]
  }

  /** `dict(items)`. */
  function DictOf(ps: seq<Ranked>): PortView {
    PortView(Order(Keys(ps)), Entries(ps))
  }

  lemma KeysSnoc(ps: seq<Ranked>, x: Ranked)
    ensures Keys(ps + [x]) == Keys(ps) + [Entry(x.subnet, 0)]
  {
  }

  lemma KeySetKeys(ps: seq<Ranked>)
    ensures KeySet(Keys(ps)) == set u | u in ps :: u.subnet
  {
    var ks := Keys(ps);
    forall k | k in KeySet(ks) ensures k in set u | u in ps :: u.subnet {
      var e :| e in ks && e.key == k;
      var i :| 0 <= i < |ks| && ks[i] == e;
      assert ps[i] in ps;
    }
    forall k | k in set u | u in ps :: u.subnet ensures k in KeySet(ks) {
      var u :| u in ps && u.subnet == k;
      var i :| 0 <= i < |ps| && ps[i] == u;
      assert ks[i] in ks;
    }
  }

  /**
    A dict built from items lists each subnet once, in order of first
    appearance, and holds for it the usage of its last item.
   */
  lemma DictOfFacts(ps: seq<Ranked>)
    ensures DictOf(ps).entries.Keys == set u | u in ps :: u.subnet
    ensures forall k :: k in DictOf(ps).order <==> k in DictOf(ps).entries
    ensures forall i :: 0 <= i < |ps| && (forall j :: i < j < |ps| ==> ps[j].subnet != ps[i].subnet) ==>
              DictOf(ps).entries[ps[i].subnet] == ps[i].usage
  {
    KeySetKeys(ps);
    EntriesKeys(ps);
    EntriesLast(ps);
  }

  lemma {:induction false} EntriesKeys(ps: seq<Ranked>)
    ensures Entries(ps).Keys == set u | u in ps :: u.subnet
    decreases |ps|
  {
    if ps != [] {
      var p := ps[..|ps| - 1];
      var x := ps[|ps| - 1];
      assert ps == p + [x];
      EntriesKeys(p);
      assert (set u | u in ps :: u.subnet) == (set u | u in p :: u.subnet) + {x.subnet};
    }
  }

  /** An item that no later item overrides keeps its usage in the dict. */
  lemma {:induction false} EntriesLast(ps: seq<Ranked>)
    ensures forall i :: 0 <= i < |ps| && (forall j :: i < j < |ps| ==> ps[j].subnet != ps[i].subnet) ==>
              ps[i].subnet in Entries(ps) && Entries(ps)[ps[i].subnet] == ps[i].usage
    decreases |ps|
  {
    if ps != [] {
      var p := ps[..|ps| - 1];
      var x := ps[|ps| - 1];
      EntriesLast(p);
      forall i | 0 <= i < |ps| && (forall j :: i < j < |ps| ==> ps[j].subnet != ps[i].subnet)
        ensures ps[i].subnet in Entries(ps) && Entries(ps)[ps[i].subnet] == ps[i].usage
      {
        if i < |p| {
          assert p[i] == ps[i];
          assert forall j :: i < j < |p| ==> p[j].subnet != p[i].subnet by {
            forall j | i < j < |p| ensures p[j].subnet != p[i].subnet {
              assert p[j] == ps[j];
            }
          }
          assert ps[|ps| - 1].subnet != ps[i].subnet;
        }
      }
    }
  }

  /** Adding one item to a dict: a new subnet goes last, and the item's usage replaces any older one. */
  lemma DictOfSnoc(ps: seq<Ranked>, x: Ranked)
    ensures DictOf(ps + [x]) ==
              PortView(if x.subnet in DictOf(ps).entries then DictOf(ps).order else DictOf(ps).order + [x.subnet],
                       DictOf(ps).entries[x.subnet := x.usage])
  {
    KeysSnoc(ps, x);
    OrderSnoc(Keys(ps), Entry(x.subnet, 0));
    DictOfFacts(ps);
    assert (ps + [x])[..|ps|] == ps;
  }

  /** Without repeated subnets, the dict keeps the items' order and every item's usage. */
  lemma DictOfDistinct(ps: seq<Ranked>)
    requires forall i, j :: 0 <= i < j < |ps| ==> ps[i].subnet != ps[j].subnet
    ensures |DictOf(ps).order| == |ps|
    ensures forall i :: 0 <= i < |ps| ==> DictOf(ps).order[i] == ps[i].subnet
    ensures forall i :: 0 <= i < |ps| ==> ps[i].subnet in DictOf(ps).entries && DictOf(ps).entries[ps[i].subnet] == ps[i].usage
  {
    DictOfFacts(ps);
    OrderOfDistinct(Keys(ps));
  }

  lemma {:induction false} OrderOfDistinct(es: seq<Entry>)
    requires forall i, j :: 0 <= i < j < |es| ==> es[i].key != es[j].key
    ensures |Order(es)| == |es| && forall i :: 0 <= i < |es| ==> Order(es)[i] == es[i].key
    decreases |es|
  {
    if es != [] {
      var p := es[..|es| - 1];
      var e := es[|es| - 1];
      assert es == p + [e];
      OrderOfDistinct(p);
      OrderSnoc(p, e);
      assert e.key !in Order(p);
    }
  }

  // ---------------------------------------------------------------- analyze_port_ips

  /** The parsed `ifIP` of a row that passed the filter, or `None` when it fails to parse. */
  function RowAddress(r: PortRow): Option<Address> {
    if DataProvider.HasIp(r) then ParseAddress(r.ifIP.value) else None
  }

  /** One entry per row with a valid address: its /24 subnet, weight 1. */
  function UsageEntries(ports: seq<PortRow>): seq<Entry>
    decreases |ports|
  {
    if ports == [] then []
    else
      var r := ports[|ports| - 1];
      UsageEntries(ports[..|ports| - 1]) + (if RowAddress(r).Some? then [Entry(Slash24(RowAddress(r).value), 1)] else [])
  }

  /** `subnets[subnet]['unique_ips']` before de-duplication: the printed addresses, in row order. */
  function IpList(ports: seq<PortRow>, k: string): seq<string>
    decreases |ports|
  {
    if ports == [] then []
    else
      var r := ports[|ports| - 1];
      IpList(ports[..|ports| - 1], k) +
        (if RowAddress(r).Some? && Slash24(RowAddress(r).value) == k then [FormatAddress(RowAddress(r).value)] else [])
  }

  function IpsIn(ports: seq<PortRow>, k: string): set<string> {
    set x | x in IpList(ports, k)
  }

  /** The usage of each subnet, in first-seen order, before ranking. */
  function Usages(ports: seq<PortRow>): (us: seq<Ranked>)
    ensures |us| == |Tallies(UsageEntries(ports))|
  {
    var ts := Tallies(UsageEntries(ports));
    seq(|ts|, i requires 0 <= i < |ts| =>
      Ranked(ts[i].key, SubnetUsage(ts[i].weight, |IpsIn(ports, ts[i].key)|, IpsIn(ports, ts[i].key))))
  }

  /** The result: the 20 busiest subnets, largest first, ties in first-seen order. */
  function PortIpAnalysis(ports: seq<PortRow>): PortView {
    DictOf(Ranking.TopN(Usages(ports), TotalIps, 20))
  }

  lemma UsageEntriesSnoc(p: seq<PortRow>, r: PortRow)
    ensures UsageEntries(p + [r]) == UsageEntries(p) + (if RowAddress(r).Some? then [Entry(Slash24(RowAddress(r).value), 1)] else [])
  {
    assert (p + [r])[..|p|] == p;
  }

  lemma IpListSnoc(p: seq<PortRow>, r: PortRow, k: string)
    ensures IpList(p + [r], k) == IpList(p, k) +
              (if RowAddress(r).Some? && Slash24(RowAddress(r).value) == k then [FormatAddress(RowAddress(r).value)] else [])
  {
    assert (p + [r])[..|p|] == p;
  }

  /** A subnet's address list has one item per row counted under it. */
  lemma {:induction false} IpListLength(ports: seq<PortRow>, k: string)
    ensures |IpList(ports, k)| == WeightOf(UsageEntries(ports), k)
    decreases |ports|
  {
    if ports != [] {
      var p := ports[..|ports| - 1];
      var r := ports[|ports| - 1];
      assert ports == p + [r];
      IpListLength(p, k);
      UsageEntriesSnoc(p, r);
      IpListSnoc(p, r, k);
      if RowAddress(r).Some? {
        WeightOfSnoc(UsageEntries(p), Entry(Slash24(RowAddress(r).value), 1), k);
      } else {
        assert UsageEntries(ports) == UsageEntries(p);
      }
    }
  }

  /** Every address listed under a subnet is a row's own `ifIP` text, and lies in that subnet. */
  lemma {:induction false} IpListMembers(ports: seq<PortRow>, k: string)
    ensures forall x :: x in IpList(ports, k) ==>
              ParseAddress(x).Some? && Slash24(ParseAddress(x).value) == k &&
              exists r :: r in ports && DataProvider.HasIp(r) && r.ifIP.value == x
    decreases |ports|
  {
    if ports != [] {
      var p := ports[..|ports| - 1];
      var r := ports[|ports| - 1];
      assert ports == p + [r];
      IpListMembers(p, k);
      IpListSnoc(p, r, k);
      forall x | x in IpList(ports, k) ensures
        ParseAddress(x).Some? && Slash24(ParseAddress(x).value) == k &&
        exists r :: r in ports && DataProvider.HasIp(r) && r.ifIP.value == x
      {
        if x in IpList(p, k) {
          var r' :| r' in p && DataProvider.HasIp(r') && r'.ifIP.value == x;
          assert r' in ports;
        } else {
          var a := RowAddress(r).value;
          assert x == FormatAddress(a);
          CanonicalText(r.ifIP.value);
          assert x == r.ifIP.value;
          AddressRoundTrip(a);
        }
      }
    }
  }

  /** The snapshot provider and this analysis put the same rows under the same subnets. */
  lemma {:induction false} SameGrouping(ports: seq<PortRow>)
    ensures UsageEntries(ports) == DataProvider.SubnetEntries(ports)
    decreases |ports|
  {
    if ports != [] {
      var p := ports[..|ports| - 1];
      var r := ports[|ports| - 1];
      SameGrouping(p);
      DataProvider.PortSubnetCases(r);
    }
  }

  /**
    Each subnet's figures: `total_ips` is the number of rows with a valid
    address in it, `total_devices` the number of distinct addresses among
    them, so never more than `total_ips`; the addresses are rows' `ifIP`
    texts inside the subnet.
   */
  lemma UsageFacts(ports: seq<PortRow>)
    ensures forall u :: u in Usages(ports) ==>
              u.usage.totalIps == DataProvider.RowsInSubnet(ports, u.subnet) >= 1 &&
              u.usage.totalDevices == |u.usage.uniqueIps| <= u.usage.totalIps &&
              forall x :: x in u.usage.uniqueIps ==> ParseAddress(x).Some? && Slash24(ParseAddress(x).value) == u.subnet
  {
    var es := UsageEntries(ports);
    var ts := Tallies(es);
    var us := Usages(ports);
    TalliesListing(es);
    SameGrouping(ports);
    forall u | u in us ensures
      u.usage.totalIps == DataProvider.RowsInSubnet(ports, u.subnet) >= 1 &&
      u.usage.totalDevices == |u.usage.uniqueIps| <= u.usage.totalIps &&
      forall x :: x in u.usage.uniqueIps ==> ParseAddress(x).Some? && Slash24(ParseAddress(x).value) == u.subnet
    {
      var i :| 0 <= i < |us| && us[i] == u;
      var k := ts[i].key;
      assert ts[i] in ts;
      assert k in KeySet(ts);
      DataProvider.SubnetEntriesFacts(ports, k);
      WeightOfPresent(es, k);
      IpListLength(ports, k);
      IpListMembers(ports, k);
      SetOfSeqBound(IpList(ports, k));
    }
  }

  /**
    The ranking: at most 20 subnets, none twice, largest `total_ips` first;
    no subnet left out has more addresses than one kept; and among subnets
    of equal `total_ips` the kept ones are the first-seen ones, in
    first-seen order (Python's `sorted` is stable).
   */
  lemma AnalysisRanking(ports: seq<PortRow>)
    ensures |Ranking.TopN(Usages(ports), TotalIps, 20)| <= 20
    ensures Ranking.Descending(Ranking.TopN(Usages(ports), TotalIps, 20), TotalIps)
    ensures forall y, z ::
              (y in Usages(ports) && y !in Ranking.TopN(Usages(ports), TotalIps, 20) && z in Ranking.TopN(Usages(ports), TotalIps, 20))
              ==> TotalIps(y) <= TotalIps(z)
    ensures forall c :: Ranking.WithRank(Ranking.TopN(Usages(ports), TotalIps, 20), TotalIps, c) <=
              Ranking.WithRank(Usages(ports), TotalIps, c)
  {
    Ranking.TopNShape(Usages(ports), TotalIps, 20);
    Ranking.TopNKeepsLargest(Usages(ports), TotalIps, 20);
    Ranking.TopNStable(Usages(ports), TotalIps, 20);
  }

  /** Before ranking, no subnet is listed twice. */
  lemma UsagesDistinct(ports: seq<PortRow>)
    ensures forall i, j :: 0 <= i < j < |Usages(ports)| ==> Usages(ports)[i].subnet != Usages(ports)[j].subnet
  {
    TalliesListing(UsageEntries(ports));
  }

  /** Before ranking, subnets are listed by the first row that fell in them. */
  lemma UsagesFirstSeen(ports: seq<PortRow>)
    ensures forall i, j :: 0 <= i < j < |Usages(ports)| ==>
              Usages(ports)[i].subnet in KeySet(UsageEntries(ports)) &&
              Usages(ports)[j].subnet in KeySet(UsageEntries(ports)) &&
              FirstIndex(UsageEntries(ports), Usages(ports)[i].subnet) < FirstIndex(UsageEntries(ports), Usages(ports)[j].subnet)
  {
    var es := UsageEntries(ports);
    TalliesListing(es);
    OrderIsFirstSeen(es);
    assert forall i :: 0 <= i < |Usages(ports)| ==> Usages(ports)[i].subnet == Order(es)[i];
  }

  /** The kept subnets are distinct, so the returned dict has each of them, in ranked order. */
  lemma AnalysisDict(ports: seq<PortRow>)
    ensures |PortIpAnalysis(ports).order| == |Ranking.TopN(Usages(ports), TotalIps, 20)|
    ensures forall i :: 0 <= i < |Ranking.TopN(Usages(ports), TotalIps, 20)| ==>
              PortIpAnalysis(ports).order[i] == Ranking.TopN(Usages(ports), TotalIps, 20)[i].subnet
    ensures forall i :: 0 <= i < |Ranking.TopN(Usages(ports), TotalIps, 20)| ==>
              var u := Ranking.TopN(Usages(ports), TotalIps, 20)[i];
              u.subnet in PortIpAnalysis(ports).entries && PortIpAnalysis(ports).entries[u.subnet] == u.usage
  {
    var us := Usages(ports);
    var top := Ranking.TopN(us, TotalIps, 20);
    UsagesDistinct(ports);
    assert forall i, j :: 0 <= i < j < |us| ==> Subnet(us[i]) != Subnet(us[j]);
    Ranking.TopNDistinct(us, TotalIps, 20, Subnet);
    assert forall i, j :: 0 <= i < j < |top| ==> top[i].subnet != top[j].subnet by {
      forall i, j | 0 <= i < j < |top| ensures top[i].subnet != top[j].subnet {
        assert Subnet(top[i]) != Subnet(top[j]);
      }
    }
    DictOfDistinct(top);
  }

  /** An empty table gives an empty dict. */
  lemma EmptyAnalysis()
    ensures PortIpAnalysis([]) == PortView([], map[])
  {
    Ranking.TopNShape(Usages([]), TotalIps, 20);
  }

  /** The scanning loop's state after the rows `p`: the dict's keys, the counts and the address lists. */
  ghost predicate Scanned(p: seq<PortRow>, order: seq<string>, totals: map<string, nat>, ips: map<string, seq<string>>) {
    Accumulated(UsageEntries(p), order, totals) &&
    forall k :: k in order ==> k in ips && ips[k] == IpList(p, k)
  }

  /** A valid address in a subnet already seen adds one to its count and its printed form to its list. */
  lemma ScanOld(p: seq<PortRow>, r: PortRow, a: Address, k: string, order: seq<string>, totals: map<string, nat>, ips: map<string, seq<string>>)
    requires Scanned(p, order, totals, ips)
    requires RowAddress(r) == Some(a) && k == Slash24(a) && k in order
    ensures Scanned(p + [r], order, totals[k := totals[k] + 1], ips[k := ips[k] + [FormatAddress(a)]])
  {
    CountRow(p, r, a, k);
    AccumulateOld(UsageEntries(p + [r]), k, 1, order, totals);
    var l := ips[k := ips[k] + [FormatAddress(a)]];
    forall k' | k' in order ensures k' in l && l[k'] == IpList(p + [r], k') {
      IpListSnoc(p, r, k');
    }
  }

  /** A valid address in a new subnet creates it with count 0 and an empty list, then adds itself. */
  lemma ScanNew(p: seq<PortRow>, r: PortRow, a: Address, k: string, order: seq<string>, totals: map<string, nat>, ips: map<string, seq<string>>)
    requires Scanned(p, order, totals, ips)
    requires RowAddress(r) == Some(a) && k == Slash24(a) && k !in order
    ensures Scanned(p + [r], order + [k], totals[k := 0][k := totals[k := 0][k] + 1],
                    ips[k := []][k := ips[k := []][k] + [FormatAddress(a)]])
  {
    CountRow(p, r, a, k);
    AccumulateNew(UsageEntries(p + [r]), k, 1, order, totals);
    ListNew(p, r, a, k, order, ips);
  }

  /** The entries after a row with a valid address: one more, for its subnet. */
  lemma CountRow(p: seq<PortRow>, r: PortRow, a: Address, k: string)
    requires RowAddress(r) == Some(a) && k == Slash24(a)
    ensures UsageEntries(p + [r]) != [] && UsageEntries(p + [r])[|UsageEntries(p + [r])| - 1] == Entry(k, 1)
    ensures UsageEntries(p + [r])[..|UsageEntries(p + [r])| - 1] == UsageEntries(p)
  {
    UsageEntriesSnoc(p, r);
  }

  lemma ListNew(p: seq<PortRow>, r: PortRow, a: Address, k: string, order: seq<string>, ips: map<string, seq<string>>)
    requires forall k' :: k' in order ==> k' in ips && ips[k'] == IpList(p, k')
    requires Order(UsageEntries(p)) == order
    requires RowAddress(r) == Some(a) && k == Slash24(a) && k !in order
    ensures var l := ips[k := []][k := ips[k := []][k] + [FormatAddress(a)]];
            forall k' :: k' in order + [k] ==> k' in l && l[k'] == IpList(p + [r], k')
  {
    var l := ips[k := []][k := ips[k := []][k] + [FormatAddress(a)]];
    forall k' | k' in order + [k] ensures k' in l && l[k'] == IpList(p + [r], k') {
      IpListSnoc(p, r, k');
      if k' == k {
        IpListLength(p, k);
        WeightOfAbsent(UsageEntries(p), k);
      }
    }
  }

  /** A row without a valid address changes nothing. */
  lemma ScanSkip(p: seq<PortRow>, r: PortRow, order: seq<string>, totals: map<string, nat>, ips: map<string, seq<string>>)
    requires Scanned(p, order, totals, ips)
    requires RowAddress(r).None?
    ensures Scanned(p + [r], order, totals, ips)
  {
    UsageEntriesSnoc(p, r);
    assert UsageEntries(p + [r]) == UsageEntries(p);
  }

  /** After the whole scan, the de-duplicated lists are the specification's usages. */
  lemma ScanDone(ports: seq<PortRow>, order: seq<string>, totals: map<string, nat>, ips: map<string, seq<string>>, us: seq<Ranked>)
    requires Scanned(ports, order, totals, ips)
    requires |us| == |order|
    requires forall m :: 0 <= m < |order| ==>
               var k := order[m];
               us[m] == Ranked(k, SubnetUsage(totals[k], |set x | x in ips[k]|, set x | x in ips[k]))
    ensures us == Usages(ports)
  {
  }

  /**
    `analyze_port_ips`: scan the rows, count each valid address under its
    /24 subnet and list it, then de-duplicate each subnet's list, rank the
    subnets and keep 20.
   */
  method AnalyzePortIps(ports: seq<PortRow>) returns (view: PortView)
    ensures view == PortIpAnalysis(ports)
  {
    if ports == [] {
      EmptyAnalysis();
      return PortView([], map[]);
    }
    var order: seq<string> := [];
    var totals: map<string, nat> := map[];
    var ips: map<string, seq<string>> := map[];
    for i := 0 to |ports|
      invariant Scanned(ports[..i], order, totals, ips)
    {
      var r := ports[i];
      assert ports[..i + 1] == ports[..i] + [r];
      if DataProvider.HasIp(r) && ParseAddress(r.ifIP.value).Some? {
        var a := ParseAddress(r.ifIP.value).value;
        PrintedSubnet(a);
        var subnet := SubnetOf(FormatAddress(a)).value;
        if subnet !in order {
          ScanNew(ports[..i], r, a, subnet, order, totals, ips);
          order := order + [subnet];
          totals := totals[subnet := 0];
          ips := ips[subnet := []];
        } else {
          ScanOld(ports[..i], r, a, subnet, order, totals, ips);
        }
        totals := totals[subnet := totals[subnet] + 1];
        ips := ips[subnet := ips[subnet] + [FormatAddress(a)]];
      } else {
        ScanSkip(ports[..i], r, order, totals, ips);
      }
    }
    assert ports[..|ports|] == ports;
    var usages := ListUsages(order, totals, ips);
    ScanDone(ports, order, totals, ips, usages);
    view := DictOf(Ranking.TopN(usages, TotalIps, 20));
  }

  /** The de-duplicating loop: each subnet's list becomes a set, and its size the device count. */
  method ListUsages(order: seq<string>, totals: map<string, nat>, ips: map<string, seq<string>>) returns (us: seq<Ranked>)
    requires forall k :: k in order ==> k in totals && k in ips
    ensures |us| == |order|
    ensures forall m :: 0 <= m < |order| ==>
              var k := order[m];
              us[m] == Ranked(k, SubnetUsage(totals[k], |set x | x in ips[k]|, set x | x in ips[k]))
  {
    us := [];
    for j := 0 to |order|
      invariant |us| == j
      invariant forall m :: 0 <= m < j ==>
                  var k := order[m];
                  us[m] == Ranked(k, SubnetUsage(totals[k], |set x | x in ips[k]|, set x | x in ips[k]))
    {
      var k := order[j];
      var unique := set x | x in ips[k];
      us := us + [Ranked(k, SubnetUsage(totals[k], |unique|, unique))];
    }
  }

  // ---------------------------------------------------------------- get_port_ips reshaping

  /** The fixed sample `get_fallback_port_data` returns. */
  const FallbackPortData := PortView(
    ["192.168.1.0/24", "10.0.0.0/24", "172.16.0.0/24"],
    map["192.168.1.0/24" := SubnetUsage(254, 50, {}),
        "10.0.0.0/24" := SubnetUsage(200, 30, {}),
        "172.16.0.0/24" := SubnetUsage(150, 25, {})])

  /** One database record as the front end wants it: `ip_count` and `device_count` renamed. */
  function Reshaped(b: SubnetBucket): Ranked {
    Ranked(b.subnet, SubnetUsage(b.ipCount, b.deviceCount, {}))
  }

  function ReshapedAll(records: seq<SubnetBucket>): (ps: seq<Ranked>)
    ensures |ps| == |records|
  {
    seq(|records|, i requires 0 <= i < |records| => Reshaped(records[i]))
  }

  function RecordSubnets(records: seq<SubnetBucket>): set<string> {
    set b | b in records :: b.subnet
  }

  lemma ReshapedAllSnoc(records: seq<SubnetBucket>, i: nat)
    requires i < |records|
    ensures ReshapedAll(records[..i + 1]) == ReshapedAll(records[..i]) + [Reshaped(records[i])]
  {
  }

  /**
    The reshaping in `get_port_ips`: `analysis` is the manager's
    `subnets` list, `None` when the answer has no such key. A missing or
    empty list gives the fixed sample; otherwise each record is stored
    under its subnet, a later record for a subnet replacing an earlier one.
   */
  method ReshapeDbAnalysis(analysis: Option<seq<SubnetBucket>>) returns (view: PortView)
    ensures analysis.None? || analysis == Some([]) ==> view == FallbackPortData
    ensures analysis.Some? && analysis.value != [] ==> view == DictOf(ReshapedAll(analysis.value))
  {
    if analysis.None? || analysis.value == [] {
      return FallbackPortData;
    }
    var records := analysis.value;
    var order: seq<string> := [];
    var result: map<string, SubnetUsage> := map[];
    for i := 0 to |records|
      invariant PortView(order, result) == DictOf(ReshapedAll(records[..i]))
    {
      var b := records[i];
      ReshapedAllSnoc(records, i);
      DictOfSnoc(ReshapedAll(records[..i]), Reshaped(b));
      if b.subnet !in result {
        order := order + [b.subnet];
      }
      result := result[b.subnet := SubnetUsage(b.ipCount, b.deviceCount, {})];
    }
    assert records[..|records|] == records;
    view := PortView(order, result);
  }

  /**
    What the front end receives from a non-empty database analysis: one key
    per subnet in order of first appearance, `total_ips` and
    `total_devices` taken from the subnet's last record.
   */
  lemma ReshapeFacts(records: seq<SubnetBucket>)
    ensures DictOf(ReshapedAll(records)).entries.Keys == RecordSubnets(records)
    ensures forall k :: k in DictOf(ReshapedAll(records)).order <==> k in DictOf(ReshapedAll(records)).entries
    ensures forall i :: 0 <= i < |records| && (forall j :: i < j < |records| ==> records[j].subnet != records[i].subnet) ==>
              records[i].subnet in DictOf(ReshapedAll(records)).entries &&
              DictOf(ReshapedAll(records)).entries[records[i].subnet] == SubnetUsage(records[i].ipCount, records[i].deviceCount, {})
  {
    var ps := ReshapedAll(records);
    DictOfFacts(ps);
    ReshapedSubnets(records);
    forall i | 0 <= i < |records| && (forall j :: i < j < |records| ==> records[j].subnet != records[i].subnet)
      ensures records[i].subnet in DictOf(ps).entries && DictOf(ps).entries[records[i].subnet] == SubnetUsage(records[i].ipCount, records[i].deviceCount, {})
    {
      assert ps[i] == Reshaped(records[i]);
      assert forall j :: i < j < |ps| ==> ps[j].subnet != ps[i].subnet by {
        forall j | i < j < |ps| ensures ps[j].subnet != ps[i].subnet {
          assert ps[j] == Reshaped(records[j]);
        }
      }
    }
  }

  lemma ReshapedSubnets(records: seq<SubnetBucket>)
    ensures (set u | u in ReshapedAll(records) :: u.subnet) == RecordSubnets(records)
  {
    var ps := ReshapedAll(records);
    forall k | k in RecordSubnets(records) ensures k in set u | u in ps :: u.subnet {
      var b :| b in records && b.subnet == k;
      var i :| 0 <= i < |records| && records[i] == b;
      assert ps[i] in ps;
    }
    forall k | k in (set u | u in ps :: u.subnet) ensures k in RecordSubnets(records) {
      var u :| u in ps && u.subnet == k;
      var i :| 0 <= i < |ps| && ps[i] == u;
      assert records[i] in records;
    }
  }
}

/**
  The two snapshot tables and the report records built from them. A table
  is a sequence of rows; a cell pandas reads as NaN (empty in the file) is
  `None`.
 */
module Inventory {
  import opened Wrappers
  import opened Tally
  import Ranking

  /** A row of the device inventory table: the columns the reports read. */
  datatype DeviceRow = DeviceRow(status: Option<string>, domain: Option<string>, vendor: Option<string>)

  /** A row of the port table: the columns any of the three core files reads. */
  datatype PortRow = PortRow(
    id: Option<string>, hostId: Option<string>, hostName: Option<string>,
    ifName: Option<string>, ifIP: Option<string>, ifOperStatus: Option<string>,
    ifType: Option<string>, vendor: Option<string>, domain: Option<string>)

  /** `{total_devices, active_devices, domains, subnets, vendor_distribution}`. */
  datatype Stats = Stats(
    totalDevices: nat, activeDevices: nat, domains: nat, subnets: nat,
    vendorDistribution: map<string, nat>)

  /** One `{subnet, ip_count, device_count}` record of a port analysis. */
  datatype SubnetBucket = SubnetBucket(subnet: string, ipCount: nat, deviceCount: nat)

  /** One `{ip, count, hostnames, vendors}` record of the conflict report. */
  datatype ConflictDetail = ConflictDetail(ip: string, count: nat, hostnames: seq<string>, vendors: seq<string>)

  /** `{total_conflicts, conflicts}`. */
  datatype ConflictReport = ConflictReport(totalConflicts: nat, conflicts: seq<ConflictDetail>)

  // ---------------------------------------------------------------- stats pieces

  /** `status != 'DOWN'`: a missing status compares unequal, so it counts as active. */
  predicate IsActive(r: DeviceRow) {
    r.status != Some("DOWN")
  }

  /** `len(df[df['status'] != 'DOWN'])`. */
  function ActiveCount(rows: seq<DeviceRow>): (n: nat)
    ensures n <= |rows|
    decreases |rows|
  {
    if rows == [] then 0
    else ActiveCount(rows[..|rows| - 1]) + (if IsActive(rows[|rows| - 1]) then 1 else 0)
  }

  /** The rows whose status is exactly "DOWN". */
  function DownCount(rows: seq<DeviceRow>): nat
    decreases |rows|
  {
    if rows == [] then 0
    else DownCount(rows[..|rows| - 1]) + (if rows[|rows| - 1].status == Some("DOWN") then 1 else 0)
  }

  /** Every row is either active or down: the active count is the rest of the table. */
  lemma {:induction false} ActivePlusDown(rows: seq<DeviceRow>)
    ensures ActiveCount(rows) + DownCount(rows) == |rows|
    decreases |rows|
  {
    if rows != [] {
      ActivePlusDown(rows[..|rows| - 1]);
    }
  }

  /** The non-missing values of the domain column. */
  function DomainValues(rows: seq<DeviceRow>): set<string> {
    set r | r in rows && r.domain.Some? :: r.domain.value
  }

  /** The values of the domain column with the missing marker as a value of its own. */
  function DomainCells(rows: seq<DeviceRow>): set<Option<string>> {
    set r | r in rows :: r.domain
  }

  /** `df['domain'].nunique()`: missing cells are not counted. */
  function DistinctDomains(rows: seq<DeviceRow>): (n: nat)
    ensures n <= |rows|
  {
    DomainsBound(rows);
    |DomainValues(rows)|
  }

  /** `len(df['domain'].unique())`: a missing cell counts as one more value. */
  function UniqueDomainCells(rows: seq<DeviceRow>): (n: nat)
    ensures n <= |rows|
  {
    DomainsBound(rows);
    |DomainCells(rows)|
  }

  lemma {:induction false} DomainsBound(rows: seq<DeviceRow>)
    ensures |DomainValues(rows)| <= |rows|
    ensures |DomainCells(rows)| <= |rows|
    decreases |rows|
  {
    if rows != [] {
      var p := rows[..|rows| - 1];
      var r := rows[|rows| - 1];
      assert rows == p + [r];
      DomainsBound(p);
      assert DomainCells(rows) == DomainCells(p) + {r.domain};
      if r.domain.Some? {
        assert DomainValues(rows) == DomainValues(p) + {r.domain.value};
      } else {
        assert DomainValues(rows) == DomainValues(p);
      }
    }
  }

  /** The two ways of counting domains differ by at most the one missing marker. */
  lemma UniqueVersusDistinct(rows: seq<DeviceRow>)
    ensures UniqueDomainCells(rows) == DistinctDomains(rows) + (if exists r :: r in rows && r.domain.None? then 1 else 0)
  {
    var cells := DomainCells(rows);
    var present := set d | d in DomainValues(rows) :: Some(d);
    forall x ensures x in cells - {None} <==> x in present {
      if x in cells - {None} {
        var r :| r in rows && r.domain == x;
        assert x.value in DomainValues(rows);
      }
      if x in present {
        var d :| d in DomainValues(rows) && x == Some(d);
        var r :| r in rows && r.domain.Some? && r.domain.value == d;
        assert r.domain in cells;
      }
    }
    assert cells - {None} == present;
    assert |present| == |DomainValues(rows)| by {
      SomeImageCard(DomainValues(rows));
    }
    if exists r :: r in rows && r.domain.None? {
      assert None in cells;
      assert cells == present + {None};
    } else {
      assert cells == present;
    }
  }

  lemma SomeImageCard(s: set<string>)
    ensures |set d | d in s :: Some(d)| == |s|
    decreases |s|
  {
    if s != {} {
      var x :| x in s;
      SomeImageCard(s - {x});
      assert (set d | d in s :: Some(d)) == (set d | d in s - {x} :: Some(d)) + {Some(x)};
    }
  }

  // ---------------------------------------------------------------- vendors

  /** One entry per row that has a vendor: `value_counts()` ignores missing cells. */
  function VendorEntries(rows: seq<DeviceRow>): seq<Entry>
    decreases |rows|
  {
    if rows == [] then []
    else
      var r := rows[|rows| - 1];
      VendorEntries(rows[..|rows| - 1]) + (if r.vendor.Some? then [Entry(r.vendor.value, 1)] else [])
  }

  /** How many rows name vendor `v`. */
  function VendorCount(rows: seq<DeviceRow>, v: string): nat
    decreases |rows|
  {
    if rows == [] then 0
    else VendorCount(rows[..|rows| - 1], v) + (if rows[|rows| - 1].vendor == Some(v) then 1 else 0)
  }

  lemma VendorEntriesCount(rows: seq<DeviceRow>, v: string)
    ensures WeightOf(VendorEntries(rows), v) == VendorCount(rows, v)
    ensures v in KeySet(VendorEntries(rows)) <==> exists r :: r in rows && r.vendor == Some(v)
    ensures forall e :: e in VendorEntries(rows) ==> e.weight == 1
  {
    VendorEntriesWeight(rows, v);
    VendorEntriesKeys(rows, v);
  }

  lemma VendorEntriesSnoc(p: seq<DeviceRow>, r: DeviceRow)
    ensures VendorEntries(p + [r]) == VendorEntries(p) + (if r.vendor.Some? then [Entry(r.vendor.value, 1)] else [])
  {
    assert (p + [r])[..|p|] == p;
  }

  lemma {:induction false} VendorEntriesWeight(rows: seq<DeviceRow>, v: string)
    ensures WeightOf(VendorEntries(rows), v) == VendorCount(rows, v)
    ensures forall e :: e in VendorEntries(rows) ==> e.weight == 1
    decreases |rows|
  {
    if rows != [] {
      var p := rows[..|rows| - 1];
      var r := rows[|rows| - 1];
      assert rows == p + [r];
      VendorEntriesWeight(p, v);
      VendorEntriesSnoc(p, r);
      assert VendorCount(rows, v) == VendorCount(p, v) + (if r.vendor == Some(v) then 1 else 0);
      if r.vendor.Some? {
        var e := Entry(r.vendor.value, 1);
        WeightOfSnoc(VendorEntries(p), e, v);
        assert VendorEntries(rows) == VendorEntries(p) + [e];
        assert forall x :: x in VendorEntries(p) + [e] ==> x in VendorEntries(p) || x == e;
      } else {
        assert VendorEntries(rows) == VendorEntries(p);
      }
    }
  }

  lemma {:induction false} VendorEntriesKeys(rows: seq<DeviceRow>, v: string)
    ensures v in KeySet(VendorEntries(rows)) <==> exists r :: r in rows && r.vendor == Some(v)
    decreases |rows|
  {
    if rows != [] {
      var p := rows[..|rows| - 1];
      var r := rows[|rows| - 1];
      assert rows == p + [r];
      VendorEntriesKeys(p, v);
      VendorEntriesSnoc(p, r);
      if r.vendor.Some? {
        KeySetSnoc(VendorEntries(p), Entry(r.vendor.value, 1));
      } else {
        assert VendorEntries(rows) == VendorEntries(p);
      }
      if exists x :: x in rows && x.vendor == Some(v) {
        var x :| x in rows && x.vendor == Some(v);
        if x != r {
          assert x in p;
        }
      }
      if exists x :: x in p && x.vendor == Some(v) {
        var x :| x in p && x.vendor == Some(v);
        assert x in rows;
      }
    }
  }

  /** A dict built from (key, value) records; a later record for a key replaces an earlier one. */
  function ToMap(ts: seq<Entry>): map<string, nat>
    decreases |ts|
  {
    if ts == [] then map[] else ToMap(ts[..|ts| - 1])[ts[|ts| - 1].key := ts[|ts| - 1].weight]
  }

  lemma {:induction false} ToMapFacts(ts: seq<Entry>)
    ensures ToMap(ts).Keys == KeySet(ts)
    ensures |ToMap(ts)| <= |ts|
    ensures forall k :: k in ToMap(ts) ==> exists t :: t in ts && t.key == k && t.weight == ToMap(ts)[k]
    decreases |ts|
  {
    if ts != [] {
      var p := ts[..|ts| - 1];
      var t := ts[|ts| - 1];
      assert ts == p + [t];
      ToMapFacts(p);
      KeySetSnoc(p, t);
    }
  }

  /** `dict(df['vendor'].value_counts().head(8))`. */
  function VendorDistribution(rows: seq<DeviceRow>): map<string, nat> {
    ToMap(Ranking.TopN(Tallies(VendorEntries(rows)), Weight, 8))
  }

  /** The vendors of the rows, missing cells left out. */
  function Vendors(rows: seq<DeviceRow>): set<string> {
    set r | r in rows && r.vendor.Some? :: r.vendor.value
  }

  lemma VendorKeys(rows: seq<DeviceRow>)
    ensures KeySet(VendorEntries(rows)) == Vendors(rows)
    ensures forall e :: e in VendorEntries(rows) ==> e.weight == 1
  {
    forall v ensures v in KeySet(VendorEntries(rows)) <==> v in Vendors(rows) {
      VendorEntriesCount(rows, v);
    }
    VendorEntriesCount(rows, "");
  }

  /** The vendor histogram keeps at most 8 vendors, each with its true row count. */
  lemma VendorDistributionCounts(rows: seq<DeviceRow>)
    ensures |VendorDistribution(rows)| <= 8
    ensures forall v :: v in VendorDistribution(rows) ==>
              VendorDistribution(rows)[v] == VendorCount(rows, v) >= 1
  {
    var es := VendorEntries(rows);
    var ts := Tallies(es);
    var top := Ranking.TopN(ts, Weight, 8);
    var m := VendorDistribution(rows);
    TalliesListing(es);
    Ranking.TopNShape(ts, Weight, 8);
    ToMapFacts(top);
    VendorKeys(rows);
    forall v | v in m ensures m[v] == VendorCount(rows, v) >= 1 {
      var t :| t in top && t.key == v && t.weight == m[v];
      assert t in multiset(top);
      assert t in ts;
      VendorEntriesCount(rows, v);
      assert v in KeySet(ts);
      WeightOfPresent(es, v);
    }
  }

  /** No vendor left out of the histogram has more rows than a vendor kept. */
  lemma VendorDistributionTop(rows: seq<DeviceRow>)
    ensures forall v, u :: v in VendorDistribution(rows) && u !in VendorDistribution(rows) ==>
              VendorCount(rows, u) <= VendorDistribution(rows)[v]
  {
    var es := VendorEntries(rows);
    var ts := Tallies(es);
    var top := Ranking.TopN(ts, Weight, 8);
    var m := VendorDistribution(rows);
    TalliesListing(es);
    Ranking.TopNKeepsLargest(ts, Weight, 8);
    ToMapFacts(top);
    VendorDistributionCounts(rows);
    forall v, u | v in m && u !in m ensures VendorCount(rows, u) <= m[v] {
      VendorEntriesCount(rows, u);
      if u in KeySet(es) {
        assert u in KeySet(ts);
        var tu :| tu in ts && tu.key == u;
        var tv :| tv in top && tv.key == v && tv.weight == m[v];
        assert u !in KeySet(top);
        assert tu !in top;
        assert Weight(tu) <= Weight(tv);
      } else {
        WeightOfAbsent(es, u);
      }
    }
  }

  /** With at most 8 distinct vendors, the histogram lists all of them. */
  lemma VendorDistributionComplete(rows: seq<DeviceRow>)
    ensures |Vendors(rows)| <= 8 ==> VendorDistribution(rows).Keys == Vendors(rows)
  {
    var es := VendorEntries(rows);
    var ts := Tallies(es);
    if |Vendors(rows)| <= 8 {
      VendorKeys(rows);
      TalliesSize(es);
      TalliesKeys(es);
      TopKeys(ts, 8);
      ToMapFacts(Ranking.TopN(ts, Weight, 8));
    }
  }

  /** When nothing is cut off, the kept records carry every key. */
  lemma TopKeys(ts: seq<Entry>, n: nat)
    requires |ts| <= n
    ensures KeySet(Ranking.TopN(ts, Weight, n)) == KeySet(ts)
  {
    var top := Ranking.TopN(ts, Weight, n);
    Ranking.TopNShape(ts, Weight, n);
    forall k | k in KeySet(ts) ensures k in KeySet(top) {
      var t :| t in ts && t.key == k;
      assert t in multiset(ts);
      assert t in top;
    }
    forall k | k in KeySet(top) ensures k in KeySet(ts) {
      var t :| t in top && t.key == k;
      assert t in multiset(top);
      assert t in ts;
    }
  }
}

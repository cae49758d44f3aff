/**
  The database manager's in-process logic: folding grouped domain counts
  into the category tree, turning port rows into device, interface and IP
  assignment records on import, and shaping the conflict query's rows.
  The queries themselves run in the database and are not part of this
  model; their results are taken as inputs.
 */
module MysqlManager {
  import opened Wrappers
  import opened Text
  import opened Tally
  import opened Ipv4
  import opened Inventory
  import Taxonomy

  // ---------------------------------------------------------------- _build_tree_from_db

  /** One `(domain, device_count)` row of the grouped domain query. */
  datatype DomainStat = DomainStat(domain: string, count: nat)

  /** Each grouped row contributes its count to its domain's category. */
  function CategoryEntries(stats: seq<DomainStat>): (es: seq<Entry>)
    ensures |es| == |stats|
  {
    seq(|stats|, i requires 0 <= i < |stats| => Entry(Taxonomy.CategoryOf(stats[i].domain), stats[i].count))
  }

  /** `sum(count for _, count in domain_stats)`. */
  function StatTotal(stats: seq<DomainStat>): nat
    decreases |stats|
  {
    if stats == [] then 0 else StatTotal(stats[..|stats| - 1]) + stats[|stats| - 1].count
  }

  /** The devices of the grouped rows whose domain maps to category `c`. */
  function CategoryTotal(stats: seq<DomainStat>, c: string): nat
    decreases |stats|
  {
    if stats == [] then 0
    else CategoryTotal(stats[..|stats| - 1], c) + (if Taxonomy.CategoryOf(stats[|stats| - 1].domain) == c then stats[|stats| - 1].count else 0)
  }

  lemma {:induction false} CategoryEntriesFacts(stats: seq<DomainStat>, c: string)
    ensures Total(CategoryEntries(stats)) == StatTotal(stats)
    ensures WeightOf(CategoryEntries(stats), c) == CategoryTotal(stats, c)
    ensures forall e :: e in CategoryEntries(stats) ==> e.key in Taxonomy.CategoryNames
    decreases |stats|
  {
    if stats != [] {
      var p := stats[..|stats| - 1];
      CategoryEntriesFacts(p, c);
      assert CategoryEntries(stats)[..|stats| - 1] == CategoryEntries(p);
    }
  }

  /** The database tree: always a root with id "root", counting every grouped device. */
  method BuildTreeFromDb(stats: seq<DomainStat>) returns (tree: Taxonomy.NetworkTree)
    ensures tree.name == Taxonomy.RootName && tree.kind == "root" && tree.id == Some("root")
    ensures tree.count == StatTotal(stats)
    ensures tree.children == Taxonomy.Nodes(Tallies(CategoryEntries(stats)))
  {
    var total := 0;
    for i := 0 to |stats|
      invariant total == StatTotal(stats[..i])
    {
      assert stats[..i + 1][..i] == stats[..i];
      total := total + stats[i].count;
    }
    assert stats[..|stats|] == stats;
    var children := Taxonomy.CountCategories(CategoryEntries(stats));
    tree := Taxonomy.NetworkTree(Taxonomy.RootName, "root", Some("root"), total, children);
  }

  /**
    The database tree loses no device: the root count equals the sum of the
    children's counts, and each child counts exactly the devices of the
    domains that map to it, so several domains (every unmapped one, for
    instance) merge into one child.
   */
  lemma DbTreeCounts(stats: seq<DomainStat>)
    ensures Taxonomy.SumCounts(Taxonomy.Nodes(Tallies(CategoryEntries(stats)))) == StatTotal(stats)
    ensures forall n :: n in Taxonomy.Nodes(Tallies(CategoryEntries(stats))) ==> n.count == CategoryTotal(stats, n.name)
  {
    var es := CategoryEntries(stats);
    CategoryEntriesFacts(stats, "");
    Taxonomy.ChildrenConserve(es);
    Taxonomy.ChildrenCounts(es);
    forall n | n in Taxonomy.Nodes(Tallies(es)) ensures n.count == CategoryTotal(stats, n.name) {
      CategoryEntriesFacts(stats, n.name);
    }
  }

  /** Children follow the first appearance of their category among the grouped rows, and their ids differ. */
  lemma DbTreeOrder(stats: seq<DomainStat>)
    ensures forall n :: n in Taxonomy.Nodes(Tallies(CategoryEntries(stats))) ==> n.name in KeySet(CategoryEntries(stats))
    ensures forall i, j :: 0 <= i < j < |Taxonomy.Nodes(Tallies(CategoryEntries(stats)))| ==>
              var ns := Taxonomy.Nodes(Tallies(CategoryEntries(stats)));
              FirstIndex(CategoryEntries(stats), ns[i].name) < FirstIndex(CategoryEntries(stats), ns[j].name) &&
              ns[i].id != ns[j].id
  {
    var es := CategoryEntries(stats);
    CategoryEntriesFacts(stats, "");
    Taxonomy.ChildrenFirstSeen(es);
    Taxonomy.ChildIdsDistinct(es);
  }

  // ---------------------------------------------------------------- import_csv_data

  /** `str(cell)`: a missing cell prints as "nan". */
  function PyStr(cell: Option<string>): (s: string)
    ensures cell.None? ==> s == "nan"
    ensures cell.Some? ==> s == cell.value
  {
    match cell
    case None => "nan"
    case Some(v) => v
  }

  /** One row of `network_devices` made from port data. */
  datatype DeviceRecord = DeviceRecord(deviceId: string, hostname: string, vendor: string, domain: string, status: string)

  /** One row of `port_interfaces`. */
  datatype InterfaceRecord = InterfaceRecord(
    portId: string, deviceId: string, interfaceName: string, interfaceIp: string,
    interfaceStatus: string, portType: string, hostname: string, vendor: string)

  /** One row of `ip_assignments`. */
  datatype Assignment = Assignment(
    ip: string, deviceId: string, interfaceId: string, subnet: string,
    kind: string, status: string, hostname: string, vendor: string)

  function Hostname(r: PortRow): string {
    PyStr(r.hostName)
  }

  /** A hostname that identifies a device: neither empty nor a missing cell. */
  predicate KeepsHost(h: string) {
    h != "" && h != "nan"
  }

  /** The device entry a row would create, always marked "UP". */
  function DeviceOf(r: PortRow): DeviceRecord {
    DeviceRecord(PyStr(r.hostId), Hostname(r), PyStr(r.vendor), PyStr(r.domain), "UP")
  }

  function InterfaceOf(r: PortRow): InterfaceRecord {
    InterfaceRecord(PyStr(r.id), PyStr(r.hostId), PyStr(r.ifName), PyStr(r.ifIP),
                    PyStr(r.ifOperStatus), PyStr(r.ifType), Hostname(r), PyStr(r.vendor))
  }

  /** One entry per row with a usable hostname. */
  function HostEntries(rows: seq<PortRow>): seq<Entry>
    decreases |rows|
  {
    if rows == [] then []
    else
      var r := rows[|rows| - 1];
      HostEntries(rows[..|rows| - 1]) + (if KeepsHost(Hostname(r)) then [Entry(Hostname(r), 1)] else [])
  }

  /** Whether some row carries hostname `h`. */
  predicate HasHost(rows: seq<PortRow>, h: string) {
    exists i :: 0 <= i < |rows| && Hostname(rows[i]) == h
  }

  /** The first row that carries hostname `h`. */
  function FirstRow(rows: seq<PortRow>, h: string): (i: nat)
    requires HasHost(rows, h)
    ensures i < |rows| && Hostname(rows[i]) == h
    ensures forall j :: 0 <= j < i ==> Hostname(rows[j]) != h
    decreases |rows|
  {
    if Hostname(rows[0]) == h then 0
    else
      assert HasHost(rows[1..], h) by {
        var j :| 0 <= j < |rows| && Hostname(rows[j]) == h;
        assert rows[1..][j - 1] == rows[j];
      }
      1 + FirstRow(rows[1..], h)
  }

  /** The rows' IP text when it is usable and parses: `None` for "", "nan", "-" or anything `IPv4Address` rejects. */
  function RowIp(r: PortRow): Option<Address> {
    var ip := PyStr(r.ifIP);
    if ip == "" || ip == "nan" || ip == "-" then None else ParseAddress(ip)
  }

  function AssignmentOf(r: PortRow, a: Address): Assignment {
    Assignment(FormatAddress(a), PyStr(r.hostId), PyStr(r.id), Slash24(a), "interface", "active", Hostname(r), PyStr(r.vendor))
  }

  /** The `ip_assignments` rows, in row order. */
  function Assignments(rows: seq<PortRow>): seq<Assignment>
    decreases |rows|
  {
    if rows == [] then []
    else
      var r := rows[|rows| - 1];
      Assignments(rows[..|rows| - 1]) + (if RowIp(r).Some? then [AssignmentOf(r, RowIp(r).value)] else [])
  }

  /** A row's assignment, when it has one, stores the row's IP text as it was written. */
  lemma AssignmentOfRow(r: PortRow)
    requires RowIp(r).Some?
    ensures var x := AssignmentOf(r, RowIp(r).value);
            x.ip == PyStr(r.ifIP) && x.ip != "" && x.ip != "nan" && x.ip != "-" &&
            ParseAddress(x.ip) == RowIp(r) && SubnetOf(x.ip) == Some(x.subnet)
  {
    CanonicalText(PyStr(r.ifIP));
    PrintedSubnet(RowIp(r).value);
  }

  /** `x` is the assignment of some row among `rows`, and keeps that row's IP text. */
  predicate FromRow(rows: seq<PortRow>, x: Assignment) {
    exists r :: r in rows && RowIp(r).Some? && x == AssignmentOf(r, RowIp(r).value) && x.ip == PyStr(r.ifIP)
  }

  /**
    Every assignment comes from a row whose IP text is usable and parses as
    IPv4: it keeps that text, the row's interface and device ids, kind
    "interface", status "active", and the /24 network holding the address.
   */
  lemma {:induction false} AssignmentsSound(rows: seq<PortRow>)
    ensures |Assignments(rows)| <= |rows|
    ensures forall x :: x in Assignments(rows) ==>
              x.kind == "interface" && x.status == "active" &&
              x.ip != "" && x.ip != "nan" && x.ip != "-" && SubnetOf(x.ip) == Some(x.subnet) && FromRow(rows, x)
    decreases |rows|
  {
    if rows != [] {
      var p := rows[..|rows| - 1];
      var r := rows[|rows| - 1];
      assert rows == p + [r];
      AssignmentsSound(p);
      AssignmentsSnoc(p, r);
      forall x | x in Assignments(rows)
        ensures x.kind == "interface" && x.status == "active" &&
                x.ip != "" && x.ip != "nan" && x.ip != "-" && SubnetOf(x.ip) == Some(x.subnet) && FromRow(rows, x)
      {
        if x in Assignments(p) {
          var q :| q in p && RowIp(q).Some? && x == AssignmentOf(q, RowIp(q).value) && x.ip == PyStr(q.ifIP);
          assert q in rows;
        } else {
          AssignmentOfRow(r);
          assert r in rows;
        }
      }
    }
  }

  /** Every row whose IP text is usable and parses gets an assignment for that text and its interface. */
  lemma {:induction false} AssignmentsComplete(rows: seq<PortRow>)
    ensures forall r :: r in rows && RowIp(r).Some? ==> AssignmentOf(r, RowIp(r).value) in Assignments(rows)
    decreases |rows|
  {
    if rows != [] {
      var p := rows[..|rows| - 1];
      assert rows == p + [rows[|rows| - 1]];
      AssignmentsComplete(p);
    }
  }

  /** The devices `device_map` holds at the end, in insertion order. */
  ghost function Devices(rows: seq<PortRow>): seq<DeviceRecord> {
    var hs := Order(HostEntries(rows));
    HostsSeen(rows);
    seq(|hs|, i requires 0 <= i < |hs| => DeviceOf(rows[FirstRow(rows, hs[i])]))
  }

  /** Every hostname the device map records is carried by some row. */
  lemma HostsSeen(rows: seq<PortRow>)
    ensures forall h :: h in KeySet(HostEntries(rows)) ==> HasHost(rows, h)
  {
    forall h | h in KeySet(HostEntries(rows)) ensures HasHost(rows, h) {
      HostEntriesKeys(rows, h);
    }
  }

  lemma {:induction false} HostEntriesKeys(rows: seq<PortRow>, h: string)
    ensures h in KeySet(HostEntries(rows)) <==> KeepsHost(h) && HasHost(rows, h)
    decreases |rows|
  {
    if rows != [] {
      var p := rows[..|rows| - 1];
      var r := rows[|rows| - 1];
      assert rows == p + [r];
      HostEntriesKeys(p, h);
      if KeepsHost(Hostname(r)) {
        KeySetSnoc(HostEntries(p), Entry(Hostname(r), 1));
      } else {
        assert HostEntries(rows) == HostEntries(p);
      }
      if HasHost(rows, h) && !HasHost(p, h) {
        assert Hostname(r) == h;
      }
      if HasHost(p, h) {
        var j :| 0 <= j < |p| && Hostname(p[j]) == h;
        assert Hostname(rows[j]) == h;
      }
    }
  }

  lemma FirstRowSnoc(p: seq<PortRow>, r: PortRow, h: string)
    requires HasHost(p, h)
    ensures HasHost(p + [r], h) && FirstRow(p + [r], h) == FirstRow(p, h)
  {
    var i := FirstRow(p, h);
    assert (p + [r])[i] == p[i];
    assert forall j :: 0 <= j < i ==> (p + [r])[j] == p[j];
  }

  /** The device map's state after the rows `p`. */
  ghost predicate Mapped(p: seq<PortRow>, order: seq<string>, deviceMap: map<string, DeviceRecord>) {
    order == Order(HostEntries(p)) &&
    forall h :: h in order ==> HasHost(p, h) && h in deviceMap && deviceMap[h] == DeviceOf(p[FirstRow(p, h)])
  }

  /** The entries after one more row: one more exactly when its hostname is usable. */
  lemma HostEntriesSnoc(p: seq<PortRow>, r: PortRow)
    ensures HostEntries(p + [r]) == HostEntries(p) + (if KeepsHost(Hostname(r)) then [Entry(Hostname(r), 1)] else [])
  {
    assert (p + [r])[..|p|] == p;
  }

  /** Hostnames already seen keep their first row when one more row arrives. */
  lemma FirstRowsKept(p: seq<PortRow>, r: PortRow, order: seq<string>)
    requires forall k :: k in order ==> HasHost(p, k)
    ensures forall k :: k in order ==> HasHost(p + [r], k) && (p + [r])[FirstRow(p + [r], k)] == p[FirstRow(p, k)]
  {
    forall k | k in order ensures HasHost(p + [r], k) && (p + [r])[FirstRow(p + [r], k)] == p[FirstRow(p, k)] {
      FirstRowSnoc(p, r, k);
    }
  }

  /** A row whose hostname is already mapped, or unusable, leaves the device map as it is. */
  lemma MapKeep(p: seq<PortRow>, r: PortRow, order: seq<string>, deviceMap: map<string, DeviceRecord>)
    requires Mapped(p, order, deviceMap)
    requires !KeepsHost(Hostname(r)) || Hostname(r) in order
    ensures Mapped(p + [r], order, deviceMap)
  {
    var h := Hostname(r);
    HostEntriesSnoc(p, r);
    if KeepsHost(h) {
      OrderSnoc(HostEntries(p), Entry(h, 1));
    } else {
      assert HostEntries(p + [r]) == HostEntries(p);
    }
    assert Order(HostEntries(p + [r])) == order;
    FirstRowsKept(p, r, order);
  }

  /** A row with a usable hostname not yet mapped adds that hostname, mapped to the row's device. */
  lemma MapNew(p: seq<PortRow>, r: PortRow, order: seq<string>, deviceMap: map<string, DeviceRecord>)
    requires Mapped(p, order, deviceMap)
    requires KeepsHost(Hostname(r)) && Hostname(r) !in order
    ensures Mapped(p + [r], order + [Hostname(r)], deviceMap[Hostname(r) := DeviceOf(r)])
  {
    var h := Hostname(r);
    HostEntriesSnoc(p, r);
    OrderSnoc(HostEntries(p), Entry(h, 1));
    assert Order(HostEntries(p + [r])) == order + [h];
    FirstRowsKept(p, r, order);
    HostEntriesKeys(p, h);
    NewHostFirstRow(p, r);
    var m := deviceMap[h := DeviceOf(r)];
    forall k | k in order + [h] ensures HasHost(p + [r], k) && k in m && m[k] == DeviceOf((p + [r])[FirstRow(p + [r], k)]) {
    }
  }

  /** A hostname no earlier row carries is first carried by the new row. */
  lemma NewHostFirstRow(p: seq<PortRow>, r: PortRow)
    requires !HasHost(p, Hostname(r))
    ensures HasHost(p + [r], Hostname(r)) && FirstRow(p + [r], Hostname(r)) == |p|
  {
    assert Hostname((p + [r])[|p|]) == Hostname(r);
  }

  /** The interface records of the rows, one per row, in row order. */
  predicate Interfaced(rows: seq<PortRow>, interfaces: seq<InterfaceRecord>) {
    |interfaces| == |rows| && forall m :: 0 <= m < |rows| ==> interfaces[m] == InterfaceOf(rows[m])
  }

  lemma InterfaceStep(p: seq<PortRow>, r: PortRow, interfaces: seq<InterfaceRecord>)
    requires Interfaced(p, interfaces)
    ensures Interfaced(p + [r], interfaces + [InterfaceOf(r)])
  {
  }

  /** The assignments after one more row: one more exactly when its IP text is usable and parses. */
  lemma AssignmentsSnoc(p: seq<PortRow>, r: PortRow)
    ensures Assignments(p + [r]) == Assignments(p) + (if RowIp(r).Some? then [AssignmentOf(r, RowIp(r).value)] else [])
  {
    assert (p + [r])[..|p|] == p;
  }

  /** Listing the final map in its order gives exactly the imported devices. */
  lemma MappedDevices(rows: seq<PortRow>, order: seq<string>, deviceMap: map<string, DeviceRecord>, devices: seq<DeviceRecord>)
    requires Mapped(rows, order, deviceMap)
    requires |devices| == |order| && forall m :: 0 <= m < |order| ==> devices[m] == deviceMap[order[m]]
    ensures devices == Devices(rows)
  {
    assert forall m :: 0 <= m < |order| ==> devices[m] == Devices(rows)[m];
  }

  /**
    The port-import loop: every row yields one interface record; a row whose
    hostname is usable and not yet seen adds a device; a row whose IP text is
    usable and parses yields an IP assignment on its /24 subnet. The devices
    are then listed in the map's order.
   */
  method ImportPortRows(rows: seq<PortRow>) returns (devices: seq<DeviceRecord>, interfaces: seq<InterfaceRecord>, assignments: seq<Assignment>)
    ensures devices == Devices(rows)
    ensures |interfaces| == |rows| && forall i :: 0 <= i < |rows| ==> interfaces[i] == InterfaceOf(rows[i])
    ensures assignments == Assignments(rows)
  {
    var order: seq<string> := [];
    var deviceMap: map<string, DeviceRecord> := map[];
    interfaces := [];
    assignments := [];
    for i := 0 to |rows|
      invariant Mapped(rows[..i], order, deviceMap)
      invariant Interfaced(rows[..i], interfaces)
      invariant assignments == Assignments(rows[..i])
    {
      var r := rows[i];
      assert rows[..i + 1] == rows[..i] + [r];
      var hostname := PyStr(r.hostName);
      if hostname != "" && hostname != "nan" && hostname !in order {
        MapNew(rows[..i], r, order, deviceMap);
        order := order + [hostname];
        deviceMap := deviceMap[hostname := DeviceRecord(PyStr(r.hostId), hostname, PyStr(r.vendor), PyStr(r.domain), "UP")];
      } else {
        MapKeep(rows[..i], r, order, deviceMap);
      }
      InterfaceStep(rows[..i], r, interfaces);
      interfaces := interfaces + [InterfaceRecord(PyStr(r.id), PyStr(r.hostId), PyStr(r.ifName), PyStr(r.ifIP),
                                                  PyStr(r.ifOperStatus), PyStr(r.ifType), hostname, PyStr(r.vendor))];
      AssignmentsSnoc(rows[..i], r);
      var ip := PyStr(r.ifIP);
      if ip != "" && ip != "nan" && ip != "-" {
        match ParseAddress(ip)
        case Some(a) =>
          assert RowIp(r) == Some(a);
          PrintedSubnet(a);
          var subnet := SubnetOf(FormatAddress(a)).value;
          assignments := assignments + [Assignment(FormatAddress(a), PyStr(r.hostId), PyStr(r.id), subnet,
                                                   "interface", "active", hostname, PyStr(r.vendor))];
        case None =>
          assert RowIp(r).None?;
      } else {
        assert RowIp(r).None?;
      }
    }
    assert rows[..|rows|] == rows;
    devices := ListDevices(order, deviceMap);
    MappedDevices(rows, order, deviceMap, devices);
  }

  /** The second loop: one device row per map entry, in the map's order. */
  method ListDevices(order: seq<string>, deviceMap: map<string, DeviceRecord>) returns (devices: seq<DeviceRecord>)
    requires forall h :: h in order ==> h in deviceMap
    ensures |devices| == |order| && forall m :: 0 <= m < |order| ==> devices[m] == deviceMap[order[m]]
  {
    devices := [];
    for j := 0 to |order|
      invariant |devices| == j && forall m :: 0 <= m < j ==> devices[m] == deviceMap[order[m]]
    {
      var d := deviceMap[order[j]];
      devices := devices + [DeviceRecord(d.deviceId, d.hostname, d.vendor, d.domain, d.status)];
    }
  }

  /**
    The imported devices: one per usable hostname, none for "" or "nan",
    no hostname twice, each taken from the first row carrying it and
    marked "UP".
   */
  lemma DevicesFacts(rows: seq<PortRow>)
    ensures forall i, j :: 0 <= i < j < |Devices(rows)| ==> Devices(rows)[i].hostname != Devices(rows)[j].hostname
    ensures forall d :: d in Devices(rows) ==> KeepsHost(d.hostname) && d.status == "UP"
    ensures forall d :: d in Devices(rows) ==> HasHost(rows, d.hostname) && d == DeviceOf(rows[FirstRow(rows, d.hostname)])
    ensures forall r :: r in rows && KeepsHost(Hostname(r)) ==> exists d :: d in Devices(rows) && d.hostname == Hostname(r)
  {
    var es := HostEntries(rows);
    var hs := Order(es);
    var ds := Devices(rows);
    forall i | 0 <= i < |hs| ensures KeepsHost(hs[i]) && HasHost(rows, hs[i]) && ds[i].hostname == hs[i] {
      HostEntriesKeys(rows, hs[i]);
    }
    forall d | d in ds ensures HasHost(rows, d.hostname) && d == DeviceOf(rows[FirstRow(rows, d.hostname)]) {
      var i :| 0 <= i < |ds| && ds[i] == d;
    }
    forall r | r in rows && KeepsHost(Hostname(r)) ensures exists d :: d in ds && d.hostname == Hostname(r) {
      var i :| 0 <= i < |rows| && rows[i] == r;
      HostEntriesKeys(rows, Hostname(r));
      var m :| 0 <= m < |hs| && hs[m] == Hostname(r);
      assert ds[m] in ds;
    }
  }

  /** Some row carries `h` before any row carries `g`. */
  predicate FirstBefore(rows: seq<PortRow>, h: string, g: string) {
    HasHost(rows, h) && HasHost(rows, g) && FirstRow(rows, h) < FirstRow(rows, g)
  }

  /** Devices are listed in order of the first row carrying their hostname. */
  lemma DevicesFirstSeen(rows: seq<PortRow>)
    ensures forall i, j :: 0 <= i < j < |Devices(rows)| ==> FirstBefore(rows, Devices(rows)[i].hostname, Devices(rows)[j].hostname)
  {
    var es := HostEntries(rows);
    var hs := Order(es);
    OrderIsFirstSeen(es);
    forall i, j | 0 <= i < j < |Devices(rows)| ensures FirstBefore(rows, Devices(rows)[i].hostname, Devices(rows)[j].hostname) {
      HostEntriesKeys(rows, hs[i]);
      HostEntriesKeys(rows, hs[j]);
      assert Devices(rows)[i].hostname == hs[i] && Devices(rows)[j].hostname == hs[j];
      EntryOrderIsRowOrder(rows, hs[i], hs[j]);
    }
  }

  /** Host entries keep the rows' order: an earlier first entry means an earlier first row. */
  lemma {:induction false} EntryOrderIsRowOrder(rows: seq<PortRow>, h: string, g: string)
    requires h in KeySet(HostEntries(rows)) && g in KeySet(HostEntries(rows))
    requires FirstIndex(HostEntries(rows), h) < FirstIndex(HostEntries(rows), g)
    ensures FirstBefore(rows, h, g)
    decreases |rows|
  {
    HostEntriesKeys(rows, h);
    HostEntriesKeys(rows, g);
    var p := rows[..|rows| - 1];
    var r := rows[|rows| - 1];
    assert rows == p + [r];
    var es := HostEntries(p);
    if !KeepsHost(Hostname(r)) {
      assert HostEntries(rows) == es;
      assert FirstIndex(HostEntries(p), h) < FirstIndex(HostEntries(p), g);
      EntryOrderIsRowOrder(p, h, g);
      HostEntriesKeys(p, h);
      HostEntriesKeys(p, g);
      FirstRowSnoc(p, r, h);
      FirstRowSnoc(p, r, g);
    } else {
      var e := Entry(Hostname(r), 1);
      assert HostEntries(rows) == es + [e];
      KeySetSnoc(es, e);
      if h in KeySet(es) && g in KeySet(es) {
        FirstIndexSnoc(es, e, h);
        FirstIndexSnoc(es, e, g);
        EntryOrderIsRowOrder(p, h, g);
        FirstRowSnoc(p, r, h);
        FirstRowSnoc(p, r, g);
      } else if h in KeySet(es) {
        HostEntriesKeys(p, h);
        HostEntriesKeys(p, g);
        FirstRowSnoc(p, r, h);
        assert g == Hostname(r);
        assert FirstRow(rows, g) == |p|;
      } else {
        assert false;
      }
    }
  }

  // ---------------------------------------------------------------- get_ip_conflicts

  /** One row of the duplicate-IP query: the two concatenated name lists may be NULL. */
  datatype ConflictRow = ConflictRow(ip: string, count: nat, hostnames: Option<string>, vendors: Option<string>)

  /** The separator the query concatenates names with. */
  const NameSeparator := ", "

  /** `names.split(', ') if names else []`. */
  function SplitNames(names: Option<string>): (parts: seq<string>)
    ensures names.None? || names == Some("") <==> parts == []
  {
    if names.None? || names.value == "" then [] else Split(names.value, NameSeparator)
  }

  function ConflictOf(row: ConflictRow): ConflictDetail {
    ConflictDetail(row.ip, row.count, SplitNames(row.hostnames), SplitNames(row.vendors))
  }

  /** The report: one record per query row, in the query's order, counted in `total_conflicts`. */
  method ShapeConflicts(rows: seq<ConflictRow>) returns (report: ConflictReport)
    ensures report.totalConflicts == |rows| == |report.conflicts|
    ensures forall i :: 0 <= i < |rows| ==> report.conflicts[i] == ConflictOf(rows[i])
  {
    var details: seq<ConflictDetail> := [];
    for i := 0 to |rows|
      invariant |details| == i && forall m :: 0 <= m < i ==> details[m] == ConflictOf(rows[m])
    {
      var row := rows[i];
      details := details + [ConflictDetail(row.ip, row.count, SplitNames(row.hostnames), SplitNames(row.vendors))];
    }
    report := ConflictReport(|rows|, details);
  }

  /**
    Splitting loses nothing the query produced: joining the pieces back with
    the separator gives the concatenated text, and names that hold no comma
    come back one by one, in order.
   */
  lemma SplitNamesRoundTrip(names: seq<string>, text: Option<string>)
    ensures text.Some? ==> Join(SplitNames(text), NameSeparator) == text.value
    ensures |names| >= 1 && Join(names, NameSeparator) != "" && (forall n :: n in names ==> ',' !in n) ==>
              SplitNames(Some(Join(names, NameSeparator))) == names
  {
    if text.Some? && text.value != "" {
      JoinSplit(text.value, NameSeparator);
    }
    if |names| >= 1 && (forall n :: n in names ==> ',' !in n) {
      SplitJoin(names, NameSeparator);
    }
  }
}

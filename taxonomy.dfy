/**
  The two-level network tree the dashboards draw: a root named
  "IPAM Network" whose children are device categories. A device's domain is
  looked up in a fixed table of eight domains; everything else, including a
  missing domain and the placeholder "-", lands in "Network Equipment".
  Children carry an id derived from the category name and appear in the
  order their category was first met.
 */
module Taxonomy {
  import opened Wrappers
  import opened Text
  import opened Tally
  import Inventory

  const RootName := "IPAM Network"
  const Fallback := "Network Equipment"

  /** The domain-to-category table shared by the three tree builders. */
  const DomainMapping: map<string, string> := map[
    "CORE/AGGREGATION" := "Core Network",
    "ACCESS" := "Access Network",
    "DATACENTER" := "Data Center",
    "WAN" := "WAN Network",
    "CAMPUS" := "Campus Network",
    "METRO" := "Metro Network",
    "CUSTOMER" := "Customer Premise",
    "MGMT" := "Management Network"
  ]

  /** Every name a category can have. */
  const CategoryNames: set<string> := {
    "Core Network", "Access Network", "Data Center", "WAN Network", "Campus Network",
    "Metro Network", "Customer Premise", "Management Network", "Network Equipment"
  }

  /** `domain_mapping.get(domain, "Network Equipment")`. */
  function CategoryOf(domain: string): (c: string)
    ensures c in CategoryNames
  {
    if domain in DomainMapping then DomainMapping[domain] else Fallback
  }

  /** A missing domain and "-" are both read as "Unknown". */
  function Normalize(cell: Option<string>): string {
    match cell
    case None => "Unknown"
    case Some(d) => if d == "-" then "Unknown" else d
  }

  /** The category of a device row's domain cell. */
  function Classify(cell: Option<string>): string {
    CategoryOf(Normalize(cell))
  }

  /**
    The catch-all category is reached exactly by the domains outside the
    table: no table entry maps to it, so it never hides a known domain.
   */
  lemma FallbackExactlyUnmapped(domain: string)
    ensures CategoryOf(domain) == Fallback <==> domain !in DomainMapping
  {
  }

  /** A missing domain, "-", and any value outside the table all classify as "Network Equipment". */
  lemma ClassifyCases(cell: Option<string>)
    ensures cell.None? ==> Classify(cell) == Fallback
    ensures cell == Some("-") ==> Classify(cell) == Fallback
    ensures cell.Some? && cell.value in DomainMapping ==> Classify(cell) == DomainMapping[cell.value]
    ensures Classify(cell) == Fallback <==> cell.None? || cell.value !in DomainMapping
  {
    assert "Unknown" !in DomainMapping;
    assert "-" !in DomainMapping;
  }

  /** Distinct domains in the table may share a category only if they map to the same name. */
  lemma MappingIsInjective(d1: string, d2: string)
    requires d1 in DomainMapping && d2 in DomainMapping && d1 != d2
    ensures DomainMapping[d1] != DomainMapping[d2]
  {
  }

  // ---------------------------------------------------------------- ids

  /** `name.lower().replace(' ', '_')`. */
  function CategoryId(name: string): (id: string)
    ensures |id| == |name| && ' ' !in id
    ensures forall i :: 0 <= i < |name| ==>
              id[i] == if name[i] == ' ' then '_' else if 'A' <= name[i] <= 'Z' then (name[i] as int + 32) as char else name[i]
  {
    ReplaceChar(LowerAscii(name), ' ', '_')
  }

  /** Spaces become underscores and capitals become lower case: "Core Network" gets "core_network". */
  lemma CoreNetworkId()
    ensures CategoryId("Core Network") == "core_network"
  {
  }

  /**
    Different categories get different ids, so an id names its category.
    Names of equal length differ in their first letter.
   */
  lemma CategoryIdsDistinct(a: string, b: string)
    requires a in CategoryNames && b in CategoryNames && a != b
    ensures CategoryId(a) != CategoryId(b)
  {
    if |a| == |b| {
      assert a[0] != b[0] && 'A' <= a[0] <= 'Z' && 'A' <= b[0] <= 'Z';
      assert CategoryId(a)[0] == (a[0] as int + 32) as char && CategoryId(b)[0] == (b[0] as int + 32) as char;
    }
  }

  // ---------------------------------------------------------------- tree

  /** One child of the root: `{name, type: "category", id, count, children: []}`. */
  datatype CategoryNode = CategoryNode(name: string, kind: string, id: string, count: nat)

  /** The root: `{name, type: "root", id, count, children}`; the empty tree has no id. */
  datatype NetworkTree = NetworkTree(name: string, kind: string, id: Option<string>, count: nat, children: seq<CategoryNode>)

  /** `{"name": "IPAM Network", "type": "root", "children": [], "count": 0}`. */
  const EmptyTree := NetworkTree(RootName, "root", None, 0, [])

  function Node(t: Entry): CategoryNode {
    CategoryNode(t.key, "category", CategoryId(t.key), t.weight)
  }

  /** The children built from the grouped categories. */
  function Nodes(ts: seq<Entry>): (ns: seq<CategoryNode>)
    ensures |ns| == |ts|
  {
    seq(|ts|, i requires 0 <= i < |ts| => Node(ts[i]))
  }

  function SumCounts(ns: seq<CategoryNode>): nat
    decreases |ns|
  {
    if ns == [] then 0 else SumCounts(ns[..|ns| - 1]) + ns[|ns| - 1].count
  }

  lemma {:induction false} SumCountsNodes(ts: seq<Entry>)
    ensures SumCounts(Nodes(ts)) == Total(ts)
    decreases |ts|
  {
    if ts != [] {
      var p := ts[..|ts| - 1];
      SumCountsNodes(p);
      assert Nodes(ts)[..|ts| - 1] == Nodes(p);
    }
  }

  /**
    The category-counting loop of all three tree builders: a dict from
    category to count, filled in scan order, then one child per dict item.
    `es` holds one entry per scanned item: its category and the amount it
    adds (1 per device row, or a pre-grouped count).
   */
  method CountCategories(es: seq<Entry>) returns (children: seq<CategoryNode>)
    ensures children == Nodes(Tallies(es))
  {
    var order: seq<string> := [];
    var counts: map<string, nat> := map[];
    for i := 0 to |es|
      invariant Accumulated(es[..i], order, counts)
    {
      var e := es[i];
      assert es[..i + 1][..i] == es[..i];
      if e.key !in order {
        AccumulateNew(es[..i + 1], e.key, e.weight, order, counts);
        order := order + [e.key];
        counts := counts[e.key := 0];
      } else {
        AccumulateOld(es[..i + 1], e.key, e.weight, order, counts);
      }
      counts := counts[e.key := counts[e.key] + e.weight];
    }
    assert es[..|es|] == es;
    children := ListCategories(order, counts);
    ListingIsNodes(es, order, counts, children);
  }

  /** Listing the dict the loop filled gives the children of the grouped categories. */
  lemma ListingIsNodes(es: seq<Entry>, order: seq<string>, counts: map<string, nat>, children: seq<CategoryNode>)
    requires Accumulated(es, order, counts)
    requires |children| == |order|
    requires forall m :: 0 <= m < |order| ==> children[m] == Node(Entry(order[m], counts[order[m]]))
    ensures children == Nodes(Tallies(es))
  {
    assert forall m :: 0 <= m < |order| ==> Entry(order[m], counts[order[m]]) == Tallies(es)[m];
  }

  /** The second loop: one child per dict item, in the dict's order. */
  method ListCategories(order: seq<string>, counts: map<string, nat>) returns (children: seq<CategoryNode>)
    requires forall k :: k in order ==> k in counts
    ensures |children| == |order|
    ensures forall m :: 0 <= m < |order| ==> children[m] == Node(Entry(order[m], counts[order[m]]))
  {
    children := [];
    for j := 0 to |order|
      invariant |children| == j
      invariant forall m :: 0 <= m < j ==> children[m] == Node(Entry(order[m], counts[order[m]]))
    {
      var name := order[j];
      children := children + [CategoryNode(name, "category", CategoryId(name), counts[name])];
    }
  }

  /** The children's counts add up to everything scanned: no item is lost or counted twice. */
  lemma ChildrenConserve(es: seq<Entry>)
    ensures SumCounts(Nodes(Tallies(es))) == Total(es)
  {
    SumCountsNodes(Tallies(es));
    TalliesConserve(es);
  }

  /** Each child is a scanned category, carrying that category's own total and its derived id. */
  lemma ChildrenCounts(es: seq<Entry>)
    ensures forall n :: n in Nodes(Tallies(es)) ==> n.name in KeySet(es) && n.count == WeightOf(es, n.name) && n.id == CategoryId(n.name)
  {
    var ts := Tallies(es);
    var ns := Nodes(ts);
    TalliesListing(es);
    forall n | n in ns ensures n.name in KeySet(es) && n.count == WeightOf(es, n.name) {
      var i :| 0 <= i < |ns| && ns[i] == n;
      assert ts[i] in ts;
      assert n.name in KeySet(ts);
    }
  }

  /** Every scanned category has a child, and no two children share a name. */
  lemma ChildrenCover(es: seq<Entry>)
    ensures forall k :: k in KeySet(es) ==> exists n :: n in Nodes(Tallies(es)) && n.name == k
    ensures forall i, j :: 0 <= i < j < |Nodes(Tallies(es))| ==> Nodes(Tallies(es))[i].name != Nodes(Tallies(es))[j].name
  {
    var ts := Tallies(es);
    var ns := Nodes(ts);
    TalliesListing(es);
    forall k | k in KeySet(es) ensures exists n :: n in ns && n.name == k {
      assert k in KeySet(ts);
      var t :| t in ts && t.key == k;
      var i :| 0 <= i < |ts| && ts[i] == t;
      assert ns[i] in ns;
    }
  }

  /** Children appear in the order their category was first scanned. */
  lemma ChildrenFirstSeen(es: seq<Entry>)
    ensures forall n :: n in Nodes(Tallies(es)) ==> n.name in KeySet(es)
    ensures forall i, j :: 0 <= i < j < |Nodes(Tallies(es))| ==>
              FirstIndex(es, Nodes(Tallies(es))[i].name) < FirstIndex(es, Nodes(Tallies(es))[j].name)
  {
    var ns := Nodes(Tallies(es));
    ChildrenCounts(es);
    OrderIsFirstSeen(es);
    assert forall i :: 0 <= i < |ns| ==> ns[i].name == Order(es)[i];
  }

  /** The children of a tree built from category names never share an id. */
  lemma ChildIdsDistinct(es: seq<Entry>)
    requires forall e :: e in es ==> e.key in CategoryNames
    ensures forall i, j :: 0 <= i < j < |Nodes(Tallies(es))| ==> Nodes(Tallies(es))[i].id != Nodes(Tallies(es))[j].id
  {
    var ns := Nodes(Tallies(es));
    ChildrenCounts(es);
    forall i, j | 0 <= i < j < |ns| ensures ns[i].id != ns[j].id {
      assert ns[i] in ns && ns[j] in ns;
      var a := ns[i].name;
      var b := ns[j].name;
      assert a in KeySet(es) && b in KeySet(es);
      CategoryIdsDistinct(a, b);
    }
  }

  // ---------------------------------------------------------------- device trees

  /** One entry per device row: its category, weight 1. */
  function DeviceEntries(rows: seq<Inventory.DeviceRow>): (es: seq<Entry>)
    ensures |es| == |rows|
  {
    seq(|rows|, i requires 0 <= i < |rows| => Entry(Classify(rows[i].domain), 1))
  }

  /** How many device rows fall in category `c`. */
  function RowsIn(rows: seq<Inventory.DeviceRow>, c: string): nat
    decreases |rows|
  {
    if rows == [] then 0
    else RowsIn(rows[..|rows| - 1], c) + (if Classify(rows[|rows| - 1].domain) == c then 1 else 0)
  }

  lemma {:induction false} DeviceEntriesFacts(rows: seq<Inventory.DeviceRow>, c: string)
    ensures Total(DeviceEntries(rows)) == |rows|
    ensures WeightOf(DeviceEntries(rows), c) == RowsIn(rows, c)
    ensures forall e :: e in DeviceEntries(rows) ==> e.key in CategoryNames
    decreases |rows|
  {
    if rows != [] {
      var p := rows[..|rows| - 1];
      DeviceEntriesFacts(p, c);
      assert DeviceEntries(rows)[..|rows| - 1] == DeviceEntries(p);
    }
  }

  /**
    The snapshot device tree of `get_network_tree` / `create_network_tree_summary`:
    the empty tree for an empty table, otherwise a root with id "root"
    counting every row, over the category children.
   */
  method BuildDeviceTree(rows: seq<Inventory.DeviceRow>) returns (tree: NetworkTree)
    ensures rows == [] ==> tree == EmptyTree
    ensures rows != [] ==> tree == NetworkTree(RootName, "root", Some("root"), |rows|, Nodes(Tallies(DeviceEntries(rows))))
  {
    if rows == [] {
      return EmptyTree;
    }
    var children := CountCategories(DeviceEntries(rows));
    tree := NetworkTree(RootName, "root", Some("root"), |rows|, children);
  }

  /**
    The device tree accounts for every row exactly once: the root count is
    the number of rows and the sum of the children's counts, and each
    child counts exactly the rows of its category.
   */
  lemma DeviceTreeCounts(rows: seq<Inventory.DeviceRow>)
    requires rows != []
    ensures SumCounts(Nodes(Tallies(DeviceEntries(rows)))) == |rows|
    ensures forall n :: n in Nodes(Tallies(DeviceEntries(rows))) ==> n.count == RowsIn(rows, n.name) >= 1
  {
    var es := DeviceEntries(rows);
    DeviceEntriesFacts(rows, "");
    ChildrenConserve(es);
    ChildrenCounts(es);
    forall n | n in Nodes(Tallies(es)) ensures n.count == RowsIn(rows, n.name) >= 1 {
      DeviceEntriesFacts(rows, n.name);
      WeightOfPresent(es, n.name);
    }
  }

  /** The device tree's children are exactly the categories of the rows, each once, with distinct ids. */
  lemma DeviceTreeCategories(rows: seq<Inventory.DeviceRow>)
    ensures forall n :: n in Nodes(Tallies(DeviceEntries(rows))) ==>
              exists r :: r in rows && Classify(r.domain) == n.name
    ensures forall r :: r in rows ==>
              exists n :: n in Nodes(Tallies(DeviceEntries(rows))) && n.name == Classify(r.domain)
    ensures forall i, j :: 0 <= i < j < |Nodes(Tallies(DeviceEntries(rows)))| ==>
              Nodes(Tallies(DeviceEntries(rows)))[i].id != Nodes(Tallies(DeviceEntries(rows)))[j].id
  {
    var es := DeviceEntries(rows);
    DeviceEntriesFacts(rows, "");
    ChildrenCounts(es);
    ChildrenCover(es);
    ChildIdsDistinct(es);
    forall n | n in Nodes(Tallies(es)) ensures exists r :: r in rows && Classify(r.domain) == n.name {
      var e :| e in es && e.key == n.name;
      var i :| 0 <= i < |es| && es[i] == e;
      assert rows[i] in rows;
    }
    forall r | r in rows ensures exists n :: n in Nodes(Tallies(es)) && n.name == Classify(r.domain) {
      var i :| 0 <= i < |rows| && rows[i] == r;
      assert es[i] in es;
      assert es[i].key in KeySet(es);
    }
  }
}

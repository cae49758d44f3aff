# IPAM dashboard aggregation, modelled in Dafny

This project models the in-process logic of the IPAM dashboard. That logic turns
the device inventory and port tables into the views the dashboard shows:

- **network statistics**: device count, active devices, domain count and the top-8 vendor histogram;
- **a two-level category tree**: a root plus one child per category, with a fixed
  domain-to-category map and a "Network Equipment" catch-all;
- **a per-/24 port address analysis**: a histogram in `DataProvider`, and a
  per-subnet usage record with distinct-address counts in the server's own fallback;
- **the database manager's in-process steps**: the tree built from grouped domain
  counts, the device de-duplication and IP assignments of the port import, and the
  shaping of the duplicate-IP report.

Tables are sequences of rows. Every cell is an `Option<string>`, where `None` is a
cell pandas reads as missing (NaN). Database query results are inputs. Whatever
the database backend returns is represented only as `Delegated`.

Modules, one concept each:

- `Text`: decimal numerals, Python's `str.split`/`str.join`, ASCII lower-casing.
- `Ipv4`: dotted-quad parsing and printing as `ipaddress` does it, prefix
  networks with host bits masked (`strict=False`), and the /24 network of an address
  (section 3.1 of RFC 4632).
- `Tally`: grouping with counts in first-seen (dict insertion) order.
- `Ranking`: a stable sort by descending count and the top-`n` cut.
- `Inventory`: row and report records, and the statistics pieces.
- `Taxonomy`: the domain map, category ids, and the counting loop the three trees share.
- `DataProvider`, `MainServer`, `MysqlManager`: one module per source file.

## Model

| member | source | states |
|---|---|---|
| DataProvider.Provider.constructor | data_provider.py:11-27 | the backend flag is the liveness answer; the snapshot tables are loaded only in fallback mode and are empty when the files are missing |
| DataProvider.Provider.GetNetworkStats | data_provider.py:41-56 | delegated exactly when connected; otherwise the snapshot statistics of the device table |
| DataProvider.SnapshotStatsFacts | data_provider.py:47-56 | an empty table gives all zeros and no vendors; otherwise total is the row count and subnets is 189; active plus "DOWN" rows is the row count, so active ≤ total; domains is the number of distinct present domains; at most 8 vendors, each with its true row count, none left out outnumbering one kept |
| DataProvider.Provider.GetNetworkTree | data_provider.py:58-89 | delegated exactly when connected; an empty table gives the id-less empty root; otherwise the tree is exactly the "IPAM Network" root of type "root" with id "root" and the row count, over the category children of `Taxonomy.BuildDeviceTree` (first-seen order, one per category, ids derived from names); the children's counts add up to the root's, and each child counts the rows of its category |
| DataProvider.Provider.GetIpConflicts | data_provider.py:92-97 | delegated exactly when connected; otherwise always zero conflicts and an empty list |
| DataProvider.Provider.GetPortAnalysis | data_provider.py:99-127 | delegated exactly when connected; otherwise the ranked /24 histogram with device count 0 on every bucket, at most 20 buckets, nothing for an empty port table |
| DataProvider.AddDeviceCounts | data_provider.py:124-125 | every bucket keeps its subnet and count, in order, with device count set to 0 |
| DataProvider.SubnetEntriesFacts | data_provider.py:108-120 | each subnet's group size is the number of rows whose IP passes the filter and whose `ip/24` parses into it; rows outside the filter or failing to parse add nothing |
| DataProvider.PortSubnetCases | data_provider.py:108-118 | a missing, "-" or empty IP has no subnet; an IP text that does not parse has none; a parsed address gives its /24 network |
| DataProvider.SubnetHistogramShape | data_provider.py:120-121 | at most 20 buckets, sorted by count descending, no subnet twice, each count the true group size and at least 1 |
| DataProvider.SubnetHistogramTop | data_provider.py:120-121 | no subnet left out has more rows than a subnet kept |
| DataProvider.SubnetHistogramTotal | data_provider.py:108-121 | the kept counts add up to at most the number of rows passing the filter |
| DataProvider.EmptyPortsNoSubnets | data_provider.py:105-106 | an empty port table gives no subnets |
| DataProvider.SumRankIsTotal | data_provider.py:120-121 | the ranking's sum of counts is the grouping's total |
| Taxonomy.CategoryOf | data_provider.py:68-79 | every domain lands in one of the nine category names |
| Taxonomy.FallbackExactlyUnmapped | data_provider.py:68-79 | a domain reaches "Network Equipment" exactly when it is not one of the eight mapped domains |
| Taxonomy.ClassifyCases | data_provider.py:77-79 | a missing or "-" domain becomes "Network Equipment"; a mapped domain gets its fixed name; the catch-all is hit exactly by missing or unmapped cells |
| Taxonomy.MappingIsInjective | data_provider.py:68-72 | two different mapped domains never share a category |
| Taxonomy.CategoryId | data_provider.py:87 | the id has the name's length; at every position a space becomes "_", an ASCII capital becomes its lower-case letter, and any other character is kept |
| Taxonomy.CoreNetworkId | data_provider.py:87 | an illustration of the id rule: "Core Network" gets the id "core_network" |
| Taxonomy.CategoryIdsDistinct | data_provider.py:84-88 | different category names give different ids |
| Taxonomy.CountCategories | data_provider.py:75-88 | the counting loop and the listing of the categories dict produce the grouped children, in first-seen order |
| Taxonomy.ListCategories | data_provider.py:84-88 | one child per category in dict order, carrying that category's count and id |
| Taxonomy.SumCountsNodes | data_provider.py:84-88 | the children's counts add up to the grouped total |
| Taxonomy.ChildrenConserve | data_provider.py:80-88 | the children's counts add up to the total weight counted |
| Taxonomy.ChildrenCounts | data_provider.py:80-88 | each child's count is the weight of its category, and its id derives from its name |
| Taxonomy.ChildrenCover | data_provider.py:80-88 | every category seen has a child, and no category appears twice |
| Taxonomy.ChildrenFirstSeen | data_provider.py:80-88 | children appear in the order their categories were first met |
| Taxonomy.ChildIdsDistinct | data_provider.py:84-88 | no two children share an id |
| Taxonomy.DeviceEntriesFacts | data_provider.py:76-82 | each device row adds exactly one to its category, so the total is the row count |
| Taxonomy.BuildDeviceTree | data_provider.py:64-89 | an empty table gives the id-less root with count 0; otherwise a root with id "root", the row count, and the grouped category children |
| Taxonomy.DeviceTreeCounts | data_provider.py:73-88 | children's counts add up to the row count, and each child counts the rows classified into it (at least one) |
| Taxonomy.DeviceTreeCategories | data_provider.py:76-88 | every child comes from some row, every row lands in a child, and child ids differ |
| Inventory.ActiveCount | data_provider.py:50 | the active rows never outnumber the table |
| Inventory.ActivePlusDown | data_provider.py:50 | every row is active or "DOWN", so a missing status counts as active |
| Inventory.DistinctDomains | data_provider.py:51 | the number of distinct present domains is at most the row count |
| Inventory.UniqueDomainCells | main_server.py:171 | the number of distinct domain cells, missing included, is at most the row count |
| Inventory.UniqueVersusDistinct | main_server.py:171 | counting distinct cells exceeds counting distinct present values by one exactly when some domain is missing |
| Inventory.VendorEntriesCount | data_provider.py:53 | each vendor's count is its number of rows; missing vendors are not counted |
| Inventory.ToMapFacts | data_provider.py:53 | the dict built from the records has exactly their keys, no more entries than records, and each value from a record |
| Inventory.VendorDistributionCounts | data_provider.py:53 | at most 8 vendors, each mapped to its true row count, at least 1 |
| Inventory.VendorDistributionTop | data_provider.py:53 | no vendor left out has more rows than a vendor kept |
| Inventory.VendorDistributionComplete | data_provider.py:53 | with at most 8 distinct vendors, every vendor appears |
| Tally.TalliesConserve | data_provider.py:120 | grouping keeps the total count |
| Tally.TalliesListing | data_provider.py:120 | one group per distinct key, no key twice |
| Tally.OrderIsFirstSeen | data_provider.py:84 | groups are listed in order of each key's first occurrence |
| Tally.AccumulateOld | data_provider.py:80-82 | counting an item whose key is already present keeps the first-seen order and adds the item's weight to that key's count |
| Tally.AccumulateNew | data_provider.py:80-82 | counting an item with a new key appends the key to the first-seen order with count 0, then adds the item's weight |
| Ranking.SortDescCorrect | main_server.py:315 | the sort is a permutation of its input, ordered by descending count |
| Ranking.TopNShape | main_server.py:315 | the cut keeps min(n, length) items drawn from the input, largest first, and all of them when nothing is cut |
| Ranking.TopNKeepsLargest | main_server.py:315 | nothing left out outranks anything kept |
| Ranking.TopNStable | main_server.py:315 | among equal counts, the kept items are a prefix of them in input order |
| Ranking.TopNSum | data_provider.py:121 | the kept counts add up to at most the input's |
| Ranking.TopNDistinct | data_provider.py:120-121 | distinct keys stay distinct after ranking |
| Text.DecimalRoundTrip | main_server.py:293 | reading back a printed octet gives the number |
| Text.CanonicalRoundTrip | main_server.py:293 | a canonical numeral prints back as itself |
| Text.JoinSplit | mysql_manager.py:533-534 | joining the pieces of a split with the same separator restores the text |
| Text.SplitJoin | mysql_manager.py:533-534 | splitting names joined with a separator whose first character they lack gives the names back |
| Ipv4.ParseOctet | main_server.py:293 | an accepted octet is a canonical numeral of at most 255 |
| Ipv4.AddressRoundTrip | main_server.py:293-305 | printing an address and parsing it back gives the address |
| Ipv4.CanonicalText | main_server.py:305 | an accepted address prints back as the exact text it came from |
| Ipv4.ParseInjective | main_server.py:293 | two different texts never parse to the same address |
| Ipv4.ParseNetwork | data_provider.py:113 | an accepted network has a prefix of at most 32 |
| Ipv4.Mask24 | data_provider.py:113 | masking to /24 keeps the first three octets and zeroes the last |
| Ipv4.SubnetOfAddress | data_provider.py:111-115 | `ip/24` parses exactly when the IP text is a valid address, and then gives its /24 network |
| Ipv4.PrintedSubnet | main_server.py:294 | the /24 of a printed address is that address's /24 network |
| Ipv4.SameSlash24 | main_server.py:294 | two addresses share a /24 exactly when their first three octets agree |
| MainServer.CreateNetworkTreeSummary | main_server.py:73-124 | an empty table gives the root with count 0 and no children; otherwise exactly the "IPAM Network" root of type "root" with id "root" and the row count, over the category children in first-seen order, one per category; the count is also the sum of the children's counts; each child counts its category's rows, has a derived id and is one of the nine categories |
| MainServer.GetStats | main_server.py:162-174 | the database figures when they report devices, the snapshot branch otherwise |
| MainServer.CsvStatsFacts | main_server.py:167-174 | no statistics for an empty table; otherwise total is the row count; active plus "DOWN" rows is the row count; domains counts distinct cells with a missing one included; subnets is 189; at most 8 vendors, each with its true count |
| MainServer.AnalyzePortIps | main_server.py:282-316 | the scanning, de-duplication and ranking loops produce the analysis dict defined over the rows |
| MainServer.ListUsages | main_server.py:309-312 | each subnet's distinct addresses are the set of its address list, and its device count is that set's size |
| MainServer.ScanOld | main_server.py:291-305 | a valid address in a subnet already present adds one to its count and its printed form to its list |
| MainServer.ScanNew | main_server.py:291-305 | a valid address in a new subnet creates the subnet last, with count 0 and an empty list, then adds itself |
| MainServer.ScanSkip | main_server.py:292-307 | a row whose IP is filtered out or invalid changes nothing |
| MainServer.IpListLength | main_server.py:304-305 | a subnet's address list has one entry per counted row |
| MainServer.IpListMembers | main_server.py:293-305 | every listed address is a row's IP text exactly, valid, and inside that subnet |
| MainServer.SameGrouping | main_server.py:288-294 | this grouping is exactly the port-analysis grouping of `DataProvider` |
| MainServer.UsageFacts | main_server.py:304-312 | each subnet's total is its group size (at least 1); its device count is its number of distinct addresses, at most the total; every address lies in the subnet |
| MainServer.UsagesDistinct | main_server.py:296-302 | no subnet appears twice |
| MainServer.UsagesFirstSeen | main_server.py:296-302 | subnets are listed in order of their first valid row |
| MainServer.AnalysisRanking | main_server.py:315 | at most 20 subnets, by total descending; none left out has a larger total than one kept; equal totals keep first-seen order |
| MainServer.AnalysisDict | main_server.py:316 | the returned dict lists the ranked subnets in rank order, each with its usage |
| MainServer.EmptyAnalysis | main_server.py:284-285 | an empty port table gives the empty dict |
| MainServer.DictOfFacts | main_server.py:316 | a dict built from items has their keys, lists each key once, and keeps the last value given for a key |
| MainServer.DictOfDistinct | main_server.py:316 | with distinct keys, the dict keeps every item in order |
| MainServer.ReshapeDbAnalysis | main_server.py:236-280 | a missing or empty subnet list gives the fixed three-subnet sample; otherwise a dict keyed by subnet mapping `ip_count` to `total_ips` and `device_count` to `total_devices` |
| MainServer.ReshapeFacts | main_server.py:237-245 | the dict has exactly the records' subnets, and the last record of each subnet gives its totals |
| MysqlManager.CategoryEntriesFacts | mysql_manager.py:481-498 | every grouped count goes to a category, and the categories' totals add up to the grouped total |
| MysqlManager.BuildTreeFromDb | mysql_manager.py:476-500 | the root always has id "root" and counts the sum of the grouped counts; the children are the categories in first-seen order with their summed counts |
| MysqlManager.DbTreeCounts | mysql_manager.py:481-498 | the children's counts add up to the root count; each child counts exactly the devices of the domains mapped to it, so several domains merge into one child |
| MysqlManager.DbTreeOrder | mysql_manager.py:489-500 | children follow their category's first appearance among the grouped rows, and their ids differ |
| MysqlManager.FirstRow | mysql_manager.py:241 | the first row carrying a hostname: it carries it and no earlier row does |
| MysqlManager.HostEntriesKeys | mysql_manager.py:241 | a hostname is recorded exactly when some row carries it and it is neither empty nor "nan" |
| MysqlManager.MapKeep | mysql_manager.py:241-248 | a row whose hostname is unusable or already mapped leaves the device map, and each hostname's first row, unchanged |
| MysqlManager.MapNew | mysql_manager.py:241-248 | a row with a usable, unmapped hostname adds that hostname last, mapped to the row's device marked "UP" |
| MysqlManager.ImportPortRows | mysql_manager.py:228-318 | one interface record per row, the devices of the device map in insertion order, and the IP assignments in row order |
| MysqlManager.ListDevices | mysql_manager.py:305-318 | one device row per map entry, in the map's order |
| MysqlManager.DevicesFacts | mysql_manager.py:236-248 | one device per usable hostname and none for "" or "nan"; no hostname twice; each device comes from the first row carrying its hostname and is "UP" |
| MysqlManager.DevicesFirstSeen | mysql_manager.py:241-248 | devices are listed in order of their hostname's first row |
| MysqlManager.AssignmentOfRow | mysql_manager.py:263-273 | an assignment keeps the row's IP text exactly, and its subnet is that address's /24 |
| MysqlManager.AssignmentsSound | mysql_manager.py:262-280 | every assignment comes from a row whose IP is not "", "nan" or "-" and parses; it has kind "interface", status "active" and the /24 of that IP; there are no more assignments than rows |
| MysqlManager.AssignmentsComplete | mysql_manager.py:262-280 | every row whose IP is usable and parses gets its assignment |
| MysqlManager.SplitNames | mysql_manager.py:533-534 | a missing or empty value gives no names; anything else gives at least one |
| MysqlManager.ShapeConflicts | mysql_manager.py:529-541 | one record per result row in order, with the ip and count copied and both name lists split; the total is the number of rows |
| MysqlManager.SplitNamesRoundTrip | mysql_manager.py:533-534 | joining the split names restores the text; names without a comma come back one by one, in order |

## Left out

- The MySQL connection, table creation, every SQL query and the SQL-side cache are not modelled. Query results are inputs (`DomainStat`, `ConflictRow`, the `SubnetBucket` records). The database backend's answers are only `Delegated`.
- CSV loading and its `FileNotFoundError` branch are reduced to the `SnapshotLoad` input. pandas' inference of numeric column types is not modelled: every cell is text or missing.
- The liveness probe in the `DataProvider` constructor is a boolean parameter.
- Flask routing, `jsonify`, HTTP status codes, the demonstration statistics and the exception branches of the routes are not modelled.
- The browser script and the two HTTP client scripts are not part of this model.
- The order pandas gives to equal counts in `value_counts` and `sort_values` is not claimed. The model uses a stable order, but the lemmas about the vendor and subnet histograms state only counts, the top-k cut and the descending order. Tie order is claimed only for the server's own `sorted`.
- A device table without a `domain` column, where `row.get` falls back to "Unknown", is not modelled. Every row has the cell, possibly missing.
- `MysqlManager.ImportPortRows`: the import's 10000-row chunks are not modelled. The device map spans all chunks, and the per-chunk lists concatenate to the single pass modelled here.
- `MysqlManager.ImportPortRows`: `INSERT IGNORE`, which drops repeated IPs at insertion, happens in the database and is not modelled.
- `MainServer.UsageFacts`: `unique_ips` is kept as a set; the list order `list(set(...))` happens to produce is not modelled.
- The empty `duplicate_ips` dict and the empty per-category `children` lists are constant and are not represented.
- `Text.LowerAscii`: `str.lower` is modelled on ASCII letters only. Category names are ASCII, so ids are unaffected.
- `Ipv4.ParseNetwork`: a dotted netmask after the slash is not accepted. The suffix is always the literal "24", so this path is never taken.
- The distinction between a table that was never loaded and one loaded empty is not modelled. Both give the empty-table answers.

/**
 * The `DataModel` class of src/DataModel.ts. Per address family it keeps
 * the local AS and router id of the last import, a table of `Route` objects
 * indexed on `prefix` and `originAsn`, and a table of `AsInfo` objects
 * indexed on `asn`. An import builds both tables afresh from a decoded dump
 * and then swaps them in. The import's loops are proved against the value
 * level description `Aggregation.Import`: the route objects hold its routes,
 * and the `AsInfo` objects its AS table, in insertion order.
 */
module DataModels {
  import opened Wrappers
  import opened Tables
  import opened Aggregation

  /** A value an index keys on: the `prefix` text of a route, or an AS number. */
  datatype FieldValue = Text(text: string) | Number(number: int)

  const PREFIX_KEY: string := "prefix"
  const ORIGIN_ASN_KEY: string := "originAsn"
  const ASN_KEY: string := "asn"

  /** `new Table<Route>(['prefix', 'originAsn'])`. */
  const ROUTE_KEYS: seq<PropertyKey> := [StringKey(PREFIX_KEY), StringKey(ORIGIN_ASN_KEY)]

  /** `new Table<AsInfo>(['asn'])`. */
  const AS_INFO_KEYS: seq<PropertyKey> := [StringKey(ASN_KEY)]

  /** A `Route` object: its fields never change, and two equal routes are still two objects. */
  class Route {
    const ipVersion: nat
    const prefix: string
    const asPath: seq<nat>
    const originAsn: nat

    constructor(ipVersion: nat, prefix: string, asPath: seq<nat>, originAsn: nat)
      ensures Value() == RouteValue(ipVersion, prefix, asPath, originAsn)
    {
      this.ipVersion := ipVersion;
      this.prefix := prefix;
      this.asPath := asPath;
      this.originAsn := originAsn;
    }

    function Value(): RouteValue
    {
      RouteValue(ipVersion, prefix, asPath, originAsn)
    }

    /** The fields `Table.add` reads for the keys `prefix` and `originAsn`; both are always defined. */
    function Fields(): map<string, FieldValue>
    {
      map[PREFIX_KEY := Text(prefix), ORIGIN_ASN_KEY := Number(originAsn)]
    }
  }

  /** An `AsInfo` object: its `prefixes` and `neighborAsns` arrays grow in place while it sits in the table. */
  class AsInfo {
    const asn: nat
    var prefixes: seq<string>
    var neighborAsns: seq<nat>
    /** The table the record is made for: the objects an import may write to are those of its own table. */
    ghost const table: Table<FieldValue, AsInfo>

    /** `{ asn, prefixes: [], neighborAsns: [] }`, made for `table`. */
    constructor(asn: nat, ghost table: Table<FieldValue, AsInfo>)
      ensures Value() == AsInfoValue(asn, [], []) && this.table == table
    {
      this.asn := asn;
      this.table := table;
      prefixes := [];
      neighborAsns := [];
    }

    function Value(): AsInfoValue
      reads this
    {
      AsInfoValue(asn, prefixes, neighborAsns)
    }
  }

  ghost function RouteValues(rs: seq<Route>): (r: seq<RouteValue>)
    ensures |r| == |rs| && forall j :: 0 <= j < |rs| ==> r[j] == rs[j].Value()
  {
    if rs == [] then [] else RouteValues(rs[..|rs| - 1]) + [rs[|rs| - 1].Value()]
  }

  ghost function AsInfoValues(rs: seq<AsInfo>): (r: seq<AsInfoValue>)
    reads rs
    ensures |r| == |rs| && forall j :: 0 <= j < |rs| ==> r[j] == rs[j].Value()
  {
    if rs == [] then [] else AsInfoValues(rs[..|rs| - 1]) + [rs[|rs| - 1].Value()]
  }

  /** The route table holds, in order, route objects with the values `routes`. */
  ghost predicate RoutesMirror(t: Table<FieldValue, Route>, routes: seq<RouteValue>)
    reads t, t.Indices
  {
    t.Valid() && RouteValues(t.items) == routes
  }

  /**
   * `find('asn', a)` on the table state `st` gives the object `items[j]` for
   * the `j`-th ASN of `order`, and nothing for an ASN not in `order`.
   */
  ghost predicate FindsRecords(st: TableState<FieldValue, AsInfo>, items: seq<AsInfo>, order: seq<nat>)
  {
    && |items| == |order|
    && (forall j :: 0 <= j < |items| ==> TableFind(st, StringKey(ASN_KEY), Number(order[j])) == [items[j]])
    && (forall a: nat :: a !in order ==> TableFind(st, StringKey(ASN_KEY), Number(a)) == [])
  }

  /** The objects `items`, all made for the table `t`, hold in order the records of `s`. */
  ghost predicate HoldsRecords(items: seq<AsInfo>, s: AsState, t: Table<FieldValue, AsInfo>)
    reads items
  {
    && |items| == |s.order|
    && forall j :: 0 <= j < |items| ==> items[j].table == t && s.order[j] in s.info && items[j].Value() == s.info[s.order[j]]
  }

  /**
   * The AS table holds, in order, one object per ASN of `s` with that ASN's
   * record, and `find('asn', a)` gives the object of `a`, or nothing for an
   * ASN without a record.
   */
  ghost predicate AsMirror(t: Table<FieldValue, AsInfo>, s: AsState)
    reads t, t.Indices, t.items
  {
    AsIndexed(t, s.order) && AsStateValid(s) && HoldsRecords(t.items, s, t)
  }

  /** The objects of an AS table that mirrors `s` hold, in order, the records of `s`. */
  lemma AsMirrorRecords(t: Table<FieldValue, AsInfo>, s: AsState)
    requires AsMirror(t, s)
    ensures AsInfoValues(t.items) == Records(s)
  {
    var r := Records(s);
    forall j | 0 <= j < |t.items|
      ensures AsInfoValues(t.items)[j] == r[j]
    {
      assert t.items[j].Value() == s.info[s.order[j]];
    }
  }

  /** The table part of `AsMirror`, which writes to the records leave alone. */
  ghost predicate AsIndexed(t: Table<FieldValue, AsInfo>, order: seq<nat>)
    reads t, t.Indices
  {
    t.Valid() && ASN_KEY in t.keys && FindsRecords(t.State(), t.items, order)
  }

  /** `find('asn', a)` keeps answering as `FindsRecords` says once a record for a new ASN `a` is added. */
  lemma FindsRecordsAdd(st: TableState<FieldValue, AsInfo>, items: seq<AsInfo>, order: seq<nat>, item: AsInfo, a: nat)
    requires TableInvariant(st) && ASN_KEY in st.keys && FindsRecords(st, items, order) && a !in order
    ensures FindsRecords(TableAdd(st, item, map[ASN_KEY := Number(a)]), items + [item], order + [a])
  {
    var fields := map[ASN_KEY := Number(a)];
    TableAddFresh(st, item, fields, ASN_KEY);
    var order' := order + [a];
    forall j | 0 <= j < |order'|
      ensures TableFind(TableAdd(st, item, fields), StringKey(ASN_KEY), Number(order'[j])) == [(items + [item])[j]]
    {
      if j < |order| {
        assert order'[j] == order[j] != a;
      }
    }
  }

  /** The objects of a table still hold its records once a new object with the empty record of a new ASN `a` follows them. */
  lemma HoldsRecordsAdd(items: seq<AsInfo>, s: AsState, table: Table<FieldValue, AsInfo>, item: AsInfo, a: nat)
    requires HoldsRecords(items, s, table) && a !in s.info && item.Value() == AsInfoValue(a, [], []) && item.table == table
    ensures HoldsRecords(items + [item], Touch(s, a), table)
  {
    var t := Touch(s, a);
    var items' := items + [item];
    forall j | 0 <= j < |items'|
      ensures items'[j].table == table && t.order[j] in t.info && items'[j].Value() == t.info[t.order[j]]
    {
      if j < |items| {
        assert items'[j] == items[j] && t.order[j] == s.order[j] != a;
      }
    }
  }

  /** `asInfo.add(item)` under the key `asn`, for an ASN `a` without a record: `find` then answers with `item` for `a`. */
  method AddToTable(asInfo: Table<FieldValue, AsInfo>, item: AsInfo, a: nat, ghost order: seq<nat>)
    requires AsIndexed(asInfo, order) && a !in order && item !in asInfo.items
    modifies asInfo, asInfo.Indices
    ensures AsIndexed(asInfo, order + [a]) && asInfo.items == old(asInfo.items) + [item]
    ensures unchanged(old(asInfo.items))
  {
    ghost var items := asInfo.items;
    FindsRecordsAdd(asInfo.State(), items, order, item, a);
    asInfo.Add(item, map[ASN_KEY := Number(a)]);
  }

  /** A new record for `a`, added to the table: the `asInfo.add` of a record that `find` did not turn up. */
  method AddRecord(asInfo: Table<FieldValue, AsInfo>, a: nat, ghost s: AsState)
    returns (item: AsInfo, ghost j: nat)
    requires AsMirror(asInfo, s) && a !in s.info
    modifies asInfo, asInfo.Indices
    ensures AsMirror(asInfo, Touch(s, a))
    ensures j < |asInfo.items| && asInfo.items[j] == item && Touch(s, a).order[j] == a
  {
    ghost var items := asInfo.items;
    item := new AsInfo(a, asInfo);
    j := |items|;
    AddToTable(asInfo, item, a, s.order);
    HoldsRecordsAdd(items, s, asInfo, item, a);
    TouchValid(s, a);
  }

  /** `asInfo.find('asn', a)[0]`, and a new record added when that is `undefined`. */
  method FindOrAdd(asInfo: Table<FieldValue, AsInfo>, a: nat, ghost s: AsState)
    returns (item: AsInfo, ghost j: nat)
    requires AsMirror(asInfo, s)
    modifies asInfo, asInfo.Indices
    ensures AsMirror(asInfo, Touch(s, a))
    ensures j < |asInfo.items| && asInfo.items[j] == item && Touch(s, a).order[j] == a
  {
    var found := asInfo.Find(StringKey(ASN_KEY), Number(a));
    if found == [] {
      item, j := AddRecord(asInfo, a, s);
    } else {
      assert a in s.order;
      j :| 0 <= j < |s.order| && s.order[j] == a;
      item := found[0];
    }
  }

  /** Distinct ASNs have distinct objects. */
  lemma OthersDiffer(items: seq<AsInfo>, s: AsState, table: Table<FieldValue, AsInfo>, j: nat)
    requires HoldsRecords(items, s, table) && AsStateValid(s) && j < |items|
    ensures forall i :: 0 <= i < |items| && i != j ==> items[i] != items[j] && s.order[i] != s.order[j]
  {
    forall i | 0 <= i < |items| && i != j
      ensures items[i] != items[j] && s.order[i] != s.order[j]
    {
      assert s.order[i] != s.order[j];
      assert items[i].Value().asn == s.order[i];
    }
  }

  /** `asInfoItem.prefixes.push(network)` on the `j`-th object of `items`. */
  method AppendPrefix(ghost asInfo: Table<FieldValue, AsInfo>, ghost items: seq<AsInfo>, item: AsInfo, ghost j: nat,
                      network: string, ghost s: AsState)
    requires HoldsRecords(items, s, asInfo) && AsStateValid(s) && j < |items| && items[j] == item
    modifies item
    ensures HoldsRecords(items, AddPrefix(s, s.order[j], network), asInfo)
    ensures unchanged(asInfo, asInfo.Indices)
  {
    OthersDiffer(items, s, asInfo, j);
    assert item.Value() == s.info[s.order[j]];
    item.prefixes := item.prefixes + [network];
    ghost var t := AddPrefix(s, s.order[j], network);
    forall i | 0 <= i < |items|
      ensures items[i].table == asInfo && t.order[i] in t.info && items[i].Value() == t.info[t.order[i]]
    {
      if i != j {
        assert items[i] != item;
      }
    }
  }

  /** `if (other != asn && !neighborAsns.includes(other)) neighborAsns.push(other)` on the `j`-th object of `items`. */
  method PushNeighbor(ghost asInfo: Table<FieldValue, AsInfo>, ghost items: seq<AsInfo>, item: AsInfo, ghost j: nat,
                      other: nat, ghost s: AsState)
    requires HoldsRecords(items, s, asInfo) && AsStateValid(s) && j < |items| && items[j] == item
    modifies item
    ensures HoldsRecords(items, AddNeighbor(s, s.order[j], other), asInfo)
    ensures unchanged(asInfo, asInfo.Indices)
  {
    assert item.Value() == s.info[s.order[j]];
    if other != item.asn && other !in item.neighborAsns {
      OthersDiffer(items, s, asInfo, j);
      item.neighborAsns := item.neighborAsns + [other];
      ghost var t := AddNeighbor(s, s.order[j], other);
      forall i | 0 <= i < |items|
        ensures items[i].table == asInfo && t.order[i] in t.info && items[i].Value() == t.info[t.order[i]]
      {
        if i != j {
          assert items[i] != item;
        }
      }
    }
  }

  /** Round `i` of the loop over `p`: find or add the record of `p[i]` and push its predecessor and successor. */
  method LinkRound(asInfo: Table<FieldValue, AsInfo>, p: seq<nat>, i: nat, ghost s: AsState)
    requires AsMirror(asInfo, s) && i < |p|
    modifies asInfo, asInfo.Indices, iset r: AsInfo | r.table == asInfo
    ensures AsMirror(asInfo, LinkAt(s, p, i))
  {
    var item, j := FindOrAdd(asInfo, p[i], s);
    ghost var t := Touch(s, p[i]);
    LinkNeighbors(asInfo, asInfo.items, item, j, p, i, t);
    assert AsIndexed(asInfo, t.order);
  }

  /** The two guarded pushes of round `i`, on the `j`-th object of `items`, the record of `p[i]`. */
  method LinkNeighbors(ghost asInfo: Table<FieldValue, AsInfo>, ghost items: seq<AsInfo>, item: AsInfo, ghost j: nat,
                       p: seq<nat>, i: nat, ghost s: AsState)
    requires HoldsRecords(items, s, asInfo) && AsStateValid(s) && j < |items| && items[j] == item && i < |p| && s.order[j] == p[i]
    modifies item
    ensures HoldsRecords(items, Neighbors(s, p, i), asInfo) && AsStateValid(Neighbors(s, p, i)) && Neighbors(s, p, i).order == s.order
    ensures unchanged(asInfo, asInfo.Indices)
  {
    ghost var t := s;
    if i > 0 {
      PushNeighbor(asInfo, items, item, j, p[i - 1], t);
      AddNeighborValid(t, p[i], p[i - 1]);
      t := AddNeighbor(t, p[i], p[i - 1]);
    }
    if i + 1 < |p| {
      PushNeighbor(asInfo, items, item, j, p[i + 1], t);
      AddNeighborValid(t, p[i], p[i + 1]);
      t := AddNeighbor(t, p[i], p[i + 1]);
    }
  }

  /** The loop over `[localAS, ...asPath]`. */
  method LinkPath(localAS: nat, asPath: seq<nat>, asInfo: Table<FieldValue, AsInfo>, ghost s: AsState)
    requires AsMirror(asInfo, s)
    modifies asInfo, asInfo.Indices, iset r: AsInfo | r.table == asInfo
    ensures AsMirror(asInfo, Link(s, [localAS] + asPath, |asPath| + 1))
  {
    var p := [localAS] + asPath;
    for i := 0 to |p|
      invariant AsMirror(asInfo, Link(s, p, i))
    {
      LinkRound(asInfo, p, i, Link(s, p, i));
    }
  }

  /** Find or add the record of the origin AS and push `network` onto its prefixes. */
  method AddOrigin(asInfo: Table<FieldValue, AsInfo>, originAsn: nat, network: string, ghost s: AsState)
    requires AsMirror(asInfo, s)
    modifies asInfo, asInfo.Indices, iset r: AsInfo | r.table == asInfo
    ensures AsMirror(asInfo, AddPrefix(Touch(s, originAsn), originAsn, network))
  {
    var item, j := FindOrAdd(asInfo, originAsn, s);
    ghost var t := Touch(s, originAsn);
    AppendPrefix(asInfo, asInfo.items, item, j, network, t);
    AddPrefixValid(t, originAsn, network);
    assert AsIndexed(asInfo, t.order);
  }

  /** The part of an accepted entry that touches the AS table: the origin's prefix, then the path from `localAS` on. */
  method RecordOrigin(localAS: nat, asInfo: Table<FieldValue, AsInfo>, e: BgpEntry, ghost s: AsState,
                      ghost routes: Table<FieldValue, Route>)
    requires AsMirror(asInfo, s) && |e.path| >= 1
    modifies asInfo, asInfo.Indices, iset r: AsInfo | r.table == asInfo
    ensures AsMirror(asInfo, Link(AddPrefix(Touch(s, Origin(e)), Origin(e), e.network), [localAS] + e.path, |e.path| + 1))
    ensures unchanged(routes, routes.Indices)
  {
    var originAsn := e.path[|e.path| - 1];
    AddOrigin(asInfo, originAsn, e.network, s);
    LinkPath(localAS, e.path, asInfo, AddPrefix(Touch(s, originAsn), originAsn, e.network));
  }

  lemma RouteValuesSnoc(rs: seq<Route>, r: Route)
    ensures RouteValues(rs + [r]) == RouteValues(rs) + [r.Value()]
  {
    assert (rs + [r])[..|rs|] == rs;
  }

  /** `routes.add(new Route(...))` for an accepted entry. */
  method AddRoute(ctx: Context, routes: Table<FieldValue, Route>, e: BgpEntry, ghost rs: seq<RouteValue>,
                  ghost asInfo: Table<FieldValue, AsInfo>, ghost records: seq<AsInfo>)
    requires RoutesMirror(routes, rs) && |e.path| >= 1
    modifies routes, routes.Indices
    ensures RoutesMirror(routes, rs + [RouteOf(ctx, e)])
    ensures unchanged(asInfo, asInfo.Indices) && unchanged(records)
  {
    var originAsn := e.path[|e.path| - 1];
    var route := new Route(IpVersion(ctx.family), e.network, e.path, originAsn);
    ghost var before := routes.items;
    InsertRoute(routes, route, asInfo, records);
    assert routes.items == before + [route];
    RouteValuesSnoc(before, route);
  }

  /** `routes.add(route)` under the keys `prefix` and `originAsn`, which leaves the AS table and its records as they are. */
  method InsertRoute(routes: Table<FieldValue, Route>, route: Route, ghost asInfo: Table<FieldValue, AsInfo>, ghost records: seq<AsInfo>)
    requires routes.Valid()
    modifies routes, routes.Indices
    ensures routes.Valid() && routes.State() == TableAdd(old(routes.State()), route, route.Fields())
    ensures unchanged(asInfo, asInfo.Indices) && unchanged(records)
  {
    routes.Add(route, route.Fields());
  }

  /** The body of the loop over one prefix's entries. */
  method AddEntry(ctx: Context, routes: Table<FieldValue, Route>, asInfo: Table<FieldValue, AsInfo>, e: BgpEntry,
                  ghost s: Snapshot)
    requires RoutesMirror(routes, s.routes) && AsMirror(asInfo, s.asInfo)
    modifies routes, routes.Indices, asInfo, asInfo.Indices, iset r: AsInfo | r.table == asInfo
    ensures RoutesMirror(routes, Aggregation.ImportEntry(ctx, s, e).routes)
    ensures AsMirror(asInfo, Aggregation.ImportEntry(ctx, s, e).asInfo)
  {
    // the three `continue`s: a default route that is to be ignored, an invalid route, an empty path
    if (ctx.ignoreDefaultRoutes && e.prefixLen == 0) || !e.valid || |e.path| < 1 {
      return;
    }
    AddRoute(ctx, routes, e, s.routes, asInfo, asInfo.items);
    RecordOrigin(ctx.localAS, asInfo, e, s.asInfo, routes);
  }

  /** The loop over the entries of one prefix, `for (const route of bgpRoutes)`. */
  method AddEntries(ctx: Context, routes: Table<FieldValue, Route>, asInfo: Table<FieldValue, AsInfo>, es: seq<BgpEntry>,
                    ghost s: Snapshot)
    requires RoutesMirror(routes, s.routes) && AsMirror(asInfo, s.asInfo)
    modifies routes, routes.Indices, asInfo, asInfo.Indices, iset r: AsInfo | r.table == asInfo
    ensures RoutesMirror(routes, ImportEntries(ctx, s, es).routes)
    ensures AsMirror(asInfo, ImportEntries(ctx, s, es).asInfo)
  {
    for m := 0 to |es|
      invariant RoutesMirror(routes, ImportEntries(ctx, s, es[..m]).routes)
      invariant AsMirror(asInfo, ImportEntries(ctx, s, es[..m]).asInfo)
    {
      ghost var before := ImportEntries(ctx, s, es[..m]);
      assert es[..m + 1][..m] == es[..m];
      assert ImportEntries(ctx, s, es[..m + 1]) == ImportEntry(ctx, before, es[m]);
      AddEntry(ctx, routes, asInfo, es[m], before);
    }
    assert es[..|es|] == es;
  }

  /** A new, empty AS table holds the records of the empty AS state. */
  lemma EmptyAsMirror(asInfo: Table<FieldValue, AsInfo>)
    requires asInfo.Valid() && asInfo.State() == NewTable(AS_INFO_KEYS)
    ensures AsMirror(asInfo, AsState([], map[]))
  {
    assert StringKeys(AS_INFO_KEYS) == [ASN_KEY];
  }

  /** The two empty tables of a new `DataModel`, for one family. */
  method EmptyTables() returns (routes: Table<FieldValue, Route>, asInfo: Table<FieldValue, AsInfo>)
    ensures fresh(routes) && fresh(asInfo) && routes.items == [] && asInfo.items == []
  {
    routes := new Table(ROUTE_KEYS);
    asInfo := new Table(AS_INFO_KEYS);
  }

  /**
   * The two new tables of an import, the AS table holding the record of
   * `localAS` alone. The route table is made last, which nothing can tell
   * apart from making it first.
   */
  method SeededTables(localAS: nat) returns (routes: Table<FieldValue, Route>, asInfo: Table<FieldValue, AsInfo>)
    ensures fresh(routes) && fresh(routes.Indices) && fresh(asInfo) && fresh(asInfo.Indices)
    ensures RoutesMirror(routes, []) && AsMirror(asInfo, Seeded(localAS))
  {
    asInfo := new Table(AS_INFO_KEYS);
    EmptyAsMirror(asInfo);
    ghost var j;
    var local;
    local, j := AddRecord(asInfo, localAS, AsState([], map[]));
    assert Touch(AsState([], map[]), localAS) == Seeded(localAS);
    routes := NewRouteTable();
  }

  /** `new Table<Route>(['prefix', 'originAsn'])`: an empty route table. */
  method NewRouteTable() returns (routes: Table<FieldValue, Route>)
    ensures fresh(routes) && fresh(routes.Indices) && RoutesMirror(routes, [])
  {
    routes := new Table(ROUTE_KEYS);
  }

  /**
   * The tables one import builds: the seeded tables, then the loop over the
   * prefixes of the dump and, for each, over its entries.
   */
  method Build(ctx: Context, rs: seq<(string, seq<BgpEntry>)>) returns (routes: Table<FieldValue, Route>, asInfo: Table<FieldValue, AsInfo>)
    ensures fresh(routes) && fresh(routes.Indices) && fresh(asInfo) && fresh(asInfo.Indices)
    ensures RoutesMirror(routes, ImportRoutes(ctx, Snapshot([], Seeded(ctx.localAS)), rs).routes)
    ensures AsMirror(asInfo, ImportRoutes(ctx, Snapshot([], Seeded(ctx.localAS)), rs).asInfo)
  {
    routes, asInfo := SeededTables(ctx.localAS);
    ghost var s0 := Snapshot([], Seeded(ctx.localAS));
    for k := 0 to |rs|
      invariant RoutesMirror(routes, ImportRoutes(ctx, s0, rs[..k]).routes)
      invariant AsMirror(asInfo, ImportRoutes(ctx, s0, rs[..k]).asInfo)
    {
      ghost var before := ImportRoutes(ctx, s0, rs[..k]);
      assert rs[..k + 1][..k] == rs[..k];
      assert ImportRoutes(ctx, s0, rs[..k + 1]) == ImportEntries(ctx, before, rs[k].1);
      AddEntries(ctx, routes, asInfo, rs[k].1, before);
    }
    assert rs[..|rs|] == rs;
  }

  /** `{ routerId, localAsn }`. */
  datatype RouterInfo = RouterInfo(routerId: string, localAsn: nat)

  /** The other address family. */
  function Other(family: Family): (r: Family)
    ensures r != family
  {
    if family == Ipv4Family then Ipv6Family else Ipv4Family
  }

  /**
   * The `DataModel` object: the options it was made with and, per family,
   * the local AS and router id of the last import and the two tables it
   * built.
   */
  class DataModel {
    const ignoreDefaultRoutes: bool
    var ipv4LocalAsn: Option<nat>
    var ipv4RouterId: Option<string>
    var ipv4Routes: Table<FieldValue, Route>
    var ipv4AsInfo: Table<FieldValue, AsInfo>
    var ipv6RouterId: Option<string>
    var ipv6LocalAsn: Option<nat>
    var ipv6Routes: Table<FieldValue, Route>
    var ipv6AsInfo: Table<FieldValue, AsInfo>

    function LocalAsn(family: Family): Option<nat>
      reads this
    {
      if family == Ipv4Family then ipv4LocalAsn else ipv6LocalAsn
    }

    function RouterId(family: Family): Option<string>
      reads this
    {
      if family == Ipv4Family then ipv4RouterId else ipv6RouterId
    }

    function RouteTable(family: Family): Table<FieldValue, Route>
      reads this
    {
      if family == Ipv4Family then ipv4Routes else ipv6Routes
    }

    function AsTable(family: Family): Table<FieldValue, AsInfo>
      reads this
    {
      if family == Ipv4Family then ipv4AsInfo else ipv6AsInfo
    }

    /** The route table and the AS table of `family` hold the snapshot `s`. */
    ghost predicate Holds(family: Family, s: Snapshot)
      reads this, RouteTable(family), RouteTable(family).Indices, AsTable(family), AsTable(family).Indices, AsTable(family).items
    {
      RoutesMirror(RouteTable(family), s.routes) && AsMirror(AsTable(family), s.asInfo)
    }

    /** `new DataModel(options)`: no router yet, and four new, empty tables. */
    constructor(ignoreDefaultRoutes: bool)
      ensures this.ignoreDefaultRoutes == ignoreDefaultRoutes
      ensures LocalAsn(Ipv4Family) == None && RouterId(Ipv4Family) == None
      ensures LocalAsn(Ipv6Family) == None && RouterId(Ipv6Family) == None
      ensures RouterInfoOf(Ipv4Family) == None && RouterInfoOf(Ipv6Family) == None
      ensures GetRoutes(Ipv4Family) == [] && GetAsInfo(Ipv4Family) == []
      ensures GetRoutes(Ipv6Family) == [] && GetAsInfo(Ipv6Family) == []
    {
      var r4, a4 := EmptyTables();
      var r6, a6 := EmptyTables();
      this.ignoreDefaultRoutes := ignoreDefaultRoutes;
      ipv4LocalAsn, ipv4RouterId, ipv4Routes, ipv4AsInfo := None, None, r4, a4;
      ipv6RouterId, ipv6LocalAsn, ipv6Routes, ipv6AsInfo := None, None, r6, a6;
    }

    /** Puts the tables `routes` and `asInfo` in place for `family`, leaving their contents alone. */
    method Install(family: Family, routes: Table<FieldValue, Route>, asInfo: Table<FieldValue, AsInfo>)
      modifies this
      ensures RouteTable(family) == routes && AsTable(family) == asInfo
      ensures unchanged(routes, routes.Indices, asInfo, asInfo.Indices, asInfo.items)
      ensures LocalAsn(family) == old(LocalAsn(family)) && RouterId(family) == old(RouterId(family))
      ensures LocalAsn(Other(family)) == old(LocalAsn(Other(family))) && RouterId(Other(family)) == old(RouterId(Other(family)))
      ensures RouteTable(Other(family)) == old(RouteTable(Other(family))) && AsTable(Other(family)) == old(AsTable(Other(family)))
    {
      if family == Ipv4Family {
        ipv4Routes, ipv4AsInfo := routes, asInfo;
      } else {
        ipv6Routes, ipv6AsInfo := routes, asInfo;
      }
    }

    /**
     * `importIpv4Json` and `importIpv6Json`, on the decoded dump `data`: the
     * family's local AS and router id are set, its two tables are replaced by
     * new ones that hold what `Import` makes of the dump, and the other
     * family's fields keep their values. Only `this` is written: no table or
     * record that existed before the call changes.
     */
    method ImportJson(family: Family, data: BgpData)
      modifies this
      ensures LocalAsn(family) == Some(data.localAS) && RouterId(family) == Some(data.routerId)
      ensures RouterInfoOf(family) == Some(RouterInfo(data.routerId, data.localAS))
      ensures fresh(RouteTable(family)) && fresh(AsTable(family))
      ensures Holds(family, Import(ignoreDefaultRoutes, family, data))
      ensures LocalAsn(Other(family)) == old(LocalAsn(Other(family))) && RouterId(Other(family)) == old(RouterId(Other(family)))
      ensures RouteTable(Other(family)) == old(RouteTable(Other(family))) && AsTable(Other(family)) == old(AsTable(Other(family)))
    {
      var ctx := ContextOf(ignoreDefaultRoutes, family, data);
      if family == Ipv4Family {
        ipv4LocalAsn := Some(data.localAS);
        ipv4RouterId := Some(data.routerId);
      } else {
        ipv6LocalAsn := Some(data.localAS);
        ipv6RouterId := Some(data.routerId);
      }
      var routes, asInfo := Build(ctx, data.routes);
      Install(family, routes, asInfo);
    }

    /** What the getters return when the tables of `family` hold `s`: the routes of `s`, and its records in order. */
    lemma GetterValues(family: Family, s: Snapshot)
      requires Holds(family, s)
      ensures RouteValues(GetRoutes(family)) == s.routes
      ensures AsInfoValues(GetAsInfo(family)) == Records(s.asInfo)
    {
      AsMirrorRecords(AsTable(family), s.asInfo);
    }

    /** The `ipv4RouterInfo` and `ipv6RouterInfo` getters: present exactly when both the local AS and the router id are. */
    function RouterInfoOf(family: Family): (r: Option<RouterInfo>)
      reads this
      ensures r.Some? <==> LocalAsn(family).Some? && RouterId(family).Some?
      ensures r.Some? ==> r.value.localAsn == LocalAsn(family).value && r.value.routerId == RouterId(family).value
    {
      match (LocalAsn(family), RouterId(family))
      case (Some(asn), Some(id)) => Some(RouterInfo(id, asn))
      case _ => None
    }

    /** `getIpv4Routes()` and `getIpv6Routes()`: a new array of the items of the family's route table, in insertion order. */
    function GetRoutes(family: Family): seq<Route>
      reads this, RouteTable(family)
    {
      RouteTable(family).items
    }

    /** `getIpv4AsInfo()` and `getIpv6AsInfo()`: a new array of the items of the family's AS table, in insertion order. */
    function GetAsInfo(family: Family): seq<AsInfo>
      reads this, AsTable(family)
    {
      AsTable(family).items
    }
  }
}

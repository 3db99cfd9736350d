/**
 * What one `importIpv4Json` / `importIpv6Json` call of src/DataModel.ts
 * computes, stated on values. The decoded `show bgp json` dump is a
 * `BgpData`; the import walks its prefixes, and each prefix's entries, in
 * order, and builds the list of routes and the AS table. The functions here
 * follow the three nested loops of the source round by round (each a left
 * fold on the last element); the lemmas at the end relate their outcome to
 * independent descriptions: the accepted entries, the ASNs they mention,
 * the prefixes each AS originates and the pairs of adjacent ASNs.
 */
module Aggregation {
  import opened Wrappers
  import opened Tables
  import opened JsText

  /** The address family an import is for. */
  datatype Family = Ipv4Family | Ipv6Family

  /** The `ipVersion` written into every route of a family. */
  function IpVersion(family: Family): nat
  {
    if family == Ipv4Family then 4 else 6
  }

  /**
   * One entry of `routes[prefix]`: its `prefixLen`, its `valid` flag, its
   * `path` (already split on spaces and converted to AS numbers) and its
   * `network` text (`prefix/prefixLen`).
   */
  datatype BgpEntry = BgpEntry(prefixLen: int, valid: bool, path: seq<nat>, network: string)

  /**
   * `route.path.split(' ').map((asn) => parseInt(asn, 10))`: one number per
   * space-separated part, `None` for NaN. A split always has a part, so the
   * `asPath.length < 1` guard that follows never fires; `BgpEntry.path` is
   * this list once every part is an AS number.
   */
  function AsPathOf(text: string): (r: seq<Option<int>>)
    ensures |r| == |Split(text, " ")| >= 1
    ensures forall i :: 0 <= i < |r| ==> r[i] == ParseInt(Split(text, " ")[i], 10)
  {
    var parts := Split(text, " ");
    seq(|parts|, i requires 0 <= i < |parts| => ParseInt(parts[i], 10))
  }

  /** The decoded dump: `localAS`, `routerId` and the `routes` object, as its `prefix → entries` pairs in key order. */
  datatype BgpData = BgpData(localAS: nat, routerId: string, routes: seq<(string, seq<BgpEntry>)>)

  /** A `Route` record. */
  datatype RouteValue = RouteValue(ipVersion: nat, prefix: string, asPath: seq<nat>, originAsn: nat)

  /** An `AsInfo` record, with its `prefixes` and `neighborAsns` lists as they stand. */
  datatype AsInfoValue = AsInfoValue(asn: nat, prefixes: seq<string>, neighborAsns: seq<nat>)

  /** The AS table being built: the ASNs in the order their records were added, and the record of each. */
  datatype AsState = AsState(order: seq<nat>, info: map<nat, AsInfoValue>)

  /** The two tables an import builds: the routes in insertion order, and the AS table. */
  datatype Snapshot = Snapshot(routes: seq<RouteValue>, asInfo: AsState)

  /** What an import reads besides the entries: `ignoreDefaultRoutes`, the family and `localAS`. */
  datatype Context = Context(ignoreDefaultRoutes: bool, family: Family, localAS: nat)

  /**
   * One record per ASN, listed once in the order; every record's `neighborAsns`
   * has no repeat and never holds its own ASN.
   */
  predicate AsStateValid(s: AsState)
  {
    && NoDuplicates(s.order)
    && (forall a :: a in s.order ==> a in s.info)
    && (forall a :: a in s.info ==> a in s.order)
    && (forall a :: a in s.info ==> s.info[a].asn == a)
    && (forall a :: a in s.info ==> a !in s.info[a].neighborAsns && NoDuplicates(s.info[a].neighborAsns))
  }

  /** The records in the order `items` lists them. */
  function Records(s: AsState): (r: seq<AsInfoValue>)
    requires AsStateValid(s)
    ensures |r| == |s.order|
    ensures forall j :: 0 <= j < |r| ==> r[j].asn == s.order[j]
  {
    seq(|s.order|, j requires 0 <= j < |s.order| => s.info[s.order[j]])
  }

  /** The prefixes of `a`'s record, or none when it has no record. */
  function PrefixesOf(s: AsState, a: nat): seq<string>
  {
    if a in s.info then s.info[a].prefixes else []
  }

  /** The neighbours of `a`'s record, or none when it has no record. */
  function NeighborsOf(s: AsState, a: nat): seq<nat>
  {
    if a in s.info then s.info[a].neighborAsns else []
  }

  // ---------------------------------------------------------------------
  // The import, round by round

  /**
   * `asInfo.find('asn', a)[0]`, and when that is `undefined`, a new record
   * `{ asn: a, prefixes: [], neighborAsns: [] }` added to the table.
   */
  function Touch(s: AsState, a: nat): AsState
  {
    if a in s.info then s else AsState(s.order + [a], s.info[a := AsInfoValue(a, [], [])])
  }

  /** `asInfoItem.prefixes.push(network)` on the record of `a` (which the import has just found or added). */
  function AddPrefix(s: AsState, a: nat, network: string): AsState
  {
    if a in s.info then s.(info := s.info[a := s.info[a].(prefixes := s.info[a].prefixes + [network])]) else s
  }

  /** `neighborAsns.push(b)` on the record of `a` when `b != a` and the list does not hold `b` yet. */
  function AddNeighbor(s: AsState, a: nat, b: nat): AsState
  {
    if a in s.info && b != a && b !in s.info[a].neighborAsns then
      s.(info := s.info[a := s.info[a].(neighborAsns := s.info[a].neighborAsns + [b])])
    else
      s
  }

  /**
   * Round `i` of the loop over `p = [localAS, ...asPath]`: find or add the
   * record of `p[i]`, then push its predecessor and successor as neighbours.
   */
  function LinkAt(s: AsState, p: seq<nat>, i: nat): AsState
    requires i < |p|
  {
    Neighbors(Touch(s, p[i]), p, i)
  }

  /** The two guarded pushes of round `i` onto the record of `p[i]`: its predecessor, then its successor. */
  function Neighbors(s: AsState, p: seq<nat>, i: nat): AsState
    requires i < |p|
  {
    var s1 := if i > 0 then AddNeighbor(s, p[i], p[i - 1]) else s;
    if i + 1 < |p| then AddNeighbor(s1, p[i], p[i + 1]) else s1
  }

  /** The first `n` rounds of the loop over `p`. */
  function Link(s: AsState, p: seq<nat>, n: nat): AsState
    requires n <= |p|
  {
    if n == 0 then s else LinkAt(Link(s, p, n - 1), p, n - 1)
  }

  /**
   * The entries that get past the three `continue`s: not a default route
   * when those are ignored, `valid`, and a path of at least one ASN.
   */
  predicate Accepted(ctx: Context, e: BgpEntry)
  {
    !(ctx.ignoreDefaultRoutes && e.prefixLen == 0) && e.valid && |e.path| >= 1
  }

  /** The last ASN of an accepted entry's path: its origin. */
  function Origin(e: BgpEntry): nat
    requires |e.path| >= 1
  {
    e.path[|e.path| - 1]
  }

  /** The `Route` an accepted entry adds. */
  function RouteOf(ctx: Context, e: BgpEntry): RouteValue
    requires |e.path| >= 1
  {
    RouteValue(IpVersion(ctx.family), e.network, e.path, Origin(e))
  }

  /**
   * The body of the loop over one prefix's entries: skip the entry, or add
   * its route, append its network to its origin's prefixes, and link its
   * path from `localAS` on.
   */
  function ImportEntry(ctx: Context, s: Snapshot, e: BgpEntry): Snapshot
  {
    if !Accepted(ctx, e) then s
    else
      var origin := Origin(e);
      var t := Touch(s.asInfo, origin);
      var p := [ctx.localAS] + e.path;
      Snapshot(s.routes + [RouteOf(ctx, e)], Link(AddPrefix(t, origin, e.network), p, |p|))
  }

  /** The loop over the entries `es` of one prefix. */
  function ImportEntries(ctx: Context, s: Snapshot, es: seq<BgpEntry>): Snapshot
  {
    if es == [] then s else ImportEntry(ctx, ImportEntries(ctx, s, es[..|es| - 1]), es[|es| - 1])
  }

  /** The loop over the prefixes of `routes`: each prefix's entries in turn. */
  function ImportRoutes(ctx: Context, s: Snapshot, rs: seq<(string, seq<BgpEntry>)>): Snapshot
  {
    if rs == [] then s else ImportEntries(ctx, ImportRoutes(ctx, s, rs[..|rs| - 1]), rs[|rs| - 1].1)
  }

  /** The AS table an import starts from: the record of `localAS` alone. */
  function Seeded(localAS: nat): (r: AsState)
    ensures AsStateValid(r)
  {
    AsState([localAS], map[localAS := AsInfoValue(localAS, [], [])])
  }

  /** The context of an import of `data` for `family`. */
  function ContextOf(ignoreDefaultRoutes: bool, family: Family, data: BgpData): Context
  {
    Context(ignoreDefaultRoutes, family, data.localAS)
  }

  /** The two tables one import of `data` builds. */
  function Import(ignoreDefaultRoutes: bool, family: Family, data: BgpData): Snapshot
  {
    ImportRoutes(ContextOf(ignoreDefaultRoutes, family, data), Snapshot([], Seeded(data.localAS)), data.routes)
  }

  // ---------------------------------------------------------------------
  // Independent descriptions

  /** Every entry of every prefix, in the order the loops visit them. */
  function Flatten(rs: seq<(string, seq<BgpEntry>)>): seq<BgpEntry>
  {
    if rs == [] then [] else Flatten(rs[..|rs| - 1]) + rs[|rs| - 1].1
  }

  /** The routes of the accepted entries, one each, in order. */
  function AcceptedRoutes(ctx: Context, es: seq<BgpEntry>): seq<RouteValue>
  {
    if es == [] then []
    else
      var last := es[|es| - 1];
      AcceptedRoutes(ctx, es[..|es| - 1]) + if Accepted(ctx, last) then [RouteOf(ctx, last)] else []
  }

  /** Whether `a` is `localAS` or on the path of an accepted entry of `es`, given some entry is accepted. */
  predicate Mentioned(ctx: Context, es: seq<BgpEntry>, a: nat)
  {
    if es == [] then false
    else
      var last := es[|es| - 1];
      Mentioned(ctx, es[..|es| - 1], a) || (Accepted(ctx, last) && (a == ctx.localAS || a in last.path))
  }

  /** The networks of the accepted entries of `es` whose origin is `a`, in order, repeats kept. */
  function OriginPrefixes(ctx: Context, es: seq<BgpEntry>, a: nat): seq<string>
  {
    if es == [] then []
    else
      var last := es[|es| - 1];
      OriginPrefixes(ctx, es[..|es| - 1], a) + if Accepted(ctx, last) && Origin(last) == a then [last.network] else []
  }

  /** Whether `a` and `b` stand next to each other, in either order, somewhere in `p`. */
  predicate Adjacent(p: seq<nat>, a: nat, b: nat)
  {
    exists i :: 0 <= i < |p| - 1 && ((p[i] == a && p[i + 1] == b) || (p[i] == b && p[i + 1] == a))
  }

  /** Whether `a` and `b` are adjacent in `[localAS, ...path]` of some accepted entry of `es`. */
  predicate Linked(ctx: Context, es: seq<BgpEntry>, a: nat, b: nat)
  {
    if es == [] then false
    else
      var last := es[|es| - 1];
      Linked(ctx, es[..|es| - 1], a, b) || (Accepted(ctx, last) && Adjacent([ctx.localAS] + last.path, a, b))
  }

  /**
   * Whether one of the first `n` rounds over `p` is at `a` with `b` as its
   * predecessor or successor.
   */
  predicate Reach(p: seq<nat>, n: nat, a: nat, b: nat)
    requires n <= |p|
  {
    if n == 0 then false
    else
      var i := n - 1;
      Reach(p, i, a, b) || (p[i] == a && ((i > 0 && p[i - 1] == b) || (i + 1 < |p| && p[i + 1] == b)))
  }

  // ---------------------------------------------------------------------
  // The loops over the prefixes and over one path

  /** Running the entry loop over `a + b` is running it over `a`, then over `b`. */
  lemma {:induction false} ImportEntriesAppend(ctx: Context, s: Snapshot, a: seq<BgpEntry>, b: seq<BgpEntry>)
    ensures ImportEntries(ctx, s, a + b) == ImportEntries(ctx, ImportEntries(ctx, s, a), b)
  {
    if b == [] {
      assert a + b == a;
    } else {
      var init := b[..|b| - 1];
      assert (a + b)[..|a + b| - 1] == a + init;
      assert (a + b)[|a + b| - 1] == b[|b| - 1];
      ImportEntriesAppend(ctx, s, a, init);
    }
  }

  /** The prefix loop visits exactly the entries of `Flatten`, in order. */
  lemma {:induction false} ImportRoutesFlat(ctx: Context, s: Snapshot, rs: seq<(string, seq<BgpEntry>)>)
    ensures ImportRoutes(ctx, s, rs) == ImportEntries(ctx, s, Flatten(rs))
  {
    if rs != [] {
      var init := rs[..|rs| - 1];
      ImportRoutesFlat(ctx, s, init);
      ImportEntriesAppend(ctx, s, Flatten(init), rs[|rs| - 1].1);
    }
  }

  /** The path loop adds records exactly for the ASNs it visits, keeps every record's prefixes, and links as `Reach` says. */
  lemma {:induction false} LinkFacts(s: AsState, p: seq<nat>, n: nat)
    requires n <= |p|
    ensures forall a :: a in Link(s, p, n).info <==> a in s.info || a in p[..n]
    ensures forall a :: PrefixesOf(Link(s, p, n), a) == PrefixesOf(s, a)
    ensures forall a, b :: b in NeighborsOf(Link(s, p, n), a) <==> b in NeighborsOf(s, a) || (a != b && Reach(p, n, a, b))
  {
    if n > 0 {
      var i := n - 1;
      var t := Link(s, p, i);
      LinkFacts(s, p, i);
      assert p[..n] == p[..i] + [p[i]];
      LinkAtFacts(t, p, i);
    }
  }

  /** One round of the path loop: the record of `p[i]` exists afterwards and gains its neighbours at `i - 1` and `i + 1`. */
  lemma LinkAtFacts(s: AsState, p: seq<nat>, i: nat)
    requires i < |p|
    ensures forall a :: a in LinkAt(s, p, i).info <==> a in s.info || a == p[i]
    ensures forall a :: PrefixesOf(LinkAt(s, p, i), a) == PrefixesOf(s, a)
    ensures forall a, b :: b in NeighborsOf(LinkAt(s, p, i), a) <==>
      b in NeighborsOf(s, a) || (a != b && a == p[i] && ((i > 0 && p[i - 1] == b) || (i + 1 < |p| && p[i + 1] == b)))
  {
    var s1 := Touch(s, p[i]);
    assert forall a :: NeighborsOf(s1, a) == NeighborsOf(s, a);
    var s2 := if i > 0 then AddNeighbor(s1, p[i], p[i - 1]) else s1;
    if i > 0 {
      AddNeighborFacts(s1, p[i], p[i - 1]);
    }
    if i + 1 < |p| {
      AddNeighborFacts(s2, p[i], p[i + 1]);
    }
  }

  /** `AddNeighbor(s, x, y)` adds `y` to the neighbours of `x` when they differ, and changes nothing else that is observed. */
  lemma AddNeighborFacts(s: AsState, x: nat, y: nat)
    requires x in s.info
    ensures AddNeighbor(s, x, y).info.Keys == s.info.Keys
    ensures forall a :: PrefixesOf(AddNeighbor(s, x, y), a) == PrefixesOf(s, a)
    ensures forall a, b :: b in NeighborsOf(AddNeighbor(s, x, y), a) <==> b in NeighborsOf(s, a) || (a == x && b == y && x != y)
  {
  }

  /** `Reach` over the whole path is adjacency in it. */
  lemma ReachAdjacent(p: seq<nat>, a: nat, b: nat)
    ensures Reach(p, |p|, a, b) <==> Adjacent(p, a, b)
  {
    if Reach(p, |p|, a, b) {
      var i := ReachWitness(p, |p|, a, b);
      if i > 0 && p[i - 1] == b {
        assert 0 <= i - 1 < |p| - 1 && p[i - 1] == b && p[i] == a;
      } else {
        assert 0 <= i < |p| - 1 && p[i] == a && p[i + 1] == b;
      }
    }
    if Adjacent(p, a, b) {
      var i :| 0 <= i < |p| - 1 && ((p[i] == a && p[i + 1] == b) || (p[i] == b && p[i + 1] == a));
      if p[i] == a && p[i + 1] == b {
        ReachIntro(p, |p|, i, a, b);
      } else {
        ReachIntro(p, |p|, i + 1, a, b);
      }
    }
  }

  /** A round of `Reach`, as a position. */
  lemma {:induction false} ReachWitness(p: seq<nat>, n: nat, a: nat, b: nat) returns (i: nat)
    requires n <= |p| && Reach(p, n, a, b)
    ensures i < n && p[i] == a && ((i > 0 && p[i - 1] == b) || (i + 1 < |p| && p[i + 1] == b))
  {
    if Reach(p, n - 1, a, b) {
      i := ReachWitness(p, n - 1, a, b);
    } else {
      i := n - 1;
    }
  }

  /** A position at `a` with `b` beside it makes every later round count reach `b` from `a`. */
  lemma {:induction false} ReachIntro(p: seq<nat>, n: nat, i: nat, a: nat, b: nat)
    requires i < n <= |p| && p[i] == a && ((i > 0 && p[i - 1] == b) || (i + 1 < |p| && p[i + 1] == b))
    ensures Reach(p, n, a, b)
  {
    if i < n - 1 {
      ReachIntro(p, n - 1, i, a, b);
    }
  }

  // ---------------------------------------------------------------------
  // What every round keeps

  lemma TouchValid(s: AsState, a: nat)
    requires AsStateValid(s)
    ensures AsStateValid(Touch(s, a))
  {
    var r := Touch(s, a);
    assert forall x :: x in r.order ==> x in s.order || x == a;
  }

  lemma AddPrefixValid(s: AsState, a: nat, network: string)
    requires AsStateValid(s)
    ensures AsStateValid(AddPrefix(s, a, network)) && AddPrefix(s, a, network).order == s.order
  {
  }

  /** Pushing `b` onto the neighbours of `a` only when it is new there and not `a` keeps them free of repeats and of `a`. */
  lemma AddNeighborValid(s: AsState, a: nat, b: nat)
    requires AsStateValid(s)
    ensures AsStateValid(AddNeighbor(s, a, b)) && AddNeighbor(s, a, b).order == s.order
  {
    if a in s.info && b != a && b !in s.info[a].neighborAsns {
      var ns := s.info[a].neighborAsns;
      var ns' := ns + [b];
      forall i, j | 0 <= i < j < |ns'|
        ensures ns'[i] != ns'[j]
      {
        if j == |ns| {
          assert ns'[i] in ns;
        }
      }
    }
  }

  lemma LinkAtValid(s: AsState, p: seq<nat>, i: nat)
    requires AsStateValid(s) && i < |p|
    ensures AsStateValid(LinkAt(s, p, i))
    ensures s.order <= LinkAt(s, p, i).order
  {
    var s1 := Touch(s, p[i]);
    TouchValid(s, p[i]);
    var s2 := if i > 0 then AddNeighbor(s1, p[i], p[i - 1]) else s1;
    if i > 0 {
      AddNeighborValid(s1, p[i], p[i - 1]);
    }
    if i + 1 < |p| {
      AddNeighborValid(s2, p[i], p[i + 1]);
    }
  }

  lemma {:induction false} LinkValid(s: AsState, p: seq<nat>, n: nat)
    requires AsStateValid(s) && n <= |p|
    ensures AsStateValid(Link(s, p, n))
    ensures s.order <= Link(s, p, n).order
  {
    if n > 0 {
      LinkValid(s, p, n - 1);
      LinkAtValid(Link(s, p, n - 1), p, n - 1);
    }
  }

  /** One entry keeps the AS table valid and only appends to its order. */
  lemma ImportEntryValid(ctx: Context, s: Snapshot, e: BgpEntry)
    requires AsStateValid(s.asInfo)
    ensures AsStateValid(ImportEntry(ctx, s, e).asInfo)
    ensures s.asInfo.order <= ImportEntry(ctx, s, e).asInfo.order
  {
    if Accepted(ctx, e) {
      var origin := Origin(e);
      var u := Touch(s.asInfo, origin);
      TouchValid(s.asInfo, origin);
      var v := AddPrefix(u, origin, e.network);
      AddPrefixValid(u, origin, e.network);
      var p := [ctx.localAS] + e.path;
      LinkValid(v, p, |p|);
      assert ImportEntry(ctx, s, e).asInfo == Link(v, p, |p|);
    }
  }

  /** The entry loop keeps the AS table one record per ASN, each without itself or a repeat among its neighbours, and only appends to its order. */
  lemma {:induction false} ImportEntriesValid(ctx: Context, s: Snapshot, es: seq<BgpEntry>)
    requires AsStateValid(s.asInfo)
    ensures AsStateValid(ImportEntries(ctx, s, es).asInfo)
    ensures s.asInfo.order <= ImportEntries(ctx, s, es).asInfo.order
  {
    if es != [] {
      ImportEntriesValid(ctx, s, es[..|es| - 1]);
      ImportEntryValid(ctx, ImportEntries(ctx, s, es[..|es| - 1]), es[|es| - 1]);
    }
  }

  // ---------------------------------------------------------------------
  // One entry, then the entry loop

  /** What one entry does to the AS table, observed through records, prefixes and neighbours. */
  lemma ImportEntryFacts(ctx: Context, s: Snapshot, e: BgpEntry)
    ensures var r := ImportEntry(ctx, s, e).asInfo;
      forall a :: a in r.info <==> a in s.asInfo.info || (Accepted(ctx, e) && (a == ctx.localAS || a in e.path))
    ensures var r := ImportEntry(ctx, s, e).asInfo;
      forall a :: PrefixesOf(r, a) ==
        PrefixesOf(s.asInfo, a) + if Accepted(ctx, e) && Origin(e) == a then [e.network] else []
    ensures var r := ImportEntry(ctx, s, e).asInfo;
      forall a, b :: b in NeighborsOf(r, a) <==>
        b in NeighborsOf(s.asInfo, a) || (a != b && Accepted(ctx, e) && Adjacent([ctx.localAS] + e.path, a, b))
  {
    if Accepted(ctx, e) {
      var origin := Origin(e);
      var t := Touch(s.asInfo, origin);
      var u := AddPrefix(t, origin, e.network);
      var p := [ctx.localAS] + e.path;
      assert p[..|p|] == p;
      assert forall a :: a in p <==> a == ctx.localAS || a in e.path;
      assert forall a :: NeighborsOf(u, a) == NeighborsOf(s.asInfo, a);
      LinkFacts(u, p, |p|);
      forall a, b
        ensures Reach(p, |p|, a, b) <==> Adjacent(p, a, b)
      {
        ReachAdjacent(p, a, b);
      }
    }
  }

  /** The routes of the entry loop: those of the accepted entries, appended in order. */
  lemma {:induction false} ImportEntriesRoutes(ctx: Context, s: Snapshot, es: seq<BgpEntry>)
    ensures ImportEntries(ctx, s, es).routes == s.routes + AcceptedRoutes(ctx, es)
  {
    if es != [] {
      var init := es[..|es| - 1];
      ImportEntriesRoutes(ctx, s, init);
      var last := es[|es| - 1];
      var tail := if Accepted(ctx, last) then [RouteOf(ctx, last)] else [];
      assert s.routes + AcceptedRoutes(ctx, init) + tail == s.routes + (AcceptedRoutes(ctx, init) + tail);
    }
  }

  /** The ASNs with a record after the entry loop: those before, and those its accepted entries mention. */
  lemma {:induction false} ImportEntriesAsns(ctx: Context, s: Snapshot, es: seq<BgpEntry>)
    ensures forall a :: a in ImportEntries(ctx, s, es).asInfo.info <==> a in s.asInfo.info || Mentioned(ctx, es, a)
  {
    if es != [] {
      var init := es[..|es| - 1];
      ImportEntriesAsns(ctx, s, init);
      ImportEntryFacts(ctx, ImportEntries(ctx, s, init), es[|es| - 1]);
    }
  }

  /** The prefixes of every AS after the entry loop: those before, then the networks it originates, in order. */
  lemma {:induction false} ImportEntriesPrefixes(ctx: Context, s: Snapshot, es: seq<BgpEntry>)
    ensures forall a :: PrefixesOf(ImportEntries(ctx, s, es).asInfo, a) == PrefixesOf(s.asInfo, a) + OriginPrefixes(ctx, es, a)
  {
    if es != [] {
      var init := es[..|es| - 1];
      var last := es[|es| - 1];
      ImportEntriesPrefixes(ctx, s, init);
      ImportEntryFacts(ctx, ImportEntries(ctx, s, init), last);
      forall a
        ensures PrefixesOf(ImportEntries(ctx, s, es).asInfo, a) == PrefixesOf(s.asInfo, a) + OriginPrefixes(ctx, es, a)
      {
        var tail := if Accepted(ctx, last) && Origin(last) == a then [last.network] else [];
        assert PrefixesOf(s.asInfo, a) + OriginPrefixes(ctx, init, a) + tail
          == PrefixesOf(s.asInfo, a) + (OriginPrefixes(ctx, init, a) + tail);
      }
    }
  }

  /** The neighbours of every AS after the entry loop: those before, and every other ASN adjacent to it on an accepted path. */
  lemma {:induction false} ImportEntriesNeighbors(ctx: Context, s: Snapshot, es: seq<BgpEntry>)
    ensures forall a, b :: b in NeighborsOf(ImportEntries(ctx, s, es).asInfo, a) <==>
      b in NeighborsOf(s.asInfo, a) || (a != b && Linked(ctx, es, a, b))
  {
    if es != [] {
      var init := es[..|es| - 1];
      ImportEntriesNeighbors(ctx, s, init);
      ImportEntryFacts(ctx, ImportEntries(ctx, s, init), es[|es| - 1]);
    }
  }

  // ---------------------------------------------------------------------
  // A whole import

  /**
   * The routes of an import: one per accepted entry, in order, with the
   * parsed path, its last element as origin, the entry's network as prefix
   * and the family's `ipVersion`; a default route when those are ignored,
   * an invalid entry and an empty path add none, and nothing is deduplicated.
   */
  lemma ImportRoutesSpec(ignoreDefaultRoutes: bool, family: Family, data: BgpData)
    ensures var ctx := ContextOf(ignoreDefaultRoutes, family, data);
      Import(ignoreDefaultRoutes, family, data).routes == AcceptedRoutes(ctx, Flatten(data.routes))
  {
    var ctx := ContextOf(ignoreDefaultRoutes, family, data);
    var s := Snapshot([], Seeded(data.localAS));
    ImportRoutesFlat(ctx, s, data.routes);
    ImportEntriesRoutes(ctx, s, Flatten(data.routes));
  }

  /**
   * The AS table of an import has exactly one record per distinct ASN among
   * `localAS` and the paths of the accepted entries, `localAS` first; no
   * record lists itself or a neighbour twice.
   */
  lemma ImportAsnsSpec(ignoreDefaultRoutes: bool, family: Family, data: BgpData)
    ensures var r := Import(ignoreDefaultRoutes, family, data).asInfo;
      && AsStateValid(r)
      && NoDuplicates(r.order)
      && (forall a :: a in r.order <==> a == data.localAS || Mentioned(ContextOf(ignoreDefaultRoutes, family, data), Flatten(data.routes), a))
      && (forall j :: 0 <= j < |Records(r)| ==> Records(r)[j].asn == r.order[j])
      && (forall j :: 0 <= j < |Records(r)| ==>
            Records(r)[j].asn !in Records(r)[j].neighborAsns && NoDuplicates(Records(r)[j].neighborAsns))
      && [data.localAS] <= r.order
  {
    var ctx := ContextOf(ignoreDefaultRoutes, family, data);
    var s := Snapshot([], Seeded(data.localAS));
    ImportRoutesFlat(ctx, s, data.routes);
    ImportEntriesValid(ctx, s, Flatten(data.routes));
    ImportEntriesAsns(ctx, s, Flatten(data.routes));
  }

  /** Every AS's `prefixes` after an import: the networks of the accepted entries it originates, in order, repeats kept. */
  lemma ImportPrefixesSpec(ignoreDefaultRoutes: bool, family: Family, data: BgpData)
    ensures var r := Import(ignoreDefaultRoutes, family, data).asInfo;
      forall a :: PrefixesOf(r, a) == OriginPrefixes(ContextOf(ignoreDefaultRoutes, family, data), Flatten(data.routes), a)
  {
    var ctx := ContextOf(ignoreDefaultRoutes, family, data);
    var s := Snapshot([], Seeded(data.localAS));
    ImportRoutesFlat(ctx, s, data.routes);
    ImportEntriesPrefixes(ctx, s, Flatten(data.routes));
  }

  /**
   * Every AS's `neighborAsns` after an import: exactly the other ASNs next to
   * it in `[localAS, ...path]` of some accepted entry.
   */
  lemma ImportNeighborsSpec(ignoreDefaultRoutes: bool, family: Family, data: BgpData)
    ensures var r := Import(ignoreDefaultRoutes, family, data).asInfo;
      forall a, b :: b in NeighborsOf(r, a) <==>
        a != b && Linked(ContextOf(ignoreDefaultRoutes, family, data), Flatten(data.routes), a, b)
  {
    var ctx := ContextOf(ignoreDefaultRoutes, family, data);
    var s := Snapshot([], Seeded(data.localAS));
    ImportRoutesFlat(ctx, s, data.routes);
    ImportEntriesNeighbors(ctx, s, Flatten(data.routes));
  }

  /** Neighbourship is symmetric: `b` is a neighbour of `a` exactly when `a` is one of `b`. */
  lemma NeighborsSymmetric(ignoreDefaultRoutes: bool, family: Family, data: BgpData, a: nat, b: nat)
    ensures var r := Import(ignoreDefaultRoutes, family, data).asInfo;
      b in NeighborsOf(r, a) <==> a in NeighborsOf(r, b)
  {
    ImportNeighborsSpec(ignoreDefaultRoutes, family, data);
    LinkedSymmetric(ContextOf(ignoreDefaultRoutes, family, data), Flatten(data.routes), a, b);
  }

  lemma {:induction false} LinkedSymmetric(ctx: Context, es: seq<BgpEntry>, a: nat, b: nat)
    ensures Linked(ctx, es, a, b) <==> Linked(ctx, es, b, a)
  {
    if es != [] {
      LinkedSymmetric(ctx, es[..|es| - 1], a, b);
    }
  }

  /** An accepted entry at position `k` of `es` links every pair of consecutive ASNs of its path from `localAS` on. */
  lemma {:induction false} LinkedAt(ctx: Context, es: seq<BgpEntry>, k: nat, i: nat)
    requires k < |es| && Accepted(ctx, es[k]) && i + 1 < |[ctx.localAS] + es[k].path|
    ensures var p := [ctx.localAS] + es[k].path;
      Linked(ctx, es, p[i], p[i + 1])
  {
    var p := [ctx.localAS] + es[k].path;
    if k == |es| - 1 {
      assert Adjacent(p, p[i], p[i + 1]);
    } else {
      assert es[..|es| - 1][k] == es[k];
      LinkedAt(ctx, es[..|es| - 1], k, i);
    }
  }

  /**
   * For consecutive distinct ASNs `x, y` of `[localAS, ...path]` of an
   * accepted entry, the import makes each a neighbour of the other.
   */
  lemma ConsecutiveNeighbors(ignoreDefaultRoutes: bool, family: Family, data: BgpData, k: nat, i: nat)
    requires var es := Flatten(data.routes);
      k < |es| && Accepted(ContextOf(ignoreDefaultRoutes, family, data), es[k]) && i < |es[k].path|
    ensures var es := Flatten(data.routes);
      var p := [data.localAS] + es[k].path;
      var r := Import(ignoreDefaultRoutes, family, data).asInfo;
      p[i] != p[i + 1] ==> p[i + 1] in NeighborsOf(r, p[i]) && p[i] in NeighborsOf(r, p[i + 1])
  {
    var ctx := ContextOf(ignoreDefaultRoutes, family, data);
    var es := Flatten(data.routes);
    var p := [data.localAS] + es[k].path;
    ImportNeighborsSpec(ignoreDefaultRoutes, family, data);
    LinkedAt(ctx, es, k, i);
    LinkedSymmetric(ctx, es, p[i], p[i + 1]);
  }
}

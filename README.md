# bgp-observatory core, modelled in Dafny

This project models the data core of bgp-observatory, a small TypeScript
tool. The tool reads the JSON dump of FRRouting's `show bgp ipv4 json` /
`show bgp ipv6 json` and builds two tables per address family:

- the routes, each with its prefix, AS path and origin AS;
- one record per autonomous system, holding the prefixes it originates and
  the ASes seen next to it on some path.

The model covers five parts of that core:

- **`Table` and `Index`** (src/Table.ts) are the generic insertion-ordered
  item set and its per-field indices. They are Dafny classes that update
  their state in place. Each method is proved against an abstract state and
  the functions on it (`TableState`, `TableAdd`, `TableDelete`, `TableFind`,
  `Sweep`).
- **`DataModel`** (src/DataModel.ts) is a class with the eight per-family
  fields of the source.
  - `importIpv4Json` and `importIpv6Json` are one method, `ImportJson`,
    parameterised by the family.
  - `ImportJson` and its loops are proved to build tables that hold what the
    value-level function `Aggregation.Import` computes.
  - Lemmas relate `Aggregation.Import` to independent descriptions: the
    accepted entries, the ASNs they mention, the prefixes each AS originates
    and the pairs of ASes adjacent on a path.
- **`isSpecialAsn`** (src/asn.ts) is a predicate, and lemmas state its usable
  gaps.
- **IPv4 and IPv6 parsing** (src/ipv4.ts, src/ipv6.ts) covers
  `addressToBigInt`, the prefix classes with `includesAddress`, the
  special-purpose prefix lists and `isSpecialPrefix`.
  - Each `addressToBigInt` is a method with the source's loop, proved equal to
    a function.
  - Each listed prefix text is proved to construct the network it names.
  - `isSpecialPrefix` is proved equal to a range test on an independent table
    of address ranges.
- **JavaScript primitives** are in module `JsText`: `split`, `join` and
  `Number.parseInt`, with ECMAScript's prefix semantics (leading white space,
  a sign, `0x` for radix 16, the longest digit run, NaN as `None`).
  The arithmetic on unbounded integers (`<<`, `&`, `~` on `bigint`) is in
  module `Bits`.

Where the code and its documentation differ, the model follows the code:

- The import never calls `isSpecialAsn`.
- The import does not treat AS-SETs specially.
- It does not collapse prepended ASNs.
- It does not deduplicate routes: every accepted entry adds one route, and a
  network originated twice is listed twice in its AS's `prefixes`.
- `path.split(' ')` always yields at least one part, so the
  `asPath.length < 1` guard (src/DataModel.ts:86) never fires
  (`Aggregation.AsPathOf`). The model keeps the guard on its parsed paths.
- The address parser for IPv6 refuses a `::` that stands for one zero group
  at either end (`Ipv6.CompressedOneGroupRefused`). This is because the empty
  side still counts as a part.
- src/index.ts:44 and src/index.ts:57 call `importIpv4Data` and
  `importIpv6Data`, which `DataModel` does not define. src/index.ts is not
  part of this model.

Files:

| file | contents |
|---|---|
| wrappers.dfy | `Option`, `Result` |
| jstext.dfy | `Split`, `Join`, `ParseInt` and their lemmas |
| bits.dfy | powers of two, low-bit clearing, big-endian digit values |
| asn.dfy | `isSpecialAsn` |
| ipv4.dfy, ipv4_special.dfy | `addressToBigInt`, `Ipv4Prefix`, `SPECIAL_PREFIXES`, `isSpecialPrefix` |
| ipv6.dfy, ipv6_special.dfy | the same for IPv6 |
| table.dfy | `Index`, `Table` |
| aggregation.dfy | one import, on values |
| datamodel.dfy | `Route`, `AsInfo`, the import's loops, `DataModel` |

## Model

| member | source | states |
|---|---|---|
| Asn.UsableAsnRanges | src/asn.ts:20-26 | a natural number is not special exactly when it lies in 1..23455, 23457..64495 or 131072..4199999999 |
| Asn.SpecialAsnBoundaries | src/asn.ts:21-24 | 0 and 23456 are special; each reserved range starts and ends where the source puts it |
| Asn.ReservedBlocks | src/asn.ts:23-24 | every number in 64496..131071 and every number from 4200000000 on is special |
| JsText.Split | src/ipv4.ts:21 | `split` always returns at least one part |
| JsText.SplitJoin | src/ipv6.ts:34-36 | splitting parts that hold no separator after joining them gives back the parts |
| JsText.ParseIntDigits | src/ipv4.ts:27 | `parseInt` of a digit string is the number those digits spell |
| JsText.ParseIntStopsAtNonDigit | src/ipv4.ts:27 | `parseInt` reads digits up to the first non-digit and ignores the rest, so `3/24` reads as 3 |
| JsText.ParseIntNoDigit | src/ipv4.ts:27-28 | `parseInt` of the empty text, or of a text whose first character is neither white space, a sign nor a digit, is NaN |
| Bits.ClearLowFacts | src/ipv4.ts:43-44 | `x & ~((1 << k) - 1)` has its low bits clear, lies at most 2^k - 1 below `x` and keeps the bits above `k` |
| Bits.ClearLowAgree | src/ipv4.ts:50 | two values agree after masking exactly when their bits above the host part agree |
| Bits.ClearLowRange | src/ipv4.ts:48-51 | an address masks to an aligned network exactly when it lies in that network's block |
| Bits.FromDigitsBelow | src/ipv4.ts:25-33 | `n` digits each below 2^w make a number below 2^(w*n) |
| Ipv4.OctetValue | src/ipv4.ts:27-30 | a part is accepted only as a number of at most 255 |
| Ipv4.AddressToBigInt | src/ipv4.ts:20-34 | the loop of `addressToBigInt` returns the error or the number that `AddressValue` gives |
| Ipv4.AddressValueOctets | src/ipv4.ts:20-34 | a parsed address has four valid parts and is the big-endian number of their octets |
| Ipv4.AddressValueBound | src/ipv4.ts:25-33 | a parsed address is below 2^32 |
| Ipv4.AddressPartCount | src/ipv4.ts:21-24 | an address is refused unless it has exactly four dot-separated parts |
| Ipv4.AddressBadOctet | src/ipv4.ts:26-30 | an address is refused when some part is NaN or outside 0..255 |
| Ipv4.NewIpv4Prefix | src/ipv4.ts:40-46 | a constructed prefix has a length of at most 32 |
| Ipv4.NetworkAddress | src/ipv4.ts:40-46 | the stored network has its host bits clear, lies at most 2^(32-len) - 1 below the parsed address, keeps that address's top bits and is below 2^32 |
| Ipv4.IncludesTopBits | src/ipv4.ts:48-51 | `includesAddress` holds exactly when the address agrees with the network on the top `length` bits |
| Ipv4.IncludesOwnAddress | src/ipv4.ts:40-51 | a prefix includes the address it was built from |
| Ipv4.QuadValue | src/ipv4.ts:20-34 | a decimal dotted quad parses to the big-endian number of its octets |
| Ipv4.DottedPrefix | src/ipv4.ts:40-46 | `a.b.c.d/len` whose address is aligned to 2^(32-len) constructs exactly that network and length |
| Ipv4Special.SpecialPrefixSpelling0 | src/ipv4.ts:55-57 | the first three listed texts are `0.0.0.0/8`, `10.0.0.0/8` and `100.64.0.0/10` |
| Ipv4Special.SpecialPrefixSpelling1 | src/ipv4.ts:58-60 | the next three texts are `127.0.0.0/8`, `169.254.0.0/16` and `172.16.0.0/12` |
| Ipv4Special.SpecialPrefixSpelling2 | src/ipv4.ts:61-63 | the next three texts are `192.0.0.0/24`, `192.0.2.0/24` and `192.88.99.0/24` |
| Ipv4Special.SpecialPrefixSpelling3 | src/ipv4.ts:64-66 | the next three texts are `192.168.0.0/16`, `198.18.0.0/15` and `198.51.100.0/24` |
| Ipv4Special.SpecialPrefixSpelling4 | src/ipv4.ts:67-69 | the last three texts are `203.0.113.0/24`, `224.0.0.0/4` and `240.0.0.0/4` |
| Ipv4Special.SpecialPrefixTexts | src/ipv4.ts:54-70 | each of the 15 listed texts constructs the listed network |
| Ipv4Special.SpecialPrefixAt | src/ipv4.ts:54-70 | the `i`-th listed text constructs the `i`-th listed network |
| Ipv4Special.SpecialNetworkAligned | src/ipv4.ts:54-70 | every listed network has its host bits clear |
| Ipv4Special.SpecialBlockRange | src/ipv4.ts:50 | an address is in a listed block exactly when it lies between that block's bounds in the range table |
| Ipv4Special.SomeIncludesExists | src/ipv4.ts:72-74 | on a non-empty list, `.some(includesAddress)` throws exactly when the address does not parse, and otherwise says whether some block holds it |
| Ipv4Special.IsSpecialPrefixRanges | src/ipv4.ts:72-74 | `isSpecialPrefix` throws the address error when the whole argument does not parse as an address, and otherwise is the range test on that address's number |
| Ipv4Special.QuadIsSpecial | src/ipv4.ts:72-74 | for a dotted quad, `isSpecialPrefix` is the range test on its number |
| Ipv4Special.SpecialRangeExamples | src/ipv4.ts:56-64 | 10.1.2.3 and 192.168.0.1 are in a special range; 8.8.8.8 is not |
| Ipv6.GroupValue | src/ipv6.ts:42-45 | a group is accepted only as a number of at most 0xffff |
| Ipv6.AddressToBigInt | src/ipv6.ts:20-49 | the `::` step and the loop of `addressToBigInt` return the error or the number that `AddressValue` gives |
| Ipv6.AddressValueGroups | src/ipv6.ts:36-48 | a parsed address has eight valid groups after expansion and is their big-endian number |
| Ipv6.AddressValueBound | src/ipv6.ts:40-48 | a parsed address is below 2^128 |
| Ipv6.AddressTwoCompressions | src/ipv6.ts:21-24 | an address with two `::` or more is refused |
| Ipv6.AddressCompressionFull | src/ipv6.ts:25-31 | with `::`, two sides of eight parts or more are refused |
| Ipv6.AddressPartCount | src/ipv6.ts:36-39 | without `::`, an address is refused unless it has exactly eight colon-separated parts |
| Ipv6.ExpandedGroups | src/ipv6.ts:25-37 | the `::` step yields exactly the sides' parts with `8 - left - right` zero groups between them, so eight parts |
| Ipv6.FullGroupsValue | src/ipv6.ts:36-48 | eight groups written out in hexadecimal parse to the number they spell |
| Ipv6.CompressedValue | src/ipv6.ts:20-49 | an address with one `::` parses to its groups with the missing ones filled in as zero, when the sides leave room |
| Ipv6.CompressedOneGroupRefused | src/ipv6.ts:27-31 | a `::` standing for a single zero group at either end is refused |
| Ipv6.NewIpv6Prefix | src/ipv6.ts:55-61 | a constructed prefix has a length of at most 128 |
| Ipv6.NetworkAddress | src/ipv6.ts:55-61 | the stored network has its host bits clear, lies at most 2^(128-len) - 1 below the parsed address and keeps that address's top bits |
| Ipv6.IncludesTopBits | src/ipv6.ts:63-66 | `includesAddress` holds exactly when the address agrees with the network on the top `length` bits |
| Ipv6.IncludesOwnAddress | src/ipv6.ts:55-66 | a prefix includes the address it was built from |
| Ipv6.CompressedPrefix | src/ipv6.ts:55-61 | a compressed prefix text whose address is aligned constructs exactly that network and length |
| Ipv6Special.SpecialPrefixSpelling0 | src/ipv6.ts:70 | the first listed text is `::/128` |
| Ipv6Special.SpecialPrefixSpelling1 | src/ipv6.ts:71 | the second listed text is `::1/128` |
| Ipv6Special.SpecialPrefixSpelling2 | src/ipv6.ts:72 | the third listed text is `::ffff:0:0/96` |
| Ipv6Special.SpecialPrefixSpelling3 | src/ipv6.ts:73 | the fourth listed text is `::ffff:0:0:0/96` |
| Ipv6Special.SpecialPrefixSpelling4 | src/ipv6.ts:74 | the fifth listed text is `64:ff9b::/96` |
| Ipv6Special.SpecialPrefixSpelling5 | src/ipv6.ts:75 | the sixth listed text is `64:ff9b:1::/48` |
| Ipv6Special.SpecialPrefixSpelling6 | src/ipv6.ts:76 | the seventh listed text is `100::/64` |
| Ipv6Special.SpecialPrefixSpelling7 | src/ipv6.ts:77 | the eighth listed text is `2001:20::/28` |
| Ipv6Special.SpecialPrefixSpelling8 | src/ipv6.ts:78 | the ninth listed text is `2001:db8::/32` |
| Ipv6Special.SpecialPrefixSpelling9 | src/ipv6.ts:79 | the tenth listed text is `2002::/16` |
| Ipv6Special.SpecialPrefixSpelling10 | src/ipv6.ts:80 | the eleventh listed text is `fc00::/7` |
| Ipv6Special.SpecialPrefixSpelling11 | src/ipv6.ts:81 | the twelfth listed text is `fe80::/10` |
| Ipv6Special.SpecialPrefixSpelling12 | src/ipv6.ts:82 | the thirteenth listed text is `ff00::/8` |
| Ipv6Special.SpecialPrefixSpelling13 | src/ipv6.ts:83 | the last listed text is `2001:2::/48` |
| Ipv6Special.SpecialPrefixTexts | src/ipv6.ts:69-84 | each of the 14 listed texts constructs the listed network |
| Ipv6Special.SpecialPrefixAt | src/ipv6.ts:69-84 | the `i`-th listed text constructs the `i`-th listed network |
| Ipv6Special.SpecialNetworkAligned | src/ipv6.ts:69-84 | every listed network has its host bits clear |
| Ipv6Special.SpecialBlockRange | src/ipv6.ts:65 | an address is in a listed block exactly when it lies between that block's bounds in the range table |
| Ipv6Special.SomeIncludesExists | src/ipv6.ts:86-88 | on a non-empty list, `.some(includesAddress)` throws exactly when the address does not parse, and otherwise says whether some block holds it |
| Ipv6Special.IsSpecialPrefixRanges | src/ipv6.ts:86-88 | `isSpecialPrefix` throws the address error when the whole argument does not parse as an address, and otherwise is the range test on that address's number |
| Ipv6Special.CompressedIsSpecial | src/ipv6.ts:86-88 | for an address with one `::`, `isSpecialPrefix` is the range test on its expanded number |
| Ipv6Special.SpecialRangeExamples | src/ipv6.ts:78-81 | 2001:db8::1 and fe80::1 are in a special range; 2001:4860:4860::8888 is not |
| Tables.IndexOf | src/Table.ts:38-39 | `indexOf` of an item that is present finds its first position |
| Tables.RemoveFacts | src/Table.ts:38-40 | on a list without repeats, removing `x` takes out `x` and nothing else and shortens the list by one exactly when `x` was there |
| Tables.IndexAddFacts | src/Table.ts:24-32 | after `add(value, item)` the item is once in the bucket of `value`, after what was there; other buckets are unchanged; the invariant is kept; the reverse map records `value` |
| Tables.IndexDeleteFacts | src/Table.ts:34-46 | after `delete(item)` the item is gone from the bucket of its recorded value and nothing else left; other buckets and the reverse map are unchanged; an item with no reverse entry changes nothing |
| Tables.StaleReverse | src/Table.ts:31-36 | an item indexed under `v` and then `w` sits in both buckets, and `delete` leaves it in the bucket of `v` |
| Tables.StringKeys | src/Table.ts:64 | the index keys are exactly the string keys given, no more of them than were given |
| Tables.NewTable | src/Table.ts:63-68 | a new table keeps the invariant |
| Tables.TableFind | src/Table.ts:90-97 | `find` on a key with no index returns the empty list |
| Tables.AddUnderAt | src/Table.ts:71-78 | the `add` loop gives each listed key one `add`, however often it is listed |
| Tables.DeleteUnderAt | src/Table.ts:83-86 | the `delete` loop gives each listed key one `delete`, however often it is listed |
| Tables.TableAddIndices | src/Table.ts:70-80 | after `add(item)` a key whose field is defined has had one `add` and any other key none |
| Tables.TableAddItems | src/Table.ts:79 | after `add(item)` the item is once in the item set, after the items already there |
| Tables.TableAddFacts | src/Table.ts:70-80 | after `add(item)` the invariant holds, the item is in the set once, and it is once in the bucket of each defined field |
| Tables.TableAddFresh | src/Table.ts:24-27 | an item whose field has no bucket yet gets the one-element bucket, and the key's other buckets are unchanged |
| Tables.TableAddTwice | src/Table.ts:28-31 | adding the same item twice leaves the table as one `add` does |
| Tables.TableDeleteFacts | src/Table.ts:82-88 | after `delete(item)` the invariant holds, the item is out of the set, every index had one `delete`, and the item is out of the bucket it was last indexed under |
| Tables.TableDeleteIndices | src/Table.ts:82-88 | `delete` keeps the key list and the set of indices, and gives each index one `delete` |
| Tables.AddThenDelete | src/Table.ts:70-88 | `add` then `delete` of an item removes it from the set and from the bucket of every defined field |
| Tables.DeleteUnknown | src/Table.ts:34-46 | deleting an item the table never held or indexed changes nothing |
| Tables.SweepStep | src/Table.ts:101-103 | one round of `findAndDelete` keeps the invariant and does not lengthen the bucket it walks |
| Tables.Sweep | src/Table.ts:99-104 | the `findAndDelete` loop keeps the invariant |
| Tables.SweepFacts | src/Table.ts:99-104 | `findAndDelete` deletes only items of the bucket it was asked for, and the item set loses exactly the deleted items |
| Tables.SweepSkips | src/Table.ts:99-104 | with bucket `[a, b, c]`, `findAndDelete` deletes `a` and `c` and leaves `b`, because the loop walks the bucket while it is spliced |
| Tables.Index.constructor | src/Table.ts:21-22 | a new index has no buckets and an empty reverse map |
| Tables.Index.Add | src/Table.ts:24-32 | the new state is `IndexAdd` of the old one |
| Tables.Index.Delete | src/Table.ts:34-46 | the new state is `IndexDelete` of the old one |
| Tables.Index.Find | src/Table.ts:48-55 | returns the bucket of the value, or the empty list |
| Tables.NewIndices | src/Table.ts:65-67 | the constructor's loop makes one fresh, empty index per key |
| Tables.Table.constructor | src/Table.ts:63-68 | a new table is in the state `NewTable`, keeps its invariant and owns fresh indices, one per key |
| Tables.Table.Add | src/Table.ts:70-80 | keeps the invariant; the new state is `TableAdd` of the old one |
| Tables.Table.AddAt | src/Table.ts:72-77 | one round of the `add` loop changes the index of that key only, by `IndexAdd` |
| Tables.Table.DeleteAt | src/Table.ts:84-85 | one round of the `delete` loop changes the index of that key only, by `IndexDelete` |
| Tables.Table.Delete | src/Table.ts:82-88 | keeps the invariant; the new state is `TableDelete` of the old one |
| Tables.Table.Find | src/Table.ts:90-97 | returns `TableFind` of the state |
| Tables.Table.FindAndDelete | src/Table.ts:99-104 | keeps the invariant; the new state is `Sweep` of the old one, a loop over the live bucket |
| Tables.Table.SweepRound | src/Table.ts:101-103 | one round deletes the item at position `i`, rereads the live bucket, and does not lengthen it |
| Tables.Table.Items | src/Table.ts:106-108 | returns a new array holding the item set in insertion order |
| Aggregation.AsPathOf | src/DataModel.ts:85-88 | the parsed path has one entry per space-separated part, so at least one, and each entry is `parseInt` of its part |
| Aggregation.Seeded | src/DataModel.ts:69-75 | the AS table an import starts from, the record of the local AS alone, is valid |
| Aggregation.Records | src/DataModel.ts:228-230 | one record per ASN of the table's order, in that order |
| Aggregation.ImportEntriesAppend | src/DataModel.ts:76-78 | running the entry loop over two lists one after the other is running it over their concatenation |
| Aggregation.ImportRoutesFlat | src/DataModel.ts:76-78 | the two nested loops over prefixes and entries are one loop over all entries in order |
| Aggregation.LinkFacts | src/DataModel.ts:107-126 | linking a path adds records exactly for its ASNs, leaves prefixes alone and connects exactly the adjacent distinct pairs |
| Aggregation.ReachAdjacent | src/DataModel.ts:107-110 | a full walk over a path visits `a` next to `b` exactly when they are adjacent in it |
| Aggregation.ImportEntryValid | src/DataModel.ts:79-126 | one entry keeps the AS table valid and only appends to its order |
| Aggregation.ImportEntriesValid | src/DataModel.ts:78-127 | the entry loop keeps the AS table valid and only appends to its order |
| Aggregation.ImportEntryFacts | src/DataModel.ts:79-126 | one accepted entry adds records for its ASNs, appends its network to its origin, and links its adjacent pairs; a skipped entry changes nothing |
| Aggregation.ImportEntriesRoutes | src/DataModel.ts:78-95 | the entry loop appends exactly the routes of the accepted entries |
| Aggregation.ImportEntriesAsns | src/DataModel.ts:96-119 | the entry loop adds a record exactly for the ASNs the accepted entries mention |
| Aggregation.ImportEntriesPrefixes | src/DataModel.ts:96-105 | the entry loop appends to each AS exactly the networks it originates |
| Aggregation.ImportEntriesNeighbors | src/DataModel.ts:106-126 | the entry loop adds neighbours exactly for the adjacent distinct pairs of accepted entries |
| Aggregation.ImportRoutesSpec | src/DataModel.ts:76-95 | the routes of an import are one per accepted entry, in order; ignored default routes, invalid entries and empty paths add none; nothing is deduplicated |
| Aggregation.ImportAsnsSpec | src/DataModel.ts:70-75 | the AS table has exactly one record per distinct ASN among the local AS and the accepted paths, the local AS first; no record lists itself or a neighbour twice |
| Aggregation.ImportPrefixesSpec | src/DataModel.ts:96-105 | each AS's `prefixes` are the networks of the accepted entries it originates, in order, repeats kept |
| Aggregation.ImportNeighborsSpec | src/DataModel.ts:106-126 | `b` is a neighbour of `a` exactly when they differ and are adjacent in `[localAS, ...path]` of some accepted entry |
| Aggregation.NeighborsSymmetric | src/DataModel.ts:120-125 | `b` is a neighbour of `a` exactly when `a` is a neighbour of `b` |
| Aggregation.LinkedSymmetric | src/DataModel.ts:120-125 | adjacency on accepted paths does not depend on the order of the pair |
| Aggregation.LinkedAt | src/DataModel.ts:106-110 | consecutive ASNs of an accepted entry's path, from the local AS on, are linked |
| Aggregation.ConsecutiveNeighbors | src/DataModel.ts:106-126 | consecutive distinct ASNs of an accepted entry's path are each other's neighbours after the import |
| DataModels.Route.constructor | src/DataModel.ts:90-95 | a new route object holds the family's version, the network, the path and the origin |
| DataModels.AsInfo.constructor | src/DataModel.ts:98-102 | a new AS record holds its ASN and empty prefix and neighbour lists |
| DataModels.RouteValues | src/DataModel.ts:220-222 | one route record per route object, in order |
| DataModels.AsInfoValues | src/DataModel.ts:228-230 | one AS record per AS object, in order |
| DataModels.AsMirrorRecords | src/DataModel.ts:228-230 | the AS objects of a table that holds an AS state are its records in order |
| DataModels.AddToTable | src/DataModel.ts:103 | adding a new AS object appends it to the item set and indexes it under its ASN; existing objects are untouched |
| DataModels.AddRecord | src/DataModel.ts:97-104 | a missing ASN gets a new, empty record at the end of the table |
| DataModels.FindOrAdd | src/DataModel.ts:96-104 | `find('asn', …)[0]` or a new record: afterwards the table holds the ASN's record, found at its position |
| DataModels.AppendPrefix | src/DataModel.ts:105 | the network is appended to the record's prefixes, and no index changes |
| DataModels.PushNeighbor | src/DataModel.ts:120-125 | the neighbour is appended when it differs from the record's ASN and is not yet listed, and no index changes |
| DataModels.LinkRound | src/DataModel.ts:108-125 | one round of the path loop gives the table the state `LinkAt` |
| DataModels.LinkNeighbors | src/DataModel.ts:109-125 | the predecessor and successor checks give the record the neighbours `Neighbors` states |
| DataModels.LinkPath | src/DataModel.ts:106-126 | the path loop gives the table the state `Link` over `[localAS, ...path]` |
| DataModels.AddOrigin | src/DataModel.ts:96-105 | the origin's record exists and has the network appended |
| DataModels.RecordOrigin | src/DataModel.ts:96-126 | the AS part of one accepted entry: origin prefix, then path links; the route table is untouched |
| DataModels.RouteValuesSnoc | src/DataModel.ts:90 | appending a route object appends its record |
| DataModels.AddRoute | src/DataModel.ts:90-95 | the route table gains one route object holding the entry's route; the AS table is untouched |
| DataModels.InsertRoute | src/DataModel.ts:90-95 | the route table's new state is `TableAdd` of the route under `prefix` and `originAsn` |
| DataModels.AddEntry | src/DataModel.ts:79-126 | one round of the entry loop gives both tables the state `ImportEntry` |
| DataModels.AddEntries | src/DataModel.ts:78-127 | the entry loop gives both tables the state `ImportEntries` |
| DataModels.EmptyAsMirror | src/DataModel.ts:69 | a new AS table holds the empty AS state |
| DataModels.EmptyTables | src/DataModel.ts:51-58 | the field initialisers make a new route table and a new AS table, both empty |
| DataModels.SeededTables | src/DataModel.ts:68-75 | the import starts from an empty route table and an AS table holding the local AS alone |
| DataModels.NewRouteTable | src/DataModel.ts:68 | a new route table holds no routes |
| DataModels.Build | src/DataModel.ts:68-128 | new tables that hold `ImportRoutes` of the dump from the seeded state |
| DataModels.DataModel.constructor | src/DataModel.ts:45-62 | keeps the option; no local AS and no router id in either family, so no router info; all four tables empty |
| DataModels.DataModel.Install | src/DataModel.ts:129-130 | puts the two tables in place for the family; every other field is unchanged, and so are the tables' contents |
| DataModels.DataModel.ImportJson | src/DataModel.ts:64-200 | `importIpv4Json` and `importIpv6Json` (the same code, with `ipVersion` 4 or 6): the family's local AS and router id are set, so router info is present; its tables are new and hold `Import` of the dump; the other family's fields are unchanged |
| DataModels.DataModel.GetterValues | src/DataModel.ts:220-234 | after an import the four getters return the import's routes and its AS records in order |
| DataModels.DataModel.RouterInfoOf | src/DataModel.ts:202-218 | router info is present exactly when both the local AS and the router id are set, and then holds those values |

## Left out

- `JSON.parse` and the dump's types: `ImportJson` takes the decoded dump as a
  `BgpData` value. Each entry's path is already a list of AS numbers.
- `Aggregation.AsPathOf` shows how the source splits and parses a path text.
  A path part that `parseInt` reads as NaN is not modelled, and nor is what
  the source then does with it. `Map.get` and `Array.includes` compare with
  SameValueZero, under which NaN matches NaN, while `!=` never does. So in
  the source every NaN origin shares one `AsInfo` record, the empty path text
  `""` becomes `[NaN]` and still adds a route, and a NaN record can list NaN
  as its own neighbour. The model covers none of these behaviours.
- Numbers are unbounded. JavaScript's double-precision numbers are not
  modelled. Every AS number and address group the code compares fits in one
  exactly.
- `DataModelOptions` is reduced to its one flag, `ignoreDefaultRoutes`. An
  absent flag is `false`, as `undefined` is falsy in the source's test.
- `for … in` over `routes` is taken as the sequence of `prefix → entries`
  pairs in the dump's key order. Prefix texts such as `10.0.0.0/8` are not
  integer-like keys, so JavaScript keeps them in insertion order.
- Tables.Index.Find: returns the bucket as a value. In the source `find`
  returns the live bucket array, which later `add` and `delete` calls change
  and which a caller could write to. The model does not capture this
  aliasing. `Tables.Table.Find` is the same. `Tables.Table.FindAndDelete`
  does model the effect of the live array on its own loop by reading the
  bucket again each round.
- The `WeakMap` of `Index` is a Dafny `map` from item to value. Garbage
  collection of its entries is not modelled.
- The file watching, streamed JSON parsing, writing of output files and
  logging of src/index.ts and src/utils.ts are not part of this model.
- DataModels.DataModel.constructor: states that the getters return empty
  lists and that no router info exists. It does not state the index state of
  the four new tables, which no getter can observe.
- DataModels.DataModel.GetRoutes: has no contract of its own. It returns the
  family's route objects; what they hold after an import is stated by
  `DataModels.DataModel.GetterValues`. The same goes for
  `DataModels.DataModel.GetAsInfo`.
- DataModels.DataModel.ImportJson: its table contents are stated through
  `Holds`. `Holds` relates the route objects to a list of route records and
  the AS objects to an AS state. Object identity of items is not exposed
  to callers.
- DataModels.SeededTables: makes the AS table before the route table, where
  the source makes the route table first. Both tables are new and empty
  when made, so the order is not observable.
- DataModels.AsInfo: the record carries a ghost reference to the table it
  was made for. This reference lets the methods name the records they may
  change. It is not part of the source's object.
- Ipv4.NewIpv4Prefix: takes only texts with a `/` whose length part is a
  plain decimal of at most 32. The same holds for `Ipv6.NewIpv6Prefix`,
  with at most 128. The source passes only the constant lists to these
  constructors. What `BigInt` and a negative shift do with other lengths is
  not modelled.
- Asn.IsSpecialAsn is stated for integers. The source's `number` argument can
  also be fractional or NaN, and those are not modelled.

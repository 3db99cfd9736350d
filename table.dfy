/**
 * The generic indexed table of src/Table.ts. `Index` maps a field value to a
 * bucket (the items indexed under it, in the order they were added) and
 * remembers the value each item was last indexed under; `Table` owns an
 * insertion-ordered item set and one `Index` per configured string key.
 *
 * Items are handles compared by identity (`T(==)`, the objects of the
 * source); an item's fields are passed to `Add` as a map from field name to
 * value, a missing name standing for a field that is `undefined`. The
 * abstract states `IndexState` and `TableState` and the functions on them
 * specify the classes at the end of the module.
 */
module Tables {

  predicate NoDuplicates<T(==)>(s: seq<T>)
  {
    forall i, j :: 0 <= i < j < |s| ==> s[i] != s[j]
  }

  /** `s.indexOf(x)` for an `x` that occurs in `s`: the first position holding it. */
  function IndexOf<T(==)>(s: seq<T>, x: T): (r: nat)
    requires x in s
    ensures r < |s| && s[r] == x && x !in s[..r]
  {
    if s[0] == x then 0
    else
      var r := 1 + IndexOf(s[1..], x);
      assert s[..r] == [s[0]] + s[1..][..r - 1];
      r
  }

  /** `s.splice(i, 1)`: `s` without its element at `i`. */
  function Splice<T(==)>(s: seq<T>, i: nat): seq<T>
    requires i < |s|
  {
    s[..i] + s[i + 1..]
  }

  /** Removing the first `x` (the `indexOf` plus `splice` of `delete`, and `Set.delete`). */
  function Remove<T(==)>(s: seq<T>, x: T): seq<T>
  {
    if x in s then Splice(s, IndexOf(s, x)) else s
  }

  /** From a list without repeats, `Remove` takes out `x` and nothing else, keeping the order. */
  lemma RemoveFacts<T>(s: seq<T>, x: T)
    requires NoDuplicates(s)
    ensures NoDuplicates(Remove(s, x))
    ensures forall y :: y in Remove(s, x) <==> y in s && y != x
    ensures |Remove(s, x)| == if x in s then |s| - 1 else |s|
  {
    if x in s {
      var i := IndexOf(s, x);
      var r := Splice(s, i);
      assert forall j :: 0 <= j < |r| ==> r[j] == (if j < i then s[j] else s[j + 1]);
      forall y | y in s && y != x
        ensures y in r
      {
        var j :| 0 <= j < |s| && s[j] == y;
        assert j != i;
        if j < i {
          assert r[j] == y;
        } else {
          assert r[j - 1] == y;
        }
      }
    }
  }

  // ---------------------------------------------------------------------
  // Index

  /** The state of an `Index`: the `#index` buckets and the `#reverseIndex` map. */
  datatype IndexState<V, T> = IndexState(buckets: map<V, seq<T>>, reverse: map<T, V>)

  /** What `add` and `delete` keep: no bucket is empty and no bucket holds an item twice. */
  predicate IndexInvariant<V(==), T(==)>(s: IndexState<V, T>)
  {
    forall v :: v in s.buckets ==> s.buckets[v] != [] && NoDuplicates(s.buckets[v])
  }

  /** `find(value)`: the bucket of `value`, or the empty list when it has none. */
  function Bucket<V(==), T(==)>(s: IndexState<V, T>, value: V): seq<T>
  {
    if value in s.buckets then s.buckets[value] else []
  }

  /**
   * `add(value, item)`: a new value gets the bucket `[item]`, an existing
   * bucket gets `item` appended unless it already holds it, and the reverse
   * map records `value` as the item's latest value.
   */
  function IndexAdd<V(==), T(==)>(s: IndexState<V, T>, value: V, item: T): IndexState<V, T>
  {
    var bucket :=
      if value !in s.buckets then [item]
      else if item in s.buckets[value] then s.buckets[value]
      else s.buckets[value] + [item];
    IndexState(s.buckets[value := bucket], s.reverse[item := value])
  }

  /**
   * `delete(item)`: the item leaves the bucket of the value the reverse map
   * holds for it, and a bucket left empty is dropped. The reverse entry
   * itself stays. An item the reverse map does not know changes nothing:
   * the source then looks up the bucket of `undefined`, and `Table` never
   * indexes an item under `undefined`.
   */
  function IndexDelete<V(==), T(==)>(s: IndexState<V, T>, item: T): IndexState<V, T>
  {
    if item in s.reverse && s.reverse[item] in s.buckets && item in s.buckets[s.reverse[item]] then
      var value := s.reverse[item];
      var rest := Splice(s.buckets[value], IndexOf(s.buckets[value], item));
      IndexState(if rest == [] then s.buckets - {value} else s.buckets[value := rest], s.reverse)
    else
      s
  }

  /**
   * After `add(value, item)` the item is in the bucket of `value` exactly
   * once, after the items that were there before; a new value gets the
   * one-element bucket `[item]`; other buckets are as they were; repeating
   * the call changes nothing.
   */
  lemma IndexAddFacts<V, T>(s: IndexState<V, T>, value: V, item: T)
    requires IndexInvariant(s)
    ensures IndexInvariant(IndexAdd(s, value, item))
    ensures multiset(Bucket(IndexAdd(s, value, item), value))[item] == 1
    ensures Bucket(s, value) <= Bucket(IndexAdd(s, value, item), value)
    ensures forall y :: y in Bucket(IndexAdd(s, value, item), value) <==> y in Bucket(s, value) || y == item
    ensures value !in s.buckets ==> Bucket(IndexAdd(s, value, item), value) == [item]
    ensures forall w :: w != value ==> Bucket(IndexAdd(s, value, item), w) == Bucket(s, w)
    ensures IndexAdd(s, value, item).reverse == s.reverse[item := value]
    ensures IndexAdd(IndexAdd(s, value, item), value, item) == IndexAdd(s, value, item)
  {
    var b := Bucket(IndexAdd(s, value, item), value);
    if value in s.buckets {
      var old_ := s.buckets[value];
      if item in old_ {
        var i := IndexOf(old_, item);
        NoDuplicatesCount(old_, i);
      } else {
        assert multiset(b) == multiset(old_) + multiset{item};
        forall i, j | 0 <= i < j < |b|
          ensures b[i] != b[j]
        {
          if j == |old_| {
            assert b[i] in old_;
          }
        }
      }
    }
  }

  /** An item at one position of a list without repeats occurs in it once. */
  lemma {:induction false} NoDuplicatesCount<T>(s: seq<T>, i: nat)
    requires NoDuplicates(s) && i < |s|
    ensures multiset(s)[s[i]] == 1
  {
    if i == 0 {
      assert s == [s[0]] + s[1..];
      assert s[0] !in s[1..];
    } else {
      assert s == [s[0]] + s[1..];
      assert s[1..][i - 1] == s[i];
      NoDuplicatesCount(s[1..], i - 1);
    }
  }

  /**
   * After `delete(item)` the item is gone from the bucket of its latest
   * value, and nothing else left it; every other bucket and the reverse map
   * are as they were; an item the reverse map does not know changes nothing;
   * deleting again changes nothing more.
   */
  lemma IndexDeleteFacts<V, T>(s: IndexState<V, T>, item: T)
    requires IndexInvariant(s)
    ensures IndexInvariant(IndexDelete(s, item))
    ensures IndexDelete(s, item).reverse == s.reverse
    ensures item !in s.reverse ==> IndexDelete(s, item) == s
    ensures item in s.reverse ==>
      forall y :: y in Bucket(IndexDelete(s, item), s.reverse[item]) <==> y in Bucket(s, s.reverse[item]) && y != item
    ensures forall w :: (item !in s.reverse || w != s.reverse[item]) ==> Bucket(IndexDelete(s, item), w) == Bucket(s, w)
    ensures forall w :: |Bucket(IndexDelete(s, item), w)| <= |Bucket(s, w)|
    ensures forall w, y :: y in Bucket(IndexDelete(s, item), w) ==> y in Bucket(s, w)
    ensures forall w, y :: y in Bucket(s, w) && y != item ==> y in Bucket(IndexDelete(s, item), w)
    ensures IndexDelete(IndexDelete(s, item), item) == IndexDelete(s, item)
  {
    if item in s.reverse && s.reverse[item] in s.buckets && item in s.buckets[s.reverse[item]] {
      var value := s.reverse[item];
      RemoveFacts(s.buckets[value], item);
      assert Remove(s.buckets[value], item) == Splice(s.buckets[value], IndexOf(s.buckets[value], item));
    }
  }

  /**
   * The reverse map keeps only the latest value: an item indexed under `v`
   * and then under `w` sits in both buckets, and `delete` takes it out of
   * the bucket of `w` only.
   */
  lemma StaleReverse<V, T>(s: IndexState<V, T>, v: V, w: V, item: T)
    requires IndexInvariant(s) && v != w
    ensures var t := IndexAdd(IndexAdd(s, v, item), w, item);
      && item in Bucket(t, v) && item in Bucket(t, w)
      && item in Bucket(IndexDelete(t, item), v) && item !in Bucket(IndexDelete(t, item), w)
  {
    var s1 := IndexAdd(s, v, item);
    IndexAddFacts(s, v, item);
    IndexAddFacts(s1, w, item);
    IndexDeleteFacts(IndexAdd(s1, w, item), item);
  }

  // ---------------------------------------------------------------------
  // Table

  /** A property name as `keyof T` gives it: only the string ones become index keys. */
  datatype PropertyKey = StringKey(name: string) | NumberKey(number: int) | SymbolKey(symbol: nat)

  /** `[...indexKeys].filter((keyName) => 'string' == typeof keyName)`. */
  function StringKeys(keys: seq<PropertyKey>): (r: seq<string>)
    ensures forall n :: n in r <==> StringKey(n) in keys
    ensures |r| <= |keys|
  {
    if keys == [] then []
    else
      var rest := StringKeys(keys[1..]);
      assert forall n :: StringKey(n) in keys <==> StringKey(n) == keys[0] || StringKey(n) in keys[1..];
      (if keys[0].StringKey? then [keys[0].name] else []) + rest
  }

  /** The state of a `Table`: its `#indexKeys`, the state of each of its indices, and its `#items`. */
  datatype TableState<V, T> = TableState(keys: seq<string>, indices: map<string, IndexState<V, T>>, items: seq<T>)

  /** Every key has an index and every index a key, the item set has no repeats, and every index keeps its invariant. */
  predicate TableInvariant<V(==), T(==)>(s: TableState<V, T>)
  {
    && (forall k :: k in s.keys ==> k in s.indices)
    && (forall k :: k in s.indices ==> k in s.keys)
    && NoDuplicates(s.items)
    && (forall k :: k in s.indices ==> IndexInvariant(s.indices[k]))
  }

  /** The state a new `Table(indexKeys)` starts in: an empty index per string key, no items. */
  function NewTable<V(==), T(==)>(indexKeys: seq<PropertyKey>): (r: TableState<V, T>)
    ensures TableInvariant(r)
  {
    var keys := StringKeys(indexKeys);
    TableState(keys, map k | k in keys :: IndexState(map[], map[]), [])
  }

  /** The loop of `add` over the keys `ks`: each index whose field is defined gets `add(fields[k], item)`. */
  function AddUnder<V(==), T(==)>(indices: map<string, IndexState<V, T>>, ks: seq<string>, item: T, fields: map<string, V>)
    : map<string, IndexState<V, T>>
  {
    if ks == [] then indices
    else
      var before := AddUnder(indices, ks[..|ks| - 1], item, fields);
      var k := ks[|ks| - 1];
      if k in fields && k in before then before[k := IndexAdd(before[k], fields[k], item)] else before
  }

  /** The loop of `delete` over the keys `ks`: each index gets `delete(item)`. */
  function DeleteUnder<V(==), T(==)>(indices: map<string, IndexState<V, T>>, ks: seq<string>, item: T)
    : map<string, IndexState<V, T>>
  {
    if ks == [] then indices
    else
      var before := DeleteUnder(indices, ks[..|ks| - 1], item);
      var k := ks[|ks| - 1];
      if k in before then before[k := IndexDelete(before[k], item)] else before
  }

  /** `add(item)`: index the item under every key whose field is defined, then add it to the item set. */
  function TableAdd<V(==), T(==)>(s: TableState<V, T>, item: T, fields: map<string, V>): TableState<V, T>
  {
    TableState(s.keys, AddUnder(s.indices, s.keys, item, fields), if item in s.items then s.items else s.items + [item])
  }

  /** `delete(item)`: delete the item from every index, then from the item set. */
  function TableDelete<V(==), T(==)>(s: TableState<V, T>, item: T): TableState<V, T>
  {
    TableState(s.keys, DeleteUnder(s.indices, s.keys, item), Remove(s.items, item))
  }

  /** `find(indexKey, value)`: the bucket of `value` in the index of `indexKey`; empty for a key with no index. */
  function TableFind<V(==), T(==)>(s: TableState<V, T>, key: PropertyKey, value: V): (r: seq<T>)
    ensures !key.StringKey? || key.name !in s.indices ==> r == []
  {
    if key.StringKey? && key.name in s.indices then Bucket(s.indices[key.name], value) else []
  }

  /** Running the loop of `add` over keys that include `k` gives index `k` one `add`, however often `k` is listed. */
  lemma {:induction false} AddUnderAt<V, T>(indices: map<string, IndexState<V, T>>, ks: seq<string>, item: T, fields: map<string, V>, k: string)
    requires forall j :: j in indices ==> IndexInvariant(indices[j])
    ensures AddUnder(indices, ks, item, fields).Keys == indices.Keys
    ensures k in indices ==>
      AddUnder(indices, ks, item, fields)[k] == if k in ks && k in fields then IndexAdd(indices[k], fields[k], item) else indices[k]
  {
    if ks != [] {
      var init := ks[..|ks| - 1];
      AddUnderAt(indices, init, item, fields, k);
      assert k in ks <==> k in init || k == ks[|ks| - 1];
      if k in indices && k in init && k in fields {
        IndexAddFacts(indices[k], fields[k], item);
      }
    }
  }

  /** Running the loop of `delete` over keys that include `k` gives index `k` one `delete`, however often `k` is listed. */
  lemma {:induction false} DeleteUnderAt<V, T>(indices: map<string, IndexState<V, T>>, ks: seq<string>, item: T, k: string)
    requires forall j :: j in indices ==> IndexInvariant(indices[j])
    ensures DeleteUnder(indices, ks, item).Keys == indices.Keys
    ensures k in indices ==>
      DeleteUnder(indices, ks, item)[k] == if k in ks then IndexDelete(indices[k], item) else indices[k]
  {
    if ks != [] {
      var init := ks[..|ks| - 1];
      DeleteUnderAt(indices, init, item, k);
      assert k in ks <==> k in init || k == ks[|ks| - 1];
      if k in indices && k in init {
        IndexDeleteFacts(indices[k], item);
      }
    }
  }

  /** The indices after `add(item)`: a key whose field is defined has had one `add`, any other key none. */
  lemma TableAddIndices<V, T>(s: TableState<V, T>, item: T, fields: map<string, V>)
    requires TableInvariant(s)
    ensures TableAdd(s, item, fields).indices.Keys == s.indices.Keys
    ensures forall k :: k in s.indices ==>
      TableAdd(s, item, fields).indices[k] == if k in fields then IndexAdd(s.indices[k], fields[k], item) else s.indices[k]
    ensures forall k :: k in s.indices ==> IndexInvariant(TableAdd(s, item, fields).indices[k])
  {
    var t := TableAdd(s, item, fields);
    AddUnderAt(s.indices, s.keys, item, fields, "");
    forall k | k in s.indices
      ensures t.indices[k] == if k in fields then IndexAdd(s.indices[k], fields[k], item) else s.indices[k]
      ensures IndexInvariant(t.indices[k])
    {
      AddUnderAt(s.indices, s.keys, item, fields, k);
      if k in fields {
        IndexAddFacts(s.indices[k], fields[k], item);
      }
    }
  }

  /** The item set after `add(item)`: the item is in it once, after the items already there. */
  lemma TableAddItems<V, T>(s: TableState<V, T>, item: T, fields: map<string, V>)
    requires NoDuplicates(s.items)
    ensures NoDuplicates(TableAdd(s, item, fields).items)
    ensures multiset(TableAdd(s, item, fields).items)[item] == 1
    ensures s.items <= TableAdd(s, item, fields).items
    ensures forall y :: y in TableAdd(s, item, fields).items <==> y in s.items || y == item
  {
    var items := TableAdd(s, item, fields).items;
    if item !in s.items {
      assert multiset(items) == multiset(s.items) + multiset{item};
      forall i, j | 0 <= i < j < |items|
        ensures items[i] != items[j]
      {
        if j == |s.items| {
          assert items[i] in s.items;
        }
      }
    } else {
      NoDuplicatesCount(s.items, IndexOf(s.items, item));
    }
  }

  /**
   * After `add(item)` the item is in the item set exactly once, after the
   * items already there; under every key whose field is defined it is in
   * the bucket of that field's value exactly once; the index of a key whose
   * field is `undefined` is untouched; adding it again changes nothing.
   */
  lemma TableAddFacts<V, T>(s: TableState<V, T>, item: T, fields: map<string, V>)
    requires TableInvariant(s)
    ensures TableInvariant(TableAdd(s, item, fields))
    ensures multiset(TableAdd(s, item, fields).items)[item] == 1
    ensures s.items <= TableAdd(s, item, fields).items
    ensures forall y :: y in TableAdd(s, item, fields).items <==> y in s.items || y == item
    ensures forall k :: k in s.keys && k in fields ==>
      multiset(TableFind(TableAdd(s, item, fields), StringKey(k), fields[k]))[item] == 1
    ensures forall k :: k in s.keys && k in fields ==>
      TableAdd(s, item, fields).indices[k] == IndexAdd(s.indices[k], fields[k], item)
    ensures forall k :: k in s.keys && k !in fields ==> TableAdd(s, item, fields).indices[k] == s.indices[k]
    ensures TableAdd(TableAdd(s, item, fields), item, fields) == TableAdd(s, item, fields)
  {
    var t := TableAdd(s, item, fields);
    TableAddIndices(s, item, fields);
    TableAddItems(s, item, fields);
    forall k | k in s.keys && k in fields
      ensures multiset(TableFind(t, StringKey(k), fields[k]))[item] == 1
    {
      IndexAddFacts(s.indices[k], fields[k], item);
    }
    TableAddTwice(s, item, fields);
  }

  /**
   * Adding an item whose field for key `k` has no bucket yet gives that
   * value the one-element bucket `[item]` and leaves the key's other buckets
   * as they were.
   */
  lemma TableAddFresh<V, T>(s: TableState<V, T>, item: T, fields: map<string, V>, k: string)
    requires TableInvariant(s) && k in s.keys && k in fields
    requires TableFind(s, StringKey(k), fields[k]) == []
    ensures TableFind(TableAdd(s, item, fields), StringKey(k), fields[k]) == [item]
    ensures forall w :: w != fields[k] ==> TableFind(TableAdd(s, item, fields), StringKey(k), w) == TableFind(s, StringKey(k), w)
  {
    TableAddIndices(s, item, fields);
    IndexAddFacts(s.indices[k], fields[k], item);
  }

  /** Adding the same item twice leaves the table as one `add` does. */
  lemma TableAddTwice<V, T>(s: TableState<V, T>, item: T, fields: map<string, V>)
    requires TableInvariant(s)
    ensures TableAdd(TableAdd(s, item, fields), item, fields) == TableAdd(s, item, fields)
  {
    var t := TableAdd(s, item, fields);
    TableAddIndices(s, item, fields);
    TableAddItems(s, item, fields);
    var u := TableAdd(t, item, fields);
    AddUnderAt(t.indices, t.keys, item, fields, "");
    forall k | k in t.indices
      ensures u.indices[k] == t.indices[k]
    {
      AddUnderAt(t.indices, t.keys, item, fields, k);
      if k in fields {
        IndexAddFacts(s.indices[k], fields[k], item);
      }
    }
  }

  /**
   * After `delete(item)` the item is out of the item set, every index has
   * had `delete(item)`, the item is in no bucket of a value it was last
   * indexed under, and no bucket grew.
   */
  lemma TableDeleteFacts<V, T>(s: TableState<V, T>, item: T)
    requires TableInvariant(s)
    ensures TableInvariant(TableDelete(s, item))
    ensures forall y :: y in TableDelete(s, item).items <==> y in s.items && y != item
    ensures forall k :: k in s.keys ==> TableDelete(s, item).indices[k] == IndexDelete(s.indices[k], item)
    ensures forall k :: k in s.keys && item in s.indices[k].reverse ==>
      item !in Bucket(TableDelete(s, item).indices[k], s.indices[k].reverse[item])
    ensures forall key, value :: |TableFind(TableDelete(s, item), key, value)| <= |TableFind(s, key, value)|
  {
    var t := TableDelete(s, item);
    TableDeleteIndices(s, item);
    forall k | k in s.indices
      ensures IndexInvariant(t.indices[k])
      ensures item in s.indices[k].reverse ==> item !in Bucket(t.indices[k], s.indices[k].reverse[item])
      ensures forall value :: |Bucket(t.indices[k], value)| <= |Bucket(s.indices[k], value)|
    {
      IndexDeleteFacts(s.indices[k], item);
    }
    RemoveFacts(s.items, item);
  }

  lemma TableDeleteIndices<V, T>(s: TableState<V, T>, item: T)
    requires TableInvariant(s)
    ensures TableDelete(s, item).keys == s.keys
    ensures forall k :: k in TableDelete(s, item).indices <==> k in s.indices
    ensures forall k :: k in s.indices ==> TableDelete(s, item).indices[k] == IndexDelete(s.indices[k], item)
  {
    var t := TableDelete(s, item);
    DeleteUnderAt(s.indices, s.keys, item, "");
    forall k | k in s.indices
      ensures t.indices[k] == IndexDelete(s.indices[k], item)
    {
      DeleteUnderAt(s.indices, s.keys, item, k);
    }
  }

  /** `add(item)` then `delete(item)`: the item is out of the item set and out of the bucket of every defined field. */
  lemma AddThenDelete<V, T>(s: TableState<V, T>, item: T, fields: map<string, V>)
    requires TableInvariant(s)
    ensures item !in TableDelete(TableAdd(s, item, fields), item).items
    ensures forall k :: k in s.keys && k in fields ==>
      item !in TableFind(TableDelete(TableAdd(s, item, fields), item), StringKey(k), fields[k])
  {
    var t := TableAdd(s, item, fields);
    TableAddFacts(s, item, fields);
    TableDeleteFacts(t, item);
    forall k | k in s.keys && k in fields
      ensures item !in TableFind(TableDelete(t, item), StringKey(k), fields[k])
    {
      IndexAddFacts(s.indices[k], fields[k], item);
    }
  }

  /** Deleting an item the table never indexed and does not hold changes nothing. */
  lemma DeleteUnknown<V, T>(s: TableState<V, T>, item: T)
    requires TableInvariant(s)
    requires item !in s.items
    requires forall k :: k in s.indices ==> item !in s.indices[k].reverse
    ensures TableDelete(s, item) == s
  {
    var t := TableDelete(s, item);
    DeleteUnderAt(s.indices, s.keys, item, "");
    forall k | k in s.indices
      ensures t.indices[k] == s.indices[k]
    {
      DeleteUnderAt(s.indices, s.keys, item, k);
      IndexDeleteFacts(s.indices[k], item);
    }
  }

  /** One round of `findAndDelete` keeps the invariant and does not lengthen the bucket it walks. */
  lemma SweepStep<V, T>(s: TableState<V, T>, item: T, key: PropertyKey, value: V)
    requires TableInvariant(s)
    ensures TableInvariant(TableDelete(s, item))
    ensures |TableFind(TableDelete(s, item), key, value)| <= |TableFind(s, key, value)|
  {
    TableDeleteFacts(s, item);
  }

  /**
   * The loop of `findAndDelete(indexKey, value)` from position `i` on. The
   * loop walks the live bucket array, which `delete` splices while it runs:
   * each round reads the bucket as it now is (once emptied and dropped from
   * the index it stays empty, since nothing is added meanwhile), stops when
   * `i` has reached its length, and otherwise deletes the item at `i` and
   * moves to `i + 1`. Gives the final state and the deleted items in order.
   */
  function Sweep<V(==), T(==)>(s: TableState<V, T>, key: PropertyKey, value: V, i: nat): (r: (TableState<V, T>, seq<T>))
    requires TableInvariant(s)
    ensures TableInvariant(r.0)
    decreases |TableFind(s, key, value)| - i
  {
    var live := TableFind(s, key, value);
    if i >= |live| then (s, [])
    else
      SweepStep(s, live[i], key, value);
      var rest := Sweep(TableDelete(s, live[i]), key, value, i + 1);
      (rest.0, [live[i]] + rest.1)
  }

  /**
   * `findAndDelete` deletes only items of the bucket it was asked for: every
   * deleted item was in that bucket; the item set loses exactly the deleted
   * items; no bucket gains an item, and every bucket keeps every item not
   * deleted.
   */
  lemma {:induction false} SweepFacts<V, T>(s: TableState<V, T>, key: PropertyKey, value: V, i: nat)
    requires TableInvariant(s)
    ensures Sweep(s, key, value, i).0.keys == s.keys
    ensures forall y :: y in Sweep(s, key, value, i).1 ==> y in TableFind(s, key, value)
    ensures forall y :: y in Sweep(s, key, value, i).0.items <==> y in s.items && y !in Sweep(s, key, value, i).1
    ensures forall k, w, y :: k in s.indices && y in Bucket(Sweep(s, key, value, i).0.indices[k], w) ==>
      y in Bucket(s.indices[k], w)
    ensures forall k, w, y :: k in s.indices && y in Bucket(s.indices[k], w) && y !in Sweep(s, key, value, i).1 ==>
      y in Bucket(Sweep(s, key, value, i).0.indices[k], w)
    decreases |TableFind(s, key, value)| - i
  {
    var live := TableFind(s, key, value);
    if i < |live| {
      var x := live[i];
      var s1 := TableDelete(s, x);
      TableDeleteFacts(s, x);
      SweepFacts(s1, key, value, i + 1);
      forall k | k in s.indices
        ensures s1.indices[k] == IndexDelete(s.indices[k], x)
      {
      }
      forall k | k in s.indices
        ensures IndexInvariant(s.indices[k])
      {
      }
      forall k | k in s.indices
        ensures forall w, y :: y in Bucket(s1.indices[k], w) ==> y in Bucket(s.indices[k], w)
        ensures forall w, y :: y in Bucket(s.indices[k], w) && y != x ==> y in Bucket(s1.indices[k], w)
      {
        IndexDeleteFacts(s.indices[k], x);
      }
    }
  }

  /** The table of `SweepSkips` with one key `k`, the bucket `bucket` under `v`, and the item set `items`. */
  function OneBucket<V, T>(k: string, v: V, bucket: seq<T>, reverse: map<T, V>, items: seq<T>): TableState<V, T>
  {
    TableState([k], map[k := IndexState(map[v := bucket], reverse)], items)
  }

  lemma AddUnderOne<V, T>(indices: map<string, IndexState<V, T>>, k: string, item: T, fields: map<string, V>)
    requires k in indices && k in fields
    ensures AddUnder(indices, [k], item, fields) == indices[k := IndexAdd(indices[k], fields[k], item)]
  {
    assert [k][..0] == [];
  }

  lemma DeleteUnderOne<V, T>(indices: map<string, IndexState<V, T>>, k: string, item: T)
    requires k in indices
    ensures DeleteUnder(indices, [k], item) == indices[k := IndexDelete(indices[k], item)]
  {
    assert [k][..0] == [];
  }

  /** In the table of one key `k`, `add(item)` with the field `k` set to `v` is one `Index.add`. */
  lemma OneBucketAdd<V, T>(k: string, v: V, bucket: seq<T>, reverse: map<T, V>, items: seq<T>, item: T)
    requires item !in bucket && item !in items
    ensures TableAdd(OneBucket(k, v, bucket, reverse, items), item, map[k := v])
      == OneBucket(k, v, bucket + [item], reverse[item := v], items + [item])
  {
    var s := OneBucket(k, v, bucket, reverse, items);
    AddUnderOne(s.indices, k, item, map[k := v]);
    assert IndexAdd(s.indices[k], v, item) == IndexState(map[v := bucket + [item]], reverse[item := v]);
    assert s.indices[k := IndexState(map[v := bucket + [item]], reverse[item := v])]
      == map[k := IndexState(map[v := bucket + [item]], reverse[item := v])];
  }

  /** In the table of one key `k`, deleting an item of the bucket at position `i` splices it out there. */
  lemma OneBucketDelete<V, T>(k: string, v: V, bucket: seq<T>, reverse: map<T, V>, items: seq<T>, i: nat)
    requires i < |bucket| && |bucket| > 1 && bucket[i] in reverse && reverse[bucket[i]] == v
    requires bucket[i] !in bucket[..i] && bucket[i] in items
    ensures TableDelete(OneBucket(k, v, bucket, reverse, items), bucket[i])
      == OneBucket(k, v, Splice(bucket, i), reverse, Remove(items, bucket[i]))
  {
    var s := OneBucket(k, v, bucket, reverse, items);
    var x := bucket[i];
    DeleteUnderOne(s.indices, k, x);
    IndexOfFirst(bucket, i);
    var rest := Splice(bucket, i);
    assert |rest| == |bucket| - 1;
    assert IndexDelete(s.indices[k], x) == IndexState(map[v := rest], reverse);
    assert s.indices[k := IndexState(map[v := rest], reverse)] == map[k := IndexState(map[v := rest], reverse)];
  }

  /** A position holding `x` with no `x` before it is where `indexOf` finds `x`. */
  lemma {:induction false} IndexOfFirst<T>(s: seq<T>, i: nat)
    requires i < |s| && s[i] !in s[..i]
    ensures IndexOf(s, s[i]) == i
  {
    if i > 0 {
      assert s[0] in s[..i];
      assert s[1..][i - 1] == s[i];
      assert s[1..][..i - 1] == s[..i][1..];
      IndexOfFirst(s[1..], i - 1);
    }
  }

  /** Adding `a`, `b`, `c` with the field `k` set to `v` to a table indexed on `k` gives the bucket `[a, b, c]`. */
  lemma SkipsSetup<V, T>(k: string, a: T, b: T, c: T, v: V)
    requires a != b && b != c && a != c
    ensures var f := map[k := v];
      TableAdd(TableAdd(TableAdd(NewTable([StringKey(k)]), a, f), b, f), c, f)
        == OneBucket(k, v, [a, b, c], map[a := v, b := v, c := v], [a, b, c])
  {
    var f := map[k := v];
    var s0: TableState<V, T> := NewTable([StringKey(k)]);
    assert StringKeys([StringKey(k)]) == [k];
    assert s0 == TableState([k], map[k := IndexState(map[], map[])], []);
    AddUnderOne(s0.indices, k, a, f);
    assert s0.indices[k := IndexAdd(s0.indices[k], v, a)] == map[k := IndexState(map[v := [a]], map[a := v])];
    assert TableAdd(s0, a, f) == OneBucket(k, v, [a], map[a := v], [a]);
    var s1 := TableAdd(s0, a, f);
    OneBucketAdd(k, v, [a], map[a := v], [a], b);
    assert map[a := v][b := v] == map[a := v, b := v];
    assert [a] + [b] == [a, b];
    var s2 := TableAdd(s1, b, f);
    assert s2 == OneBucket(k, v, [a, b], map[a := v, b := v], [a, b]);
    OneBucketAdd(k, v, [a, b], map[a := v, b := v], [a, b], c);
    assert map[a := v, b := v][c := v] == map[a := v, b := v, c := v];
    assert [a, b] + [c] == [a, b, c];
    assert TableAdd(s2, c, f) == OneBucket(k, v, [a, b, c], map[a := v, b := v, c := v], [a, b, c]);
  }

  lemma SkipsFirst<V, T>(k: string, a: T, b: T, c: T, v: V)
    requires a != b && b != c && a != c
    ensures var r := map[a := v, b := v, c := v];
      TableDelete(OneBucket(k, v, [a, b, c], r, [a, b, c]), a) == OneBucket(k, v, [b, c], r, [b, c])
  {
    var r := map[a := v, b := v, c := v];
    OneBucketDelete(k, v, [a, b, c], r, [a, b, c], 0);
    assert Splice([a, b, c], 0) == [b, c];
    assert IndexOf([a, b, c], a) == 0;
  }

  lemma SkipsSecond<V, T>(k: string, a: T, b: T, c: T, v: V)
    requires a != b && b != c && a != c
    ensures var r := map[a := v, b := v, c := v];
      TableDelete(OneBucket(k, v, [b, c], r, [b, c]), c) == OneBucket(k, v, [b], r, [b])
  {
    var r := map[a := v, b := v, c := v];
    OneBucketDelete(k, v, [b, c], r, [b, c], 1);
    assert Splice([b, c], 1) == [b];
    IndexOfFirst([b, c], 1);
  }

  lemma OneBucketInvariant<V, T>(k: string, v: V, bucket: seq<T>, reverse: map<T, V>, items: seq<T>)
    requires bucket != [] && NoDuplicates(bucket) && NoDuplicates(items)
    ensures TableInvariant(OneBucket(k, v, bucket, reverse, items))
    ensures TableFind(OneBucket(k, v, bucket, reverse, items), StringKey(k), v) == bucket
  {
  }

  /** One round of `Sweep`: the item at position `i` is deleted and reported first. */
  lemma SweepUnfold<V, T>(s: TableState<V, T>, key: PropertyKey, value: V, i: nat, item: T)
    requires TableInvariant(s)
    requires i < |TableFind(s, key, value)| && TableFind(s, key, value)[i] == item
    ensures TableInvariant(TableDelete(s, item))
    ensures Sweep(s, key, value, i)
      == (Sweep(TableDelete(s, item), key, value, i + 1).0, [item] + Sweep(TableDelete(s, item), key, value, i + 1).1)
  {
    SweepStep(s, item, key, value);
  }

  /** Two rounds of `Sweep` that delete `a` at position 0 and then `c` at position 1, and stop. */
  lemma SweepTwo<V, T>(s: TableState<V, T>, key: PropertyKey, value: V, a: T, c: T, t1: TableState<V, T>, t2: TableState<V, T>)
    requires TableInvariant(s) && TableInvariant(t1)
    requires |TableFind(s, key, value)| > 0 && TableFind(s, key, value)[0] == a && TableDelete(s, a) == t1
    requires |TableFind(t1, key, value)| > 1 && TableFind(t1, key, value)[1] == c && TableDelete(t1, c) == t2
    requires |TableFind(t2, key, value)| <= 2
    ensures Sweep(s, key, value, 0) == (t2, [a, c])
  {
    SweepUnfold(s, key, value, 0, a);
    SweepUnfold(t1, key, value, 1, c);
    assert [a] + ([c] + []) == [a, c];
  }

  lemma SkipsHead<V, T>(k: string, a: T, b: T, c: T, v: V)
    requires a != b && b != c && a != c
    ensures var r := map[a := v, b := v, c := v];
      && TableInvariant(OneBucket(k, v, [a, b, c], r, [a, b, c]))
      && Sweep(OneBucket(k, v, [a, b, c], r, [a, b, c]), StringKey(k), v, 0) == (OneBucket(k, v, [b], r, [b]), [a, c])
  {
    var r := map[a := v, b := v, c := v];
    OneBucketInvariant(k, v, [a, b, c], r, [a, b, c]);
    OneBucketInvariant(k, v, [b, c], r, [b, c]);
    OneBucketInvariant(k, v, [b], r, [b]);
    SkipsFirst(k, a, b, c, v);
    SkipsSecond(k, a, b, c, v);
    SweepTwo(OneBucket(k, v, [a, b, c], r, [a, b, c]), StringKey(k), v, a, c,
      OneBucket(k, v, [b, c], r, [b, c]), OneBucket(k, v, [b], r, [b]));
  }

  /**
   * The skip: in the table `SkipsSetup` builds (one index key `k`, the
   * bucket `[a, b, c]` under `v`), `findAndDelete(k, v)` deletes `a`, then
   * finds `c` at position 1 of the spliced bucket `[b, c]`, deletes it, and
   * stops, so `b` stays in the item set and in the bucket.
   */
  lemma SweepSkips<V, T>(k: string, a: T, b: T, c: T, v: V)
    requires a != b && b != c && a != c
    ensures var s := OneBucket(k, v, [a, b, c], map[a := v, b := v, c := v], [a, b, c]);
      && TableInvariant(s)
      && TableFind(s, StringKey(k), v) == [a, b, c]
      && var r := Sweep(s, StringKey(k), v, 0);
      && r.1 == [a, c] && r.0.items == [b] && TableFind(r.0, StringKey(k), v) == [b]
  {
    var r := map[a := v, b := v, c := v];
    OneBucketInvariant(k, v, [a, b, c], r, [a, b, c]);
    OneBucketInvariant(k, v, [b], r, [b]);
    SkipsHead(k, a, b, c, v);
  }

  // ---------------------------------------------------------------------
  // The classes

  /** `class Index<T>`: the buckets and the reverse map, updated in place. */
  class Index<V(==), T(==)> {
    var buckets: map<V, seq<T>>
    var reverse: map<T, V>

    ghost function State(): IndexState<V, T>
      reads this
    {
      IndexState(buckets, reverse)
    }

    constructor()
      ensures State() == IndexState(map[], map[])
    {
      buckets := map[];
      reverse := map[];
    }

    /** `add(value, item)`. */
    method Add(value: V, item: T)
      modifies this
      ensures State() == IndexAdd(old(State()), value, item)
    {
      if value !in buckets {
        buckets := buckets[value := [item]];
      } else if item !in buckets[value] {
        buckets := buckets[value := buckets[value] + [item]];
      }
      reverse := reverse[item := value];
    }

    /** `delete(item)`. */
    method Delete(item: T)
      modifies this
      ensures State() == IndexDelete(old(State()), item)
    {
      if item in reverse {
        var value := reverse[item];
        if value in buckets {
          var items := buckets[value];
          if item in items {
            var index := IndexOf(items, item);
            items := Splice(items, index);
            if items == [] {
              buckets := buckets - {value};
            } else {
              buckets := buckets[value := items];
            }
          }
        }
      }
    }

    /** `find(value)`. */
    method Find(value: V) returns (r: seq<T>)
      ensures r == Bucket(State(), value)
    {
      if value in buckets {
        r := buckets[value];
      } else {
        r := [];
      }
    }
  }

  /** The constructor's loop: a fresh, empty `Index` for each name. */
  method NewIndices<V(==), T(==)>(names: seq<string>)
      returns (m: map<string, Index<V, T>>, ghost owner: map<Index<V, T>, string>)
    ensures forall k :: k in m <==> k in names
    ensures forall k :: k in m ==> fresh(m[k]) && m[k].State() == IndexState(map[], map[])
    ensures forall k :: k in m ==> m[k] in owner && owner[m[k]] == k
  {
    m := map[];
    owner := map[];
    for i := 0 to |names|
      invariant forall k :: k in m <==> k in names[..i]
      invariant forall k :: k in m ==> fresh(m[k]) && m[k].State() == IndexState(map[], map[])
      invariant forall k :: k in m ==> m[k] in owner && owner[m[k]] == k
    {
      var index := new Index();
      m := m[names[i] := index];
      owner := owner[index := names[i]];
    }
    assert names[..|names|] == names;
  }

  /**
   * `class Table<T>`: the index keys and the map from key to `Index` are set
   * once by the constructor; the indices and the item set change in place.
   */
  class Table<V(==), T(==)> {
    const keys: seq<string>
    const indices: map<string, Index<V, T>>
    var items: seq<T>
    /** The key each owned `Index` belongs to. */
    ghost const keyOf: map<Index<V, T>, string>

    /** The `Index` objects the table owns. */
    ghost const Indices: set<Index<V, T>>

    /** The state of every index, by key. */
    ghost function IndexStates(): map<string, IndexState<V, T>>
      reads Indices
    {
      map k | k in indices && indices[k] in Indices :: indices[k].State()
    }

    ghost function State(): TableState<V, T>
      reads this, Indices
    {
      TableState(keys, IndexStates(), items)
    }

    /** Every index key has an `Index`, and no two keys share one. */
    ghost predicate Distinct()
    {
      && (forall k :: k in keys ==> k in indices)
      && (forall k :: k in indices ==> indices[k] in keyOf && keyOf[indices[k]] == k)
      && (forall k :: k in indices ==> indices[k] in Indices)
    }

    /** Each key has its own `Index`, and the abstract state keeps its invariant. */
    ghost predicate Valid()
      reads this, Indices
    {
      Distinct() && TableInvariant(State())
    }

    /** `new Table(indexKeys)`: one fresh `Index` per string key. */
    constructor(indexKeys: seq<PropertyKey>)
      ensures Distinct()
      ensures State() == NewTable(indexKeys)
      ensures Valid()
      ensures fresh(Indices)
    {
      var names := StringKeys(indexKeys);
      var m, owner := NewIndices(names);
      keys := names;
      indices := m;
      keyOf := owner;
      Indices := set k | k in m :: m[k];
      items := [];
      new;
      NewIndexStates(names);
    }

    /** Fresh indices for `names` have the states `NewTable` gives them. */
    lemma NewIndexStates(names: seq<string>)
      requires Distinct()
      requires forall k :: k in indices <==> k in names
      requires forall k :: k in indices ==> indices[k].State() == IndexState(map[], map[])
      ensures IndexStates() == map k | k in names :: IndexState(map[], map[])
    {
    }

    /** `add(item)`, where `fields` holds the item's defined fields. */
    method Add(item: T, fields: map<string, V>)
      requires Valid()
      modifies this, Indices
      ensures Valid()
      ensures State() == TableAdd(old(State()), item, fields)
    {
      for i := 0 to |keys|
        invariant IndexStates() == AddUnder(old(IndexStates()), keys[..i], item, fields)
        invariant items == old(items)
      {
        var key := keys[i];
        AddUnderAt(old(IndexStates()), keys[..i], item, fields, "");
        if key in fields {
          AddAt(key, fields[key], item);
        }
        assert keys[..i + 1][..i] == keys[..i];
      }
      if item !in items {
        items := items + [item];
      }
      assert keys[..|keys|] == keys;
      TableAddFacts(old(State()), item, fields);
    }

    /** A call on the `Index` of `key` changes that key's state and no other. */
    twostate lemma OneIndexChanged(key: string)
      requires Distinct() && key in indices
      requires forall j :: j in indices && j != key ==> unchanged(indices[j])
      ensures IndexStates() == old(IndexStates())[key := indices[key].State()]
    {
    }

    /** One round of `add`'s loop: `index.add(value, item)` on the `Index` of `key`. */
    method AddAt(key: string, value: V, item: T)
      requires Distinct() && key in indices
      modifies indices[key]
      ensures IndexStates() == old(IndexStates())[key := IndexAdd(old(IndexStates())[key], value, item)]
    {
      var index := indices[key];
      index.Add(value, item);
      assert forall j :: j in indices && j != key ==> indices[j] != index;
      OneIndexChanged(key);
    }

    /** One round of `delete`'s loop: `index.delete(item)` on the `Index` of `key`. */
    method DeleteAt(key: string, item: T)
      requires Distinct() && key in indices
      modifies indices[key]
      ensures IndexStates() == old(IndexStates())[key := IndexDelete(old(IndexStates())[key], item)]
    {
      var index := indices[key];
      index.Delete(item);
      assert forall j :: j in indices && j != key ==> indices[j] != index;
      OneIndexChanged(key);
    }

    /** `delete(item)`. */
    method Delete(item: T)
      requires Valid()
      modifies this, Indices
      ensures Valid()
      ensures State() == TableDelete(old(State()), item)
    {
      for i := 0 to |keys|
        invariant IndexStates() == DeleteUnder(old(IndexStates()), keys[..i], item)
        invariant items == old(items)
      {
        var key := keys[i];
        DeleteUnderAt(old(IndexStates()), keys[..i], item, "");
        DeleteAt(key, item);
        assert keys[..i + 1][..i] == keys[..i];
      }
      items := Remove(items, item);
      assert keys[..|keys|] == keys;
      TableDeleteFacts(old(State()), item);
    }

    /** `find(indexKey, value)`. */
    method Find(key: PropertyKey, value: V) returns (r: seq<T>)
      requires Valid()
      ensures r == TableFind(State(), key, value)
    {
      if key.StringKey? && key.name in indices {
        r := indices[key.name].Find(value);
      } else {
        r := [];
      }
    }

    /**
     * `findAndDelete(indexKey, value)`: a `for ... of` over the live bucket,
     * which each round reads again, as it now is.
     */
    method FindAndDelete(key: PropertyKey, value: V)
      requires Valid()
      modifies this, Indices
      ensures Valid()
      ensures State() == Sweep(old(State()), key, value, 0).0
    {
      var live := Find(key, value);
      var i := 0;
      while i < |live|
        invariant Valid()
        invariant live == TableFind(State(), key, value)
        invariant Sweep(old(State()), key, value, 0).0 == Sweep(State(), key, value, i).0
        decreases |live| - i
      {
        live := SweepRound(key, value, i, live[i]);
        i := i + 1;
      }
    }

    /**
     * One round of `findAndDelete`'s loop: delete the item at position `i`
     * of the live bucket, which is then read again.
     */
    method SweepRound(key: PropertyKey, value: V, i: nat, item: T) returns (live: seq<T>)
      requires Valid()
      requires i < |TableFind(State(), key, value)| && item == TableFind(State(), key, value)[i]
      modifies this, Indices
      ensures Valid()
      ensures live == TableFind(State(), key, value)
      ensures |live| <= |TableFind(old(State()), key, value)|
      ensures Sweep(old(State()), key, value, i).0 == Sweep(State(), key, value, i + 1).0
    {
      SweepStep(State(), item, key, value);
      Delete(item);
      live := Find(key, value);
    }

    /** `get items()`: a new array holding the item set in insertion order. */
    method Items() returns (a: array<T>)
      ensures fresh(a) && a[..] == items
    {
      a := new T[|items|](j requires 0 <= j < |items| reads this => items[j]);
    }
  }
}

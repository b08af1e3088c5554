/** The in-memory table of recent writes. */
module MemTables {
  import opened Bytes
  import opened Errors
  import opened WalEntries
  import opened Layers

  function EntrySize(key: Key, e: Entry): nat {
    match e
    case Live(value) => |key| + |value|
    case Tombstone => |key|
  }

  /** Key plus value lengths over a whole table, in no particular order. */
  ghost function TotalSize(t: Table): nat
    decreases |t|
  {
    if t == map[] then 0 else
      var k :| k in t;
      EntrySize(k, t[k]) + TotalSize(t - {k})
  }

  lemma {:induction false} TotalSizeWithout(t: Table, key: Key)
    requires key in t
    ensures TotalSize(t) == EntrySize(key, t[key]) + TotalSize(t - {key})
    decreases |t|
  {
    var k :| k in t && TotalSize(t) == EntrySize(k, t[k]) + TotalSize(t - {k});
    if k != key {
      TotalSizeWithout(t - {k}, key);
      TotalSizeWithout(t - {key}, k);
      assert t - {k} - {key} == t - {key} - {k};
    }
  }

  lemma TotalSizeUpdate(t: Table, key: Key, e: Entry)
    ensures TotalSize(t[key := e])
            == TotalSize(t) + EntrySize(key, e) - (if key in t then EntrySize(key, t[key]) else 0)
    ensures key in t ==> EntrySize(key, t[key]) <= TotalSize(t)
  {
    TotalSizeWithout(t[key := e], key);
    assert t[key := e] - {key} == t - {key};
    if key in t {
      TotalSizeWithout(t, key);
    } else {
      assert t - {key} == t;
    }
  }

  /** Only one key is empty, so the number of entries is bounded by their size. */
  lemma {:induction false} CountBound(t: Table)
    ensures |t| <= TotalSize(t) + (if [] in t then 1 else 0)
    decreases |t|
  {
    if t != map[] {
      var k :| k in t;
      TotalSizeWithout(t, k);
      CountBound(t - {k});
      assert (t - {k}).Keys == t.Keys - {k};
      assert |t.Keys| == |(t - {k}).Keys| + 1;
    }
  }

  /** The snapshot handed to a flush: all entries in increasing key order. */
  function SortedEntries(t: Table): seq<(Key, Entry)> {
    Pairs(SortedKeys(t.Keys), t)
  }

  /** The snapshot lists each entry once, in the order of the keys' first differences. */
  lemma SnapshotIsSorted(t: Table)
    ensures var es := SortedEntries(t);
      && |es| == |t|
      && (forall i | 0 <= i < |es| :: es[i].0 in t && es[i].1 == t[es[i].0])
      && (forall i, j | 0 <= i < j < |es| :: Precedes(es[i].0, es[j].0) && KeyLess(es[i].0, es[j].0))
      && (forall k <- t :: (k, t[k]) in es)
  {
    hide SortedKeys, Pairs, KeyLess, Precedes;
    var keys, es := SortedKeys(t.Keys), SortedEntries(t);
    assert forall k <- t :: k in keys;
    forall i, j | 0 <= i < j < |es| ensures Precedes(es[i].0, es[j].0) {
      KeyLessIsPrecedes(keys[i], keys[j]);
    }
  }

  function Pairs(keys: seq<Key>, t: Table): (es: seq<(Key, Entry)>)
    requires forall k <- keys :: k in t
    ensures |es| == |keys| && forall i | 0 <= i < |es| :: es[i] == (keys[i], t[keys[i]])
    ensures forall k <- keys :: (k, t[k]) in es
  {
    if keys == [] then [] else
      assert forall k <- keys :: k == keys[0] || k in keys[1..];
      [(keys[0], t[keys[0]])] + Pairs(keys[1..], t)
  }

  class MemTable {
    var data: Table
    var size: nat

    ghost predicate Valid()
      reads this
    {
      size == TotalSize(data)
    }

    constructor ()
      ensures Valid() && data == map[] && size == 0
    {
      data := map[];
      size := 0;
    }

    method Get(key: Key) returns (r: Option<Entry>)
      ensures r == if key in data then Some(data[key]) else None
    {
      r := if key in data then Some(data[key]) else None;
    }

    method Put(key: Key, value: Value) returns (newSize: nat)
      requires Valid()
      modifies this
      ensures Valid() && data == Insert(old(data), Operation.Put(key, value)) && newSize == size
      ensures newSize == old(size) + |key| + |value|
                         - (if key !in old(data) then 0
                            else match old(data)[key] case Live(v) => |key| + |v| case Tombstone => |key|)
    {
      newSize := Store(key, Live(value));
    }

    method Delete(key: Key) returns (newSize: nat)
      requires Valid()
      modifies this
      ensures Valid() && data == Insert(old(data), Operation.Delete(key)) && newSize == size
      ensures newSize == old(size) + |key|
                         - (if key !in old(data) then 0
                            else match old(data)[key] case Live(v) => |key| + |v| case Tombstone => |key|)
    {
      newSize := Store(key, Tombstone);
    }

    /** The common part of `put` and `delete`: replace the entry and correct the
        counter by the difference, which never takes it below zero. */
    method Store(key: Key, e: Entry) returns (newSize: nat)
      requires Valid()
      modifies this
      ensures Valid() && data == old(data)[key := e] && newSize == size
      ensures newSize == old(size) + EntrySize(key, e)
                         - (if key in old(data) then EntrySize(key, old(data)[key]) else 0)
    {
      TotalSizeUpdate(data, key, e);
      var entrySize := EntrySize(key, e);
      var oldSize := if key in data then EntrySize(key, data[key]) else 0;
      data := data[key := e];
      var delta := entrySize - oldSize;
      if delta > 0 {
        size := size + delta;
      } else {
        size := size - (-delta);
      }
      newSize := size;
    }

    method IsEmpty() returns (empty: bool)
      ensures empty <==> data == map[]
    {
      empty := |data| == 0;
    }

    method Iter() returns (es: seq<(Key, Entry)>)
      ensures es == SortedEntries(data)
    {
      es := SortedEntries(data);
    }

    method Clear()
      modifies this
      ensures Valid() && data == map[] && size == 0
    {
      data := map[];
      size := 0;
    }
  }
}

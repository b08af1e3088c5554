/** The set of SSTables: discovery, newest-first search, flush. */
module StorageManagers {
  import opened Bytes
  import opened Errors
  import opened Layers
  import opened MemTables
  import opened SSTables
  import opened FileNames

  /** File name to file contents. */
  type Directory = map<string, Bytes>

  ghost predicate Descending(ids: seq<nat>) {
    forall i, j | 0 <= i < j < |ids| :: ids[i] > ids[j]
  }

  /** A directory written by flushes: one readable table per identifier. There may be
      other files, as long as their names do not pass for an identifier's. */
  ghost predicate Holds(dir: Directory, ids: seq<nat>) {
    && Descending(ids)
    && (forall id <- ids :: id < U64 && FileName(id) in dir && Readable(dir[FileName(id)]))
    && (forall name <- dir | ParseId(name).Some? :: exists id <- ids :: FileName(id) == name)
  }

  /** The tables of a directory as maps, newest first. */
  ghost function TablesOf(dir: Directory, ids: seq<nat>): (ts: seq<Table>)
    requires Holds(dir, ids)
    ensures |ts| == |ids|
  {
    seq(|ids|, i requires 0 <= i < |ids| => TableOf(dir[FileName(ids[i])]))
  }

  function NextId(ids: seq<nat>): nat {
    if ids == [] then 1 else (ids[0] + 1) % U64
  }

  /** A new highest identifier names a new file ... */
  lemma FreshName(dir: Directory, ids: seq<nat>, id: nat)
    requires Holds(dir, ids) && id < U64 && (ids != [] ==> ids[0] < id)
    ensures FileName(id) !in dir
  {
    hide FileName, ParseId, Readable;
    if FileName(id) in dir {
      NameRoundTrip(id);
      var other :| other in ids && FileName(other) == FileName(id);
      NameInjective(other, id);
      assert false;
    }
  }

  lemma HoldsAdded(dir: Directory, ids: seq<nat>, id: nat, image: Bytes)
    requires Holds(dir, ids) && id < U64 && (ids != [] ==> ids[0] < id) && Readable(image)
    ensures Holds(dir[FileName(id) := image], [id] + ids)
  {
    hide FileName, ParseId, Readable;
    var dir', ids' := dir[FileName(id) := image], [id] + ids;
    FreshName(dir, ids, id);
    forall name <- dir' | ParseId(name).Some? ensures exists x <- ids' :: FileName(x) == name {
      if name in dir {
        var x :| x in ids && FileName(x) == name;
        assert x in ids';
      } else {
        assert id in ids';
      }
    }
  }

  lemma HoldsAt(dir: Directory, ids: seq<nat>, i: nat)
    requires Holds(dir, ids) && i < |ids|
    ensures ids[i] < U64 && FileName(ids[i]) in dir && Readable(dir[FileName(ids[i])])
  {
    hide FileName, Readable;
    assert ids[i] in ids;
  }

  /** ... and adds one table in front of the others. */
  lemma TablesAdded(dir: Directory, ids: seq<nat>, id: nat, image: Bytes)
    requires Holds(dir, ids) && id < U64 && (ids != [] ==> ids[0] < id) && Readable(image)
    ensures Holds(dir[FileName(id) := image], [id] + ids)
    ensures TablesOf(dir[FileName(id) := image], [id] + ids) == [TableOf(image)] + TablesOf(dir, ids)
  {
    hide FileName, Readable, TableOf, Holds;
    FreshName(dir, ids, id);
    HoldsAdded(dir, ids, id, image);
    var dir', ids' := dir[FileName(id) := image], [id] + ids;
    var before, after := TablesOf(dir, ids), TablesOf(dir', ids');
    forall i | 0 <= i < |ids'| ensures after[i] == ([TableOf(image)] + before)[i] {
      if i > 0 {
        HoldsAt(dir, ids, i - 1);
      }
    }
  }

  lemma NextIdAbove(dir: Directory, ids: seq<nat>)
    requires Holds(dir, ids) && NextId(ids) > 0
    ensures ids != [] ==> ids[0] + 1 == NextId(ids)
  {
    hide FileName, Readable, ParseId;
    if ids != [] {
      assert ids[0] in ids;
    }
  }

  // -- Sorting identifiers ----------------------------------------------------

  function InsertDescending(ids: seq<nat>, id: nat): seq<nat> {
    if ids == [] then [id]
    else if id >= ids[0] then [id] + ids
    else [ids[0]] + InsertDescending(ids[1..], id)
  }

  /** `sort` then `reverse`. */
  function SortDescending(ids: seq<nat>): seq<nat> {
    if ids == [] then [] else InsertDescending(SortDescending(ids[..|ids| - 1]), ids[|ids| - 1])
  }

  lemma {:induction false} InsertDescendingMembers(ids: seq<nat>, id: nat)
    ensures forall x :: x in InsertDescending(ids, id) <==> x in ids || x == id
  {
    if ids != [] {
      assert ids == [ids[0]] + ids[1..];
      InsertDescendingMembers(ids[1..], id);
    }
  }

  lemma {:induction false} InsertDescendingAdds(ids: seq<nat>, id: nat)
    requires Descending(ids) && id !in ids
    ensures Descending(InsertDescending(ids, id))
  {
    if ids != [] {
      assert ids == [ids[0]] + ids[1..];
      if id < ids[0] {
        var tail := InsertDescending(ids[1..], id);
        InsertDescendingAdds(ids[1..], id);
        InsertDescendingMembers(ids[1..], id);
        forall j | 0 <= j < |tail| ensures tail[j] < ids[0] {
          assert tail[j] in tail;
        }
      }
    }
  }

  lemma {:induction false} SortDescendingSorts(ids: seq<nat>)
    requires forall i, j | 0 <= i < j < |ids| :: ids[i] != ids[j]
    ensures Descending(SortDescending(ids))
    ensures forall x :: x in SortDescending(ids) <==> x in ids
  {
    if ids != [] {
      var before, last := ids[..|ids| - 1], ids[|ids| - 1];
      assert ids == before + [last];
      SortDescendingSorts(before);
      InsertDescendingAdds(SortDescending(before), last);
      InsertDescendingMembers(SortDescending(before), last);
    }
  }

  lemma {:induction false} SortDescendingMembers(ids: seq<nat>)
    ensures forall x :: x in SortDescending(ids) <==> x in ids
  {
    if ids != [] {
      var before, last := ids[..|ids| - 1], ids[|ids| - 1];
      assert ids == before + [last];
      SortDescendingMembers(before);
      InsertDescendingMembers(SortDescending(before), last);
    }
  }

  lemma {:induction false} DescendingUnique(a: seq<nat>, b: seq<nat>)
    requires Descending(a) && Descending(b) && (forall x :: x in a <==> x in b)
    ensures a == b
  {
    assert b == [] || b[0] in b;
    if a != [] {
      assert a[0] in b && b[0] in a;
      assert a[0] == b[0];
      var a', b' := a[1..], b[1..];
      assert a == [a[0]] + a' && b == [b[0]] + b';
      forall x ensures x in a' <==> x in b' {
        assert x in a' ==> x in a;
        assert x in b' ==> x in b;
      }
      DescendingUnique(a', b');
    }
  }

  // -- The manager ------------------------------------------------------------

  /** The reader serves the file with this identifier. */
  ghost predicate Serves(r: SSTableReader, dir: Directory, id: nat) {
    && FileName(id) in dir && r.file == dir[FileName(id)] && Readable(r.file)
    && r.index == ParseTable(r.file).value.index
  }

  ghost predicate Serve(readers: seq<SSTableReader>, dir: Directory, ids: seq<nat>) {
    |readers| == |ids| && forall i | 0 <= i < |ids| :: Serves(readers[i], dir, ids[i])
  }

  lemma ServeAdded(readers: seq<SSTableReader>, dir: Directory, ids: seq<nat>, r: SSTableReader, id: nat)
    requires Serve(readers, dir, ids) && FileName(id) !in dir
    requires Readable(r.file) && r.index == ParseTable(r.file).value.index
    ensures Serve([r] + readers, dir[FileName(id) := r.file], [id] + ids)
  {
    hide FileName, Readable, ParseTable;
    var readers', dir', ids' := [r] + readers, dir[FileName(id) := r.file], [id] + ids;
    forall i | 0 <= i < |ids'| ensures Serves(readers'[i], dir', ids'[i]) {
      assert i > 0 ==> Serves(readers[i - 1], dir, ids[i - 1]);
    }
  }

  class StorageManager {
    var dir: Directory
    var sstables: seq<SSTableReader>
    var nextSstableId: nat
    /** The tables' identifiers, newest first. */
    ghost var ids: seq<nat>

    ghost predicate Valid()
      reads this
    {
      && Holds(dir, ids)
      && Serve(sstables, dir, ids)
      && nextSstableId == NextId(ids)
    }

    ghost function Tables(): seq<Table>
      requires Valid()
      reads this
    {
      TablesOf(dir, ids)
    }

    constructor (dir: Directory, sstables: seq<SSTableReader>, nextId: nat, ghost ids: seq<nat>)
      ensures this.dir == dir && this.sstables == sstables && nextSstableId == nextId && this.ids == ids
    {
      this.dir, this.sstables, nextSstableId, this.ids := dir, sstables, nextId, ids;
    }

    /** The reader has an answer for the key: a value, a tombstone, or a read error. */
    static predicate Decides(reader: SSTableReader, key: Key) {
      reader.MightContain(key) && TableGet(reader.file, reader.index, key) != Err(KeyNotFound)
    }

    /** The newest reader that has an answer gives it, whatever the files hold. For the
        tables of a directory written by flushes that is the layered search. */
    method Get(key: Key) returns (r: Result<Option<Value>>)
      modifies sstables
      ensures (forall reader <- sstables :: !Decides(reader, key)) ==> r == Ok(None)
      ensures forall i | 0 <= i < |sstables| && Decides(sstables[i], key)
                         && (forall j | 0 <= j < i :: !Decides(sstables[j], key)) ::
                r == TableGet(sstables[i].file, sstables[i].index, key)
      ensures Valid() ==> r == Ok(Search(Tables(), key))
    {
      hide Valid, TablesOf, TableGet, SSTableReader.MightContain, Search;
      var i := 0;
      while i < |sstables|
        invariant 0 <= i <= |sstables|
        invariant forall j | 0 <= j < i :: !Decides(sstables[j], key)
      {
        var reader := sstables[i];
        if reader.MightContain(key) {
          var found := reader.Get(key);
          match found {
            case Ok(value) =>
              FirstDecides(key, i);
              return Ok(value);
            case Err(KeyNotFound) =>
            case Err(e) =>
              FirstDecides(key, i);
              return Err(e);
          }
        }
        i := i + 1;
      }
      FirstDecides(key, i);
      return Ok(None);
    }

    /** The first reader that decides finds what the layered search finds. */
    lemma FirstDecides(key: Key, i: nat)
      requires i <= |sstables| && (forall j | 0 <= j < i :: !Decides(sstables[j], key))
      requires i < |sstables| ==> Decides(sstables[i], key)
      ensures Valid() ==> Ok(Search(Tables(), key))
                          == if i < |sstables| then TableGet(sstables[i].file, sstables[i].index, key) else Ok(None)
    {
      hide ParseTable, TableGet, TableOf, Readable, FileName, ParseId, SSTableReader.MightContain, Search;
      if Valid() {
        var tables := Tables();
        SkipTables(key, i);
        if i < |sstables| {
          assert Serves(sstables[i], dir, ids[i]);
          Skips(sstables[i], key);
          SearchStep(tables, i, key);
        } else {
          SearchNone(tables[i..], key);
        }
      }
    }

    lemma {:induction false} SkipTables(key: Key, i: nat)
      requires Valid() && i <= |sstables| && (forall j | 0 <= j < i :: !Decides(sstables[j], key))
      ensures Search(Tables(), key) == Search(Tables()[i..], key)
    {
      hide ParseTable, TableGet, TableOf, Readable, FileName, ParseId, SSTableReader.MightContain, Search;
      if i == 0 {
        assert Tables()[0..] == Tables();
      } else {
        SkipTables(key, i - 1);
        assert Serves(sstables[i - 1], dir, ids[i - 1]);
        Skips(sstables[i - 1], key);
        SearchStep(Tables(), i - 1, key);
      }
    }

    /** A reader's answer is its table's answer, and the range filter only skips
        tables that do not know the key. */
    static lemma Skips(r: SSTableReader, key: Key)
      requires Readable(r.file) && r.index == ParseTable(r.file).value.index
      ensures key in TableOf(r.file) ==>
                r.MightContain(key) && TableGet(r.file, r.index, key) == Ok(EntryValue(TableOf(r.file)[key]))
      ensures key !in TableOf(r.file) ==> TableGet(r.file, r.index, key) == Err(KeyNotFound)
    {
      hide SSTableReader.MightContain;
      GetIsTableLookup(r.file, key);
      if key in r.index {
        r.MightContainKeys(key);
      }
    }

    /** Writes the memtable as a new table under a fresh identifier and puts its
        reader in front. Identifiers must not be exhausted. */
    method Flush(memtable: MemTable) returns (r: Result<()>)
      requires Valid() && TableFits(memtable.data) && 0 < nextSstableId < U64 - 1
      modifies this
      ensures Valid()
      ensures memtable.data == map[] ==> r == Err(Storage) && unchanged(this)
      ensures memtable.data != map[] ==>
                && r == Ok(()) && Tables() == [memtable.data] + old(Tables())
                && FileName(old(nextSstableId)) !in old(dir)
                && (forall name <- old(dir) :: name in dir && dir[name] == old(dir)[name])
                && nextSstableId == old(nextSstableId) + 1 && ids == [old(nextSstableId)] + old(ids)
                && (forall t <- sstables :: t in old(sstables) || fresh(t))
    {
      hide ParseTable, TableOf, Readable, FileName, TableFits, TableFile, SortedEntries, Holds, TablesOf, Serve;
      var empty := memtable.IsEmpty();
      if empty {
        return Err(Storage);
      }
      var id := nextSstableId;
      nextSstableId := nextSstableId + 1;
      var image := BuildImage(memtable);
      FlushedTable(memtable.data);
      ReadableOpens(image);
      NextIdAbove(dir, ids);
      FreshName(dir, ids, id);
      TablesAdded(dir, ids, id, image);
      var reader := OpenTable(image);
      match reader
      case Err(e) => assert false;
      case Ok(table) =>
        ServeAdded(sstables, dir, ids, table, id);
        dir := dir[FileName(id) := image];
        sstables := [table] + sstables;
        ids := [id] + ids;
        r := Ok(());
    }

    static lemma ReadableOpens(file: Bytes)
      requires Readable(file)
      ensures ParseTable(file).Ok?
    {
      hide ParseTable;
    }
  }

  /** Feeds the sorted snapshot to a builder. */
  method BuildImage(memtable: MemTable) returns (image: Bytes)
    ensures image == TableFile(SortedEntries(memtable.data))
  {
    hide TableFile, SortedEntries, SSTableBuilder.Valid;
    var builder := new SSTableBuilder();
    var entries := memtable.Iter();
    for i := 0 to |entries|
      invariant builder.Valid() && builder.entries == entries[..i]
    {
      builder.WriteEntry(entries[i].0, entries[i].1);
    }
    assert entries[..|entries|] == entries;
    image := builder.Finish();
  }

  // -- Discovery on startup ---------------------------------------------------

  /** The identifiers of the files whose names parse, in directory order. */
  method CollectIds(dir: Directory) returns (found: seq<nat>, ghost names: seq<string>)
    ensures |names| == |found| && (forall i, j | 0 <= i < j < |names| :: names[i] != names[j])
    ensures forall i | 0 <= i < |names| :: names[i] in dir && ParseId(names[i]) == Some(found[i])
    ensures forall name <- dir :: ParseId(name).Some? ==> name in names
  {
    hide ParseId;
    found, names := [], [];
    var left := dir.Keys;
    while left != {}
      invariant left <= dir.Keys
      invariant |names| == |found| && (forall i, j | 0 <= i < j < |names| :: names[i] != names[j])
      invariant forall i | 0 <= i < |names| :: names[i] in dir.Keys - left && ParseId(names[i]) == Some(found[i])
      invariant forall name <- dir.Keys - left :: ParseId(name).Some? ==> name in names
      decreases |left|
    {
      var name :| name in left;
      left := left - {name};
      var id := ParseId(name);
      if id.Some? {
        found := found + [id.value];
        names := names + [name];
      }
    }
  }

  /** In a directory written by flushes, sorting the collected identifiers restores
      the newest-first order. */
  lemma SortedIdsRestored(dir: Directory, ids: seq<nat>, found: seq<nat>, names: seq<string>)
    requires Holds(dir, ids)
    requires |names| == |found| && (forall i, j | 0 <= i < j < |names| :: names[i] != names[j])
    requires forall i | 0 <= i < |names| :: names[i] in dir && ParseId(names[i]) == Some(found[i])
    requires forall name <- dir :: ParseId(name).Some? ==> name in names
    ensures SortDescending(found) == ids
  {
    hide ParseId, FileName, Readable, SortDescending;
    forall i | 0 <= i < |found| ensures found[i] in ids && names[i] == FileName(found[i]) {
      var id :| id in ids && FileName(id) == names[i];
      NameRoundTrip(id);
    }
    forall id <- ids ensures id in found {
      NameRoundTrip(id);
      var i :| 0 <= i < |names| && names[i] == FileName(id);
      assert found[i] == id;
    }
    SortDescendingSorts(found);
    DescendingUnique(SortDescending(found), ids);
  }

  /** Every name that parses stands for a table file that exists and parses. */
  ghost predicate Openable(dir: Directory) {
    forall name <- dir | ParseId(name).Some? ::
      FileName(ParseId(name).value) in dir && ParseTable(dir[FileName(ParseId(name).value)]).Ok?
  }

  lemma HoldsOpenable(dir: Directory, ids: seq<nat>)
    requires Holds(dir, ids)
    ensures Openable(dir)
  {
    hide ParseId, FileName, Readable, ParseTable;
    forall name <- dir | ParseId(name).Some?
      ensures FileName(ParseId(name).value) in dir && ParseTable(dir[FileName(ParseId(name).value)]).Ok? {
      var id :| id in ids && FileName(id) == name;
      NameRoundTrip(id);
      StorageManager.ReadableOpens(dir[name]);
    }
  }

  /** Opening a directory written by flushes restores exactly its tables, newest
      first, and a next identifier above all of them. Files with other names do not
      matter. Opening fails exactly if some name that parses has no table file, or one that
      does not parse, such as the empty one a builder starts from. */
  method OpenStorage(dir: Directory) returns (r: Result<StorageManager>)
    ensures r.Ok? ==> fresh(r.value) && fresh(r.value.sstables)
    ensures forall ids | Holds(dir, ids) ::
              && r.Ok? && r.value.Valid() && r.value.dir == dir && r.value.ids == ids
              && r.value.nextSstableId == if ids == [] then 1 else (ids[0] + 1) % 0x1_0000_0000_0000_0000
    ensures r.Ok? <==> Openable(dir)
    ensures (forall name <- dir :: ParseId(name).None?) ==>
              r.Ok? && r.value.sstables == [] && r.value.nextSstableId == 1
  {
    hide ParseId, FileName, Readable, SortDescending, ParseTable, Holds, Openable, Serve;
    var found, names := CollectIds(dir);
    var ids := SortDescending(found);
    SortDescendingMembers(found);
    var sstables: seq<SSTableReader> := [];
    var i := 0;
    while i < |ids|
      invariant 0 <= i <= |ids| && |sstables| == i && fresh(sstables)
      invariant forall j | 0 <= j < i :: Opened(sstables[j], dir, ids[j])
    {
      var name := FileName(ids[i]);
      assert ids[i] in found;
      if name !in dir {
        NotOpenable(dir, found, names, ids[i]);
        return Err(Io);
      }
      var reader := OpenTable(dir[name]);
      if reader.Err? {
        NotOpenable(dir, found, names, ids[i]);
        return Err(reader.error);
      }
      sstables := sstables + [reader.value];
      i := i + 1;
    }
    var manager := new StorageManager(dir, sstables, NextId(ids), ids);
    r := Ok(manager);
    AllOpened(dir, found, names, ids, sstables);
    NothingFound(dir, found, names, ids);
    forall known | Holds(dir, known) ensures ids == known {
      SortedIdsRestored(dir, known, found, names);
    }
  }

  /** Some name parses to an identifier without a readable table file. */
  lemma NotOpenable(dir: Directory, found: seq<nat>, names: seq<string>, id: nat)
    requires |names| == |found| && id in found
    requires forall i | 0 <= i < |names| :: names[i] in dir && ParseId(names[i]) == Some(found[i])
    requires FileName(id) !in dir || ParseTable(dir[FileName(id)]).Err?
    ensures !Openable(dir) && (forall ids :: !Holds(dir, ids)) && exists name <- dir :: ParseId(name).Some?
  {
    hide ParseId, FileName, ParseTable, Holds;
    var i :| 0 <= i < |found| && found[i] == id;
    assert names[i] in dir;
    forall ids ensures !Holds(dir, ids) {
      if Holds(dir, ids) {
        HoldsOpenable(dir, ids);
      }
    }
  }

  lemma NothingFound(dir: Directory, found: seq<nat>, names: seq<string>, ids: seq<nat>)
    requires |names| == |found|
    requires forall i | 0 <= i < |names| :: names[i] in dir && ParseId(names[i]) == Some(found[i])
    requires forall id :: id in ids <==> id in found
    ensures (forall name <- dir :: ParseId(name).None?) ==> ids == []
  {
    hide ParseId;
    if (forall name <- dir :: ParseId(name).None?) && ids != [] {
      assert ids[0] in found;
      var i :| 0 <= i < |found| && found[i] == ids[0];
      assert names[i] in dir;
    }
  }

  /** The reader was opened on the file of this identifier. */
  ghost predicate Opened(r: SSTableReader, dir: Directory, id: nat) {
    && FileName(id) in dir && r.file == dir[FileName(id)]
    && ParseTable(r.file).Ok? && r.index == ParseTable(r.file).value.index
  }

  lemma AllOpened(dir: Directory, found: seq<nat>, names: seq<string>, ids: seq<nat>, readers: seq<SSTableReader>)
    requires |names| == |found| && (forall i | 0 <= i < |names| :: ParseId(names[i]) == Some(found[i]))
    requires forall name <- dir :: ParseId(name).Some? ==> name in names
    requires forall id :: id in ids <==> id in found
    requires |readers| == |ids| && forall j | 0 <= j < |ids| :: Opened(readers[j], dir, ids[j])
    ensures Openable(dir)
    ensures Holds(dir, ids) ==> Serve(readers, dir, ids)
  {
    hide ParseId, FileName, Readable, ParseTable;
    forall name <- dir | ParseId(name).Some?
      ensures FileName(ParseId(name).value) in dir && ParseTable(dir[FileName(ParseId(name).value)]).Ok? {
      var i :| 0 <= i < |names| && names[i] == name;
      assert found[i] in ids;
      var j :| 0 <= j < |ids| && ids[j] == found[i];
      assert Opened(readers[j], dir, ids[j]);
    }
    if Holds(dir, ids) {
      forall j | 0 <= j < |ids| ensures Serves(readers[j], dir, ids[j]) {
        assert Opened(readers[j], dir, ids[j]);
        HoldsAt(dir, ids, j);
      }
    }
  }
}

/** Layers of entries and the map they stand for. */
module Layers {
  import opened Bytes
  import opened Errors
  import opened WalEntries

  datatype Entry = Live(value: Value) | Tombstone

  /** One layer: a memtable or the contents of an SSTable. */
  type Table = map<Key, Entry>

  /** What a client sees. */
  type View = map<Key, Value>

  function Insert(t: Table, op: Operation): Table {
    match op
    case Put(key, value) => t[key := Live(value)]
    case Delete(key) => t[key := Tombstone]
  }

  function Replay(t: Table, ops: seq<Operation>): Table {
    if ops == [] then t else Insert(Replay(t, ops[..|ops| - 1]), ops[|ops| - 1])
  }

  function ApplyOne(v: View, op: Operation): View {
    match op
    case Put(key, value) => v[key := value]
    case Delete(key) => v - {key}
  }

  /** The plain map after a sequence of operations. */
  function Apply(v: View, ops: seq<Operation>): View {
    if ops == [] then v else ApplyOne(Apply(v, ops[..|ops| - 1]), ops[|ops| - 1])
  }

  /** The oldest-to-newest override merge; `tables` is ordered newest first. */
  function Merge(tables: seq<Table>): Table {
    if tables == [] then map[] else Merge(tables[1..]) + tables[0]
  }

  function Visible(t: Table): View {
    map k | k in t && t[k].Live? :: t[k].value
  }

  function Contents(tables: seq<Table>): View {
    Visible(Merge(tables))
  }

  function Get(v: View, key: Key): Option<Value> {
    if key in v then Some(v[key]) else None
  }

  function EntryValue(e: Entry): Option<Value> {
    match e
    case Live(value) => Some(value)
    case Tombstone => None
  }

  /** Newest to oldest; the first layer that knows the key decides, also by a tombstone. */
  function Search(tables: seq<Table>, key: Key): Option<Value> {
    if tables == [] then None
    else if key in tables[0] then EntryValue(tables[0][key])
    else Search(tables[1..], key)
  }

  lemma SearchStep(tables: seq<Table>, i: nat, key: Key)
    requires i < |tables|
    ensures Search(tables[i..], key)
            == if key in tables[i] then EntryValue(tables[i][key]) else Search(tables[i + 1..], key)
  {
    assert tables[i..][1..] == tables[i + 1..];
  }

  lemma SearchNone(tables: seq<Table>, key: Key)
    requires tables == []
    ensures Search(tables, key) == None
  {
  }

  /** Layered search is lookup in the merged map. */
  lemma {:induction false} SearchIsMerged(tables: seq<Table>, key: Key)
    ensures Search(tables, key) == Get(Contents(tables), key)
  {
    if tables != [] {
      SearchIsMerged(tables[1..], key);
    }
  }

  lemma InsertIsApply(t: Table, op: Operation)
    ensures Visible(Insert(t, op)) == ApplyOne(Visible(t), op)
  {
  }

  /** Overlaying a replayed log on older layers is applying the log to what they show. */
  lemma {:induction false} ReplayIsApply(base: Table, t: Table, ops: seq<Operation>)
    ensures Visible(base + Replay(t, ops)) == Apply(Visible(base + t), ops)
  {
    hide Visible, ApplyOne;
    if ops != [] {
      var before, op := ops[..|ops| - 1], ops[|ops| - 1];
      ReplayIsApply(base, t, before);
      assert base + Insert(Replay(t, before), op) == Insert(base + Replay(t, before), op);
      InsertIsApply(base + Replay(t, before), op);
    }
  }

  lemma ReplayOver(ops: seq<Operation>, tables: seq<Table>)
    ensures Contents([Replay(map[], ops)] + tables) == Apply(Contents(tables), ops)
  {
    hide Visible, Apply, Replay;
    ReplayIsApply(Merge(tables), map[], ops);
    assert ([Replay(map[], ops)] + tables)[1..] == tables;
    assert Merge(tables) + map[] == Merge(tables);
  }

  lemma {:induction false} ApplyConcat(v: View, a: seq<Operation>, b: seq<Operation>)
    ensures Apply(v, a + b) == Apply(Apply(v, a), b)
    decreases |b|
  {
    if b == [] {
      assert a + b == a;
    } else {
      assert (a + b)[..|a + b| - 1] == a + b[..|b| - 1];
      ApplyConcat(v, a, b[..|b| - 1]);
    }
  }

  /** Whether some operation of the sequence names the key. */
  predicate Touches(ops: seq<Operation>, key: Key) {
    exists op <- ops :: op.key == key
  }

  /** A key's value after a log depends on the log alone if the log touches it, and
      on the starting map alone if it does not. */
  lemma {:induction false} ApplyAt(v: View, w: View, ops: seq<Operation>, key: Key)
    ensures Touches(ops, key) ==> Get(Apply(v, ops), key) == Get(Apply(w, ops), key)
    ensures !Touches(ops, key) ==> Get(Apply(v, ops), key) == Get(v, key)
  {
    if ops != [] {
      var before, op := ops[..|ops| - 1], ops[|ops| - 1];
      assert ops == before + [op];
      ApplyAt(v, w, before, key);
    }
  }

  lemma ViewsEqual(v: View, w: View)
    requires forall k :: Get(v, k) == Get(w, k)
    ensures v == w
  {
    forall k ensures k in v <==> k in w {
      assert Get(v, k) == Get(w, k);
    }
    forall k | k in v ensures v[k] == w[k] {
      assert Get(v, k) == Get(w, k);
    }
  }

  /** Replaying a log a second time changes nothing. */
  lemma ApplyIdempotent(v: View, ops: seq<Operation>)
    ensures Apply(Apply(v, ops), ops) == Apply(v, ops)
  {
    forall k ensures Get(Apply(Apply(v, ops), ops), k) == Get(Apply(v, ops), k) {
      ApplyAt(Apply(v, ops), v, ops, k);
    }
    ViewsEqual(Apply(Apply(v, ops), ops), Apply(v, ops));
  }

  lemma TouchesOne(op: Operation, key: Key)
    ensures Touches([op], key) <==> op.key == key
  {
    assert op in [op];
  }

  /** Replaying all but the last operation over a map that holds them all. */
  lemma OneLost(v: View, ops: seq<Operation>, op: Operation)
    ensures var all := ops + [op];
      Apply(Apply(v, all), ops) == if Touches(ops, op.key) then Apply(v, ops) else Apply(v, all)
  {
    hide Apply, Touches;
    var all := ops + [op];
    ApplyConcat(v, ops, [op]);
    forall key ensures Get(Apply(Apply(v, all), ops), key)
                       == Get(if Touches(ops, op.key) then Apply(v, ops) else Apply(v, all), key) {
      ApplyAt(Apply(v, all), v, ops, key);
      ApplyAt(v, v, ops, key);
      ApplyAt(Apply(v, ops), v, [op], key);
      TouchesOne(op, key);
    }
    ViewsEqual(Apply(Apply(v, all), ops), if Touches(ops, op.key) then Apply(v, ops) else Apply(v, all));
  }

  // -- Several replays of prefixes of one log ---------------------------------

  ghost predicate Within(lens: seq<nat>, lo: nat, hi: nat) {
    forall i | 0 <= i < |lens| :: lo <= lens[i] <= hi
  }

  /** The map after replaying prefixes of one log over v, the last of `lens` first. */
  ghost function Overlaid(v: View, log: seq<Operation>, lens: seq<nat>): View
    requires Within(lens, 0, |log|)
  {
    if lens == [] then v else
      Apply(Overlaid(v, log, lens[1..]), log[..lens[0]])
  }

  /** The key has the value it has after some prefix of the log of length lo at least. */
  ghost predicate Recent(v: View, base: View, log: seq<Operation>, lo: int, key: Key) {
    exists n :: lo <= n <= |log| && 0 <= n && Get(v, key) == Get(Apply(base, log[..n]), key)
  }

  /** After any replays of prefixes, every key has its value after one of them. */
  lemma {:induction false} OverlaidRecent(v: View, log: seq<Operation>, lens: seq<nat>, lo: nat, key: Key)
    requires lens != [] && lo <= |log| && Within(lens, lo, |log|)
    ensures Within(lens, 0, |log|) && Recent(Overlaid(v, log, lens), v, log, lo, key)
  {
    hide Apply, Touches, Get;
    var n, rest := lens[0], lens[1..];
    var inner := Overlaid(v, log, rest);
    ApplyAt(inner, v, log[..n], key);
    if rest != [] && !Touches(log[..n], key) {
      OverlaidRecent(v, log, rest, lo, key);
    } else {
      assert Get(Overlaid(v, log, lens), key) == Get(Apply(v, log[..n]), key);
    }
  }

  /** Replaying the whole log any number of times is replaying it once. */
  lemma {:induction false} OverlaidWhole(v: View, log: seq<Operation>, lens: seq<nat>)
    requires lens != [] && Within(lens, |log|, |log|)
    ensures Within(lens, 0, |log|) && Overlaid(v, log, lens) == Apply(v, log)
  {
    hide Apply;
    var rest := lens[1..];
    assert log[..|log|] == log;
    if rest != [] {
      OverlaidWhole(v, log, rest);
      ApplyIdempotent(v, log);
    }
  }

  /** If the prefixes differ in one operation at most, the replays give one of two maps. */
  lemma {:induction false} OverlaidOne(v: View, ops: seq<Operation>, op: Operation, lens: seq<nat>)
    requires lens != [] && Within(lens, |ops|, |ops| + 1)
    ensures Within(lens, 0, |ops| + 1)
    ensures var r := Overlaid(v, ops + [op], lens); r == Apply(v, ops) || r == Apply(v, ops + [op])
  {
    hide Apply, Touches;
    var all, n, rest := ops + [op], lens[0], lens[1..];
    assert all[..n] == if n == |all| then all else ops;
    if rest != [] {
      OverlaidOne(v, ops, op, rest);
      ApplyIdempotent(v, ops);
      ApplyIdempotent(v, all);
      OneLost(v, ops, op);
      ApplyConcat(Apply(v, ops), ops, [op]);
      ApplyConcat(v, ops, [op]);
    }
  }
}

/** Gets take no lock. Any number of them, interleaved with one writer, with crashes and
    reopenings, still behave as if each had looked at the whole map at one moment. */
module Linearizability {
  import opened Bytes
  import opened Errors
  import opened WalEntries
  import opened WalWriters
  import opened Layers
  import opened EngineMachine
  import opened CrashSafety

  // -- One get ----------------------------------------------------------------

  lemma SearchView(t: Table, tables: seq<Table>, key: Key)
    ensures Get(Contents([t] + tables), key) == if key in t then EntryValue(t[key]) else Search(tables, key)
  {
    hide Contents, Get;
    SearchIsMerged([t] + tables, key);
    SearchStep([t] + tables, 0, key);
    assert ([t] + tables)[0..] == [t] + tables && ([t] + tables)[1..] == tables;
  }

  /** A get that looks into the memtable now would, if it returned at once, return the
      key's value. */
  lemma ReadMemStep(cfg: Config, s: State, reader: nat, key: Key)
    requires Enabled(s, ReadMem(reader, key))
    ensures var t := Next(cfg, s, ReadMem(reader, key));
      && Serving(t) && reader in t.gets && t.gets[reader].key == key
      && Answer(t, reader) == Get(Observed(t), key)
  {
    hide Contents, Get, Search;
    SearchView(s.mem, s.tables, key);
  }

  /** When a flush adds its table, the memtable and the tables answer alike. */
  lemma AddTableStep(cfg: Config, s: State, key: Key)
    requires Enabled(s, AddTable)
    ensures var t := Next(cfg, s, AddTable); Serving(t) && Search(t.tables, key) == Get(Observed(t), key)
  {
    hide Contents, Get;
    var t := Next(cfg, s, AddTable);
    SearchView(t.mem, t.tables, key);
    SearchStep(t.tables, 0, key);
    assert t.tables[0..] == t.tables;
  }

  predicate Looks(l: Label, reader: nat) {
    l.ReadMem? && l.reader == reader
  }

  /** Through any other step a get in progress either keeps its answer or, should the
      step be AddTable, gets the key's value in the new state. */
  lemma OtherStep(cfg: Config, s: State, l: Label, reader: nat)
    requires Inv(cfg, s) && Enabled(s, l) && reader in Next(cfg, s, l).gets && !Looks(l, reader)
    ensures var t := Next(cfg, s, l);
      && reader in s.gets && t.gets[reader] == s.gets[reader] && Serving(t)
      && (Answer(t, reader) == Answer(s, reader) || Answer(t, reader) == Get(Observed(t), t.gets[reader].key))
  {
    hide ServingInv, Contents, Get, Search, Replay, LogOps, DurableOps, Storable, Write, SyncIfDue, Insert;
    if l.AddTable? {
      AddTableStep(cfg, s, s.gets[reader].key);
    }
  }

  /** The step at which the reader's last get looked into the memtable. */
  function Began(labels: seq<Label>, reader: nat): int {
    if labels == [] then -1
    else if Looks(labels[|labels| - 1], reader) then |labels| - 1
    else Began(labels[..|labels| - 1], reader)
  }

  lemma {:induction false} AnswerMoment(cfg: Config, start: State, labels: seq<Label>, s: State, reader: nat)
    returns (k: nat, m: State)
    requires Inv(cfg, start) && start.gets == map[] && Reaches(cfg, start, labels, s) && reader in s.gets
    ensures Inv(cfg, s) && 0 <= Began(labels, reader) < k <= |labels|
    ensures labels[Began(labels, reader)] == ReadMem(reader, s.gets[reader].key)
    ensures Reaches(cfg, start, labels[..k], m) && Serving(m)
    ensures Answer(s, reader) == Get(Observed(m), s.gets[reader].key)
    decreases |labels|
  {
    hide Next, Enabled, Contents, Get, Inv, After, Observed, Answer;
    RunInv(cfg, start, labels, s);
    if labels == [] {
      NoSteps(cfg, start, s);
      assert false;
    } else {
      var before, last := labels[..|labels| - 1], labels[|labels| - 1];
      var p := LastStep(cfg, start, labels, s);
      assert labels[..|labels|] == labels;
      k, m := |labels|, s;
      if Looks(last, reader) {
        ReadMemStep(cfg, p, reader, last.key);
      } else {
        RunInv(cfg, start, before, p);
        OtherStep(cfg, p, last, reader);
        var k', m' := AnswerMoment(cfg, start, before, p, reader);
        assert before[..k'] == labels[..k'];
        if Answer(s, reader) == Answer(p, reader) {
          k, m := k', m';
        }
      }
    }
  }

  /** Every get is linearizable: whatever the writer and other readers do between its two
      looks, it returns the key's value in the plain map of some moment in between, the map
      after all operations inserted by then. */
  lemma GetLinearizable(cfg: Config, start: State, labels: seq<Label>, s: State, reader: nat)
    returns (k: nat, m: State)
    requires Inv(cfg, start) && start.gets == map[] && Reaches(cfg, start, labels, s) && reader in s.gets
    ensures 0 <= Began(labels, reader) < k <= |labels|
    ensures labels[Began(labels, reader)] == ReadMem(reader, s.gets[reader].key)
    ensures Reaches(cfg, start, labels[..k], m) && Serving(m) && 0 <= Inserted(m) <= |m.history|
    ensures Answer(s, reader) == Get(Apply(m.base, m.history[..Inserted(m)]), s.gets[reader].key)
  {
    hide Inv, Observed, Reaches, Answer, Apply, Get;
    k, m := AnswerMoment(cfg, start, labels, s, reader);
    RunInv(cfg, start, labels[..k], m);
    ServingView(cfg, m);
  }

  /** Gets do not hold up the writer, and the writer does not hold them up: whichever gets
      are in progress, the same steps of the writer are possible and do the same, and at
      every moment of serving any new get can begin and any get in progress can return. */
  lemma NoInterference(cfg: Config, s: State, l: Label, gets: map<nat, Read>)
    requires !l.ReadMem? && !l.ReadTables? && !l.CloseSync?
    ensures Enabled(s, l) <==> Enabled(s.(gets := gets), l)
    ensures Enabled(s, l) ==>
              Next(cfg, s.(gets := gets), l) == Next(cfg, s, l).(gets := if l.Crash? then map[] else gets)
    ensures Serving(s) ==> forall r, key :: Enabled(s, ReadMem(r, key)) <==> r !in s.gets
    ensures Serving(s) ==> forall r <- s.gets :: Enabled(s, ReadTables(r))
  {
    hide Contents, Storable, Write, SyncIfDue, Insert, Replay, Survivor, LogOps;
  }

  /** In particular any number of gets can be in progress at once. */
  lemma {:induction false} ManyReaders(cfg: Config, s: State, k: nat) returns (labels: seq<Label>, t: State)
    requires Serving(s) && s.gets == map[]
    ensures Reaches(cfg, s, labels, t) && (forall i :: i in t.gets <==> 0 <= i < k) && t == s.(gets := t.gets)
  {
    hide After;
    if k == 0 {
      labels, t := [], s;
      RunStarts(cfg, s);
    } else {
      var before, m := ManyReaders(cfg, s, k - 1);
      var l := ReadMem(k - 1, []);
      assert k - 1 !in m.gets;
      ReachesStep(cfg, s, before, m, l);
      labels, t := before + [l], Next(cfg, m, l);
    }
  }

  // -- All gets of a run ------------------------------------------------------

  datatype Run = Run(cfg: Config, start: State, labels: seq<Label>)

  ghost predicate Possible(run: Run) {
    After(run.cfg, run.start, run.labels).Some?
  }

  lemma {:induction false} PrefixPossible(run: Run, k: nat)
    requires Possible(run) && k <= |run.labels|
    ensures After(run.cfg, run.start, run.labels[..k]).Some?
    decreases |run.labels| - k
  {
    hide Next, Enabled;
    if k == |run.labels| {
      assert run.labels[..k] == run.labels;
    } else {
      PrefixPossible(run, k + 1);
      assert run.labels[..k + 1][..k] == run.labels[..k];
    }
  }

  /** The state after k steps. */
  ghost function StateAt(run: Run, k: nat): (s: State)
    requires Possible(run) && k <= |run.labels|
    ensures Reaches(run.cfg, run.start, run.labels[..k], s)
  {
    PrefixPossible(run, k);
    After(run.cfg, run.start, run.labels[..k]).value
  }

  lemma StepAt(run: Run, k: nat)
    requires Possible(run) && k < |run.labels|
    ensures Enabled(StateAt(run, k), run.labels[k])
  {
    hide Next, Enabled;
    PrefixPossible(run, k + 1);
    assert run.labels[..k + 1][..k] == run.labels[..k];
  }

  /** A sequential history: operations take effect and gets return. A get is named by
      the step of the run at which it returned. */
  datatype Event = Did(op: Operation) | Got(at: nat, key: Key, answer: Option<Value>)

  function Effects(h: seq<Event>): seq<Operation> {
    if h == [] then [] else
      Effects(h[..|h| - 1]) + (match h[|h| - 1] case Did(op) => [op] case Got(_, _, _) => [])
  }

  /** Run one after the other on the plain map, every get has the answer it gave. */
  predicate Legal(v: View, h: seq<Event>) {
    h == [] || (
      && Legal(v, h[..|h| - 1])
      && match h[|h| - 1]
         case Did(_) => true
         case Got(_, key, answer) => answer == Get(Apply(v, Effects(h[..|h| - 1])), key))
  }

  predicate Returns(run: Run, j: nat) {
    j < |run.labels| && run.labels[j].ReadTables?
  }

  /** The get that returned at step j. */
  ghost function GetAt(run: Run, j: nat): (e: Event)
    requires Possible(run) && Returns(run, j)
    ensures e.Got? && e.at == j
  {
    StepAt(run, j);
    var s, reader := StateAt(run, j), run.labels[j].reader;
    Got(j, s.gets[reader].key, Answer(s, reader))
  }

  /** Of the gets that returned in the first n steps, those assigned to moment k. */
  ghost function GetsAt(run: Run, point: seq<nat>, k: nat, n: nat): seq<Event>
    requires Possible(run) && n <= |run.labels| == |point|
  {
    if n == 0 then [] else
      GetsAt(run, point, k, n - 1)
      + (if Returns(run, n - 1) && point[n - 1] == k then [GetAt(run, n - 1)] else [])
  }

  /** Everything up to moment k in one sequence: before each moment the operation its step
      took, at each moment the gets assigned to it. */
  ghost function History(run: Run, taken: seq<Option<Operation>>, point: seq<nat>, k: nat): seq<Event>
    requires Possible(run) && k <= |run.labels| == |point| == |taken|
  {
    var gets := GetsAt(run, point, k, |run.labels|);
    if k == 0 then gets
    else History(run, taken, point, k - 1) + DidOne(taken[k - 1]) + gets
  }

  function DidOne(taken: Option<Operation>): seq<Event> {
    match taken
    case None => []
    case Some(op) => [Did(op)]
  }

  /** Moment p lies between the two looks of the get that returned at step j, and there
      the key had the value that the get returned. */
  ghost predicate Explaining(run: Run, j: nat, p: nat)
    requires Possible(run) && Returns(run, j)
  {
    && 0 <= Began(run.labels[..j], run.labels[j].reader) < p <= j && Serving(StateAt(run, p))
    && GetAt(run, j).answer == Get(Observed(StateAt(run, p)), GetAt(run, j).key)
  }

  lemma ExplainGet(run: Run, j: nat) returns (p: nat)
    requires Possible(run) && Returns(run, j) && Inv(run.cfg, run.start) && run.start.gets == map[]
    ensures Explaining(run, j, p)
  {
    hide Inv, Next, Enabled, Observed, Get, Answer, Began, After;
    var s, reader := StateAt(run, j), run.labels[j].reader;
    StepAt(run, j);
    ReturningReader(s, reader, run.labels[j]);
    var k, m := AnswerMoment(run.cfg, run.start, run.labels[..j], s, reader);
    assert run.labels[..j][..k] == run.labels[..k];
    p := k;
  }

  lemma ReturningReader(s: State, reader: nat, l: Label)
    requires Enabled(s, l) && l == ReadTables(reader)
    ensures reader in s.gets
  {
    hide Storable;
  }

  lemma {:induction false} ExplainGets(run: Run, n: nat) returns (point: seq<nat>)
    requires Possible(run) && Inv(run.cfg, run.start) && run.start.gets == map[] && n <= |run.labels|
    ensures |point| == n && forall j: nat | j < n && Returns(run, j) :: Explaining(run, j, point[j])
  {
    hide Inv, Explaining, Possible;
    if n == 0 {
      point := [];
    } else {
      point := ExplainGets(run, n - 1);
      var p := 0;
      if Returns(run, n - 1) {
        p := ExplainGet(run, n - 1);
      }
      point := point + [p];
    }
  }

  ghost predicate AllExplained(run: Run, point: seq<nat>)
    requires Possible(run) && |point| == |run.labels|
  {
    forall j: nat | Returns(run, j) :: Explaining(run, j, point[j])
  }

  lemma EffectsLast(h: seq<Event>, e: Event)
    ensures Effects(h + [e]) == Effects(h) + (match e case Did(op) => [op] case Got(_, _, _) => [])
  {
    assert (h + [e])[..|h|] == h;
  }

  lemma LegalLast(v: View, h: seq<Event>, e: Event)
    requires Legal(v, h) && (e.Got? ==> e.answer == Get(Apply(v, Effects(h)), e.key))
    ensures Legal(v, h + [e])
  {
    hide Apply, Get, Effects;
    assert (h + [e])[..|h|] == h;
  }

  /** Gets assigned to a moment may follow the operations taken before it, in any order. */
  lemma {:induction false} LegalGets(run: Run, point: seq<nat>, k: nat, n: nat, v: View, h: seq<Event>)
    requires Possible(run) && k <= |run.labels| && n <= |run.labels| == |point| && AllExplained(run, point)
    requires Legal(v, h)
    requires Serving(StateAt(run, k)) ==> Observed(StateAt(run, k)) == Apply(v, Effects(h))
    ensures Legal(v, h + GetsAt(run, point, k, n))
    ensures Effects(h + GetsAt(run, point, k, n)) == Effects(h)
  {
    hide Apply, Get, Effects, Possible, StateAt, GetAt, Observed, Serving, Legal;
    if n == 0 {
      assert h + GetsAt(run, point, k, n) == h;
    } else {
      LegalGets(run, point, k, n - 1, v, h);
      var before := h + GetsAt(run, point, k, n - 1);
      if Returns(run, n - 1) && point[n - 1] == k {
        var e := GetAt(run, n - 1);
        assert Explaining(run, n - 1, k);
        EffectsLast(before, e);
        LegalLast(v, before, e);
        assert before + [e] == h + GetsAt(run, point, k, n);
        assert Effects(before) + [] == Effects(before);
      } else {
        assert before == h + GetsAt(run, point, k, n);
      }
    }
  }

  lemma {:induction false} LegalHistory(run: Run, taken: seq<Option<Operation>>, point: seq<nat>, k: nat)
    requires Possible(run) && k <= |run.labels| == |taken| == |point| && AllExplained(run, point)
    requires RefinesMap(run.cfg, run.start, run.labels, taken)
    ensures Legal(Observed(run.start), History(run, taken, point, k))
    ensures Effects(History(run, taken, point, k)) == Taken(taken[..k])
  {
    hide Apply, Get, Possible, Observed, Serving, GetsAt, AllExplained, After;
    var v, h := Observed(run.start), [];
    if k > 0 {
      LegalHistory(run, taken, point, k - 1);
      h := History(run, taken, point, k - 1);
      assert taken[..k][..k - 1] == taken[..k - 1];
      if taken[k - 1].Some? {
        var e := Did(taken[k - 1].value);
        EffectsLast(h, e);
        LegalLast(v, h, e);
      } else {
        assert h + DidOne(taken[k - 1]) == h && Effects(h) + [] == Effects(h);
      }
      h := h + DidOne(taken[k - 1]);
    }
    assert Effects(h) == Taken(taken[..k]);
    LegalGets(run, point, k, |run.labels|, v, h);
    assert k == 0 ==> [] + GetsAt(run, point, k, |run.labels|) == History(run, taken, point, k);
  }

  // -- Each get occurs once ---------------------------------------------------

  /** How often the get that returned at step j occurs. */
  function Count(h: seq<Event>, j: nat): nat {
    if h == [] then 0 else Count(h[..|h| - 1], j) + (if h[|h| - 1].Got? && h[|h| - 1].at == j then 1 else 0)
  }

  lemma {:induction false} CountConcat(a: seq<Event>, b: seq<Event>, j: nat)
    ensures Count(a + b, j) == Count(a, j) + Count(b, j)
    decreases |b|
  {
    if b == [] {
      assert a + b == a;
    } else {
      CountConcat(a, b[..|b| - 1], j);
      assert (a + b)[..|a + b| - 1] == a + b[..|b| - 1];
    }
  }

  lemma CountOne(e: Event, j: nat)
    ensures Count([e], j) == if e.Got? && e.at == j then 1 else 0
  {
    assert [e][..0] == [];
  }

  /** The gets of the history are gets of the run, with their keys and answers. */
  ghost predicate FromRun(run: Run, h: seq<Event>)
    requires Possible(run)
  {
    forall e <- h | e.Got? :: Returns(run, e.at) && e == GetAt(run, e.at)
  }

  lemma {:induction false} GetsAtOnce(run: Run, point: seq<nat>, k: nat, n: nat, j: nat)
    requires Possible(run) && n <= |run.labels| == |point|
    ensures FromRun(run, GetsAt(run, point, k, n))
    ensures Count(GetsAt(run, point, k, n), j) == if j < n && Returns(run, j) && point[j] == k then 1 else 0
  {
    hide Possible, Count, GetAt;
    if n == 0 {
      assert Count([], j) == 0 by { CountNone(j); }
    } else {
      GetsAtOnce(run, point, k, n - 1, j);
      if Returns(run, n - 1) && point[n - 1] == k {
        CountConcat(GetsAt(run, point, k, n - 1), [GetAt(run, n - 1)], j);
        CountOne(GetAt(run, n - 1), j);
      } else {
        assert GetsAt(run, point, k, n) == GetsAt(run, point, k, n - 1);
      }
    }
  }

  lemma CountNone(j: nat)
    ensures Count([], j) == 0
  {
  }

  /** Up to moment k the history has the gets assigned to moments up to k, each once, and
      nothing that follows changes that part. */
  lemma {:induction false} HistoryGets(run: Run, taken: seq<Option<Operation>>, point: seq<nat>, k: nat, j: nat)
    requires Possible(run) && k <= |run.labels| == |point| == |taken|
    ensures FromRun(run, History(run, taken, point, k))
    ensures k > 0 ==> History(run, taken, point, k - 1) <= History(run, taken, point, k)
    ensures Count(History(run, taken, point, k), j) == if Returns(run, j) && point[j] <= k then 1 else 0
  {
    hide Possible, Count, GetAt, GetsAt;
    GetsAtOnce(run, point, k, |run.labels|, j);
    if k > 0 {
      var h, gets := History(run, taken, point, k - 1), GetsAt(run, point, k, |run.labels|);
      HistoryGets(run, taken, point, k - 1, j);
      CountConcat(h + DidOne(taken[k - 1]), gets, j);
      CountConcat(h, DidOne(taken[k - 1]), j);
      CountNone(j);
      if taken[k - 1].Some? {
        CountOne(Did(taken[k - 1].value), j);
      }
    }
  }

  // -- Whole runs -------------------------------------------------------------

  /** Linearizability over whole runs, with any number of readers, any interleaving, and
      crashes if every append is synced. One sequential history has all gets of the run,
      each once, and all operations in the order in which they took effect; run one after
      the other on the plain map, every get has the answer it gave. Each get stands at a
      moment between its two looks, so the history respects the order in real time. */
  lemma Linearizable(run: Run) returns (taken: seq<Option<Operation>>, point: seq<nat>)
    requires Possible(run) && Settled(run.cfg, run.start)
    requires MaxUnsynced(run.cfg.sync) == 0 || forall l <- run.labels :: !l.Crash?
    ensures Explains(run.labels, taken) && |point| == |run.labels|
    ensures forall j: nat | Returns(run, j) :: 0 <= Began(run.labels[..j], run.labels[j].reader) < point[j] <= j
    ensures var h := History(run, taken, point, |run.labels|);
      && Legal(Observed(run.start), h) && Effects(h) == Taken(taken)
      && FromRun(run, h) && forall j: nat :: Count(h, j) == if Returns(run, j) then 1 else 0
  {
    hide Inv, Observed, After, Legal, History, Count, Began, GetAt, StateAt, Effects, Taken, Explains;
    var n := |run.labels|;
    SettledInv(run.cfg, run.start);
    taken := SyncedRun(run.cfg, run.start, run.labels, After(run.cfg, run.start, run.labels).value);
    ExplainsLength(run.labels, taken);
    point := ExplainGets(run, n);
    LegalHistory(run, taken, point, n);
    assert taken[..n] == taken;
    forall j: nat ensures Count(History(run, taken, point, n), j) == if Returns(run, j) then 1 else 0 {
      HistoryGets(run, taken, point, n, j);
      assert Returns(run, j) ==> Explaining(run, j, point[j]);
    }
    HistoryGets(run, taken, point, n, 0);
  }

  lemma ExplainsLength(labels: seq<Label>, taken: seq<Option<Operation>>)
    requires Explains(labels, taken)
    ensures |taken| == |labels|
  {
  }

  /** A get that overlaps no insertion returns exactly the latest value, even when a whole
      flush passes between its two looks. */
  lemma {:induction false} QuietRead(cfg: Config, start: State, labels: seq<Label>, s: State, reader: nat)
    requires Inv(cfg, start) && start.gets == map[] && Reaches(cfg, start, labels, s) && reader in s.gets
    requires forall i | Began(labels, reader) < i < |labels| && i >= 0 :: !labels[i].InsertMem?
    ensures Answer(s, reader) == Get(Observed(s), s.gets[reader].key)
    decreases |labels|
  {
    hide Next, Enabled, Contents, Get, Inv, After, Observed, Answer;
    if labels == [] {
      NoSteps(cfg, start, s);
      assert false;
    } else {
      var before, last := labels[..|labels| - 1], labels[|labels| - 1];
      var p := LastStep(cfg, start, labels, s);
      if Looks(last, reader) {
        ReadMemStep(cfg, p, reader, last.key);
      } else {
        RunInv(cfg, start, before, p);
        OtherStep(cfg, p, last, reader);
        forall i | Began(before, reader) < i < |before| && i >= 0 ensures !before[i].InsertMem? {
          assert before[i] == labels[i];
        }
        QuietRead(cfg, start, before, p, reader);
        NoGetSurvives(cfg, p, last);
        BeganBefore(before, reader);
        NonCrashStep(cfg, p, last);
      }
    }
  }

  lemma NoGetSurvives(cfg: Config, s: State, l: Label)
    requires Enabled(s, l) && Next(cfg, s, l).gets != map[]
    ensures !l.Crash?
  {
    hide Storable;
  }

  lemma {:induction false} BeganBefore(labels: seq<Label>, reader: nat)
    ensures Began(labels, reader) < |labels|
  {
    if labels != [] {
      BeganBefore(labels[..|labels| - 1], reader);
    }
  }
}

/** The server's worker pool as a message-passing protocol: one accepting thread, a
    bounded channel, N workers, and shutdown by one token per worker. */
module WorkerPool {
  import opened Errors

  datatype Message = NewConnection(id: nat) | Shutdown

  datatype Worker =
    | Waiting             // in recv
    | Received(id: nat)   // has a connection, not yet counted
    | Serving(id: nat)    // counted as active
    | Stopped             // left its loop

  datatype Main =
    | Accepting             // in the accept loop
    | Dispatching(id: nat)  // accepted below the limit, in send
    | Sending(sent: nat)    // in cleanup, this many tokens sent
    | Joining(joined: nat)  // waiting for worker number `joined`
    | Finished

  /** `dispatched` and `handled` only observe. */
  datatype State = State(queue: seq<Message>, workers: seq<Worker>, active: nat, main: Main, shutdown: bool,
                         dispatched: multiset<nat>, handled: multiset<nat>)

  datatype Label =
    | Accept(id: nat) | Send | SignalShutdown | LeaveLoop
    | SendToken | HandToken(w: nat) | StartJoin | Join | Finish
    | Recv(w: nat) | Enter(w: nat) | Leave(w: nat)

  function Initial(n: nat): State {
    State([], seq(n, _ => Waiting), 0, Accepting, false, multiset{}, multiset{})
  }

  /** `capacity` is both the channel's bound and the connection limit. A channel of
      capacity zero hands each message directly to a waiting receiver. */
  predicate Enabled(capacity: nat, s: State, l: Label) {
    match l
    case Accept(_) => s.main.Accepting? && !s.shutdown
    case Send => s.main.Dispatching? && |s.queue| < capacity
    case SignalShutdown => true
    case LeaveLoop => s.main.Accepting? && s.shutdown
    case SendToken => s.main.Sending? && s.main.sent < |s.workers| && |s.queue| < capacity
    case HandToken(w) =>
      capacity == 0 && s.main.Sending? && s.main.sent < |s.workers| && w < |s.workers| && s.workers[w].Waiting?
    case StartJoin => s.main.Sending? && s.main.sent >= |s.workers|
    case Join => s.main.Joining? && s.main.joined < |s.workers| && s.workers[s.main.joined].Stopped?
    case Finish => s.main.Joining? && s.main.joined >= |s.workers|
    case Recv(w) => w < |s.workers| && s.workers[w].Waiting? && s.queue != []
    case Enter(w) => w < |s.workers| && s.workers[w].Received?
    case Leave(w) => w < |s.workers| && s.workers[w].Serving?
  }

  function Next(capacity: nat, s: State, l: Label): State
    requires Enabled(capacity, s, l)
  {
    match l
    case Accept(id) => if s.active >= capacity then s else s.(main := Dispatching(id))
    case Send =>
      s.(queue := s.queue + [NewConnection(s.main.id)], main := Accepting,
         dispatched := s.dispatched + multiset{s.main.id})
    case SignalShutdown => s.(shutdown := true)
    case LeaveLoop => s.(main := Sending(0))
    case SendToken => s.(queue := s.queue + [Shutdown], main := Sending(s.main.sent + 1))
    case HandToken(w) => s.(workers := s.workers[w := Stopped], main := Sending(s.main.sent + 1))
    case StartJoin => s.(main := Joining(0))
    case Join => s.(main := Joining(s.main.joined + 1))
    case Finish => s.(main := Finished)
    case Recv(w) =>
      var worker := match s.queue[0] case NewConnection(id) => Received(id) case Shutdown => Stopped;
      s.(queue := s.queue[1..], workers := s.workers[w := worker])
    case Enter(w) => s.(workers := s.workers[w := Serving(s.workers[w].id)], active := s.active + 1)
    case Leave(w) =>
      s.(workers := s.workers[w := Waiting], active := if s.active > 0 then s.active - 1 else 0,
         handled := s.handled + multiset{s.workers[w].id})
  }

  function After(capacity: nat, s: State, labels: seq<Label>): Option<State>
    decreases |labels|
  {
    if labels == [] then Some(s) else
      match After(capacity, s, labels[..|labels| - 1])
      case None => None
      case Some(m) =>
        if Enabled(capacity, m, labels[|labels| - 1]) then Some(Next(capacity, m, labels[|labels| - 1])) else None
  }

  // -- Counting workers and messages ------------------------------------------

  function CountServing(ws: seq<Worker>): nat {
    if ws == [] then 0 else CountServing(ws[..|ws| - 1]) + (if ws[|ws| - 1].Serving? then 1 else 0)
  }

  function CountStopped(ws: seq<Worker>): (n: nat)
    ensures n <= |ws|
  {
    if ws == [] then 0 else CountStopped(ws[..|ws| - 1]) + (if ws[|ws| - 1].Stopped? then 1 else 0)
  }

  /** How many workers hold connection id. */
  function Held(ws: seq<Worker>, id: nat): nat {
    if ws == [] then 0 else Held(ws[..|ws| - 1], id) + HeldBy(ws[|ws| - 1], id)
  }

  function HeldBy(w: Worker, id: nat): nat {
    if (w.Received? || w.Serving?) && w.id == id then 1 else 0
  }

  function Tokens(q: seq<Message>): nat {
    if q == [] then 0 else (if q[0].Shutdown? then 1 else 0) + Tokens(q[1..])
  }

  /** How often connection id is queued. */
  function Queued(q: seq<Message>, id: nat): nat {
    if q == [] then 0 else (if q[0] == NewConnection(id) then 1 else 0) + Queued(q[1..], id)
  }

  lemma {:induction false} Replaced(ws: seq<Worker>, i: nat, w: Worker)
    requires i < |ws|
    ensures CountServing(ws[i := w]) + (if ws[i].Serving? then 1 else 0)
            == CountServing(ws) + (if w.Serving? then 1 else 0)
    ensures CountStopped(ws[i := w]) + (if ws[i].Stopped? then 1 else 0)
            == CountStopped(ws) + (if w.Stopped? then 1 else 0)
    ensures forall id :: Held(ws[i := w], id) + HeldBy(ws[i], id) == Held(ws, id) + HeldBy(w, id)
  {
    hide HeldBy;
    var before := ws[..|ws| - 1];
    if i == |ws| - 1 {
      assert ws[i := w][..|ws| - 1] == before;
    } else {
      Replaced(before, i, w);
      assert ws[i := w][..|ws| - 1] == before[i := w];
    }
  }

  lemma {:induction false} Pushed(q: seq<Message>, m: Message)
    ensures Tokens(q + [m]) == Tokens(q) + (if m.Shutdown? then 1 else 0)
    ensures forall id :: Queued(q + [m], id) == Queued(q, id) + (if m == NewConnection(id) then 1 else 0)
  {
    if q == [] {
      assert q + [m] == [m] && [m][1..] == [];
    } else {
      Pushed(q[1..], m);
      assert (q + [m])[1..] == q[1..] + [m];
    }
  }

  lemma {:induction false} AllWaiting(n: nat)
    ensures var ws := seq(n, _ => Waiting);
      CountServing(ws) == 0 && CountStopped(ws) == 0 && forall id :: Held(ws, id) == 0
  {
    if n > 0 {
      AllWaiting(n - 1);
      assert seq(n, _ => Waiting)[..n - 1] == seq(n - 1, _ => Waiting);
    }
  }

  lemma {:induction false} AllTokens(q: seq<Message>)
    requires forall m <- q :: m.Shutdown?
    ensures Tokens(q) == |q| && forall id :: Queued(q, id) == 0
  {
    if q != [] {
      AllTokens(q[1..]);
    }
  }

  lemma {:induction false} SomeLive(ws: seq<Worker>) returns (w: nat)
    requires CountStopped(ws) < |ws|
    ensures w < |ws| && !ws[w].Stopped?
  {
    if ws[|ws| - 1].Stopped? {
      w := SomeLive(ws[..|ws| - 1]);
    } else {
      w := |ws| - 1;
    }
  }

  lemma {:induction false} AllStopped(ws: seq<Worker>)
    requires CountStopped(ws) == |ws|
    ensures CountServing(ws) == 0 && (forall id :: Held(ws, id) == 0) && forall w <- ws :: w.Stopped?
  {
    if ws != [] {
      AllStopped(ws[..|ws| - 1]);
    }
  }

  lemma {:induction false} AllStoppedCount(ws: seq<Worker>)
    requires forall w <- ws :: w.Stopped?
    ensures CountStopped(ws) == |ws|
  {
    if ws != [] {
      AllStoppedCount(ws[..|ws| - 1]);
    }
  }

  // -- Invariant --------------------------------------------------------------

  function TokensSent(s: State): nat {
    match s.main
    case Sending(sent) => sent
    case Joining(_) => |s.workers|
    case Finished => |s.workers|
    case _ => 0
  }

  ghost predicate Inv(capacity: nat, n: nat, s: State) {
    && |s.workers| == n && |s.queue| <= capacity
    // the counter is the number of workers inside a connection
    && s.active == CountServing(s.workers)
    // no connection is lost or duplicated
    && (forall id :: s.dispatched[id] == Queued(s.queue, id) + Held(s.workers, id) + s.handled[id])
    // each token is queued or has stopped exactly one worker
    && TokensSent(s) <= n && TokensSent(s) == Tokens(s.queue) + CountStopped(s.workers)
    // behind a token, queued or consumed, there are only tokens
    && (forall i, j | 0 <= i < j < |s.queue| && s.queue[i].Shutdown? :: s.queue[j].Shutdown?)
    && (CountStopped(s.workers) > 0 ==> forall m <- s.queue :: m.Shutdown?)
    && (s.main.Dispatching? ==> capacity > 0)
    && (s.main.Joining? ==> s.main.joined <= n && forall i | 0 <= i < s.main.joined :: s.workers[i].Stopped?)
    && (s.main.Finished? ==> forall w <- s.workers :: w.Stopped?)
    && (s.main.Sending? || s.main.Joining? || s.main.Finished? ==> s.shutdown)
  }

  lemma {:induction false} ReachableInv(capacity: nat, n: nat, labels: seq<Label>)
    requires After(capacity, Initial(n), labels).Some?
    ensures Inv(capacity, n, After(capacity, Initial(n), labels).value)
    decreases |labels|
  {
    hide Enabled, Next, Inv;
    if labels == [] {
      InitialInv(capacity, n);
    } else {
      var before := labels[..|labels| - 1];
      ReachableInv(capacity, n, before);
      StepInv(capacity, n, After(capacity, Initial(n), before).value, labels[|labels| - 1]);
    }
  }

  lemma InitialInv(capacity: nat, n: nat)
    ensures Inv(capacity, n, Initial(n))
  {
    AllWaiting(n);
  }

  lemma NoTokens(capacity: nat, n: nat, s: State)
    requires Inv(capacity, n, s) && TokensSent(s) == 0
    ensures forall m <- s.queue :: m.NewConnection?
  {
    TokenCounted(s.queue);
  }

  lemma {:induction false} TokenCounted(q: seq<Message>)
    requires Tokens(q) == 0
    ensures forall m <- q :: m.NewConnection?
  {
    if q != [] {
      TokenCounted(q[1..]);
    }
  }

  lemma StepInv(capacity: nat, n: nat, s: State, l: Label)
    requires Inv(capacity, n, s) && Enabled(capacity, s, l)
    ensures Inv(capacity, n, Next(capacity, s, l))
  {
    hide Inv, Enabled, Next;
    match l
    case Send => SendInv(capacity, n, s);
    case SendToken => TokenInv(capacity, n, s, l);
    case HandToken(_) => TokenInv(capacity, n, s, l);
    case Recv(w) => RecvInv(capacity, n, s, w);
    case Enter(w) => ConnectionInv(capacity, n, s, l);
    case Leave(w) => ConnectionInv(capacity, n, s, l);
    case _ => MainInv(capacity, n, s, l);
  }

  lemma TokenInv(capacity: nat, n: nat, s: State, l: Label)
    requires Inv(capacity, n, s) && Enabled(capacity, s, l) && (l.SendToken? || l.HandToken?)
    ensures Inv(capacity, n, Next(capacity, s, l))
  {
    hide CountServing, CountStopped, Held, Tokens, Queued;
    if l.SendToken? {
      Pushed(s.queue, Shutdown);
    } else {
      Replaced(s.workers, l.w, Stopped);
    }
  }

  lemma ConnectionInv(capacity: nat, n: nat, s: State, l: Label)
    requires Inv(capacity, n, s) && Enabled(capacity, s, l) && (l.Enter? || l.Leave?)
    ensures Inv(capacity, n, Next(capacity, s, l))
  {
    hide CountServing, CountStopped, Held, Tokens, Queued;
    var t := Next(capacity, s, l);
    Replaced(s.workers, l.w, t.workers[l.w]);
  }

  lemma MainInv(capacity: nat, n: nat, s: State, l: Label)
    requires Inv(capacity, n, s) && Enabled(capacity, s, l)
    requires l.Accept? || l.SignalShutdown? || l.LeaveLoop? || l.StartJoin? || l.Join? || l.Finish?
    ensures Inv(capacity, n, Next(capacity, s, l))
  {
    hide CountServing, CountStopped, Held, Tokens, Queued;
  }

  lemma SendInv(capacity: nat, n: nat, s: State)
    requires Inv(capacity, n, s) && Enabled(capacity, s, Send)
    ensures Inv(capacity, n, Next(capacity, s, Send))
  {
    hide CountServing, CountStopped, Held, Tokens, Queued;
    var t := Next(capacity, s, Send);
    NoTokens(capacity, n, s);
    Pushed(s.queue, NewConnection(s.main.id));
    assert forall i | 0 <= i < |s.queue| :: s.queue[i] in s.queue;
    assert forall m <- t.queue :: m.NewConnection?;
    assert forall id :: t.dispatched[id] == s.dispatched[id] + (if id == s.main.id then 1 else 0);
  }

  lemma RecvInv(capacity: nat, n: nat, s: State, w: nat)
    requires Inv(capacity, n, s) && Enabled(capacity, s, Recv(w))
    ensures Inv(capacity, n, Next(capacity, s, Recv(w)))
  {
    hide CountServing, CountStopped, Held;
    var m, rest := s.queue[0], s.queue[1..];
    assert s.queue == [m] + rest;
    Replaced(s.workers, w, match m case NewConnection(id) => Received(id) case Shutdown => Stopped);
  }

  // -- Clients ----------------------------------------------------------------

  /** The clients of a run that were accepted while fewer than `capacity` workers were
      inside a connection. */
  ghost function Admitted(capacity: nat, s: State, labels: seq<Label>): multiset<nat>
    requires After(capacity, s, labels).Some?
    decreases |labels|
  {
    if labels == [] then multiset{} else
      var before, last := labels[..|labels| - 1], labels[|labels| - 1];
      var workers := After(capacity, s, before).value.workers;
      Admitted(capacity, s, before)
      + (if last.Accept? && CountServing(workers) < capacity then multiset{last.id} else multiset{})
  }

  ghost function BeingSent(s: State): multiset<nat> {
    if s.main.Dispatching? then multiset{s.main.id} else multiset{}
  }

  lemma DispatchStep(capacity: nat, s: State, l: Label)
    requires Enabled(capacity, s, l)
    ensures var t := Next(capacity, s, l);
      t.dispatched + BeingSent(t) == s.dispatched + BeingSent(s)
        + (if l.Accept? && s.active < capacity then multiset{l.id} else multiset{})
  {
  }

  /** The clients dispatched, with the one being sent, are exactly those admitted: no
      client is dropped below the limit, and none gets in at or above it. */
  lemma {:induction false} DispatchedAreAdmitted(capacity: nat, n: nat, labels: seq<Label>)
    requires After(capacity, Initial(n), labels).Some?
    ensures var s := After(capacity, Initial(n), labels).value;
      s.dispatched + BeingSent(s) == Admitted(capacity, Initial(n), labels)
    decreases |labels|
  {
    hide Enabled, Next, CountServing, Inv, BeingSent;
    if labels == [] {
      NothingSent(n);
    } else {
      var before, last := labels[..|labels| - 1], labels[|labels| - 1];
      var m := After(capacity, Initial(n), before).value;
      DispatchedAreAdmitted(capacity, n, before);
      ReachableInv(capacity, n, before);
      CountsActive(capacity, n, m);
      DispatchStep(capacity, m, last);
    }
  }

  lemma NothingSent(n: nat)
    ensures BeingSent(Initial(n)) == multiset{}
  {
  }

  lemma CountsActive(capacity: nat, n: nat, s: State)
    requires Inv(capacity, n, s)
    ensures s.active == CountServing(s.workers)
  {
  }

  /** In its accept loop the server takes every client: below the limit the client is on
      its way to the channel, at the limit it is turned away and nothing changes. */
  lemma AcceptOutcome(capacity: nat, n: nat, labels: seq<Label>, s: State, id: nat)
    requires After(capacity, Initial(n), labels) == Some(s) && s.main.Accepting? && !s.shutdown
    ensures After(capacity, Initial(n), labels + [Accept(id)]).Some?
    ensures var t := After(capacity, Initial(n), labels + [Accept(id)]).value;
      t == if CountServing(s.workers) < capacity then s.(main := Dispatching(id)) else s
  {
    hide CountServing, Inv;
    ReachableInv(capacity, n, labels);
    CountsActive(capacity, n, s);
    AfterStep(capacity, Initial(n), labels, s, Accept(id));
  }

  /** At every moment each admitted client is being sent, queued, with a worker, or done. */
  lemma AdmittedConserved(capacity: nat, n: nat, labels: seq<Label>, id: nat)
    requires After(capacity, Initial(n), labels).Some?
    ensures var s := After(capacity, Initial(n), labels).value;
      Admitted(capacity, Initial(n), labels)[id]
      == BeingSent(s)[id] + Queued(s.queue, id) + Held(s.workers, id) + s.handled[id]
  {
    hide After, Queued, Held, CountServing, CountStopped, BeingSent, Admitted;
    ReachableInv(capacity, n, labels);
    DispatchedAreAdmitted(capacity, n, labels);
    var s := After(capacity, Initial(n), labels).value;
    assert (s.dispatched + BeingSent(s))[id] == s.dispatched[id] + BeingSent(s)[id];
  }

  // -- What the invariant gives -----------------------------------------------

  /** When the server has shut down, the connections handled are exactly the clients
      admitted, every worker took exactly one token, nothing is left in the channel and no
      connection counts as active. */
  lemma ShutdownComplete(capacity: nat, n: nat, labels: seq<Label>)
    requires n > 0
    requires After(capacity, Initial(n), labels).Some? && After(capacity, Initial(n), labels).value.main.Finished?
    ensures var s := After(capacity, Initial(n), labels).value;
      && s.handled == s.dispatched == Admitted(capacity, Initial(n), labels) && s.queue == [] && s.active == 0
      && |s.workers| == n && CountStopped(s.workers) == n == TokensSent(s)
  {
    hide After, Admitted;
    ReachableInv(capacity, n, labels);
    DispatchedAreAdmitted(capacity, n, labels);
    var s := After(capacity, Initial(n), labels).value;
    AllStoppedCount(s.workers);
    AllStopped(s.workers);
    AllTokens(s.queue);
  }

  /** In every interleaving the active count is the number of workers inside a
      connection, so leaving one never takes it below zero. */
  lemma ActiveCount(capacity: nat, n: nat, labels: seq<Label>)
    requires After(capacity, Initial(n), labels).Some?
    ensures var s := After(capacity, Initial(n), labels).value;
      s.active == CountServing(s.workers) && forall w :: Enabled(capacity, s, Leave(w)) ==> s.active > 0
  {
    hide After, CountServing;
    ReachableInv(capacity, n, labels);
    var s := After(capacity, Initial(n), labels).value;
    forall w | Enabled(capacity, s, Leave(w)) ensures s.active > 0 {
      Replaced(s.workers, w, Waiting);
    }
  }

  /** A step of the server itself, as opposed to a new client or the shutdown signal. */
  predicate Internal(l: Label) {
    !l.Accept? && !l.SignalShutdown?
  }

  /** A live worker can move whenever the channel holds something for it. */
  lemma LiveWorkerMoves(capacity: nat, s: State, w: nat) returns (l: Label)
    requires w < |s.workers| && !s.workers[w].Stopped? && s.queue != []
    ensures Enabled(capacity, s, l) && Internal(l)
  {
    l := if s.workers[w].Waiting? then Recv(w) else if s.workers[w].Received? then Enter(w) else Leave(w);
  }

  /** The server is never stuck: unless it is idle in its accept loop or finished, some
      step is possible. In particular a sender blocked on a full channel always has a
      live worker that will drain it. */
  lemma NoDeadlock(capacity: nat, n: nat, s: State) returns (l: Label)
    requires n > 0 && Inv(capacity, n, s)
    requires !s.main.Finished? && !(s.main.Accepting? && !s.shutdown)
    ensures Enabled(capacity, s, l) && Internal(l)
  {
    hide CountServing, CountStopped, Held, Queued;
    match s.main
    case Accepting => l := LeaveLoop;
    case Dispatching(_) =>
      if |s.queue| < capacity {
        l := Send;
      } else {
        var w := SomeLive(s.workers);
        l := LiveWorkerMoves(capacity, s, w);
      }
    case Sending(sent) =>
      if sent >= n {
        l := StartJoin;
      } else if |s.queue| < capacity {
        l := SendToken;
      } else {
        var w := SomeLive(s.workers);
        if s.queue != [] {
          l := LiveWorkerMoves(capacity, s, w);
        } else if s.workers[w].Waiting? {
          l := HandToken(w);
        } else {
          l := if s.workers[w].Received? then Enter(w) else Leave(w);
        }
      }
    case Joining(joined) =>
      if joined >= n {
        l := Finish;
      } else if s.workers[joined].Stopped? {
        l := Join;
      } else {
        if CountStopped(s.workers) == n {
          AllStopped(s.workers);
        }
        l := LiveWorkerMoves(capacity, s, joined);
      }
  }

  // -- Shutdown terminates ----------------------------------------------------

  function WorkerLoad(ws: seq<Worker>): nat {
    if ws == [] then 0 else
      WorkerLoad(ws[..|ws| - 1]) + (match ws[|ws| - 1] case Received(_) => 3 case Serving(_) => 2 case _ => 0)
  }

  function QueueLoad(q: seq<Message>): nat {
    if q == [] then 0 else (if q[0].NewConnection? then 4 else 1) + QueueLoad(q[1..])
  }

  function MainLoad(s: State): int {
    var n := |s.workers|;
    match s.main
    case Dispatching(_) => 3 * n + 8
    case Accepting => 3 * n + 3
    case Sending(sent) => 2 * (n - sent) + n + 2
    case Joining(joined) => n - joined + 1
    case Finished => 0
  }

  /** Bounds the steps left until shutdown is complete. */
  function StepsLeft(s: State): int {
    MainLoad(s) + QueueLoad(s.queue) + WorkerLoad(s.workers)
  }

  lemma {:induction false} WorkerLoadReplaced(ws: seq<Worker>, i: nat, w: Worker)
    requires i < |ws|
    ensures WorkerLoad(ws[i := w]) - WorkerLoad([w]) == WorkerLoad(ws) - WorkerLoad([ws[i]])
  {
    var before := ws[..|ws| - 1];
    assert [w][..0] == [] && [ws[i]][..0] == [];
    if i == |ws| - 1 {
      assert ws[i := w][..|ws| - 1] == before;
    } else {
      WorkerLoadReplaced(before, i, w);
      assert ws[i := w][..|ws| - 1] == before[i := w];
    }
  }

  lemma WorkerLoadOne(w: Worker)
    ensures WorkerLoad([w]) == match w case Received(_) => 3 case Serving(_) => 2 case _ => 0
  {
    assert [w][..0] == [];
  }

  lemma {:induction false} QueueLoadPushed(q: seq<Message>, m: Message)
    ensures QueueLoad(q + [m]) == QueueLoad(q) + (if m.NewConnection? then 4 else 1)
  {
    if q == [] {
      assert q + [m] == [m] && [m][1..] == [];
    } else {
      QueueLoadPushed(q[1..], m);
      assert (q + [m])[1..] == q[1..] + [m];
    }
  }

  /** Every step the server takes once shutdown is signalled brings it closer to the end. */
  lemma StepsLeftDecreases(capacity: nat, n: nat, s: State, l: Label)
    requires Inv(capacity, n, s) && Enabled(capacity, s, l) && Internal(l)
    ensures StepsLeft(Next(capacity, s, l)) < StepsLeft(s)
  {
    hide WorkerLoad, QueueLoad, CountServing, CountStopped, Held, Queued, Tokens;
    match l
    case Send => QueueLoadPushed(s.queue, NewConnection(s.main.id));
    case SendToken => QueueLoadPushed(s.queue, Shutdown);
    case HandToken(w) => Moves(s.workers, w, Stopped);
    case Recv(w) =>
      Moves(s.workers, w, match s.queue[0] case NewConnection(id) => Received(id) case Shutdown => Stopped);
      Popped(s.queue);
    case Enter(w) => Moves(s.workers, w, Serving(s.workers[w].id));
    case Leave(w) => Moves(s.workers, w, Waiting);
    case _ =>
  }

  lemma Moves(ws: seq<Worker>, i: nat, w: Worker)
    requires i < |ws|
    ensures WorkerLoad(ws[i := w]) == WorkerLoad(ws)
            + (match w case Received(_) => 3 case Serving(_) => 2 case _ => 0)
            - (match ws[i] case Received(_) => 3 case Serving(_) => 2 case _ => 0)
  {
    hide WorkerLoad;
    WorkerLoadReplaced(ws, i, w);
    WorkerLoadOne(w);
    WorkerLoadOne(ws[i]);
  }

  lemma Popped(q: seq<Message>)
    requires q != []
    ensures QueueLoad(q) == QueueLoad(q[1..]) + (if q[0].NewConnection? then 4 else 1)
  {
  }

  lemma StepsLeftBound(capacity: nat, n: nat, s: State)
    requires Inv(capacity, n, s)
    ensures StepsLeft(s) >= 0
  {
    hide CountServing, CountStopped, Held, Queued, Tokens;
  }

  /** Once shutdown is signalled, no run of server steps is longer than StepsLeft, so
      with NoDeadlock every run that goes as far as it can ends Finished. */
  lemma {:induction false} ShutdownTerminates(capacity: nat, n: nat, s: State, labels: seq<Label>)
    requires Inv(capacity, n, s) && After(capacity, s, labels).Some? && (forall l <- labels :: Internal(l))
    ensures Inv(capacity, n, After(capacity, s, labels).value)
    ensures |labels| + StepsLeft(After(capacity, s, labels).value) <= StepsLeft(s)
    ensures |labels| <= StepsLeft(s)
    decreases |labels|
  {
    hide Enabled, Next, Inv, StepsLeft, Internal;
    if labels == [] {
      StepsLeftBound(capacity, n, s);
    } else {
      var before := labels[..|labels| - 1];
      ShutdownTerminates(capacity, n, s, before);
      var m := After(capacity, s, before).value;
      StepsLeftDecreases(capacity, n, m, labels[|labels| - 1]);
      StepInv(capacity, n, m, labels[|labels| - 1]);
      StepsLeftBound(capacity, n, After(capacity, s, labels).value);
    }
  }

  /** From every state with shutdown signalled, the server can and must finish. */
  lemma {:induction false} ShutdownReached(capacity: nat, n: nat, s: State) returns (labels: seq<Label>, t: State)
    requires n > 0 && Inv(capacity, n, s) && s.shutdown
    ensures After(capacity, s, labels) == Some(t) && t.main.Finished? && (forall l <- labels :: Internal(l))
    decreases StepsLeft(s)
  {
    hide Inv, StepsLeft, After;
    if s.main.Finished? {
      labels, t := [], s;
      AfterNothing(capacity, s);
    } else {
      var l := NoDeadlock(capacity, n, s);
      StepsLeftDecreases(capacity, n, s, l);
      StepInv(capacity, n, s, l);
      StepsLeftBound(capacity, n, s);
      StepsLeftBound(capacity, n, Next(capacity, s, l));
      StaysSignalled(capacity, s, l);
      var rest, u := ShutdownReached(capacity, n, Next(capacity, s, l));
      AfterFirst(capacity, s, l, rest);
      labels, t := [l] + rest, u;
    }
  }

  lemma {:induction false} RunsCompose(capacity: nat, s: State, a: seq<Label>, m: State, b: seq<Label>, t: State)
    requires After(capacity, s, a) == Some(m) && After(capacity, m, b) == Some(t)
    ensures After(capacity, s, a + b) == Some(t)
    decreases |b|
  {
    hide Enabled, Next;
    if b == [] {
      assert a + b == a;
    } else {
      var before := b[..|b| - 1];
      RunsCompose(capacity, s, a, m, before, After(capacity, m, before).value);
      assert (a + b)[..|a + b| - 1] == a + before;
    }
  }

  /** Shutdown can be signalled at any moment of any run, and leads to a complete shutdown
      in which exactly the clients admitted in that run have been handled. */
  lemma ShutdownFromAnywhere(capacity: nat, n: nat, labels: seq<Label>) returns (rest: seq<Label>, t: State)
    requires n > 0 && After(capacity, Initial(n), labels).Some?
    ensures (forall l <- rest :: Internal(l))
    ensures After(capacity, Initial(n), labels + [SignalShutdown] + rest) == Some(t) && t.main.Finished?
    ensures t.handled == Admitted(capacity, Initial(n), labels)
  {
    hide Enabled, Inv, After, Admitted, Internal, BeingSent;
    var s := After(capacity, Initial(n), labels).value;
    ReachableInv(capacity, n, labels);
    Signals(capacity, s);
    StepInv(capacity, n, s, SignalShutdown);
    AfterStep(capacity, Initial(n), labels, s, SignalShutdown);
    var signalled := Next(capacity, s, SignalShutdown);
    rest, t := ShutdownReached(capacity, n, signalled);
    RunsCompose(capacity, Initial(n), labels + [SignalShutdown], signalled, rest, t);
    ShutdownComplete(capacity, n, labels + [SignalShutdown] + rest);
    DispatchedAreAdmitted(capacity, n, labels);
    DispatchStep(capacity, s, SignalShutdown);
    NoneAdmitted(capacity, signalled, rest, t);
    FinishedSendsNothing(t);
    assert t.dispatched == t.dispatched + BeingSent(t) == signalled.dispatched + BeingSent(signalled);
    assert signalled.dispatched + BeingSent(signalled) == s.dispatched + BeingSent(s) + multiset{};
  }

  lemma FinishedSendsNothing(s: State)
    requires s.main.Finished?
    ensures BeingSent(s) == multiset{}
  {
  }

  lemma Signals(capacity: nat, s: State)
    ensures Enabled(capacity, s, SignalShutdown) && Next(capacity, s, SignalShutdown).shutdown
  {
  }

  /** The server's own steps admit no client. */
  lemma {:induction false} NoneAdmitted(capacity: nat, s: State, labels: seq<Label>, t: State)
    requires After(capacity, s, labels) == Some(t) && (forall l <- labels :: Internal(l))
    ensures t.dispatched + BeingSent(t) == s.dispatched + BeingSent(s)
    decreases |labels|
  {
    hide Enabled, Next, Internal, BeingSent;
    if labels != [] {
      var before, last := labels[..|labels| - 1], labels[|labels| - 1];
      var m := After(capacity, s, before).value;
      NoneAdmitted(capacity, s, before, m);
      DispatchStep(capacity, m, last);
      assert last in labels;
      InternalIsNoAccept(last);
    }
  }

  lemma AfterNothing(capacity: nat, s: State)
    ensures After(capacity, s, []) == Some(s)
  {
  }

  lemma StaysSignalled(capacity: nat, s: State, l: Label)
    requires Enabled(capacity, s, l) && s.shutdown
    ensures Next(capacity, s, l).shutdown
  {
  }

  lemma {:induction false} AfterFirst(capacity: nat, s: State, l: Label, rest: seq<Label>)
    requires Enabled(capacity, s, l)
    ensures After(capacity, s, [l] + rest) == After(capacity, Next(capacity, s, l), rest)
    decreases |rest|
  {
    hide Enabled, Next;
    if rest == [] {
      assert [l] + rest == [l] && [l][..0] == [];
    } else {
      AfterFirst(capacity, s, l, rest[..|rest| - 1]);
      assert ([l] + rest)[..|rest|] == [l] + rest[..|rest| - 1];
    }
  }

  // -- Service before shutdown ------------------------------------------------

  /** Back in accept with nothing to do: everyone who was admitted has been served. */
  predicate Idle(s: State) {
    s.main.Accepting? && s.queue == [] && forall w <- s.workers :: w.Waiting?
  }

  /** Before shutdown, a state that is not idle has a step of the server. */
  lemma Progress(capacity: nat, n: nat, s: State) returns (l: Label)
    requires n > 0 && Inv(capacity, n, s) && !s.shutdown && !Idle(s)
    ensures Enabled(capacity, s, l) && Internal(l)
  {
    hide CountServing, Held, Queued, Tokens;
    if s.main.Dispatching? {
      l := NoDeadlock(capacity, n, s);
    } else if w :| 0 <= w < |s.workers| && !s.workers[w].Waiting? {
      if s.workers[w].Stopped? {
        Replaced(s.workers, w, Waiting);
        assert false;
      }
      l := if s.workers[w].Received? then Enter(w) else Leave(w);
    } else {
      l := Recv(0);
    }
  }

  lemma StaysOpen(capacity: nat, s: State, l: Label)
    requires Enabled(capacity, s, l) && Internal(l) && !s.shutdown
    ensures !Next(capacity, s, l).shutdown
  {
  }

  /** From every state before shutdown the server gets by its own steps to where it can
      accept again and every client admitted so far has been handled. */
  lemma {:induction false} Drains(capacity: nat, n: nat, s: State) returns (labels: seq<Label>, t: State)
    requires n > 0 && Inv(capacity, n, s) && !s.shutdown
    ensures After(capacity, s, labels) == Some(t) && (forall l <- labels :: Internal(l))
    ensures Inv(capacity, n, t) && !t.shutdown && Idle(t) && forall id :: Enabled(capacity, t, Accept(id))
    ensures t.handled == t.dispatched == s.dispatched + BeingSent(s) && t.active == 0
    decreases StepsLeft(s)
  {
    hide Inv, StepsLeft, After, Idle, BeingSent, Internal;
    if Idle(s) {
      labels, t := [], s;
      AfterNothing(capacity, s);
      IdleIsDone(capacity, n, s);
    } else {
      var l := Progress(capacity, n, s);
      StepsLeftDecreases(capacity, n, s, l);
      StepInv(capacity, n, s, l);
      StepsLeftBound(capacity, n, s);
      StepsLeftBound(capacity, n, Next(capacity, s, l));
      StaysOpen(capacity, s, l);
      DispatchStep(capacity, s, l);
      InternalIsNoAccept(l);
      var rest, u := Drains(capacity, n, Next(capacity, s, l));
      AfterFirst(capacity, s, l, rest);
      labels, t := [l] + rest, u;
    }
  }

  lemma InternalIsNoAccept(l: Label)
    requires Internal(l)
    ensures !l.Accept?
  {
  }

  lemma IdleIsDone(capacity: nat, n: nat, s: State)
    requires Inv(capacity, n, s) && Idle(s) && !s.shutdown
    ensures s.handled == s.dispatched && BeingSent(s) == multiset{} && s.active == 0
    ensures forall id :: Enabled(capacity, s, Accept(id))
  {
    AllIdle(s.workers);
  }

  lemma {:induction false} AllIdle(ws: seq<Worker>)
    requires forall w <- ws :: w.Waiting?
    ensures CountServing(ws) == 0 && forall id :: Held(ws, id) == 0
  {
    if ws != [] {
      AllIdle(ws[..|ws| - 1]);
      assert ws[|ws| - 1] in ws;
    }
  }

  /** While the workers do not get round to receiving, the channel takes `capacity` clients. */
  lemma {:induction false} ChannelFills(capacity: nat, n: nat, k: nat) returns (labels: seq<Label>, s: State)
    requires k <= capacity
    ensures After(capacity, Initial(n), labels) == Some(s) && s.main.Accepting? && !s.shutdown && s.active == 0
    ensures |s.queue| == k && s.dispatched == multiset(seq(k, i => i))
  {
    hide After;
    if k == 0 {
      labels, s := [], Initial(n);
      AfterNothing(capacity, s);
    } else {
      var before, m := ChannelFills(capacity, n, k - 1);
      var accepted := Next(capacity, m, Accept(k - 1));
      AfterStep(capacity, Initial(n), before, m, Accept(k - 1));
      AfterStep(capacity, Initial(n), before + [Accept(k - 1)], accepted, Send);
      labels, s := before + [Accept(k - 1)] + [Send], Next(capacity, accepted, Send);
      assert seq(k, i => i) == seq(k - 1, i => i) + [k - 1];
    }
  }

  lemma AfterStep(capacity: nat, s: State, labels: seq<Label>, m: State, l: Label)
    requires After(capacity, s, labels) == Some(m) && Enabled(capacity, m, l)
    ensures After(capacity, s, labels + [l]) == Some(Next(capacity, m, l))
  {
    hide Enabled, Next;
    assert (labels + [l])[..|labels|] == labels;
  }
}

/** The work queue: producers, worker threads, a mutex, an auto-reset event and the shutdown, as interleaved steps. */
module WorkQueue {

  type Item = nat

  /**
    * Where a worker is in `WorkThread`: at the wait, before the mutex, inside it, in a callback, before the test of the
    * flag, before its last signal.
    */
  datatype Worker = Waiting | Woken | Inside | Running(item: Item) | Testing | Leaving | Exited

  /** Where a producer is in `EsWorkQueue`; `Failed` has returned an error without releasing the mutex. */
  datatype Producer = Entering | Opening | Adding | Signalling | Returned | Failed

  datatype Owner = Nobody | ByWorker(worker: nat) | ByProducer(producer: nat)

  datatype State = State(
    queue: seq<Item>, created: bool, event: bool, mutex: Owner, finish: bool, signalled: bool,
    workers: seq<Worker>, producers: seq<Producer>,
    added: seq<Item>, started: seq<Item>)

  /** `added` and `started` only record the order in which items were queued and taken. */
  const Initial := State([], false, false, Nobody, false, false, [], [], [], [])

  datatype Action =
    | Wake(i: nat) | Acquire(i: nat) | Take(i: nat) | FindEmpty(i: nat) | Return(i: nat) | Test(i: nat) | Leave(i: nat)
    | Call | Enter(p: nat) | Open(p: nat) | CreateThread(p: nat) | FailThread(p: nat) | Add(p: nat, item: Item,
      success: bool) | Signal(p: nat)
    | SetFinish | SignalFinish

  predicate IsWorker(s: State, i: nat, pc: Worker) { i < |s.workers| && s.workers[i] == pc }

  predicate IsProducer(s: State, p: nat, pc: Producer) { p < |s.producers| && s.producers[p] == pc }

  predicate Enabled(s: State, threads: nat, a: Action) {
    match a
    case Wake(i) => IsWorker(s, i, Waiting) && s.event
    case Acquire(i) => IsWorker(s, i, Woken) && s.mutex == Nobody
    case Take(i) => IsWorker(s, i, Inside) && s.queue != []
    case FindEmpty(i) => IsWorker(s, i, Inside) && s.queue == []
    case Return(i) => i < |s.workers| && s.workers[i].Running?
    case Test(i) => IsWorker(s, i, Testing)
    case Leave(i) => IsWorker(s, i, Leaving)
    case Call => true
    case Enter(p) => IsProducer(s, p, Entering) && s.mutex == Nobody
    case Open(p) => IsProducer(s, p, Opening)
    case CreateThread(p) => IsProducer(s, p, Adding) && |s.workers| < threads
    case FailThread(p) => IsProducer(s, p, Adding) && |s.workers| < threads
    case Add(p, _, _) => IsProducer(s, p, Adding) && |s.workers| >= threads
    case Signal(p) => IsProducer(s, p, Signalling)
    case SetFinish => !s.finish
    case SignalFinish => s.finish && s.created
  }

  function MoveWorker(s: State, i: nat, pc: Worker): State
    requires i < |s.workers|
  {
    s.(workers := s.workers[i := pc])
  }

  function MoveProducer(s: State, p: nat, pc: Producer): State
    requires p < |s.producers|
  {
    s.(producers := s.producers[p := pc])
  }

  function Apply(s: State, threads: nat, a: Action): State
    requires Enabled(s, threads, a)
  {
    match a
    case Wake(i) => MoveWorker(s, i, Woken).(event := false)
    case Acquire(i) => MoveWorker(s, i, Inside).(mutex := ByWorker(i))
    case Take(i) =>
      MoveWorker(s, i, Running(s.queue[0])).(queue := s.queue[1..], started := s.started + [s.queue[0]],
        mutex := Nobody)
    case FindEmpty(i) => MoveWorker(s, i, Testing).(mutex := Nobody)
    case Return(i) => MoveWorker(s, i, Woken)
    case Test(i) => MoveWorker(s, i, if s.finish then Leaving else Waiting)
    case Leave(i) => MoveWorker(s, i, Exited).(event := true)
    case Call => s.(producers := s.producers + [Entering])
    case Enter(p) => MoveProducer(s, p, Opening).(mutex := ByProducer(p))
    case Open(p) => MoveProducer(s, p, Adding).(created := true)
    case CreateThread(p) => s.(workers := s.workers + [Waiting])
    case FailThread(p) => MoveProducer(s, p, Failed)
    case Add(p, item, success) =>
      var s' := MoveProducer(s, p, Signalling).(mutex := Nobody);
      if success then s'.(queue := s.queue + [item], added := s.added + [item]) else s'
    case Signal(p) => MoveProducer(s, p, Returned).(event := true)
    case SetFinish => s.(finish := true)
    case SignalFinish => s.(event := true, signalled := true)
  }

  predicate IsRun(s: State, threads: nat, actions: seq<Action>)
    decreases |actions|
  {
    actions == [] || (Enabled(s, threads, actions[0]) && IsRun(Apply(s, threads, actions[0]), threads, actions[1..]))
  }

  function After(s: State, threads: nat, actions: seq<Action>): State
    requires IsRun(s, threads, actions)
    decreases |actions|
  {
    if actions == [] then s else After(Apply(s, threads, actions[0]), threads, actions[1..])
  }

  // ----- What every step keeps.

  ghost predicate WorkersExclusive(s: State) {
    && (forall i :: 0 <= i < |s.workers| ==> (s.workers[i] == Inside <==> s.mutex == ByWorker(i)))
    && (s.mutex.ByWorker? ==> s.mutex.worker < |s.workers|)
  }

  predicate Holds(p: Producer) { p.Opening? || p.Adding? || p.Failed? }

  ghost predicate ProducersExclusive(s: State) {
    && (forall p :: 0 <= p < |s.producers| ==> (Holds(s.producers[p]) <==> s.mutex == ByProducer(p)))
    && (s.mutex.ByProducer? ==> s.mutex.producer < |s.producers|)
  }

  /** Whoever is inside the critical section owns the mutex. */
  ghost predicate Exclusive(s: State) { WorkersExclusive(s) && ProducersExclusive(s) }

  /** Items start in the order they were queued, each once, and none is lost. */
  predicate InOrder(s: State) { s.added == s.started + s.queue }

  predicate Awake(w: Worker) { w.Woken? || w.Inside? || w.Running? }

  predicate Active(w: Worker) { Awake(w) || w.Testing? || w.Leaving? }

  ghost predicate SomeAwake(s: State) { exists i :: 0 <= i < |s.workers| && Awake(s.workers[i]) }

  ghost predicate SomeActive(s: State) { exists i :: 0 <= i < |s.workers| && Active(s.workers[i]) }

  ghost predicate SomeSignalling(s: State) { exists p :: 0 <= p < |s.producers| && s.producers[p] == Signalling }

  /** No lost wake-up: while there is work, the event is set, a worker is awake, or a producer is about to signal. */
  ghost predicate NotForgotten(s: State) { s.queue != [] ==> s.event || SomeAwake(s) || SomeSignalling(s) }

  /** The shutdown is passed on: from the signal on, the event is set, or a worker is on its way to setting it. */
  ghost predicate PassedOn(s: State) { s.signalled ==> s.finish && (s.event || SomeActive(s)) }

  /** No worker leaves before the shutdown, and nothing is queued before all threads are there. */
  ghost predicate Staffed(s: State, threads: nat) {
    && (!s.finish ==> forall i :: 0 <= i < |s.workers| ==> s.workers[i] != Leaving && s.workers[i] != Exited)
    && (s.added != [] ==> |s.workers| >= threads)
  }

  ghost predicate Inv(s: State, threads: nat) {
    Exclusive(s) && InOrder(s) && NotForgotten(s) && PassedOn(s) && Staffed(s, threads)
  }

  lemma ExclusiveKept(s: State, threads: nat, a: Action)
    requires Exclusive(s) && Enabled(s, threads, a)
    ensures Exclusive(Apply(s, threads, a))
  {
    WorkersExclusiveKept(s, threads, a);
    ProducersExclusiveKept(s, threads, a);
  }

  lemma WorkersExclusiveKept(s: State, threads: nat, a: Action)
    requires Exclusive(s) && Enabled(s, threads, a)
    ensures WorkersExclusive(Apply(s, threads, a))
  {
    if ByWorkers(a) {
      WorkersStep(s, threads, a);
    } else {
      WorkersAside(s, Apply(s, threads, a));
    }
  }

  lemma ProducersExclusiveKept(s: State, threads: nat, a: Action)
    requires Exclusive(s) && Enabled(s, threads, a)
    ensures ProducersExclusive(Apply(s, threads, a))
  {
    if ByWorkers(a) {
      ProducersAside(s, Apply(s, threads, a));
    } else {
      ProducersStep(s, threads, a);
    }
  }

  /** A step of a worker, or of the shutdown. */
  predicate ByWorkers(a: Action) {
    a.Wake? || a.Acquire? || a.Take? || a.FindEmpty? || a.Return? || a.Test? || a.Leave? || a.SetFinish?
      || a.SignalFinish?
  }

  lemma ProducersAside(s: State, s': State)
    requires ProducersExclusive(s) && s'.producers == s.producers
    requires s'.mutex == s.mutex || (!s.mutex.ByProducer? && !s'.mutex.ByProducer?)
    ensures ProducersExclusive(s')
  {
  }

  lemma ProducersStep(s: State, threads: nat, a: Action)
    requires ProducersExclusive(s) && Enabled(s, threads, a) && !ByWorkers(a)
    ensures ProducersExclusive(Apply(s, threads, a))
  {
    var s' := Apply(s, threads, a);
    if a.Call? {
      ProducerAdded(s, s');
    } else if a.CreateThread? {
      ProducersAside(s, s');
    } else {
      ProducerMoves(s, s', a.p, s'.producers[a.p]);
    }
  }

  lemma ProducerAdded(s: State, s': State)
    requires ProducersExclusive(s) && s'.producers == s.producers + [Entering] && s'.mutex == s.mutex
    ensures ProducersExclusive(s')
  {
  }

  /** One producer goes on, into the critical section, inside it or out of it. */
  lemma ProducerMoves(s: State, s': State, p: nat, pc: Producer)
    requires ProducersExclusive(s) && p < |s.producers| && s'.producers == s.producers[p := pc]
    requires Holds(s.producers[p]) || s.mutex == Nobody || s'.mutex == s.mutex
    requires if Holds(pc) then s'.mutex == ByProducer(p)
             else if Holds(s.producers[p]) then s'.mutex == Nobody else s'.mutex == s.mutex
    ensures ProducersExclusive(s')
  {
  }

  lemma WorkersAside(s: State, s': State)
    requires WorkersExclusive(s) && (s'.workers == s.workers || s'.workers == s.workers + [Waiting])
    requires s'.mutex == s.mutex || (!s.mutex.ByWorker? && !s'.mutex.ByWorker?)
    ensures WorkersExclusive(s')
  {
  }

  lemma WorkersStep(s: State, threads: nat, a: Action)
    requires WorkersExclusive(s) && Enabled(s, threads, a) && ByWorkers(a)
    ensures WorkersExclusive(Apply(s, threads, a))
  {
  }

  lemma InOrderKept(s: State, threads: nat, a: Action)
    requires InOrder(s) && Enabled(s, threads, a)
    ensures InOrder(Apply(s, threads, a))
  {
    if a.Take? { assert s.queue == [s.queue[0]] + s.queue[1..]; }
  }

  lemma StillAwake(s: State, s': State, i: nat)
    requires i < |s.workers| && Awake(s.workers[i]) && i < |s'.workers| && s'.workers[i] == s.workers[i]
    ensures SomeAwake(s')
  {
  }

  lemma StillSignalling(s: State, s': State, p: nat)
    requires p < |s.producers| && s.producers[p] == Signalling && p < |s'.producers|
             && s'.producers[p] == s.producers[p]
    ensures SomeSignalling(s')
  {
  }

  lemma NotForgottenKept(s: State, threads: nat, a: Action)
    requires NotForgotten(s) && Enabled(s, threads, a)
    ensures NotForgotten(Apply(s, threads, a))
  {
    var s' := Apply(s, threads, a);
    if s'.queue != [] && !s'.event {
      if a.Wake? || a.Acquire? || a.Take? || a.Return? {
        assert Awake(s'.workers[a.i]);
      } else if a.Add? {
        assert s'.producers[a.p] == Signalling;
      } else if SomeAwake(s) {
        var i :| 0 <= i < |s.workers| && Awake(s.workers[i]);
        StillAwake(s, s', i);
      } else {
        var p :| 0 <= p < |s.producers| && s.producers[p] == Signalling;
        StillSignalling(s, s', p);
      }
    }
  }

  lemma PassedOnKept(s: State, threads: nat, a: Action)
    requires PassedOn(s) && Enabled(s, threads, a)
    ensures PassedOn(Apply(s, threads, a))
  {
    var s' := Apply(s, threads, a);
    if s'.signalled && !s'.event {
      if a.Wake? {
        assert Active(s'.workers[a.i]);
      } else {
        var i :| 0 <= i < |s.workers| && Active(s.workers[i]);
        assert Active(s'.workers[i]);
      }
    }
  }

  lemma StaffedKept(s: State, threads: nat, a: Action)
    requires Staffed(s, threads) && Enabled(s, threads, a)
    ensures Staffed(Apply(s, threads, a), threads)
  {
    var s' := Apply(s, threads, a);
    if ByWorkers(a) && !a.SetFinish? && !a.SignalFinish? {
      WorkerStaffed(s, s', threads, a.i);
    } else {
      OthersStaffed(s, s', threads);
    }
  }

  lemma OthersStaffed(s: State, s': State, threads: nat)
    requires Staffed(s, threads) && (s'.workers == s.workers || s'.workers == s.workers + [Waiting])
    requires !s'.finish ==> !s.finish
    requires s'.added == s.added || |s.workers| >= threads
    ensures Staffed(s', threads)
  {
  }

  lemma WorkerStaffed(s: State, s': State, threads: nat, i: nat)
    requires Staffed(s, threads) && i < |s.workers| && |s'.workers| == |s.workers|
    requires s'.workers == s.workers[i := s'.workers[i]] && s'.finish == s.finish && s'.added == s.added
    requires !s.finish ==> s'.workers[i] != Leaving && s'.workers[i] != Exited
    ensures Staffed(s', threads)
  {
  }

  lemma InvKept(s: State, threads: nat, a: Action)
    requires Inv(s, threads) && Enabled(s, threads, a)
    ensures Inv(Apply(s, threads, a), threads)
  {
    ExclusiveKept(s, threads, a);
    InOrderKept(s, threads, a);
    NotForgottenKept(s, threads, a);
    PassedOnKept(s, threads, a);
    StaffedKept(s, threads, a);
  }

  /** Every interleaving keeps the order of the items, loses no wake-up, and passes the shutdown on. */
  lemma {:induction false} RunKeeps(s: State, threads: nat, actions: seq<Action>)
    requires Inv(s, threads) && IsRun(s, threads, actions)
    ensures Inv(After(s, threads, actions), threads)
    decreases |actions|
  {
    if actions != [] {
      InvKept(s, threads, actions[0]);
      RunKeeps(Apply(s, threads, actions[0]), threads, actions[1..]);
    }
  }

  /** So it is in every state that can be reached from the start. */
  lemma EveryRunKeeps(threads: nat, actions: seq<Action>)
    requires IsRun(Initial, threads, actions)
    ensures Inv(After(Initial, threads, actions), threads)
  {
    assert Inv(Initial, threads);
    hide Inv;
    RunKeeps(Initial, threads, actions);
  }

  // ----- No deadlock.

  predicate Failure(s: State) {
    s.mutex.ByProducer? && s.mutex.producer < |s.producers| && s.producers[s.mutex.producer] == Failed
  }

  /** A step of a thread that is already under way; new calls and the shutdown request do not count. */
  ghost predicate CanMove(s: State, threads: nat) {
    exists a :: Enabled(s, threads, a) && !a.Call? && !a.SetFinish? && !a.SignalFinish?
  }

  lemma Moves(s: State, threads: nat, a: Action)
    requires Enabled(s, threads, a) && !a.Call? && !a.SetFinish? && !a.SignalFinish?
    ensures CanMove(s, threads)
  {
  }

  /** Whoever holds the mutex can go on, unless creating a thread failed. */
  lemma OwnerMoves(s: State, threads: nat)
    requires Exclusive(s) && s.mutex != Nobody && !Failure(s)
    ensures CanMove(s, threads)
  {
    match s.mutex
    case ByWorker(i) => Moves(s, threads, if s.queue == [] then FindEmpty(i) else Take(i));
    case ByProducer(p) => Moves(s, threads, if s.producers[p] == Opening then Open(p)
      else if |s.workers| < threads then CreateThread(p) else Add(p, 0, true));
  }

  lemma ActiveMoves(s: State, threads: nat, i: nat)
    requires Exclusive(s) && !Failure(s) && i < |s.workers| && Active(s.workers[i])
    ensures CanMove(s, threads)
  {
    if s.mutex != Nobody {
      OwnerMoves(s, threads);
    } else {
      Moves(s, threads, match s.workers[i]
        case Woken => Acquire(i)
        case Running(_) => Return(i)
        case Testing => Test(i)
        case _ => Leave(i));
    }
  }

  /** While there is work before the shutdown, some thread can go on. */
  lemma WorkNotStuck(s: State, threads: nat)
    requires Inv(s, threads) && !Failure(s) && threads > 0 && s.queue != [] && !s.finish
    ensures CanMove(s, threads)
  {
    if SomeAwake(s) {
      var i :| 0 <= i < |s.workers| && Awake(s.workers[i]);
      ActiveMoves(s, threads, i);
    } else if SomeSignalling(s) {
      var p :| 0 <= p < |s.producers| && s.producers[p] == Signalling;
      Moves(s, threads, Signal(p));
    } else {
      assert s.added != [] && s.event;
      if s.workers[0] == Waiting { Moves(s, threads, Wake(0)); } else { ActiveMoves(s, threads, 0); }
    }
  }

  /** After the shutdown signal, until every worker has exited, some thread can go on. */
  lemma ShutdownNotStuck(s: State, threads: nat, i: nat)
    requires Inv(s, threads) && !Failure(s) && s.signalled && i < |s.workers| && s.workers[i] != Exited
    ensures CanMove(s, threads)
  {
    if SomeActive(s) {
      var j :| 0 <= j < |s.workers| && Active(s.workers[j]);
      ActiveMoves(s, threads, j);
    } else {
      Moves(s, threads, Wake(i));
    }
  }

  // ----- What does not hold.

  lemma FailureStays(s: State, threads: nat, a: Action)
    requires Exclusive(s) && Failure(s) && Enabled(s, threads, a)
    ensures var s' := Apply(s, threads, a); Failure(s') && s'.started == s.started && s'.queue == s.queue
  {
  }

  /** Once creating a thread has failed, the mutex is never released and nothing starts again. */
  lemma {:induction false} FailureIsFinal(s: State, threads: nat, actions: seq<Action>)
    requires Exclusive(s) && Failure(s) && IsRun(s, threads, actions)
    ensures Failure(After(s, threads, actions))
    ensures After(s, threads, actions).started == s.started && After(s, threads, actions).queue == s.queue
    decreases |actions|
  {
    if actions != [] {
      ExclusiveKept(s, threads, actions[0]);
      FailureStays(s, threads, actions[0]);
      FailureIsFinal(Apply(s, threads, actions[0]), threads, actions[1..]);
    }
  }

  // ----- When the queue is empty at exit.

  /** The worker will look into the queue once more. */
  predicate WillLook(w: Worker) { w.Waiting? || Awake(w) }

  ghost predicate SomeLooks(s: State) { exists i :: 0 <= i < |s.workers| && WillLook(s.workers[i]) }

  ghost predicate Handled(s: State) { s.queue == [] || SomeLooks(s) }

  ghost predicate AllExited(s: State) { forall i :: 0 <= i < |s.workers| ==> s.workers[i] == Exited }

  predicate Adds(a: Action) { a.Add? && a.success }

  lemma HandledStays(s: State, threads: nat, a: Action)
    requires Inv(s, threads) && s.finish && Enabled(s, threads, a) && !Adds(a) && Handled(s)
    ensures Handled(Apply(s, threads, a))
  {
    var s' := Apply(s, threads, a);
    if s.queue != [] && s'.queue != [] {
      var i :| 0 <= i < |s.workers| && WillLook(s.workers[i]);
      assert WillLook(s'.workers[i]);
    }
  }

  lemma UnhandledStays(s: State, threads: nat, a: Action)
    requires Inv(s, threads) && s.finish && Enabled(s, threads, a) && !Handled(s)
    ensures !Handled(Apply(s, threads, a))
  {
    assert s.added != [];
  }

  lemma AddHandled(s: State, threads: nat, a: Action)
    requires Enabled(s, threads, a) && Adds(a)
    ensures Handled(Apply(s, threads, a)) <==> SomeLooks(s)
  {
    assert Apply(s, threads, a).workers == s.workers;
  }

  lemma ShutdownStep(s: State, threads: nat, a: Action)
    requires Inv(s, threads) && s.finish && Enabled(s, threads, a)
    ensures var s' := Apply(s, threads, a);
            Inv(s', threads) && s'.finish && (Handled(s') <==> Handled(s) && (Adds(a) ==> SomeLooks(s)))
  {
    InvKept(s, threads, a);
    if !Handled(s) {
      UnhandledStays(s, threads, a);
    } else if Adds(a) {
      AddHandled(s, threads, a);
    } else {
      HandledStays(s, threads, a);
    }
  }

  /** Whatever is queued on the way is queued while some worker has yet to look. */
  ghost predicate AddsSeen(s: State, threads: nat, actions: seq<Action>)
    requires IsRun(s, threads, actions)
    decreases |actions|
  {
    actions == [] ||
    ((Adds(actions[0]) ==> SomeLooks(s)) && AddsSeen(Apply(s, threads, actions[0]), threads, actions[1..]))
  }

  /**
    * From the moment the flag is set: the queue is empty at exit exactly if it was empty then or some worker had yet
    * to look into it, and the same goes for every item queued later.
    */
  lemma {:induction false} EmptyAtExitIff(s: State, threads: nat, actions: seq<Action>)
    requires Inv(s, threads) && s.finish && IsRun(s, threads, actions) && AllExited(After(s, threads, actions))
    ensures After(s, threads, actions).queue == [] <==> Handled(s) && AddsSeen(s, threads, actions)
    decreases |actions|
  {
    hide Apply, Enabled, Inv, Adds, SomeLooks;
    if actions == [] {
      NobodyLooks(s);
    } else {
      ShutdownStep(s, threads, actions[0]);
      assert After(s, threads, actions) == After(Apply(s, threads, actions[0]), threads, actions[1..]);
      EmptyAtExitIff(Apply(s, threads, actions[0]), threads, actions[1..]);
    }
  }

  lemma NobodyLooks(s: State)
    requires AllExited(s)
    ensures !SomeLooks(s)
  {
  }

  lemma {:induction false} RunExtends(s: State, threads: nat, actions: seq<Action>, a: Action)
    requires IsRun(s, threads, actions) && Enabled(After(s, threads, actions), threads, a)
    ensures IsRun(s, threads, actions + [a])
            && After(s, threads, actions + [a]) == Apply(After(s, threads, actions), threads, a)
    decreases |actions|
  {
    if actions == [] {
      assert ([] + [a])[1..] == [];
    } else {
      RunExtends(Apply(s, threads, actions[0]), threads, actions[1..], a);
      assert (actions + [a])[1..] == actions[1..] + [a];
    }
  }

  ghost predicate Reached(threads: nat, s: State) {
    exists actions :: IsRun(Initial, threads, actions) && After(Initial, threads, actions) == s
  }

  lemma Go(s: State, a: Action, s': State) returns (t: State)
    requires Reached(1, s) && Enabled(s, 1, a) && Apply(s, 1, a) == s'
    ensures t == s' && Reached(1, t)
  {
    var actions :| IsRun(Initial, 1, actions) && After(Initial, 1, actions) == s;
    RunExtends(Initial, 1, actions, a);
    t := s';
  }

  /** A first call has hired the worker; its item could not be stored. */
  lemma Hired(item: Item) returns (s: State)
    ensures Reached(1, s) && s == State([], true, false, Nobody, false, false, [Waiting], [Signalling], [], [])
  {
    s := Initial;
    assert After(s, 1, []) == s;
    hide Reached;
    s := Go(s, Call, State([], false, false, Nobody, false, false, [], [Entering], [], []));
    s := Go(s, Enter(0), State([], false, false, ByProducer(0), false, false, [], [Opening], [], []));
    s := Go(s, Open(0), State([], true, false, ByProducer(0), false, false, [], [Adding], [], []));
    s := Go(s, CreateThread(0), State([], true, false, ByProducer(0), false, false, [Waiting], [Adding], [], []));
    s := Go(s, Add(0, item, false), State([], true, false, Nobody, false, false, [Waiting], [Signalling], [], []));
  }

  /** The worker has found the queue empty and has not yet tested the flag. */
  lemma FoundEmpty(item: Item) returns (s: State)
    ensures Reached(1, s) && s == State([], true, false, Nobody, false, false, [Testing], [Returned], [], [])
  {
    s := Hired(item);
    hide Reached;
    s := Go(s, Signal(0), State([], true, true, Nobody, false, false, [Waiting], [Returned], [], []));
    s := Go(s, Wake(0), State([], true, false, Nobody, false, false, [Woken], [Returned], [], []));
    s := Go(s, Acquire(0), State([], true, false, ByWorker(0), false, false, [Inside], [Returned], [], []));
    s := Go(s, FindEmpty(0), State([], true, false, Nobody, false, false, [Testing], [Returned], [], []));
  }

  /** An item is queued and signalled in between. */
  lemma QueuedLate(item: Item) returns (s: State)
    ensures Reached(1, s) && s == State([item], true, true, Nobody, false, false, [Testing], [Returned, Returned],
            [item], [])
  {
    s := FoundEmpty(item);
    hide Reached;
    s := Go(s, Call, State([], true, false, Nobody, false, false, [Testing], [Returned, Entering], [], []));
    s := Go(s, Enter(1), State([], true, false, ByProducer(1), false, false, [Testing], [Returned, Opening], [], []));
    s := Go(s, Open(1), State([], true, false, ByProducer(1), false, false, [Testing], [Returned, Adding], [], []));
    s := Go(s, Add(1, item, true), State([item], true, false, Nobody, false, false, [Testing], [Returned, Signalling],
      [item], []));
    s := Go(s, Signal(1), State([item], true, true, Nobody, false, false, [Testing], [Returned, Returned], [item], []));
  }

  /**
    * Then the shutdown comes, and the worker leaves: work queued between its empty check and its test of the flag is
    * left behind.
    */
  lemma LeftBehind(item: Item) returns (s: State)
    ensures Reached(1, s) && s == State([item], true, true, Nobody, true, true, [Exited], [Returned, Returned], [item],
            [])
  {
    s := QueuedLate(item);
    hide Reached;
    s := Go(s, SetFinish, State([item], true, true, Nobody, true, false, [Testing], [Returned, Returned], [item], []));
    s := Go(s, SignalFinish, State([item], true, true, Nobody, true, true, [Testing], [Returned, Returned], [item],
      []));
    s := Go(s, Test(0), State([item], true, true, Nobody, true, true, [Leaving], [Returned, Returned], [item], []));
    s := Go(s, Leave(0), State([item], true, true, Nobody, true, true, [Exited], [Returned, Returned], [item], []));
  }
}

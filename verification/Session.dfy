/**
 * How Alamofire's Session brings together the two events of a task, its metrics and its completion: the
 * completion runs after both, whichever comes first.
 */
module Session {
  import opened Bits
  import opened TaskMap

  /** The map, the completions that wait for metrics, by task, and the completions that have been run. */
  datatype State = State(maps: Maps, waiting: map<nat, nat>, ran: seq<nat>)

  /** didGatherMetricsForTask. */
  function GatherMetrics(s: State, task: nat): Option<State> {
    match AfterMetrics(s.maps, task)
    case None => None
    case Some(r) =>
      if !r.1 then Some(s.(maps := r.0))
      else Some(State(r.0, s.waiting - {task}, if task in s.waiting then s.ran + [s.waiting[task]] else s.ran))
  }

  /** didCompleteTask. */
  function CompleteTask(s: State, task: nat, completion: nat): Option<State> {
    match AfterCompletion(s.maps, task)
    case None => None
    case Some(r) =>
      if r.1 then Some(s.(maps := r.0, ran := s.ran + [completion]))
      else Some(s.(maps := r.0, waiting := s.waiting[task := completion]))
  }

  class Session {
    const requestTaskMap: RequestTaskMap
    var waitingCompletions: map<nat, nat>
    /** The completions run so far. */
    var ran: seq<nat>

    ghost function Value(): State
      reads this, requestTaskMap
    {
      State(requestTaskMap.Value(), waitingCompletions, ran)
    }

    constructor ()
      ensures Value() == State(Maps(map[], map[], map[]), map[], []) && fresh(requestTaskMap)
    {
      requestTaskMap := new RequestTaskMap();
      waitingCompletions := map[];
      ran := [];
    }

    /** didGatherMetricsForTask; the result is false where the source ends the process. */
    method DidGatherMetrics(task: nat) returns (ok: bool)
      modifies this, requestTaskMap
      ensures ok == GatherMetrics(old(Value()), task).Some?
      ensures ok ==> Value() == GatherMetrics(old(Value()), task).value
    {
      var didDisassociate;
      ok, didDisassociate := requestTaskMap.DisassociateAfterMetrics(task);
      if ok && didDisassociate {
        if task in waitingCompletions {
          ran := ran + [waitingCompletions[task]];
        }
        waitingCompletions := waitingCompletions - {task};
      }
    }

    /** didCompleteTask. */
    method DidComplete(task: nat, completion: nat) returns (ok: bool)
      modifies this, requestTaskMap
      ensures ok == CompleteTask(old(Value()), task, completion).Some?
      ensures ok ==> Value() == CompleteTask(old(Value()), task, completion).value
    {
      var didDisassociate;
      ok, didDisassociate := requestTaskMap.DisassociateAfterCompletion(task);
      if ok {
        if didDisassociate {
          ran := ran + [completion];
        } else {
          waitingCompletions := waitingCompletions[task := completion];
        }
      }
    }
  }

  // ----- runs

  /** A task is created for a request, its metrics arrive, or it completes. */
  datatype Event = Create(task: nat, request: nat) | Metrics(task: nat) | Complete(task: nat, completion: nat)

  /** The state, and what has happened: tasks created, metrics and completions by task. */
  datatype World = World(s: State, created: set<nat>, metrics: set<nat>, completed: map<nat, nat>)

  function Start(): World {
    World(State(Maps(map[], map[], map[]), map[], []), {}, {}, map[])
  }

  /** Tasks are new and their requests free; each task has at most one event of a kind, each completion is its own. */
  predicate Enabled(w: World, e: Event) {
    match e
    case Create(task, request) => task !in w.created && request !in w.s.maps.requestsToTasks
    case Metrics(task) => task in w.created && task !in w.metrics
    case Complete(task, completion) =>
      task in w.created && task !in w.completed && completion !in w.completed.Values
  }

  /** None if a fatal error ends the process. */
  function Step(w: World, e: Event): Option<World> {
    match e
    case Create(task, request) =>
      (match SetTask(w.s.maps, request, Some(task))
       case None => None
       case Some(m) => Some(w.(s := w.s.(maps := m), created := w.created + {task})))
    case Metrics(task) =>
      (match GatherMetrics(w.s, task)
       case None => None
       case Some(s) => Some(w.(s := s, metrics := w.metrics + {task})))
    case Complete(task, completion) =>
      (match CompleteTask(w.s, task, completion)
       case None => None
       case Some(s) => Some(w.(s := s, completed := w.completed[task := completion])))
  }

  /** How often completion `c` has run. */
  function Count(c: nat, ran: seq<nat>): nat {
    if ran == [] then 0 else Count(c, ran[..|ran| - 1]) + (if ran[|ran| - 1] == c then 1 else 0)
  }

  /** The tasks in the map are those that still expect an event, with the events they have had. */
  ghost predicate Pending(w: World) {
    && Consistent(w.s.maps)
    && (forall t :: t in w.s.maps.tasksToRequests <==> t in w.created && !(t in w.metrics && t in w.completed))
    && (forall t | t in w.s.maps.taskEvents :: w.s.maps.taskEvents[t] == Events(t in w.completed, t in w.metrics))
    && w.metrics <= w.created && w.completed.Keys <= w.created
  }

  /** The completions that wait are those of tasks without metrics. */
  ghost predicate Waiting(w: World) {
    && (forall t :: t in w.s.waiting <==> t in w.completed && t !in w.metrics)
    && (forall t | t in w.s.waiting :: w.s.waiting[t] == w.completed[t])
  }

  /** A completion has run once if its task has had both events, and otherwise not at all. */
  ghost predicate RanOnce(w: World) {
    && (forall t, u | t in w.completed && u in w.completed && w.completed[t] == w.completed[u] :: t == u)
    && (forall t | t in w.completed :: Count(w.completed[t], w.s.ran) == if t in w.metrics then 1 else 0)
    && (forall c | c !in w.completed.Values :: Count(c, w.s.ran) == 0)
  }

  ghost predicate Inv(w: World) {
    Pending(w) && Waiting(w) && RanOnce(w)
  }

  lemma StartInv()
    ensures Inv(Start())
  {
    assert forall t :: t !in Start().s.maps.tasksToRequests;
  }

  lemma CreateKeeps(w: World, task: nat, request: nat)
    requires Inv(w) && Enabled(w, Create(task, request))
    ensures Step(w, Create(task, request)).Some? && Inv(Step(w, Create(task, request)).value)
  {
    AssociationExact(w.s.maps, task, request);
  }

  lemma CountMore(c: nat, ran: seq<nat>, last: nat)
    ensures Count(c, ran + [last]) == Count(c, ran) + (if c == last then 1 else 0)
  {
  }

  /** The maps after a task has had both events, and after only one. */
  function Forgotten(m: Maps, task: nat): Maps
    requires task in m.tasksToRequests
  {
    Disassociated(m, task, m.tasksToRequests[task])
  }

  function Noted(m: Maps, task: nat, events: Events): Maps {
    m.(taskEvents := m.taskEvents[task := events])
  }

  /** What the metrics of a task change. */
  lemma MetricsStep(w: World, task: nat)
    requires Inv(w) && Enabled(w, Metrics(task))
    ensures task in w.s.maps.tasksToRequests
    ensures Step(w, Metrics(task)) == Some(World(
      if task in w.completed
      then State(Forgotten(w.s.maps, task), w.s.waiting - {task}, w.s.ran + [w.completed[task]])
      else w.s.(maps := Noted(w.s.maps, task, Events(false, true))),
      w.created, w.metrics + {task}, w.completed))
  {
    assert task in w.s.maps.tasksToRequests;
    assert task in w.s.maps.taskEvents;
    assert task in w.completed ==> task in w.s.waiting && w.s.waiting[task] == w.completed[task];
  }

  /** What the completion of a task changes. */
  lemma CompleteStep(w: World, task: nat, completion: nat)
    requires Inv(w) && Enabled(w, Complete(task, completion))
    ensures task in w.s.maps.tasksToRequests
    ensures Step(w, Complete(task, completion)) == Some(World(
      if task in w.metrics
      then State(Forgotten(w.s.maps, task), w.s.waiting, w.s.ran + [completion])
      else State(Noted(w.s.maps, task, Events(true, false)), w.s.waiting[task := completion], w.s.ran),
      w.created, w.metrics, w.completed[task := completion]))
  {
    assert task in w.s.maps.tasksToRequests;
    assert task in w.s.maps.taskEvents;
  }

  /** Only `task` may have had an event. */
  ghost predicate OnlyEvent(w: World, w': World, task: nat) {
    && w'.created == w.created && w'.metrics <= w.created && w'.completed.Keys <= w.created
    && forall t | t != task :: (t in w'.metrics <==> t in w.metrics) && (t in w'.completed <==> t in w.completed)
  }

  lemma PendingForgotten(w: World, w': World, task: nat)
    requires Pending(w) && task in w.s.maps.tasksToRequests && OnlyEvent(w, w', task)
    requires task in w'.metrics && task in w'.completed && w'.s.maps == Forgotten(w.s.maps, task)
    ensures Pending(w')
  {
    DisassociationKeeps(w.s.maps, task);
  }

  lemma PendingNoted(w: World, w': World, task: nat)
    requires Pending(w) && task in w.s.maps.tasksToRequests && OnlyEvent(w, w', task)
    requires !(task in w'.metrics && task in w'.completed)
    requires w'.s.maps == Noted(w.s.maps, task, Events(task in w'.completed, task in w'.metrics))
    ensures Pending(w')
  {
    assert task in w.created;
  }

  /** A task that has had an event is forgotten, or the event is noted. */
  lemma PendingKept(w: World, w': World, task: nat)
    requires Pending(w) && task in w.s.maps.tasksToRequests && OnlyEvent(w, w', task)
    requires w'.s.maps == if task in w'.metrics && task in w'.completed then Forgotten(w.s.maps, task)
                          else Noted(w.s.maps, task, Events(task in w'.completed, task in w'.metrics))
    ensures Pending(w')
  {
    if task in w'.metrics && task in w'.completed {
      PendingForgotten(w, w', task);
    } else {
      PendingNoted(w, w', task);
    }
  }

  lemma MetricsKeep(w: World, task: nat)
    requires Inv(w) && Enabled(w, Metrics(task))
    ensures Step(w, Metrics(task)).Some? && Inv(Step(w, Metrics(task)).value)
  {
    MetricsStep(w, task);
    var w' := Step(w, Metrics(task)).value;
    PendingKept(w, w', task);
    assert RanOnce(w') by { MetricsRun(w, task, w'); }
  }

  lemma MetricsRun(w: World, task: nat, w': World)
    requires RanOnce(w) && task !in w.metrics
    requires w'.metrics == w.metrics + {task} && w'.completed == w.completed
    requires w'.s.ran == if task in w.completed then w.s.ran + [w.completed[task]] else w.s.ran
    ensures RanOnce(w')
  {
    if task in w.completed {
      forall c: nat ensures Count(c, w'.s.ran) == Count(c, w.s.ran) + if c == w.completed[task] then 1 else 0 {
        CountMore(c, w.s.ran, w.completed[task]);
      }
    }
  }

  lemma CompleteKeeps(w: World, task: nat, completion: nat)
    requires Inv(w) && Enabled(w, Complete(task, completion))
    ensures Step(w, Complete(task, completion)).Some? && Inv(Step(w, Complete(task, completion)).value)
  {
    CompleteStep(w, task, completion);
    var w' := Step(w, Complete(task, completion)).value;
    PendingKept(w, w', task);
    assert RanOnce(w') by { CompleteRun(w, task, completion, w'); }
  }

  lemma CompleteRun(w: World, task: nat, completion: nat, w': World)
    requires RanOnce(w) && task !in w.completed && completion !in w.completed.Values
    requires w'.metrics == w.metrics && w'.completed == w.completed[task := completion]
    requires w'.s.ran == if task in w.metrics then w.s.ran + [completion] else w.s.ran
    ensures RanOnce(w')
  {
    forall t | t in w.completed ensures w.completed[t] != completion && w.completed[t] in w.completed.Values {
    }
    forall c | c in w.completed.Values ensures c in w'.completed.Values {
      var t :| t in w.completed && w.completed[t] == c;
      assert w'.completed[t] == c;
    }
    assert w'.completed[task] == completion;
    if task in w.metrics {
      forall c: nat ensures Count(c, w'.s.ran) == Count(c, w.s.ran) + if c == completion then 1 else 0 {
        CountMore(c, w.s.ran, completion);
      }
    }
  }

  /** The events can happen one after another, and lead from `w` to `w'`. */
  predicate Runs(w: World, es: seq<Event>, w': World)
    decreases |es|
  {
    if es == [] then w == w'
    else Enabled(w, es[0]) && Step(w, es[0]).Some? && Runs(Step(w, es[0]).value, es[1..], w')
  }

  lemma StepKeeps(w: World, e: Event)
    requires Inv(w) && Enabled(w, e)
    ensures Step(w, e).Some? && Inv(Step(w, e).value)
  {
    match e
    case Create(task, request) => CreateKeeps(w, task, request);
    case Metrics(task) => MetricsKeep(w, task);
    case Complete(task, completion) => CompleteKeeps(w, task, completion);
  }

  lemma {:induction false} RunsKeepInv(w: World, es: seq<Event>, w': World)
    requires Inv(w) && Runs(w, es, w')
    ensures Inv(w')
    decreases |es|
  {
    if es != [] {
      StepKeeps(w, es[0]);
      RunsKeepInv(Step(w, es[0]).value, es[1..], w');
    }
  }

  /**
   * After every run of a new session: the two maps are inverse to each other; the completions that wait are
   * those of tasks without metrics; every other completion has run once; and no event is a fatal error.
   */
  lemma EveryRun(es: seq<Event>, w: World)
    requires Runs(Start(), es, w)
    ensures Pending(w)
    ensures Waiting(w)
    ensures RanOnce(w)
    ensures forall e: Event | Enabled(w, e) :: Step(w, e).Some?
  {
    StartInv();
    RunsKeepInv(Start(), es, w);
    forall e: Event | Enabled(w, e) ensures Step(w, e).Some? {
      StepKeeps(w, e);
    }
  }

  /** After every run, an event is a fatal error exactly if its task was never created or has had one of its kind. */
  lemma FatalExactly(es: seq<Event>, w: World, task: nat, completion: nat)
    requires Runs(Start(), es, w)
    ensures Step(w, Metrics(task)) == None <==> task !in w.created || task in w.metrics
    ensures Step(w, Complete(task, completion)) == None <==> task !in w.created || task in w.completed
  {
    EveryRun(es, w);
    assert task in w.s.maps.taskEvents <==> task in w.s.maps.tasksToRequests;
  }

  /** The two events of a task can come in either order: the same completions have run. */
  lemma OrderIsIrrelevant(w: World, task: nat, completion: nat)
    requires Inv(w) && Enabled(w, Metrics(task)) && Enabled(w, Complete(task, completion))
    ensures var a, b := Step(w, Metrics(task)).value, Step(w, Complete(task, completion)).value;
      && Enabled(a, Complete(task, completion)) && Enabled(b, Metrics(task))
      && Step(a, Complete(task, completion)) == Step(b, Metrics(task))
  {
    MetricsKeep(w, task);
    CompleteKeeps(w, task, completion);
    MetricsStep(w, task);
    CompleteStep(w, task, completion);
    var a, b := Step(w, Metrics(task)).value, Step(w, Complete(task, completion)).value;
    MetricsStep(b, task);
    CompleteStep(a, task, completion);
    NotingIsForgotten(w.s.maps, task, Events(false, true), Events(true, false));
    assert task !in w.s.waiting;
    AddThenRemove(w.s.waiting, task, completion);
  }

  lemma AddThenRemove(m: map<nat, nat>, k: nat, v: nat)
    requires k !in m
    ensures m[k := v] - {k} == m
  {
  }

  lemma NotingIsForgotten(m: Maps, task: nat, e: Events, f: Events)
    requires task in m.tasksToRequests
    ensures Forgotten(Noted(m, task, e), task) == Forgotten(Noted(m, task, f), task)
  {
  }
}

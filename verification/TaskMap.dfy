/** Alamofire's RequestTaskMap: which task works for which request, and which events each task has had. */
module TaskMap {
  import opened Bits

  datatype Events = Events(completed: bool, metricsGathered: bool)

  /** The three dictionaries. Tasks and requests are told apart by numbers. */
  datatype Maps = Maps(tasksToRequests: map<nat, nat>, requestsToTasks: map<nat, nat>, taskEvents: map<nat, Events>)

  // ----- what the operations do; None is a fatal error

  function Associated(m: Maps, task: nat, request: nat): Maps {
    Maps(m.tasksToRequests[task := request], m.requestsToTasks[request := task],
         m.taskEvents[task := Events(false, false)])
  }

  function Disassociated(m: Maps, task: nat, request: nat): Maps {
    Maps(m.tasksToRequests - {task}, m.requestsToTasks - {request}, m.taskEvents - {task})
  }

  /** The subscript by request. */
  function SetTask(m: Maps, request: nat, newValue: Option<nat>): Option<Maps> {
    match newValue
    case Some(task) => Some(Associated(m, task, request))
    case None =>
      if request !in m.requestsToTasks then None
      else Some(Disassociated(m, m.requestsToTasks[request], request))
  }

  /** The subscript by task. */
  function SetRequest(m: Maps, task: nat, newValue: Option<nat>): Option<Maps> {
    match newValue
    case Some(request) => Some(Associated(m, task, request))
    case None =>
      if task !in m.tasksToRequests then None
      else Some(Disassociated(m, task, m.tasksToRequests[task]))
  }

  /** disassociateIfNecessaryAfterGatheringMetricsForTask. */
  function AfterMetrics(m: Maps, task: nat): Option<(Maps, bool)> {
    if task !in m.taskEvents || m.taskEvents[task].metricsGathered then None
    else if !m.taskEvents[task].completed
    then Some((m.(taskEvents := m.taskEvents[task := Events(false, true)]), false))
    else
      var r := SetRequest(m, task, None);
      if r.Some? then Some((r.value, true)) else None
  }

  /** disassociateIfNecessaryAfterCompletingTask, where metrics are gathered. */
  function AfterCompletion(m: Maps, task: nat): Option<(Maps, bool)> {
    if task !in m.taskEvents || m.taskEvents[task].completed then None
    else if !m.taskEvents[task].metricsGathered
    then Some((m.(taskEvents := m.taskEvents[task := Events(true, false)]), false))
    else
      var r := SetRequest(m, task, None);
      if r.Some? then Some((r.value, true)) else None
  }

  // ----- two-way, one to one

  ghost predicate OneToOne(m: Maps) {
    && (forall t | t in m.tasksToRequests ::
          m.tasksToRequests[t] in m.requestsToTasks && m.requestsToTasks[m.tasksToRequests[t]] == t)
    && (forall r | r in m.requestsToTasks ::
          m.requestsToTasks[r] in m.tasksToRequests && m.tasksToRequests[m.requestsToTasks[r]] == r)
  }

  /** One to one, with events for the tasks in the map and no others. */
  ghost predicate Consistent(m: Maps) {
    OneToOne(m) && m.taskEvents.Keys == m.tasksToRequests.Keys
  }

  /** A new association keeps the map one to one exactly if neither side belongs to somebody else. */
  lemma AssociationExact(m: Maps, task: nat, request: nat)
    requires OneToOne(m)
    ensures OneToOne(Associated(m, task, request))
        <==> && (request in m.requestsToTasks ==> m.requestsToTasks[request] == task)
             && (task in m.tasksToRequests ==> m.tasksToRequests[task] == request)
  {
    var m' := Associated(m, task, request);
    if request in m.requestsToTasks && m.requestsToTasks[request] != task {
      var other := m.requestsToTasks[request];
      assert m'.tasksToRequests[other] == request && m'.requestsToTasks[request] == task;
    }
    if task in m.tasksToRequests && m.tasksToRequests[task] != request {
      var other := m.tasksToRequests[task];
      assert m'.requestsToTasks[other] == task && m'.tasksToRequests[task] == request;
    }
  }

  lemma DisassociationKeeps(m: Maps, task: nat)
    requires Consistent(m) && task in m.tasksToRequests
    ensures Consistent(Disassociated(m, task, m.tasksToRequests[task]))
    ensures SetTask(m, m.tasksToRequests[task], None) == SetRequest(m, task, None)
  {
  }

  /** Both kinds of association and removal undo each other, whichever side they are addressed by. */
  lemma AssociateThenRemove(m: Maps, task: nat, request: nat)
    requires Consistent(m) && task !in m.tasksToRequests && request !in m.requestsToTasks
    ensures SetTask(SetTask(m, request, Some(task)).value, request, None) == Some(m)
    ensures SetRequest(SetTask(m, request, Some(task)).value, task, None) == Some(m)
    ensures SetTask(SetRequest(m, task, Some(request)).value, request, None) == Some(m)
  {
    var m' := Associated(m, task, request);
    assert m'.tasksToRequests - {task} == m.tasksToRequests;
    assert m'.requestsToTasks - {request} == m.requestsToTasks;
    assert m'.taskEvents - {task} == m.taskEvents;
  }

  /** Removing from either side is a fatal error exactly if the other side has nobody for it. */
  lemma RemovalFatal(m: Maps, task: nat, request: nat)
    requires OneToOne(m)
    ensures SetTask(m, request, None) == None <==> request !in m.tasksToRequests.Values
    ensures SetRequest(m, task, None) == None <==> task !in m.requestsToTasks.Values
  {
    if request in m.requestsToTasks { assert m.tasksToRequests[m.requestsToTasks[request]] == request; }
    if task in m.tasksToRequests { assert m.requestsToTasks[m.tasksToRequests[task]] == task; }
  }

  lemma RemoveOne<V>(m: map<nat, V>, k: nat)
    requires k in m
    ensures |m - {k}| == |m| - 1
  {
  }

  lemma RemovalKeepsOneToOne(m: Maps, task: nat)
    requires OneToOne(m) && task in m.tasksToRequests
    ensures OneToOne(Disassociated(m, task, m.tasksToRequests[task]))
  {
  }

  /** The two sizes that count and isEmpty insist on. */
  lemma {:induction false} CountsAgree(m: Maps)
    requires OneToOne(m)
    ensures |m.tasksToRequests| == |m.requestsToTasks|
    decreases |m.tasksToRequests|
  {
    if task :| task in m.tasksToRequests {
      var request := m.tasksToRequests[task];
      RemoveOne(m.tasksToRequests, task);
      RemoveOne(m.requestsToTasks, request);
      RemovalKeepsOneToOne(m, task);
      CountsAgree(Disassociated(m, task, request));
    } else {
      assert forall request :: request !in m.requestsToTasks;
      assert m.requestsToTasks == map[];
    }
  }

  /** And the one eventCount insists on. */
  lemma EventCountAgrees(m: Maps)
    requires Consistent(m)
    ensures |m.taskEvents| == |m.tasksToRequests| == |m.requestsToTasks|
  {
    CountsAgree(m);
    assert |m.taskEvents.Keys| == |m.taskEvents| && |m.tasksToRequests.Keys| == |m.tasksToRequests|;
  }

  // ----- the struct itself

  class RequestTaskMap {
    var tasksToRequests: map<nat, nat>
    var requestsToTasks: map<nat, nat>
    var taskEvents: map<nat, Events>

    ghost function Value(): Maps
      reads this
    {
      Maps(tasksToRequests, requestsToTasks, taskEvents)
    }

    constructor ()
      ensures Value() == Maps(map[], map[], map[])
    {
      tasksToRequests, requestsToTasks, taskEvents := map[], map[], map[];
    }

    /** The setter of the subscript by request; the result is false where the source ends the process. */
    method SetTaskOf(request: nat, newValue: Option<nat>) returns (ok: bool)
      modifies this
      ensures ok == SetTask(old(Value()), request, newValue).Some?
      ensures Value() == if ok then SetTask(old(Value()), request, newValue).value else old(Value())
    {
      if newValue.None? {
        if request !in requestsToTasks {
          return false;
        }
        var task := requestsToTasks[request];
        requestsToTasks := requestsToTasks - {request};
        tasksToRequests := tasksToRequests - {task};
        taskEvents := taskEvents - {task};
        return true;
      }
      requestsToTasks := requestsToTasks[request := newValue.value];
      tasksToRequests := tasksToRequests[newValue.value := request];
      taskEvents := taskEvents[newValue.value := Events(false, false)];
      ok := true;
    }

    /** The setter of the subscript by task. */
    method SetRequestOf(task: nat, newValue: Option<nat>) returns (ok: bool)
      modifies this
      ensures ok == SetRequest(old(Value()), task, newValue).Some?
      ensures Value() == if ok then SetRequest(old(Value()), task, newValue).value else old(Value())
    {
      if newValue.None? {
        if task !in tasksToRequests {
          return false;
        }
        var request := tasksToRequests[task];
        tasksToRequests := tasksToRequests - {task};
        requestsToTasks := requestsToTasks - {request};
        taskEvents := taskEvents - {task};
        return true;
      }
      tasksToRequests := tasksToRequests[task := newValue.value];
      requestsToTasks := requestsToTasks[newValue.value := task];
      taskEvents := taskEvents[task := Events(false, false)];
      ok := true;
    }

    /** disassociateIfNecessaryAfterGatheringMetricsForTask. */
    method DisassociateAfterMetrics(task: nat) returns (ok: bool, did: bool)
      modifies this
      ensures ok == AfterMetrics(old(Value()), task).Some?
      ensures ok ==> (Value(), did) == AfterMetrics(old(Value()), task).value
      ensures !ok ==> Value() == old(Value())
    {
      did := false;
      if task !in taskEvents {
        return false, did;
      }
      var events := taskEvents[task];
      if events.metricsGathered {
        return false, did;
      }
      if !events.completed {
        taskEvents := taskEvents[task := Events(false, true)];
        return true, false;
      }
      ok := SetRequestOf(task, None);
      did := true;
    }

    /** disassociateIfNecessaryAfterCompletingTask. */
    method DisassociateAfterCompletion(task: nat) returns (ok: bool, did: bool)
      modifies this
      ensures ok == AfterCompletion(old(Value()), task).Some?
      ensures ok ==> (Value(), did) == AfterCompletion(old(Value()), task).value
      ensures !ok ==> Value() == old(Value())
    {
      did := false;
      if task !in taskEvents {
        return false, did;
      }
      var events := taskEvents[task];
      if events.completed {
        return false, did;
      }
      if !events.metricsGathered {
        taskEvents := taskEvents[task := Events(true, false)];
        return true, false;
      }
      ok := SetRequestOf(task, None);
      did := true;
    }
  }
}

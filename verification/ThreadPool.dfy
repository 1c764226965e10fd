/** ThreadPool.cc before Stop: many submitters, cancellers and workers around one lock. */
module ThreadPool {
  import opened Registry
  import opened Blocks
  import Traces

  datatype Priority = LOW | NORMAL | HIGH | EMERGENCY

  function Rank(p: Priority): nat
  {
    match p case LOW => 0 case NORMAL => 1 case HIGH => 2 case EMERGENCY => 3
  }

  /** The order of the four priorities. */
  predicate Above(p: Priority, q: Priority)
  {
    match p
    case EMERGENCY => q != EMERGENCY
    case HIGH => q == NORMAL || q == LOW
    case NORMAL => q == LOW
    case LOW => false
  }

  /** The comparison of TaskCmp is that order. */
  lemma RankOrders(p: Priority, q: Priority)
    ensures Rank(p) > Rank(q) <==> Above(p, q)
    ensures Rank(LOW) < Rank(NORMAL) < Rank(HIGH) < Rank(EMERGENCY)
  {
  }

  // ------------------------------------------------------- what may happen, and when

  datatype Happening =
    | Accepted(tid: int, priority: Priority)
    | Refused
    | Answered(tid: int, ok: bool)       // CancelTask returned ok
    | Started(worker: nat, tid: int)
    | Dropped(worker: nat, tid: int)     // taken out as canceled
    | Finished(worker: nat, tid: int)

  datatype Pool = Pool(
    waiting: map<int, Priority>, canceled: set<int>, running: map<nat, int>,
    finished: set<int>, dropped: set<int>, accepted: set<int>)

  const EMPTY := Pool(map[], {}, map[], {}, {}, {})

  function Next(p: Pool, h: Happening): Pool
  {
    match h
    case Accepted(tid, priority) => p.(waiting := p.waiting[tid := priority], accepted := p.accepted + {tid})
    case Refused => p
    case Answered(tid, ok) => if ok then p.(canceled := p.canceled + {tid}) else p
    case Started(worker, tid) => p.(waiting := p.waiting - {tid}, running := p.running[worker := tid])
    case Dropped(worker, tid) => p.(waiting := p.waiting - {tid}, dropped := p.dropped + {tid})
    case Finished(worker, tid) => p.(running := p.running - {worker}, finished := p.finished + {tid})
  }

  /** tid waits, and nothing that waits has a higher priority. */
  predicate IsMaximal(p: Pool, tid: int)
  {
    tid in p.waiting && forall other | other in p.waiting :: !Above(p.waiting[other], p.waiting[tid])
  }

  /** limit 0 stands for no limit. */
  predicate Enabled(limit: nat, p: Pool, h: Happening)
  {
    match h
    case Accepted(tid, priority) => tid !in p.accepted && (limit == 0 || |p.waiting| < limit)
    case Refused => 0 < limit <= |p.waiting|
    case Answered(tid, ok) => ok == (tid in p.waiting)
    case Started(worker, tid) => worker !in p.running && IsMaximal(p, tid) && tid !in p.canceled
    case Dropped(worker, tid) => worker !in p.running && IsMaximal(p, tid) && tid in p.canceled
    case Finished(worker, tid) => worker in p.running && p.running[worker] == tid
  }

  function EnabledWithin(limit: nat): (Pool, Happening) -> bool
  {
    (p: Pool, h: Happening) => Enabled(limit, p, h)
  }

  function After(trace: seq<Happening>): Pool
  {
    Traces.After(Next, EMPTY, trace)
  }

  predicate Legal(limit: nat, trace: seq<Happening>)
  {
    Traces.Legal(EnabledWithin(limit), Next, EMPTY, trace)
  }

  lemma LegalPrefix(limit: nat, trace: seq<Happening>, k: nat)
    requires Legal(limit, trace) && k <= |trace|
    ensures Legal(limit, trace[..k])
    ensures k < |trace| ==>
              && Legal(limit, trace[..k + 1]) && Enabled(limit, After(trace[..k]), trace[k])
              && After(trace[..k + 1]) == Next(After(trace[..k]), trace[k])
  {
    Traces.LegalPrefix(EnabledWithin(limit), Next, EMPTY, trace, k);
  }

  /** The last step of a run. */
  lemma LegalLast(limit: nat, trace: seq<Happening>)
    requires Legal(limit, trace) && trace != []
    ensures var before, h := trace[..|trace| - 1], trace[|trace| - 1];
            Legal(limit, before) && Enabled(limit, After(before), h) && After(trace) == Next(After(before), h)
  {
    LegalPrefix(limit, trace, |trace| - 1);
    assert trace[..|trace|] == trace;
  }

  // ------------------------------------------------------------- over every run

  predicate Runs(p: Pool, tid: int)
  {
    exists w :: w in p.running && p.running[w] == tid
  }

  function Count(b: bool): nat { if b then 1 else 0 }

  /** Each accepted task is in exactly one place, on one worker at most; canceled ones wait or are dropped. */
  ghost predicate OnePlace(p: Pool)
  {
    && (forall tid: int {:trigger Runs(p, tid)} {:trigger tid in p.accepted} ::
          Count(tid in p.waiting) + Count(Runs(p, tid)) + Count(tid in p.finished) + Count(tid in p.dropped)
          == Count(tid in p.accepted))
    && (forall v, w | v in p.running && w in p.running && v != w :: p.running[v] != p.running[w])
    && (forall tid | tid in p.canceled :: tid in p.waiting || tid in p.dropped)
  }

  lemma WaitingAreAccepted(p: Pool)
    requires OnePlace(p)
    ensures p.waiting.Keys <= p.accepted && p.canceled <= p.accepted
  {
    forall tid | tid in p.waiting || tid in p.canceled
      ensures tid in p.accepted
    {
      assert Count(tid in p.accepted) >= Count(tid in p.waiting) + Count(tid in p.dropped);
    }
  }

  lemma RunsAfterStart(running: map<nat, int>, worker: nat, tid: int, p: Pool)
    requires running == p.running && worker !in running && !Runs(p, tid)
    ensures forall id :: Runs(p.(running := running[worker := tid]), id) <==> Runs(p, id) || id == tid
    ensures forall w | w in running :: running[w] != tid
  {
    var q := p.(running := running[worker := tid]);
    assert forall w | w in running :: q.running[w] == running[w];
    assert q.running[worker] == tid;
  }

  lemma RunsAfterFinish(running: map<nat, int>, worker: nat, p: Pool)
    requires running == p.running && worker in running
    requires forall v, w | v in running && w in running && v != w :: running[v] != running[w]
    ensures Runs(p, running[worker])
    ensures forall id :: Runs(p.(running := running - {worker}), id) <==> Runs(p, id) && id != running[worker]
  {
    var q := p.(running := running - {worker});
    assert forall w | w in q.running :: q.running[w] == running[w];
    assert forall w | w in running && w != worker :: w in q.running;
  }

  lemma RunsOnly(p: Pool, q: Pool)
    requires p.running == q.running
    ensures forall id :: Runs(p, id) == Runs(q, id)
  {
  }

  lemma OnePlaceStep(limit: nat, p: Pool, h: Happening)
    requires OnePlace(p) && Enabled(limit, p, h)
    ensures OnePlace(Next(p, h))
  {
    hide Runs;
    var q := Next(p, h);
    match h
    case Started(worker, tid) =>
      assert tid in p.accepted;
      RunsAfterStart(p.running, worker, tid, p);
      RunsOnly(q, p.(running := q.running));
    case Finished(worker, tid) =>
      RunsAfterFinish(p.running, worker, p);
      RunsOnly(q, p.(running := q.running));
    case _ =>
      RunsOnly(p, q);
  }

  lemma {:induction false} EveryTaskInOnePlace(limit: nat, trace: seq<Happening>)
    requires Legal(limit, trace)
    ensures OnePlace(After(trace))
  {
    if trace != [] {
      LegalLast(limit, trace);
      EveryTaskInOnePlace(limit, trace[..|trace| - 1]);
      OnePlaceStep(limit, After(trace[..|trace| - 1]), trace[|trace| - 1]);
    }
  }

  lemma LeftStep(limit: nat, p: Pool, h: Happening, tid: int)
    requires Enabled(limit, p, h)
    ensures var q := Next(p, h);
            && p.accepted <= q.accepted && p.canceled <= q.canceled
            && (tid in p.accepted && tid !in p.waiting ==> tid !in q.waiting)
  {
  }

  /** A task that has left the queue, or is marked canceled, stays so. */
  lemma {:induction false} LeftForGood(limit: nat, trace: seq<Happening>, i: nat, j: nat, tid: int)
    requires Legal(limit, trace) && i <= j <= |trace|
    ensures var p, q := After(trace[..i]), After(trace[..j]);
            && p.accepted <= q.accepted && p.canceled <= q.canceled
            && (tid in p.accepted && tid !in p.waiting ==> tid !in q.waiting)
    decreases j
  {
    hide After, Legal, Enabled, Next;
    if i < j {
      LeftForGood(limit, trace, i, j - 1, tid);
      LegalPrefix(limit, trace, j - 1);
      LeftStep(limit, After(trace[..j - 1]), trace[j - 1], tid);
    }
  }

  predicate Takes(h: Happening, tid: int)
  {
    (h.Started? || h.Dropped?) && h.tid == tid
  }

  /** No task is started twice, or started and dropped. */
  lemma TakenOnce(limit: nat, trace: seq<Happening>, i: nat, j: nat, tid: int)
    requires Legal(limit, trace) && i < j < |trace|
    requires Takes(trace[i], tid)
    ensures !Takes(trace[j], tid)
  {
    LegalPrefix(limit, trace, i);
    LegalPrefix(limit, trace, i + 1);
    LegalPrefix(limit, trace, j);
    EveryTaskInOnePlace(limit, trace[..i]);
    LeftForGood(limit, trace, i + 1, j, tid);
  }

  /** Once CancelTask returned true the task is never started. */
  lemma CanceledNeverStarts(limit: nat, trace: seq<Happening>, i: nat, j: nat)
    requires Legal(limit, trace) && i < j < |trace|
    requires trace[i].Answered? && trace[i].ok && trace[j].Started?
    ensures trace[i].tid != trace[j].tid
  {
    LegalPrefix(limit, trace, i);
    LegalPrefix(limit, trace, j);
    LeftForGood(limit, trace, i + 1, j, trace[i].tid);
  }

  lemma WaitingStep(limit: nat, p: Pool, h: Happening, tid: int)
    requires Enabled(limit, p, h) && tid in p.waiting && tid in p.accepted && !Takes(h, tid)
    ensures tid in Next(p, h).waiting && Next(p, h).waiting[tid] == p.waiting[tid]
  {
  }

  lemma {:induction false} WaitsUntilTaken(limit: nat, trace: seq<Happening>, i: nat, j: nat, tid: int)
    requires Legal(limit, trace) && i <= j <= |trace| && tid in After(trace[..i]).waiting
    requires forall k | i <= k < j :: !Takes(trace[k], tid)
    ensures tid in After(trace[..j]).waiting && After(trace[..j]).waiting[tid] == After(trace[..i]).waiting[tid]
    decreases j
  {
    hide After, Legal, Enabled, Next;
    if i < j {
      WaitsUntilTaken(limit, trace, i, j - 1, tid);
      LegalPrefix(limit, trace, j - 1);
      EveryTaskInOnePlace(limit, trace[..j - 1]);
      WaitingStep(limit, After(trace[..j - 1]), trace[j - 1], tid);
    }
  }

  /** A task accepted at i and not taken before k waits at k, with its priority. */
  lemma WaitsSinceAccepted(limit: nat, trace: seq<Happening>, i: nat, k: nat, tid: int, p: Priority)
    requires Legal(limit, trace) && i < k <= |trace| && trace[i] == Accepted(tid, p)
    requires forall l | i < l < k :: !Takes(trace[l], tid)
    ensures tid in After(trace[..k]).waiting && After(trace[..k]).waiting[tid] == p
  {
    hide After, Legal;
    LegalPrefix(limit, trace, i);
    WaitsUntilTaken(limit, trace, i + 1, k, tid);
  }

  lemma TakenIsMaximal(limit: nat, p: Pool, h: Happening, low: int, high: int)
    requires Enabled(limit, p, h) && Takes(h, low) && high in p.waiting
    ensures low in p.waiting && !Above(p.waiting[high], p.waiting[low])
  {
  }

  /** When a task is taken, every task accepted before with a higher priority has been taken before. */
  lemma HigherPriorityFirst(
    limit: nat, trace: seq<Happening>, i: nat, j: nat, k: nat, high: int, low: int, p: Priority, q: Priority)
    requires Legal(limit, trace) && i < k < |trace| && j < k
    requires trace[i] == Accepted(high, p) && trace[j] == Accepted(low, q) && Above(p, q)
    requires Takes(trace[k], low)
    ensures exists l :: i < l < k && Takes(trace[l], high)
  {
    hide After, Legal, Enabled, Next, Takes, Above;
    LegalPrefix(limit, trace, k);
    forall l | j < l < k
      ensures !Takes(trace[l], low)
    {
      if Takes(trace[l], low) {
        TakenOnce(limit, trace, l, k, low);
      }
    }
    WaitsSinceAccepted(limit, trace, j, k, low, q);
    if forall l | i < l < k :: !Takes(trace[l], high) {
      WaitsSinceAccepted(limit, trace, i, k, high, p);
      TakenIsMaximal(limit, After(trace[..k]), trace[k], low, high);
    }
  }

  lemma WithoutKey<V>(m: map<int, V>, tid: int)
    ensures |m - {tid}| <= |m|
  {
    if tid in m {
      assert m == (m - {tid})[tid := m[tid]];
    } else {
      assert m - {tid} == m;
    }
  }

  /** The queue never outgrows its limit. */
  lemma {:induction false} QueueBound(limit: nat, trace: seq<Happening>)
    requires Legal(limit, trace) && limit > 0
    ensures |After(trace).waiting| <= limit
  {
    if trace != [] {
      var before, h := trace[..|trace| - 1], trace[|trace| - 1];
      LegalLast(limit, trace);
      QueueBound(limit, before);
      if h.Started? || h.Dropped? {
        WithoutKey(After(before).waiting, h.tid);
      }
    }
  }

  // -------------------------------------------------------------------- the pool

  class TaskStruct {
    const tid: int
    const priority: Priority
    var canceled: bool

    constructor (tid: int, priority: Priority)
      ensures this.tid == tid && this.priority == priority && !canceled
    {
      this.tid, this.priority, canceled := tid, priority, false;
    }
  }

  /** The id map holds the waiting tasks. */
  ghost predicate Matches(tasks: map<int, TaskStruct>, waiting: map<int, Priority>)
  {
    && tasks.Keys == waiting.Keys
    && forall id | id in tasks :: tasks[id].tid == id && tasks[id].priority == waiting[id]
  }

  /** A maximal entry of the queue is a maximal task. */
  lemma TopIsMaximal(p: Pool, pending: seq<TaskStruct>, tasks: map<int, TaskStruct>, k: nat)
    requires Agree(pending, tasks) && Matches(tasks, p.waiting) && k < |pending|
    requires forall t | t in pending :: Rank(t.priority) <= Rank(pending[k].priority)
    ensures IsMaximal(p, pending[k].tid) && pending[k].tid in tasks && tasks[pending[k].tid] == pending[k]
  {
    assert HasId(tasks, pending[k]);
    forall id | id in tasks
      ensures !Above(tasks[id].priority, pending[k].priority)
    {
      RankOrders(tasks[id].priority, pending[k].priority);
    }
  }

  lemma NotWaiting(pending: seq<TaskStruct>, tasks: map<int, TaskStruct>, waiting: map<int, Priority>, t: TaskStruct)
    requires Agree(pending, tasks) && Matches(tasks, waiting) && t.tid !in waiting
    ensures t !in pending
  {
    assert t in pending ==> HasId(tasks, t);
  }

  lemma WaitingCount(pending: seq<TaskStruct>, tasks: map<int, TaskStruct>, waiting: map<int, Priority>)
    requires Agree(pending, tasks) && Matches(tasks, waiting)
    ensures |pending| == |waiting|
  {
    assert |tasks.Keys| == |waiting.Keys|;
  }

  class ThreadPool {
    const pendingSize: nat
    const counter: Counter
    var pending: seq<TaskStruct>              // the priority queue, in no particular order
    var tasks: map<int, TaskStruct>
    var running: map<nat, TaskStruct>         // the local variable of each worker that is executing

    ghost var model: Pool

    ghost predicate Valid()
      reads this, counter, tasks.Values
    {
      && Agree(pending, tasks) && Matches(tasks, model.waiting)
      && (forall id | id in tasks :: tasks[id].canceled == (id in model.canceled))
      && running.Keys == model.running.Keys
      && (forall w | w in running :: running[w].tid == model.running[w])
      && OnePlace(model)
      && (forall id | id in model.accepted :: 0 <= id < counter.next)
    }

    constructor (pendingSize: nat, counter: Counter)
      ensures Valid() && fresh(this) && model == EMPTY && tasks == map[]
      ensures this.pendingSize == pendingSize && this.counter == counter
    {
      this.pendingSize, this.counter := pendingSize, counter;
      pending, tasks, running, model := [], map[], map[], EMPTY;
    }

    method GetPendingTasks() returns (n: nat)
      requires Valid()
      ensures n == |model.waiting|
    {
      WaitingCount(pending, tasks, model.waiting);
      n := |pending|;
    }

    method SubmitTask(priority: Priority) returns (tid: int)
      requires Valid()
      modifies `pending, `tasks, `model, counter
      ensures Valid()
      ensures forall t | t in tasks.Values :: t in old(tasks.Values) || fresh(t)
      ensures var h := if tid == -1 then Refused else Accepted(tid, priority);
              Enabled(pendingSize, old(model), h) && model == Next(old(model), h)
    {
      hide Agree, OnePlace;
      WaitingCount(pending, tasks, model.waiting);
      if pendingSize > 0 && |pending| >= pendingSize {
        return -1;
      }
      var task := new TaskStruct(counter.next, priority);
      counter.next := counter.next + 1;
      Enqueue(task);
      return task.tid;
    }

    /** A new task enters the queue and the id map together. */
    method Enqueue(task: TaskStruct)
      requires Valid() && Enabled(pendingSize, model, Accepted(task.tid, task.priority))
      requires 0 <= task.tid < counter.next && !task.canceled
      modifies `pending, `tasks, `model
      ensures Valid() && tasks == old(tasks)[task.tid := task]
      ensures model == Next(old(model), Accepted(task.tid, task.priority))
    {
      hide Agree, OnePlace;
      WaitingAreAccepted(model);
      NotWaiting(pending, tasks, model.waiting, task);
      AgreeAfterPush(pending, tasks, task.tid, task);
      OnePlaceStep(pendingSize, model, Accepted(task.tid, task.priority));
      pending := pending + [task];
      tasks := tasks[task.tid := task];
      model := Next(model, Accepted(task.tid, task.priority));
    }

    method CancelTask(tid: int) returns (ok: bool)
      requires Valid()
      modifies `model, tasks.Values
      ensures Valid()
      ensures Enabled(pendingSize, old(model), Answered(tid, ok)) && model == Next(old(model), Answered(tid, ok))
    {
      hide OnePlace, Agree;
      WaitingAreAccepted(model);
      WaitingCount(pending, tasks, model.waiting);
      if tid >= counter.next || tid !in tasks {
        return false;
      }
      OnePlaceStep(pendingSize, model, Answered(tid, true));
      tasks[tid].canceled := true;
      model := Next(model, Answered(tid, true));
      return true;
    }

    /** The top of the queue may be any task of maximal priority. */
    predicate IsTop(k: nat)
      reads this
    {
      k < |pending| && forall t | t in pending :: Rank(t.priority) <= Rank(pending[k].priority)
    }

    method Top() returns (k: nat)
      requires pending != []
      ensures IsTop(k)
    {
      k := 0;
      for i := 0 to |pending|
        invariant k < |pending| && forall j | 0 <= j < i :: Rank(pending[j].priority) <= Rank(pending[k].priority)
      {
        if Rank(pending[i].priority) > Rank(pending[k].priority) {
          k := i;
        }
      }
    }

    /** One turn of the loop of RunInThread under the lock. */
    method TakeTask(worker: nat) returns (h: Happening)
      requires Valid() && worker !in running && pending != []
      modifies `pending, `tasks, `running, `model
      ensures Valid() && tasks.Values <= old(tasks.Values)
      ensures h.Started? || h.Dropped?
      ensures h.worker == worker
      ensures Enabled(pendingSize, old(model), h) && model == Next(old(model), h)
    {
      hide OnePlace, Agree;
      var k := Top();
      var task := pending[k];
      TopIsMaximal(model, pending, tasks, k);
      AgreeAfterPop(pending, tasks, k, task.tid);
      h := if task.canceled then Dropped(worker, task.tid) else Started(worker, task.tid);
      OnePlaceStep(pendingSize, model, h);
      pending := Without(pending, k);
      tasks := tasks - {task.tid};
      model := Next(model, h);
      if !task.canceled {
        running := running[worker := task];
      }
    }

    /** The task of a worker returns. */
    method FinishTask(worker: nat) returns (h: Happening)
      requires Valid() && worker in running
      modifies `running, `model
      ensures Valid() && h.Finished? && h.worker == worker
      ensures Enabled(pendingSize, old(model), h) && model == Next(old(model), h)
    {
      hide OnePlace, Agree;
      h := Finished(worker, running[worker].tid);
      OnePlaceStep(pendingSize, model, h);
      running := running - {worker};
      model := Next(model, h);
    }
  }

  // ------------------------------------------------------------------ every schedule

  datatype Action =
    | Submit(priority: Priority)
    | Cancel(tid: int)
    | Take(worker: nat)
    | Finish(worker: nat)
    | Elsewhere(n: nat)             // other pools take n ids

  /** What an action comes to in the state p; a worker that is busy, or finds the queue empty, waits. */
  predicate Performed(limit: nat, p: Pool, a: Action, happened: seq<Happening>)
  {
    match a
    case Submit(priority) =>
      && |happened| == 1
      && if 0 < limit <= |p.waiting| then happened[0] == Refused
         else happened[0].Accepted? && happened[0].priority == priority
    case Cancel(tid) => happened == [Answered(tid, tid in p.waiting)]
    case Take(worker) =>
      if worker in p.running || p.waiting == map[] then happened == []
      else |happened| == 1 && (happened[0].Started? || happened[0].Dropped?) && happened[0].worker == worker
    case Finish(worker) =>
      happened == if worker in p.running then [Finished(worker, p.running[worker])] else []
    case Elsewhere(_) => happened == []
  }

  lemma LegalOneOrNone(limit: nat, trace: seq<Happening>, happened: seq<Happening>)
    requires Legal(limit, trace) && |happened| <= 1
    requires happened != [] ==> Enabled(limit, After(trace), happened[0])
    ensures Legal(limit, trace + happened)
    ensures After(trace + happened) == if happened == [] then After(trace) else Next(After(trace), happened[0])
  {
    if happened == [] {
      assert trace + happened == trace;
    } else {
      Traces.LegalNext(EnabledWithin(limit), Next, EMPTY, trace, happened[0]);
      assert happened == [happened[0]];
    }
  }

  method Perform(pool: ThreadPool, a: Action) returns (happened: seq<Happening>)
    requires pool.Valid()
    modifies pool, pool.counter, pool.tasks.Values
    ensures pool.Valid() && |happened| <= 1
    ensures forall t | t in pool.tasks.Values :: t in old(pool.tasks.Values) || fresh(t)
    ensures Performed(pool.pendingSize, old(pool.model), a, happened)
    ensures if happened == [] then pool.model == old(pool.model)
            else Enabled(pool.pendingSize, old(pool.model), happened[0]) && pool.model == Next(old(pool.model), happened[0])
  {
    hide Agree, OnePlace, Next, IsMaximal;
    WaitingCount(pool.pending, pool.tasks, pool.model.waiting);
    match a {
      case Submit(priority) =>
        var tid := pool.SubmitTask(priority);
        happened := [if tid == -1 then Refused else Accepted(tid, priority)];
      case Cancel(tid) =>
        var ok := pool.CancelTask(tid);
        happened := [Answered(tid, ok)];
      case Take(worker) =>
        if worker in pool.running || pool.pending == [] {
          return [];
        }
        var h := pool.TakeTask(worker);
        happened := [h];
      case Finish(worker) =>
        if worker !in pool.running {
          return [];
        }
        var h := pool.FinishTask(worker);
        happened := [h];
      case Elsewhere(n) =>
        pool.counter.next := pool.counter.next + n;
        happened := [];
    }
  }

  function PerformedWithin(limit: nat): (Pool, Action, seq<Happening>) -> bool
  {
    (p: Pool, a: Action, happened: seq<Happening>) => Performed(limit, p, a, happened)
  }

  /** history tells for each action what happened: what must, given all that happened before. */
  ghost predicate Answers(limit: nat, actions: seq<Action>, history: seq<seq<Happening>>)
  {
    Traces.Answers(PerformedWithin(limit), Next, EMPTY, actions, history)
  }

  lemma AnswersNext(
    limit: nat, actions: seq<Action>, history: seq<seq<Happening>>, a: Action, happened: seq<Happening>)
    requires Answers(limit, actions, history) && Performed(limit, After(Flatten(history)), a, happened)
    ensures Answers(limit, actions + [a], history + [happened])
    ensures Flatten(history + [happened]) == Flatten(history) + happened
  {
    Traces.AnswersNext(PerformedWithin(limit), Next, EMPTY, actions, history, a, happened);
  }

  /** Whatever the submitters, cancellers, workers and other pools do, what happens is a legal run. */
  method Live(limit: nat, actions: seq<Action>) returns (history: seq<seq<Happening>>, waiting: nat)
    ensures Answers(limit, actions, history) && Legal(limit, Flatten(history))
    ensures waiting == |After(Flatten(history)).waiting|
  {
    hide After, Legal, Enabled, Next, OnePlace, Agree, Performed, Answers, Flatten;
    history := [];
    var counter := new Counter();
    var pool := new ThreadPool(limit, counter);
    LegalStart(limit);
    for i := 0 to |actions|
      invariant pool.Valid() && fresh(pool) && fresh(counter) && pool.pendingSize == limit && pool.counter == counter
      invariant forall t | t in pool.tasks.Values :: fresh(t)
      invariant Answers(limit, actions[..i], history)
      invariant Legal(limit, Flatten(history)) && pool.model == After(Flatten(history))
    {
      var happened := Perform(pool, actions[i]);
      AnswersNext(limit, actions[..i], history, actions[i], happened);
      LegalOneOrNone(limit, Flatten(history), happened);
      assert actions[..i + 1] == actions[..i] + [actions[i]];
      history := history + [happened];
    }
    assert actions[..|actions|] == actions;
    waiting := pool.GetPendingTasks();
  }

  lemma LegalStart(limit: nat)
    ensures Legal(limit, Flatten([])) && After(Flatten([])) == EMPTY && Answers(limit, [], [])
  {
  }
}

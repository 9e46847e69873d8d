/** The retry scheduler: worker indices travel through a bounded channel, tasks between a heap and the
    workers. The steps of Run, of the workers and of AddTask interleave; what happens under the lock is
    one step. */
module RetryQueue {

  /** AddTask makes a new task each time; the id stands for its address. */
  datatype Task = Task(id: nat, priority: nat)

  // ----- the heap -----

  function Parent(j: nat): nat { if j == 0 then 0 else (j - 1) / 2 }

  /** Everything but the pair of j and its parent is in heap order, and so would the pair be without j. */
  ghost predicate HeapBut(a: seq<Task>, j: nat) {
    && (forall k | 0 < k < |a| && k != j :: a[Parent(k)].priority >= a[k].priority)
    && (forall k | 0 < k < |a| && Parent(k) == j && j > 0 :: a[Parent(j)].priority >= a[k].priority)
  }

  ghost predicate Heap(a: seq<Task>) {
    forall k | 0 < k < |a| :: a[Parent(k)].priority >= a[k].priority
  }

  /** The children of the task at k are at 2k + 1 and 2k + 2. */
  lemma HeapByChildren(a: seq<Task>)
    ensures Heap(a) <==> forall k, c | 0 <= k < c < |a| && (c == 2 * k + 1 || c == 2 * k + 2) ::
                           a[k].priority >= a[c].priority
  {
    if Heap(a) {
      forall k, c | 0 <= k < c < |a| && (c == 2 * k + 1 || c == 2 * k + 2) ensures a[k].priority >= a[c].priority {
        assert Parent(c) == k;
      }
    }
  }

  function Swapped(a: seq<Task>, i: nat, j: nat): seq<Task>
    requires i < |a| && j < |a|
  {
    a[i := a[j]][j := a[i]]
  }

  /** The up of container/heap, with the Less of taskArena, which also holds of equal priorities. */
  function Up(a: seq<Task>, j: nat): (r: seq<Task>)
    requires j < |a|
    ensures |r| == |a|
    decreases j
  {
    if j == 0 || a[j].priority < a[Parent(j)].priority then a else Up(Swapped(a, Parent(j), j), Parent(j))
  }

  function HeapPush(a: seq<Task>, t: Task): seq<Task> { Up(a + [t], |a|) }

  lemma {:induction false} UpHeap(a: seq<Task>, j: nat)
    requires j < |a| && HeapBut(a, j)
    ensures Heap(Up(a, j))
    decreases j
  {
    if j > 0 && a[j].priority >= a[Parent(j)].priority {
      RisesOne(a, j);
      UpHeap(Swapped(a, Parent(j), j), Parent(j));
    }
  }

  lemma RisesOne(a: seq<Task>, j: nat)
    requires 0 < j < |a| && HeapBut(a, j) && a[j].priority >= a[Parent(j)].priority
    ensures HeapBut(Swapped(a, Parent(j), j), Parent(j))
  {}

  lemma {:induction false} UpPermutes(a: seq<Task>, j: nat)
    requires j < |a|
    ensures multiset(Up(a, j)) == multiset(a)
    decreases j
  {
    if j > 0 && a[j].priority >= a[Parent(j)].priority {
      UpPermutes(Swapped(a, Parent(j), j), Parent(j));
    }
  }

  /** Push keeps heap order and adds exactly the task. */
  lemma PushKeepsHeap(a: seq<Task>, t: Task)
    requires Heap(a)
    ensures Heap(HeapPush(a, t)) && multiset(HeapPush(a, t)) == multiset(a) + multiset{t}
  {
    UpHeap(a + [t], |a|);
    UpPermutes(a + [t], |a|);
  }

  lemma {:induction false} RootIsGreatest(a: seq<Task>, k: nat)
    requires Heap(a) && k < |a|
    ensures a[0].priority >= a[k].priority
    decreases k
  {
    if k > 0 {
      RootIsGreatest(a, Parent(k));
    }
  }

  /** The new element rises past every ancestor that is not above it, and stops below one that is. */
  lemma {:induction false} UpLands(a: seq<Task>, j: nat) returns (i: nat)
    requires j < |a|
    ensures i <= j && Up(a, j)[i] == a[j] && (i > 0 ==> Up(a, j)[0] == a[0])
    ensures i > 0 ==> Up(a, j)[Parent(i)].priority > a[j].priority
    decreases j
  {
    if j > 0 && a[j].priority >= a[Parent(j)].priority {
      i := UpLands(Swapped(a, Parent(j), j), Parent(j));
    } else {
      i := j;
    }
  }

  /** A new task goes to the root exactly if no task is above it: it passes the tasks of its own priority. */
  lemma PushTops(a: seq<Task>, t: Task)
    requires Heap(a)
    ensures HeapPush(a, t)[0] == if a == [] || t.priority >= a[0].priority then t else a[0]
  {
    var i := UpLands(a + [t], |a|);
    var r := HeapPush(a, t);
    PushKeepsHeap(a, t);
    if i > 0 {
      RootIsGreatest(r, Parent(i));
    } else if a != [] {
      assert a[0] in multiset(r);
      var k :| 0 <= k < |r| && r[k] == a[0];
      RootIsGreatest(r, k);
    }
  }

  class TaskArena {
    var tasks: seq<Task>

    constructor ()
      ensures tasks == []
    {
      tasks := [];
    }

    /** heap.Push: append, then up. */
    method Push(t: Task)
      modifies this
      ensures tasks == HeapPush(old(tasks), t)
    {
      tasks := tasks + [t];
      var j := |tasks| - 1;
      while j > 0 && tasks[j].priority >= tasks[Parent(j)].priority
        invariant 0 <= j < |tasks| && Up(tasks, j) == HeapPush(old(tasks), t)
      {
        tasks := Swapped(tasks, Parent(j), j);
        j := Parent(j);
      }
    }

    /** What Run calls: the last element, not heap.Pop. */
    method Pop() returns (t: Task)
      requires tasks != []
      modifies this
      ensures t == old(tasks)[|old(tasks)| - 1] && tasks == old(tasks)[..|old(tasks)| - 1]
    {
      t := tasks[|tasks| - 1];
      tasks := tasks[..|tasks| - 1];
    }
  }

  /** What Run takes is of the highest priority exactly when nothing in the heap is higher than it, that is
      when it is no lower than the root. */
  lemma TakenIsGreatest(a: seq<Task>)
    requires Heap(a) && a != []
    ensures (forall t | t in a :: a[|a| - 1].priority >= t.priority) <==> a[|a| - 1].priority == a[0].priority
  {
    RootIsGreatest(a, |a| - 1);
    if a[|a| - 1].priority == a[0].priority {
      forall t | t in a ensures a[|a| - 1].priority >= t.priority {
        var k :| 0 <= k < |a| && a[k] == t;
        RootIsGreatest(a, k);
      }
    }
  }

  /** Two tasks are enough for the lower one to be taken first. */
  lemma LowerFirst(high: Task, low: Task)
    requires high.priority > low.priority
    ensures HeapPush(HeapPush([], high), low) == [high, low] == HeapPush(HeapPush([], low), high)
  {
    assert Up([low, high], 1) == Up([high, low], 0);
  }

  // ----- the steps -----

  datatype Option<T> = None | Some(value: T)

  datatype RunPc =
    | Selecting
    | Woken                          // received from remained
    | Holding(worker: nat)           // received a worker index
    | Found(worker: nat, task: Task) // popped a task for it
    | Empty(worker: nat)             // found no task
    | Returning(worker: nat)         // about to send the index back

  datatype WorkPc = Working(task: Task, tries: nat) | Reporting

  datatype Config = Config(workers: nat, retryTimes: int)

  datatype State = State(arena: seq<Task>, signal: seq<nat>, remained: nat, loaf: bool, run: RunPc,
                         work: map<nat, WorkPc>, done: set<nat>, added: nat)

  datatype Step =
    | Add(priority: nat)
    | Wake
    | Doze
    | TakeIndex
    | PopTask
    | Start
    | MarkLoaf
    | Return
    | Succeed(worker: nat)
    | Fail(worker: nat)
    | Report(worker: nat)

  /** None: the step cannot be taken now - a receive from an empty channel, or a send to a full one. */
  function Act(cfg: Config, s: State, step: Step): Option<State> {
    match step
    case Add(priority) =>
      Some(s.(arena := HeapPush(s.arena, Task(s.added, priority)), loaf := false, added := s.added + 1))
    case Wake =>
      if s.run.Selecting? && s.remained > 0 then Some(s.(remained := s.remained - 1, run := Woken)) else None
    case Doze =>
      if !s.run.Woken? || (s.loaf && s.remained >= 1) then None
      else Some(s.(remained := if s.loaf then s.remained + 1 else s.remained, run := Selecting))
    case TakeIndex =>
      if s.run.Selecting? && s.signal != [] then Some(s.(signal := s.signal[1..], run := Holding(s.signal[0])))
          else None
    case PopTask =>
      if !s.run.Holding? then None
      else if s.arena == [] then Some(s.(run := Empty(s.run.worker)))
      else
        var n := |s.arena| - 1;
        Some(s.(arena := s.arena[..n], run := Found(s.run.worker, s.arena[n])))
    case Start =>
      if s.run.Found? then Some(s.(work := s.work[s.run.worker := Working(s.run.task, 0)], run := Selecting)) else None
    case MarkLoaf =>
      if s.run.Empty? then
        Some(s.(loaf := true, remained := if s.remained == 0 then 1 else s.remained, run := Returning(s.run.worker)))
      else None
    case Return =>
      if s.run.Returning? && |s.signal| < cfg.workers then
        Some(s.(signal := s.signal + [s.run.worker], run := Selecting))
      else None
    case Succeed(w) =>
      if w in s.work && s.work[w].Working? then
        Some(s.(work := s.work[w := Reporting], done := s.done + {s.work[w].task.id}))
      else None
    case Fail(w) =>
      if w in s.work && s.work[w].Working? then
        var Working(task, tries) := s.work[w];
        if tries + 1 >= cfg.retryTimes then Some(s.(work := s.work[w := Reporting], arena := HeapPush(s.arena, task)))
        else Some(s.(work := s.work[w := Working(task, tries + 1)]))
      else None
    case Report(w) =>
      if w in s.work && s.work[w].Reporting? && |s.signal| < cfg.workers then
        Some(s.(work := s.work - {w}, signal := s.signal + [w]))
      else None
  }

  /** NewRetryQuery puts every index into the channel. */
  method NewRetryQuery(workers: nat) returns (signal: seq<nat>)
    ensures signal == Initial(workers).signal
  {
    signal := [];
    for i := 0 to workers
      invariant signal == Indices(i)
    {
      signal := signal + [i];
    }
  }

  function Indices(n: nat): seq<nat> { if n == 0 then [] else Indices(n - 1) + [n - 1] }

  function Initial(workers: nat): State {
    State([], Indices(workers), 0, true, Selecting, map[], {}, 0)
  }

  /** The state after some steps, if all of them can be taken. */
  function Exec(cfg: Config, steps: seq<Step>): Option<State> {
    if steps == [] then Some(Initial(cfg.workers))
    else
      match Exec(cfg, steps[..|steps| - 1])
      case None => None
      case Some(s) => Act(cfg, s, steps[|steps| - 1])
  }

  // ----- where everything is -----

  function One(b: bool): nat { if b then 1 else 0 }

  /** Each number below n is in exactly one of the sets, and no other number is in any. */
  ghost predicate InOne(a: set<nat>, b: set<nat>, c: set<nat>, d: set<nat>, n: nat) {
    forall x: nat :: One(x in a) + One(x in b) + One(x in c) + One(x in d) == One(x < n)
  }

  function Elems(s: seq<nat>): set<nat> { set x | x in s }

  function Ids(a: seq<Task>): set<nat> { set t | t in a :: t.id }

  function RunToken(run: RunPc): set<nat> {
    match run
    case Selecting => {}
    case Woken => {}
    case Holding(w) => {w}
    case Found(w, _) => {w}
    case Empty(w) => {w}
    case Returning(w) => {w}
  }

  function RunTask(run: RunPc): set<nat> { if run.Found? then {run.task.id} else {} }

  function WorkTasks(work: map<nat, WorkPc>): set<nat> { set w | w in work && work[w].Working? :: work[w].task.id }

  /** Each worker index is in exactly one place: the channel, the loop of Run, or one running worker. */
  ghost predicate Tokens(cfg: Config, s: State) {
    && |Elems(s.signal)| == |s.signal|
    && InOne(Elems(s.signal), RunToken(s.run), s.work.Keys, {}, cfg.workers)
  }

  /** No two workers have the same task. */
  ghost predicate Distinct(work: map<nat, WorkPc>) {
    forall v, w | v in work && w in work && v != w && work[v].Working? && work[w].Working? ::
      work[v].task.id != work[w].task.id
  }

  /** Each task that was added is in exactly one place: the heap, the hands of Run, one worker, or done. */
  ghost predicate Tasks(s: State) {
    && |Ids(s.arena)| == |s.arena|
    && Distinct(s.work)
    && InOne(Ids(s.arena), RunTask(s.run), WorkTasks(s.work), s.done, s.added)
  }

  ghost predicate Inv(cfg: Config, s: State) {
    && Tokens(cfg, s) && Tasks(s) && Heap(s.arena)
    && s.remained <= 1 && (s.run.Woken? ==> s.remained == 0)
  }

  /** Number x moves from one place to another. */
  lemma Moves(a: set<nat>, b: set<nat>, c: set<nat>, d: set<nat>, n: nat,
              a': set<nat>, b': set<nat>, c': set<nat>, d': set<nat>, x: nat)
    requires InOne(a, b, c, d, n) && (x in a || x in b || x in c || x in d)
    requires a - {x} == a' - {x} && b - {x} == b' - {x} && c - {x} == c' - {x} && d - {x} == d' - {x}
    requires One(x in a') + One(x in b') + One(x in c') + One(x in d') == 1
    ensures InOne(a', b', c', d', n)
  {
    forall y: nat ensures One(y in a') + One(y in b') + One(y in c') + One(y in d') == One(y < n) {
      assert One(y in a) + One(y in b) + One(y in c) + One(y in d) == One(y < n);
      assert y != x ==> (y in a - {x} <==> y in a) && (y in b - {x} <==> y in b)
                        && (y in c - {x} <==> y in c) && (y in d - {x} <==> y in d);
      assert y != x ==> (y in a' - {x} <==> y in a') && (y in b' - {x} <==> y in b')
                        && (y in c' - {x} <==> y in c') && (y in d' - {x} <==> y in d');
    }
  }

  lemma OnlyThere(a: set<nat>, b: set<nat>, c: set<nat>, d: set<nat>, n: nat, x: nat)
    requires InOne(a, b, c, d, n)
    ensures One(x in a) + One(x in b) + One(x in c) + One(x in d) == One(x < n)
  {}

  // ----- counting what a channel or the heap holds -----

  lemma {:induction false} ElemsAtMost(s: seq<nat>)
    ensures |Elems(s)| <= |s|
  {
    if s != [] {
      ElemsAtMost(s[1..]);
      assert Elems(s) == {s[0]} + Elems(s[1..]);
    }
  }

  lemma ElemsSend(s: seq<nat>, x: nat)
    requires |Elems(s)| == |s| && x !in Elems(s)
    ensures Elems(s + [x]) == Elems(s) + {x} && |Elems(s + [x])| == |s| + 1
  {
    assert Elems(s + [x]) == Elems(s) + {x};
  }

  lemma ElemsReceive(s: seq<nat>)
    requires |Elems(s)| == |s| > 0
    ensures Elems(s) == Elems(s[1..]) + {s[0]} && s[0] !in Elems(s[1..]) && |Elems(s[1..])| == |s| - 1
  {
    assert Elems(s) == Elems(s[1..]) + {s[0]};
    ElemsAtMost(s[1..]);
  }

  lemma {:induction false} IdsAtMost(a: seq<Task>)
    ensures |Ids(a)| <= |a|
  {
    if a != [] {
      IdsAtMost(a[1..]);
      assert Ids(a) == {a[0].id} + Ids(a[1..]);
    }
  }

  lemma IdsPush(a: seq<Task>, t: Task)
    requires Heap(a) && |Ids(a)| == |a| && t.id !in Ids(a)
    ensures var r := HeapPush(a, t); Heap(r) && Ids(r) == Ids(a) + {t.id} && |Ids(r)| == |r|
  {
    PushKeepsHeap(a, t);
    var r := HeapPush(a, t);
    assert |r| == |a| + 1;
    forall u ensures u in r <==> u in a || u == t {
      assert u in r <==> u in multiset(r);
      assert u in a <==> u in multiset(a);
    }
    assert Ids(r) == Ids(a) + {t.id};
  }

  lemma IdsPop(a: seq<Task>)
    requires Heap(a) && |Ids(a)| == |a| > 0
    ensures var n := |a| - 1;
            Heap(a[..n]) && Ids(a) == Ids(a[..n]) + {a[n].id} && a[n].id !in Ids(a[..n]) && |Ids(a[..n])| == n
  {
    var n := |a| - 1;
    assert a == a[..n] + [a[n]];
    assert Ids(a) == Ids(a[..n]) + {a[n].id};
    IdsAtMost(a[..n]);
  }

  // ----- every step keeps the invariant -----

  lemma AddKeeps(cfg: Config, s: State, priority: nat)
    requires Inv(cfg, s)
    ensures Inv(cfg, Act(cfg, s, Add(priority)).value)
  {
    hide HeapPush, Heap, Ids, Elems, WorkTasks;
    IdsPush(s.arena, Task(s.added, priority));
  }

  lemma ReceiveKeeps(cfg: Config, s: State)
    requires Inv(cfg, s) && s.run.Selecting? && s.signal != []
    ensures Inv(cfg, Act(cfg, s, TakeIndex).value)
  {
    hide Heap, Ids, Elems, WorkTasks, InOne;
    var w := s.signal[0];
    assert Act(cfg, s, TakeIndex) == Some(s.(signal := s.signal[1..], run := Holding(w)));
    hide Act;
    ElemsReceive(s.signal);
    OnlyThere(Elems(s.signal), {}, s.work.Keys, {}, cfg.workers, w);
    Moves(Elems(s.signal), {}, s.work.Keys, {}, cfg.workers, Elems(s.signal[1..]), {w}, s.work.Keys, {}, w);
  }

  lemma PopKeeps(cfg: Config, s: State)
    requires Inv(cfg, s) && s.run.Holding?
    ensures Inv(cfg, Act(cfg, s, PopTask).value)
  {
    hide Heap, Ids, Elems, WorkTasks, InOne;
    if s.arena != [] {
      var n, r := |s.arena| - 1, Act(cfg, s, PopTask).value;
      IdsPop(s.arena);
      OnlyThere(Ids(s.arena), {}, WorkTasks(s.work), s.done, s.added, s.arena[n].id);
      Moves(Ids(s.arena), {}, WorkTasks(s.work), s.done, s.added,
            Ids(s.arena[..n]), {s.arena[n].id}, WorkTasks(s.work), s.done, s.arena[n].id);
      assert RunToken(r.run) == RunToken(s.run) && RunTask(r.run) == {s.arena[n].id};
    }
  }

  /** What a change of one worker makes of the tasks at work. */
  lemma WorkChanges(work: map<nat, WorkPc>, w: nat, pc: WorkPc)
    requires Distinct(work)
    requires pc.Working? && pc.task.id in WorkTasks(work) ==> w in work && work[w].Working? && work[w].task == pc.task
    ensures Distinct(work[w := pc])
    ensures WorkTasks(work[w := pc]) ==
              WorkTasks(work) - (if w in work && work[w].Working? then {work[w].task.id} else {})
                              + (if pc.Working? then {pc.task.id} else {})
    ensures work[w := pc].Keys == work.Keys + {w}
  {
    var gone := if w in work && work[w].Working? then {work[w].task.id} else {};
    var came := if pc.Working? then {pc.task.id} else {};
    forall x ensures x in WorkTasks(work[w := pc]) <==> x in WorkTasks(work) - gone + came {
      if x in WorkTasks(work) && x !in gone {
        var u :| u in work && work[u].Working? && work[u].task.id == x;
        assert work[w := pc][u] == work[u];
      }
      if x in came {
        assert work[w := pc][w] == pc;
      }
    }
  }

  lemma WorkerLeaves(work: map<nat, WorkPc>, w: nat)
    requires w in work && work[w].Reporting? && Distinct(work)
    ensures Distinct(work - {w})
    ensures WorkTasks(work - {w}) == WorkTasks(work) && (work - {w}).Keys == work.Keys - {w}
  {
    forall x | x in WorkTasks(work) ensures x in WorkTasks(work - {w}) {
      var u :| u in work && work[u].Working? && work[u].task.id == x;
      assert u in work - {w};
    }
  }

  lemma WorkHolds(work: map<nat, WorkPc>, w: nat)
    requires w in work && work[w].Working?
    ensures work[w].task.id in WorkTasks(work)
  {}

  lemma StartKeeps(cfg: Config, s: State)
    requires Inv(cfg, s) && s.run.Found?
    ensures Inv(cfg, Act(cfg, s, Start).value)
  {
    hide Heap, Ids, Elems, WorkTasks, InOne, Distinct;
    var Found(w, task) := s.run;
    var work := s.work[w := Working(task, 0)];
    OnlyThere(Elems(s.signal), {w}, s.work.Keys, {}, cfg.workers, w);
    OnlyThere(Ids(s.arena), {task.id}, WorkTasks(s.work), s.done, s.added, task.id);
    WorkChanges(s.work, w, Working(task, 0));
    Moves(Elems(s.signal), {w}, s.work.Keys, {}, cfg.workers, Elems(s.signal), {}, work.Keys, {}, w);
    Moves(Ids(s.arena), {task.id}, WorkTasks(s.work), s.done, s.added,
          Ids(s.arena), {}, WorkTasks(work), s.done, task.id);
  }

  lemma ReturnKeeps(cfg: Config, s: State)
    requires Inv(cfg, s) && s.run.Returning? && |s.signal| < cfg.workers
    ensures Inv(cfg, Act(cfg, s, Return).value)
  {
    hide Heap, Ids, Elems, WorkTasks, InOne;
    var w := s.run.worker;
    OnlyThere(Elems(s.signal), {w}, s.work.Keys, {}, cfg.workers, w);
    ElemsSend(s.signal, w);
    Moves(Elems(s.signal), {w}, s.work.Keys, {}, cfg.workers, Elems(s.signal + [w]), {}, s.work.Keys, {}, w);
  }

  lemma SucceedKeeps(cfg: Config, s: State, w: nat)
    requires Inv(cfg, s) && w in s.work && s.work[w].Working?
    ensures Inv(cfg, Act(cfg, s, Succeed(w)).value)
  {
    hide Heap, Ids, Elems, WorkTasks, InOne, Distinct;
    var id, work := s.work[w].task.id, s.work[w := Reporting];
    assert Act(cfg, s, Succeed(w)) == Some(s.(work := work, done := s.done + {id}));
    hide Act;
    WorkHolds(s.work, w);
    WorkChanges(s.work, w, Reporting);
    OnlyThere(Ids(s.arena), RunTask(s.run), WorkTasks(s.work), s.done, s.added, id);
    Moves(Ids(s.arena), RunTask(s.run), WorkTasks(s.work), s.done, s.added,
          Ids(s.arena), RunTask(s.run), WorkTasks(work), s.done + {id}, id);
    assert work.Keys == s.work.Keys;
  }

  /** A task that keeps failing goes back to the heap; */
  lemma GiveBackKeeps(cfg: Config, s: State, w: nat)
    requires Inv(cfg, s) && w in s.work && s.work[w].Working? && s.work[w].tries + 1 >= cfg.retryTimes
    ensures Inv(cfg, Act(cfg, s, Fail(w)).value)
  {
    hide HeapPush, Heap, Ids, Elems, WorkTasks, InOne, Distinct;
    var task, work := s.work[w].task, s.work[w := Reporting];
    var r := s.(work := work, arena := HeapPush(s.arena, task));
    assert Act(cfg, s, Fail(w)) == Some(r);
    hide Act;
    WorkHolds(s.work, w);
    WorkChanges(s.work, w, Reporting);
    OnlyThere(Ids(s.arena), RunTask(s.run), WorkTasks(s.work), s.done, s.added, task.id);
    IdsPush(s.arena, task);
    Moves(Ids(s.arena), RunTask(s.run), WorkTasks(s.work), s.done, s.added,
          Ids(HeapPush(s.arena, task)), RunTask(s.run), WorkTasks(work), s.done, task.id);
    assert work.Keys == s.work.Keys;
  }

  /** until then its worker keeps it. */
  lemma RetryKeeps(cfg: Config, s: State, w: nat)
    requires Inv(cfg, s) && w in s.work && s.work[w].Working? && s.work[w].tries + 1 < cfg.retryTimes
    ensures Inv(cfg, Act(cfg, s, Fail(w)).value)
  {
    hide Heap, Ids, Elems, WorkTasks;
    var Working(task, tries) := s.work[w];
    WorkHolds(s.work, w);
    WorkChanges(s.work, w, Working(task, tries + 1));
    assert WorkTasks(s.work[w := Working(task, tries + 1)]) == WorkTasks(s.work);
  }

  lemma ReportKeeps(cfg: Config, s: State, w: nat)
    requires Inv(cfg, s) && w in s.work && s.work[w].Reporting? && |s.signal| < cfg.workers
    ensures Inv(cfg, Act(cfg, s, Report(w)).value)
  {
    hide Heap, Ids, Elems, WorkTasks;
    ElemsSend(s.signal, w);
    WorkerLeaves(s.work, w);
  }

  lemma StepKeepsInv(cfg: Config, s: State, step: Step)
    requires Inv(cfg, s) && Act(cfg, s, step).Some?
    ensures Inv(cfg, Act(cfg, s, step).value)
  {
    hide HeapPush, Heap, Ids, Elems, WorkTasks;
    match step
    case Add(priority) => AddKeeps(cfg, s, priority);
    case Wake =>
    case Doze =>
    case TakeIndex => ReceiveKeeps(cfg, s);
    case PopTask => PopKeeps(cfg, s);
    case Start => StartKeeps(cfg, s);
    case MarkLoaf =>
    case Return => ReturnKeeps(cfg, s);
    case Succeed(w) => SucceedKeeps(cfg, s, w);
    case Fail(w) =>
      if s.work[w].tries + 1 >= cfg.retryTimes {
        GiveBackKeeps(cfg, s, w);
      } else {
        RetryKeeps(cfg, s, w);
      }
    case Report(w) => ReportKeeps(cfg, s, w);
  }

  lemma {:induction false} InitialElems(n: nat)
    ensures (forall x: nat :: x in Elems(Indices(n)) <==> x < n) && |Elems(Indices(n))| == |Indices(n)|
  {
    if n > 0 {
      InitialElems(n - 1);
      ElemsSend(Indices(n - 1), n - 1);
    } else {
      assert Elems(Indices(n)) == {};
    }
  }

  /** In every run. */
  lemma {:induction false} RunInv(cfg: Config, steps: seq<Step>)
    requires Exec(cfg, steps).Some?
    ensures Inv(cfg, Exec(cfg, steps).value)
  {
    if steps == [] {
      InitialElems(cfg.workers);
      assert WorkTasks(map[]) == {};
    } else {
      var n := |steps| - 1;
      RunInv(cfg, steps[..n]);
      StepKeepsInv(cfg, Exec(cfg, steps[..n]).value, steps[n]);
    }
  }

  // ----- what holds in every run -----

  /** A worker index is in the channel, in the hands of Run, or with a running worker, and never in two of
      these places. */
  lemma EveryIndexInOnePlace(cfg: Config, steps: seq<Step>, w: nat)
    requires Exec(cfg, steps).Some? && w < cfg.workers
    ensures var s := Exec(cfg, steps).value;
            One(w in s.signal) + One(w in RunToken(s.run)) + One(w in s.work) == 1
            && forall i, j | 0 <= i < j < |s.signal| :: s.signal[i] != s.signal[j]
  {
    RunInv(cfg, steps);
    var s := Exec(cfg, steps).value;
    assert w in s.signal <==> w in Elems(s.signal);
    NoRepeats(s.signal);
  }

  lemma {:induction false} NoRepeats(s: seq<nat>)
    requires |Elems(s)| == |s|
    ensures forall i, j | 0 <= i < j < |s| :: s[i] != s[j]
  {
    if s != [] {
      ElemsReceive(s);
      NoRepeats(s[1..]);
      forall i, j | 0 <= i < j < |s| ensures s[i] != s[j] {
        assert s[j] == s[1..][j - 1];
        assert i == 0 ==> s[j] in s[1..];
      }
    }
  }

  /** A task that was added is in the heap, in the hands of Run, with one worker, or done, and never in two
      of these places: none is lost, and none is run twice at a time. */
  lemma EveryTaskInOnePlace(cfg: Config, steps: seq<Step>, id: nat)
    requires Exec(cfg, steps).Some?
    ensures var s := Exec(cfg, steps).value;
            && One(id in Ids(s.arena)) + One(id in RunTask(s.run)) + One(id in WorkTasks(s.work)) + One(id in s.done)
               == One(id < s.added)
            && forall v, w | v in s.work && w in s.work && s.work[v].Working? && s.work[w].Working? &&
                             s.work[v].task.id == s.work[w].task.id :: v == w
  {
    RunInv(cfg, steps);
  }

  lemma RoomForToken(cfg: Config, s: State, w: nat)
    requires Tokens(cfg, s) && w < cfg.workers && w !in Elems(s.signal)
    ensures |s.signal| < cfg.workers
  {
    hide Elems;
    var all := Elems(s.signal) + {w};
    forall x | x in Elems(s.signal) ensures x < cfg.workers {
      assert One(x in Elems(s.signal)) == 1;
    }
    Fits(all, cfg.workers);
  }

  lemma {:induction false} Fits(s: set<nat>, n: nat)
    requires forall x | x in s :: x < n
    ensures |s| <= n
  {
    if n > 0 {
      Fits(s - {n - 1}, n - 1);
    } else {
      assert s == {} by {
        forall x | x in s ensures false {}
      }
    }
  }

  /** No send blocks: in every run, whoever is about to send an index finds room in the channel, and Run
      finds room in remained. */
  lemma NoSendBlocks(cfg: Config, steps: seq<Step>)
    requires Exec(cfg, steps).Some?
    ensures var s := Exec(cfg, steps).value;
            && (s.run.Returning? ==> Act(cfg, s, Return).Some?)
            && (s.run.Woken? ==> Act(cfg, s, Doze).Some?)
            && (forall w | w in s.work && s.work[w].Reporting? :: Act(cfg, s, Report(w)).Some?)
  {
    hide Elems, Ids, Heap, HeapPush, WorkTasks, Exec, InOne, Distinct;
    RunInv(cfg, steps);
    var s := Exec(cfg, steps).value;
    if s.run.Returning? {
      OnlyThere(Elems(s.signal), RunToken(s.run), s.work.Keys, {}, cfg.workers, s.run.worker);
      RoomForToken(cfg, s, s.run.worker);
    }
    forall w | w in s.work && s.work[w].Reporting? ensures Act(cfg, s, Report(w)).Some? {
      OnlyThere(Elems(s.signal), RunToken(s.run), s.work.Keys, {}, cfg.workers, w);
      RoomForToken(cfg, s, w);
    }
  }

  /** Run itself waits only while every worker is busy. */
  lemma RunWaitsForWorkers(cfg: Config, steps: seq<Step>)
    requires Exec(cfg, steps).Some?
    ensures var s := Exec(cfg, steps).value;
            (forall step | step in {Wake, Doze, TakeIndex, PopTask, Start, MarkLoaf, Return} :: Act(cfg, s, step).None?)
            ==> forall w: nat | w < cfg.workers :: w in s.work
  {
    hide Elems, Ids, Heap, HeapPush, WorkTasks, Exec;
    RunInv(cfg, steps);
    NoSendBlocks(cfg, steps);
    var s := Exec(cfg, steps).value;
    if forall step | step in {Wake, Doze, TakeIndex, PopTask, Start, MarkLoaf, Return} :: Act(cfg, s, step).None? {
      assert Act(cfg, s, Wake).None? && Act(cfg, s, TakeIndex).None? && Act(cfg, s, PopTask).None?;
      assert Act(cfg, s, Start).None? && Act(cfg, s, MarkLoaf).None? && Act(cfg, s, Return).None? &&
             Act(cfg, s, Doze).None?;
      assert s.run.Selecting? && s.signal == [];
      forall w: nat | w < cfg.workers ensures w in s.work {
        assert w !in Elems(s.signal) && w !in RunToken(s.run);
        assert One(w in s.work.Keys) == 1;
      }
    }
  }

  /** The heap is in order in every run, but what Run takes from it next is of the highest priority only when
      it equals the root. */
  lemma TakesLastOfHeap(cfg: Config, steps: seq<Step>)
    requires Exec(cfg, steps).Some? && Exec(cfg, steps).value.run.Holding? && Exec(cfg, steps).value.arena != []
    ensures var s := Exec(cfg, steps).value;
            var task := s.arena[|s.arena| - 1];
            && Heap(s.arena) && Act(cfg, s, PopTask).value.run == Found(s.run.worker, task)
            && ((forall t | t in s.arena :: task.priority >= t.priority) <==> task.priority == s.arena[0].priority)
  {
    RunInv(cfg, steps);
    TakenIsGreatest(Exec(cfg, steps).value.arena);
  }

  // ----- what a run remembers -----

  lemma ExecNext(cfg: Config, steps: seq<Step>)
    requires Exec(cfg, steps).Some? && steps != []
    ensures var before := steps[..|steps| - 1];
            Exec(cfg, before).Some? && Act(cfg, Exec(cfg, before).value, steps[|steps| - 1]) == Exec(cfg, steps)
  {}

  /** The priorities of the tasks added, in order. */
  function Priorities(steps: seq<Step>): seq<nat> {
    if steps == [] then []
    else
      var before := Priorities(steps[..|steps| - 1]);
      match steps[|steps| - 1]
      case Add(priority) => before + [priority]
      case _ => before
  }

  /** The task is one that was added, with the priority it was added with. */
  ghost predicate Genuine(task: Task, priorities: seq<nat>) {
    task.id < |priorities| && task.priority == priorities[task.id]
  }

  ghost predicate AllGenuine(s: State, priorities: seq<nat>) {
    && s.added == |priorities|
    && (forall t | t in s.arena :: Genuine(t, priorities))
    && (s.run.Found? ==> Genuine(s.run.task, priorities))
    && (forall w | w in s.work && s.work[w].Working? :: Genuine(s.work[w].task, priorities))
  }

  lemma PushHolds(a: seq<Task>, t: Task)
    requires Heap(a)
    ensures forall u :: u in HeapPush(a, t) <==> u in a || u == t
  {
    PushKeepsHeap(a, t);
    forall u ensures u in HeapPush(a, t) <==> u in a || u == t {
      assert u in HeapPush(a, t) <==> u in multiset(HeapPush(a, t));
      assert u in a <==> u in multiset(a);
    }
  }

  lemma StepKeepsGenuine(cfg: Config, s: State, step: Step, priorities: seq<nat>)
    requires Heap(s.arena) && AllGenuine(s, priorities) && Act(cfg, s, step).Some?
    ensures AllGenuine(Act(cfg, s, step).value, if step.Add? then priorities + [step.priority] else priorities)
  {
    hide HeapPush, Heap;
    match step
    case Add(priority) => PushHolds(s.arena, Task(s.added, priority));
    case Fail(w) => PushHolds(s.arena, s.work[w].task);
    case _ =>
  }

  /** In every run each task in the heap, in the hands of Run or with a worker is one that AddTask made, with the
      priority it was given. */
  lemma {:induction false} TasksKeepPriority(cfg: Config, steps: seq<Step>)
    requires Exec(cfg, steps).Some?
    ensures AllGenuine(Exec(cfg, steps).value, Priorities(steps))
  {
    if steps != [] {
      var before := steps[..|steps| - 1];
      ExecNext(cfg, steps);
      TasksKeepPriority(cfg, before);
      RunInv(cfg, before);
      StepKeepsGenuine(cfg, Exec(cfg, before).value, steps[|steps| - 1], Priorities(before));
    }
  }

  /** How often worker w has failed since it was last started. */
  function Failures(cfg: Config, steps: seq<Step>, w: nat): nat
    requires Exec(cfg, steps).Some?
  {
    if steps == [] then 0
    else
      var before := steps[..|steps| - 1];
      match steps[|steps| - 1]
      case Fail(v) => Failures(cfg, before, w) + if v == w then 1 else 0
      case Start => if Exec(cfg, before).value.run.worker == w then 0 else Failures(cfg, before, w)
      case _ => Failures(cfg, before, w)
  }

  /** A running worker counts its failures, and has fewer than retryTimes of them. */
  lemma {:induction false} TriesAreFailures(cfg: Config, steps: seq<Step>, w: nat)
    requires Exec(cfg, steps).Some? && w in Exec(cfg, steps).value.work && Exec(cfg, steps).value.work[w].Working?
    ensures Exec(cfg, steps).value.work[w].tries == Failures(cfg, steps, w)
    ensures Failures(cfg, steps, w) == 0 || Failures(cfg, steps, w) < cfg.retryTimes
  {
    hide HeapPush;
    ExecNext(cfg, steps);
    var before, step := steps[..|steps| - 1], steps[|steps| - 1];
    var s := Exec(cfg, before).value;
    if !(step.Start? && s.run.worker == w) {
      TriesAreFailures(cfg, before, w);
    }
  }

  /** A task that fails goes back to the heap at the last of retryTimes failures in a row, or at the first when
      there are fewer to be; until then the same worker tries it again. One that succeeds is done. */
  lemma RetriesExactly(cfg: Config, steps: seq<Step>, w: nat)
    requires Exec(cfg, steps).Some?
    requires w in Exec(cfg, steps).value.work && Exec(cfg, steps).value.work[w].Working?
    ensures var s := Exec(cfg, steps).value;
            var task := s.work[w].task;
            && Act(cfg, s, Succeed(w)) == Some(s.(work := s.work[w := Reporting], done := s.done + {task.id}))
            && Act(cfg, s, Fail(w)).Some?
            && var r := Act(cfg, s, Fail(w)).value;
               if Failures(cfg, steps, w) + 1 >= cfg.retryTimes then
                 r.work == s.work[w := Reporting] && multiset(r.arena) == multiset(s.arena) + multiset{task}
               else
                 r == s.(work := s.work[w := Working(task, Failures(cfg, steps, w) + 1)])
  {
    hide HeapPush, Heap, Exec, Failures, InOne, Ids, Elems, WorkTasks, Distinct;
    TriesAreFailures(cfg, steps, w);
    RunInv(cfg, steps);
    PushKeepsHeap(Exec(cfg, steps).value.arena, Exec(cfg, steps).value.work[w].task);
  }

  /** Everything ever sent on the channel of worker indices. */
  function Sent(cfg: Config, steps: seq<Step>): seq<nat>
    requires Exec(cfg, steps).Some?
  {
    if steps == [] then Indices(cfg.workers)
    else
      var before := steps[..|steps| - 1];
      match steps[|steps| - 1]
      case Return => Sent(cfg, before) + [Exec(cfg, before).value.run.worker]
      case Report(w) => Sent(cfg, before) + [w]
      case _ => Sent(cfg, before)
  }

  function Received(steps: seq<Step>): nat {
    if steps == [] then 0 else Received(steps[..|steps| - 1]) + if steps[|steps| - 1].TakeIndex? then 1 else 0
  }

  /** The channel gives worker indices out in the order they were sent. */
  lemma {:induction false} SignalInOrder(cfg: Config, steps: seq<Step>)
    requires Exec(cfg, steps).Some?
    ensures var s, k := Exec(cfg, steps).value, Received(steps);
            && k <= |Sent(cfg, steps)| && s.signal == Sent(cfg, steps)[k..]
            && (s.run.Holding? || s.run.Found? || s.run.Empty? || s.run.Returning? ==>
                  k > 0 && s.run.worker == Sent(cfg, steps)[k - 1])
  {
    hide HeapPush;
    if steps != [] {
      ExecNext(cfg, steps);
      var before := steps[..|steps| - 1];
      SignalInOrder(cfg, before);
      assert Exec(cfg, before).value.signal == Sent(cfg, before)[Received(before)..];
    }
  }

  /** Run has found the heap empty since the last AddTask. */
  function FoundEmpty(steps: seq<Step>): bool {
    if steps == [] then false
    else
      match steps[|steps| - 1]
      case Add(_) => false
      case MarkLoaf => true
      case _ => FoundEmpty(steps[..|steps| - 1])
  }

  /** While Run has found the heap empty and nothing was added since, the token of remained goes round; AddTask
      ends that. */
  lemma {:induction false} LoafsWhileEmpty(cfg: Config, steps: seq<Step>)
    requires Exec(cfg, steps).Some?
    ensures var s := Exec(cfg, steps).value;
            && (s.loaf <==> FoundEmpty(steps) || forall step | step in steps :: !step.Add?)
            && (FoundEmpty(steps) ==> s.remained + One(s.run.Woken?) == 1)
  {
    hide HeapPush, Inv;
    if steps != [] {
      ExecNext(cfg, steps);
      var before := steps[..|steps| - 1];
      LoafsWhileEmpty(cfg, before);
      AtMostOneToken(cfg, before);
      hide Exec;
      assert steps == before + [steps[|steps| - 1]];
    }
  }

  /** There is no token before Run has found the heap empty. */
  lemma {:induction false} TokenAfterEmpty(cfg: Config, steps: seq<Step>)
    requires Exec(cfg, steps).Some? && MarkLoaf !in steps
    ensures var s := Exec(cfg, steps).value; s.remained == 0 && !s.run.Woken?
  {
    hide HeapPush, Inv;
    if steps != [] {
      ExecNext(cfg, steps);
      var before, step := steps[..|steps| - 1], steps[|steps| - 1];
      assert steps == before + [step];
      TokenAfterEmpty(cfg, before);
      hide Exec;
    }
  }

  lemma AtMostOneToken(cfg: Config, steps: seq<Step>)
    requires Exec(cfg, steps).Some?
    ensures var s := Exec(cfg, steps).value; s.remained <= 1 && (s.run.Woken? ==> s.remained == 0)
  {
    RunInv(cfg, steps);
  }

  /** Woken by the token Run dozes, and sends it round again exactly if nothing was added since it found the heap
      empty; with a worker index it finds the heap empty exactly if it is, and makes sure the token is there. */
  lemma RunStepsExactly(cfg: Config, steps: seq<Step>)
    requires Exec(cfg, steps).Some?
    ensures var s := Exec(cfg, steps).value;
            && (s.run.Selecting? ==>
                  && Act(cfg, s, Wake) == (if s.remained > 0 then Some(s.(remained := 0, run := Woken)) else None)
                  && (Act(cfg, s, TakeIndex).Some? <==> s.signal != []))
            && (s.run.Woken? ==> Act(cfg, s, Doze) == Some(s.(remained := if s.loaf then 1 else 0, run := Selecting)))
            && (s.run.Holding? ==> (Act(cfg, s, PopTask).value.run.Empty? <==> s.arena == []))
            && (s.run.Empty? ==> Act(cfg, s, MarkLoaf) ==
                                 Some(s.(loaf := true, remained := 1, run := Returning(s.run.worker))))
  {
    hide HeapPush, Exec;
    AtMostOneToken(cfg, steps);
  }
}

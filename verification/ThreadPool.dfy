/**
 The worker pool as a step system: addTask pushes under the lock and notifies
 after giving it up, workers wait for tasks, the destructor sets the stop flag,
 notifies all and joins. Tasks are named by their place in submission order.
 */
module ThreadPool {

  type Tid = nat

  datatype State<T> = State(
    tasks: seq<T>,
    stop: bool,
    notifiedAll: bool,       // the destructor's notify_all is done
    owed: nat,               // addTask calls between unlock and notify_one
    ready: set<Tid>,         // workers about to take the lock
    parked: set<Tid>,        // workers waiting on _cnv
    woken: set<Tid>,         // workers notified, not yet back under the lock
    exec: map<Tid, nat>,     // workers running a task: which submission
    exited: set<Tid>,
    submitted: seq<T>,       // history
    taken: nat,              // tasks dequeued so far
    finished: multiset<nat>) // submissions that have run to the end

  datatype Event<T> =
    | Added(x: T)
    | Notified
    | Took(w: Tid)
    | Slept(w: Tid)
    | Left(w: Tid)
    | Finished(w: Tid)
    | Spurious(w: Tid)
    | Stopped
    | NotifiedAll

  function Init<T>(workers: set<Tid>): State<T> {
    State([], false, false, 0, workers, {}, {}, map[], {}, [], 0, multiset{})
  }

  /** The threads a pool of the given size starts. */
  function Workers(size: int): set<Tid>
    decreases size
  {
    if size <= 0 then {} else Workers(size - 1) + {size - 1}
  }

  /** One thread for each number below the size. */
  lemma {:induction false} WorkersAre(size: int)
    ensures |Workers(size)| == if size > 0 then size else 0
    ensures forall w: Tid :: w in Workers(size) <==> w < size
    decreases size
  {
    if size > 0 {
      WorkersAre(size - 1);
    }
  }

  ghost predicate NotifyOne<T>(s: State<T>, s': State<T>) {
    if s.parked == {} then s' == s
    else exists w :: w in s.parked && s' == s.(parked := s.parked - {w}, woken := s.woken + {w})
  }

  /** Worker `w` is about to test the predicate of the wait. */
  predicate AtTest<T>(s: State<T>, w: Tid) {
    w in s.ready || w in s.woken
  }

  ghost predicate Next<T>(s: State<T>, e: Event<T>, s': State<T>) {
    match e
    case Added(x) => s' == s.(tasks := s.tasks + [x], submitted := s.submitted + [x], owed := s.owed + 1)
    case Notified => s.owed > 0 && NotifyOne(s.(owed := s.owed - 1), s')
    case Took(w) =>
      && AtTest(s, w) && s.tasks != []
      && s' == s.(ready := s.ready - {w}, woken := s.woken - {w}, tasks := s.tasks[1..],
                  exec := s.exec[w := s.taken], taken := s.taken + 1)
    case Slept(w) =>
      && AtTest(s, w) && s.tasks == [] && !s.stop
      && s' == s.(ready := s.ready - {w}, woken := s.woken - {w}, parked := s.parked + {w})
    case Left(w) =>
      && AtTest(s, w) && s.tasks == [] && s.stop
      && s' == s.(ready := s.ready - {w}, woken := s.woken - {w}, exited := s.exited + {w})
    case Finished(w) =>
      && w in s.exec
      && s' == s.(exec := s.exec - {w}, ready := s.ready + {w}, finished := s.finished + multiset{s.exec[w]})
    case Spurious(w) => w in s.parked && s' == s.(parked := s.parked - {w}, woken := s.woken + {w})
    case Stopped => s' == s.(stop := true)
    case NotifiedAll =>
      s.stop && s' == s.(parked := {}, woken := s.woken + s.parked, notifiedAll := true)
  }

  ghost predicate IsRun<T>(workers: set<Tid>, ss: seq<State<T>>, es: seq<Event<T>>) {
    && |ss| == |es| + 1 && ss[0] == Init(workers)
    && forall i :: 0 <= i < |es| ==> Next(ss[i], es[i], ss[i + 1])
  }

  /** No addTask once the destructor has set the flag. */
  ghost predicate NoLateTask<T>(ss: seq<State<T>>, es: seq<Event<T>>) {
    |ss| == |es| + 1 && forall i :: 0 <= i < |es| && es[i].Added? ==> !ss[i].stop
  }

  // ---- what every step keeps ----

  /** Each worker is in one place. */
  ghost predicate Shape<T>(workers: set<Tid>, s: State<T>) {
    && s.ready !! s.parked !! s.woken !! s.exec.Keys !! s.exited
    && s.ready + s.parked + s.woken + s.exec.Keys + s.exited == workers
  }

  /** Dequeued in submission order, and every dequeued task is running once or has finished once. */
  ghost predicate Accounted<T>(s: State<T>) {
    && s.taken <= |s.submitted| && s.tasks == s.submitted[s.taken..]
    && (forall w :: w in s.exec ==> s.exec[w] < s.taken && s.finished[s.exec[w]] == 0)
    && (forall v, w :: v in s.exec && w in s.exec && v != w ==> s.exec[v] != s.exec[w])
    && (forall i: nat :: s.finished[i] <= 1 && (s.finished[i] == 1 ==> i < s.taken))
    && (forall i: nat :: i < s.taken && s.finished[i] == 0 ==> exists w :: w in s.exec && s.exec[w] == i)
  }

  /** Parked workers leave no task uncovered by a woken one or by a notification still to come. */
  ghost predicate NoneLost<T>(s: State<T>) {
    && (s.parked != {} ==> |s.tasks| <= |s.woken| + s.owed)
    && (s.notifiedAll ==> s.stop && s.parked == {})
  }

  lemma ShapeKept<T>(workers: set<Tid>, s: State<T>, e: Event<T>, s': State<T>)
    requires Shape(workers, s) && Next(s, e, s')
    ensures Shape(workers, s')
  {
  }

  lemma NoneLostKept<T>(workers: set<Tid>, s: State<T>, e: Event<T>, s': State<T>)
    requires Shape(workers, s) && NoneLost(s) && Next(s, e, s')
    ensures NoneLost(s')
  {
    match e
    case Notified =>
      if s.parked != {} {
        assert |s'.woken| == |s.woken| + 1;
      }
    case Spurious(w) => assert |s'.woken| == |s.woken| + 1;
    case Took(w) => assert |s'.woken| >= |s.woken| - 1;
    case _ =>
  }

  lemma AccountedKept<T>(workers: set<Tid>, s: State<T>, e: Event<T>, s': State<T>)
    requires Shape(workers, s) && Accounted(s) && Next(s, e, s')
    ensures Accounted(s')
  {
    hide Accounted;
    match e
    case Added(x) => AddedAccounted(s, x, s');
    case Took(w) => TookAccounted(workers, s, w, s');
    case Finished(w) => FinishedAccounted(s, w, s');
    case _ => SameAccount(s, s');
  }

  /** Moving workers about changes nothing in the accounts. */
  lemma SameAccount<T>(s: State<T>, s': State<T>)
    requires Accounted(s) && s'.submitted == s.submitted && s'.tasks == s.tasks
    requires s'.taken == s.taken && s'.exec == s.exec && s'.finished == s.finished
    ensures Accounted(s')
  {
  }

  lemma AddedAccounted<T>(s: State<T>, x: T, s': State<T>)
    requires Accounted(s) && Next(s, Added(x), s')
    ensures Accounted(s')
  {
    assert (s.submitted + [x])[s.taken..] == s.submitted[s.taken..] + [x];
    SameAccount(s, s'.(submitted := s.submitted, tasks := s.tasks));
  }

  lemma TookAccounted<T>(workers: set<Tid>, s: State<T>, w: Tid, s': State<T>)
    requires Shape(workers, s) && Accounted(s) && Next(s, Took(w), s')
    ensures Accounted(s')
  {
    assert w !in s.exec;
    assert s'.exec[w] == s.taken;
    forall i: nat | i < s.taken && s.finished[i] == 0 ensures exists v :: v in s'.exec && s'.exec[v] == i {
      var v :| v in s.exec && s.exec[v] == i;
      assert s'.exec[v] == i;
    }
  }

  lemma FinishedAccounted<T>(s: State<T>, w: Tid, s': State<T>)
    requires Accounted(s) && Next(s, Finished(w), s')
    ensures Accounted(s')
  {
    forall i: nat | i < s'.taken && s'.finished[i] == 0 ensures exists v :: v in s'.exec && s'.exec[v] == i {
      var v :| v in s.exec && s.exec[v] == i;
      assert s'.exec[v] == i;
    }
  }

  // ---- theorems over runs ----

  /**
   In every reachable state tasks are dequeued in submission order and run at most
   once, and no wake-up is lost although notify_one comes after the unlock; after
   the destructor's notify_all nobody is parked.
   */
  lemma {:induction false} Invariants<T>(workers: set<Tid>, ss: seq<State<T>>, es: seq<Event<T>>, i: nat)
    requires IsRun(workers, ss, es) && i <= |es|
    ensures Shape(workers, ss[i]) && Accounted(ss[i]) && NoneLost(ss[i])
  {
    if i > 0 {
      Invariants(workers, ss, es, i - 1);
      ShapeKept(workers, ss[i - 1], es[i - 1], ss[i]);
      AccountedKept(workers, ss[i - 1], es[i - 1], ss[i]);
      NoneLostKept(workers, ss[i - 1], es[i - 1], ss[i]);
    } else {
      assert Init<T>(workers).exec.Keys == {};
    }
  }

  /** A task in the queue is never left to sleeping workers alone. */
  lemma WorkIsSeen<T>(workers: set<Tid>, ss: seq<State<T>>, es: seq<Event<T>>, i: nat)
    requires IsRun(workers, ss, es) && i <= |es|
    requires ss[i].tasks != [] && ss[i].parked != {}
    ensures ss[i].woken != {} || ss[i].owed > 0
  {
    Invariants(workers, ss, es, i);
  }

  lemma {:induction false} LeaversSawEmpty<T>(workers: set<Tid>, ss: seq<State<T>>, es: seq<Event<T>>, i: nat)
    requires IsRun(workers, ss, es) && NoLateTask(ss, es) && i <= |es|
    ensures ss[i].exited != {} ==> ss[i].stop && ss[i].tasks == []
  {
    if i > 0 {
      LeaversSawEmpty(workers, ss, es, i - 1);
      Invariants(workers, ss, es, i - 1);
      assert Next(ss[i - 1], es[i - 1], ss[i]);
    }
  }

  /** Once all workers have exited the queue is empty and every submitted task has run exactly once. */
  lemma Drained<T>(workers: set<Tid>, ss: seq<State<T>>, es: seq<Event<T>>, i: nat)
    requires IsRun(workers, ss, es) && NoLateTask(ss, es) && i <= |es|
    requires workers != {} && ss[i].exited == workers
    ensures ss[i].tasks == [] && ss[i].taken == |ss[i].submitted|
    ensures forall n: nat :: ss[i].finished[n] == if n < |ss[i].submitted| then 1 else 0
  {
    LeaversSawEmpty(workers, ss, es, i);
    Invariants(workers, ss, es, i);
    assert ss[i].exec.Keys == {};
  }

  /** The same for a pool of `size` workers, by numbers: when that many have exited, all is done. */
  lemma PoolDrains<T>(size: int, ss: seq<State<T>>, es: seq<Event<T>>, i: nat)
    requires IsRun(Workers(size), ss, es) && NoLateTask(ss, es) && i <= |es|
    ensures |ss[i].ready| + |ss[i].parked| + |ss[i].woken| + |ss[i].exec| + |ss[i].exited| ==
            if size > 0 then size else 0
    ensures size > 0 && |ss[i].exited| == size ==>
              && ss[i].tasks == []
              && forall n: nat :: ss[i].finished[n] == if n < |ss[i].submitted| then 1 else 0
  {
    hide Next, Accounted, NoneLost, NoLateTask;
    var s, all := ss[i], Workers(size);
    WorkersAre(size);
    Invariants(all, ss, es, i);
    FiveParts(s.ready, s.parked, s.woken, s.exec.Keys, s.exited);
    assert |s.exec| == |s.exec.Keys|;
    if size > 0 && |s.exited| == size {
      assert |all - s.exited| == 0;
      Drained(all, ss, es, i);
    }
  }

  lemma FiveParts(a: set<Tid>, b: set<Tid>, c: set<Tid>, d: set<Tid>, e: set<Tid>)
    requires a !! b !! c !! d !! e
    ensures |a + b + c + d + e| == |a| + |b| + |c| + |d| + |e|
  {
  }

  // ---- the destructor returns ----

  /** Steps still possible once the destructor has notified all and no task comes in any more. */
  function Remaining<T>(s: State<T>): nat {
    3 * |s.tasks| + 2 * |s.exec| + |s.ready| + |s.woken| + s.owed
  }

  lemma StepsRunOut<T>(workers: set<Tid>, s: State<T>, e: Event<T>, s': State<T>)
    requires Shape(workers, s) && NoneLost(s) && s.notifiedAll && Next(s, e, s')
    requires !e.Added? && !e.Stopped? && !e.NotifiedAll?
    ensures Remaining(s') < Remaining(s) && s'.notifiedAll
  {
  }

  /** As long as a worker is left, some worker can move: tasks end, and nobody is parked. */
  lemma SomeoneCanMove<T>(workers: set<Tid>, s: State<T>) returns (e: Event<T>, s': State<T>)
    requires Shape(workers, s) && NoneLost(s) && s.notifiedAll && s.exited != workers
    ensures Next(s, e, s') && (e.Took? || e.Left? || e.Finished?)
  {
    if w :| w in s.exec {
      e := Finished(w);
      s' := s.(exec := s.exec - {w}, ready := s.ready + {w}, finished := s.finished + multiset{s.exec[w]});
    } else {
      assert s.exec.Keys == {};
      assert s.ready + s.woken + s.exited == workers;
      var w :| w in s.ready + s.woken;
      if s.tasks != [] {
        e := Took(w);
        s' := s.(ready := s.ready - {w}, woken := s.woken - {w}, tasks := s.tasks[1..],
                 exec := s.exec[w := s.taken], taken := s.taken + 1);
      } else {
        e := Left(w);
        s' := s.(ready := s.ready - {w}, woken := s.woken - {w}, exited := s.exited + {w});
      }
    }
  }

  /** After the destructor's notify_all a run without further calls is shorter than what remained. */
  lemma {:induction false} DestructorReturns<T>(workers: set<Tid>, ss: seq<State<T>>, es: seq<Event<T>>, i: nat, j: nat)
    requires IsRun(workers, ss, es) && i <= j <= |es| && ss[i].notifiedAll
    requires forall k :: i <= k < j ==> !es[k].Added? && !es[k].Stopped? && !es[k].NotifiedAll?
    ensures ss[j].notifiedAll && (j - i) + Remaining(ss[j]) <= Remaining(ss[i])
  {
    if i < j {
      DestructorReturns(workers, ss, es, i, j - 1);
      Invariants(workers, ss, es, j - 1);
      StepsRunOut(workers, ss[j - 1], es[j - 1], ss[j]);
    }
  }

  // ---- tasks that come too late ----

  /** The tasks that a stretch of a run adds. */
  function AddedIn<T>(es: seq<Event<T>>): seq<T> {
    if es == [] then []
    else AddedIn(es[..|es| - 1]) + if es[|es| - 1].Added? then [es[|es| - 1].x] else []
  }

  /**
   Whatever tasks arrive and when: once all workers have exited, every task but
   those added after the last one left has run exactly once, and those are left
   in the queue for good. `k` is the number of steps up to the last departure.
   */
  lemma {:induction false} LeftBehind<T>(workers: set<Tid>, ss: seq<State<T>>, es: seq<Event<T>>, i: nat) returns (k: nat)
    requires IsRun(workers, ss, es) && i <= |es| && workers != {} && ss[i].exited == workers
    ensures 0 < k <= i && es[k - 1].Left? && ss[k - 1].exited != workers
    ensures forall m :: k <= m <= i ==> ss[m].exited == workers
    ensures ss[i].tasks == AddedIn(es[k..i])
    ensures forall n: nat :: ss[i].finished[n] == if n < |ss[i].submitted| - |ss[i].tasks| then 1 else 0
  {
    Invariants(workers, ss, es, i);
    OthersRanOnce(workers, ss[i]);
    k := LastLeft(workers, ss, es, i);
  }

  lemma OthersRanOnce<T>(workers: set<Tid>, s: State<T>)
    requires Shape(workers, s) && Accounted(s) && s.exited == workers
    ensures forall n: nat :: s.finished[n] == if n < |s.submitted| - |s.tasks| then 1 else 0
  {
  }

  lemma {:induction false} LastLeft<T>(workers: set<Tid>, ss: seq<State<T>>, es: seq<Event<T>>, i: nat) returns (k: nat)
    requires IsRun(workers, ss, es) && i <= |es| && workers != {} && ss[i].exited == workers
    ensures 0 < k <= i && es[k - 1].Left? && ss[k - 1].exited != workers
    ensures forall m :: k <= m <= i ==> ss[m].exited == workers
    ensures ss[i].tasks == AddedIn(es[k..i])
  {
    hide Accounted, NoneLost, AddedIn, Shape;
    var s, e := ss[i - 1], es[i - 1];
    Invariants(workers, ss, es, i - 1);
    if s.exited == workers {
      k := LastLeft(workers, ss, es, i - 1);
      NobodyTakes(workers, s, e, ss[i]);
      AddedInExtends(es, k, i);
    } else {
      k := i;
      OnlyLeaversExit(s, e, ss[i]);
      AddedInExtends(es, i, i);
      assert es[k..i] == [];
    }
  }

  lemma OnlyLeaversExit<T>(s: State<T>, e: Event<T>, s': State<T>)
    requires Next(s, e, s') && s'.exited != s.exited
    ensures e.Left? && s'.tasks == []
  {
  }

  lemma AddedInExtends<T>(es: seq<Event<T>>, k: nat, i: nat)
    requires k <= i <= |es|
    ensures k == i ==> AddedIn(es[k..i]) == []
    ensures k < i ==> AddedIn(es[k..i]) == AddedIn(es[k..i - 1]) + if es[i - 1].Added? then [es[i - 1].x] else []
  {
    if k < i {
      assert es[k..i][..i - 1 - k] == es[k..i - 1];
    }
  }

  lemma NobodyTakes<T>(workers: set<Tid>, s: State<T>, e: Event<T>, s': State<T>)
    requires Shape(workers, s) && s.exited == workers && Next(s, e, s')
    ensures s'.tasks == s.tasks + if e.Added? then [e.x] else []
  {
  }

  lemma {:induction false} ExitedStay<T>(workers: set<Tid>, ss: seq<State<T>>, es: seq<Event<T>>, m: nat, i: nat)
    requires IsRun(workers, ss, es) && m <= i <= |es|
    ensures ss[m].exited <= ss[i].exited <= workers
    ensures ss[i].exited != {} ==> ss[i].stop
    decreases i
  {
    hide Next, Accounted, NoneLost;
    Invariants(workers, ss, es, i);
    if i > 0 {
      ExitedStay(workers, ss, es, if m < i then m else i - 1, i - 1);
      ExitedGrow(ss[i - 1], es[i - 1], ss[i]);
    }
  }

  lemma ExitedGrow<T>(s: State<T>, e: Event<T>, s': State<T>)
    requires Next(s, e, s') && (s.exited != {} ==> s.stop)
    ensures s.exited <= s'.exited && (s'.exited != {} ==> s'.stop)
  {
  }

  /**
   So the queue of a pool whose workers have all exited is empty exactly when every
   task was added while some worker was still there; `k` is the last departure.
   */
  lemma DrainedIff<T>(workers: set<Tid>, ss: seq<State<T>>, es: seq<Event<T>>, i: nat) returns (k: nat)
    requires IsRun(workers, ss, es) && i <= |es| && workers != {} && ss[i].exited == workers
    ensures 0 < k <= i && es[k - 1].Left? && ss[k - 1].exited != workers
    ensures forall m :: k <= m <= i ==> ss[m].exited == workers
    ensures ss[i].tasks == [] <==> forall m :: k <= m < i ==> !es[m].Added?
    ensures ss[i].tasks == [] <==> forall m :: 0 <= m < i && es[m].Added? ==> ss[m].exited != workers
  {
    hide Next, Accounted, NoneLost;
    k := LeftBehind(workers, ss, es, i);
    NothingAddedIff(es[k..i]);
    assert forall m :: k <= m < i ==> es[m] == es[k..i][m - k];
    assert forall m :: 0 <= m < i - k ==> es[k..i][m] == es[k + m];
    forall m | 0 <= m < k ensures ss[m].exited != workers {
      ExitedStay(workers, ss, es, m, k - 1);
    }
  }

  /**
   What callers can see to: a pool drains, every task having run exactly once, when
   each task that comes after `stop` comes while some worker is running a task, as
   when only tasks submit tasks by then.
   */
  lemma DrainsIfAddedWhileRunning<T>(workers: set<Tid>, ss: seq<State<T>>, es: seq<Event<T>>, i: nat)
    requires IsRun(workers, ss, es) && i <= |es| && workers != {} && ss[i].exited == workers
    requires forall m :: 0 <= m < i && es[m].Added? && ss[m].stop ==> ss[m].exec != map[]
    ensures ss[i].tasks == []
    ensures forall n: nat :: ss[i].finished[n] == if n < |ss[i].submitted| then 1 else 0
  {
    hide Next, Accounted, NoneLost;
    forall m | 0 <= m < i && es[m].Added? ensures ss[m].exited != workers {
      ExitedStay(workers, ss, es, m, m);
      Invariants(workers, ss, es, m);
      if ss[m].stop {
        RunningHasNotExited(workers, ss[m]);
      }
    }
    var k := DrainedIff(workers, ss, es, i);
    k := LeftBehind(workers, ss, es, i);
  }

  lemma RunningHasNotExited<T>(workers: set<Tid>, s: State<T>)
    requires Shape(workers, s) && s.exec != map[]
    ensures s.exited != workers
  {
    var w :| w in s.exec;
    assert w in s.exec.Keys;
  }

  lemma {:induction false} NothingAddedIff<T>(es: seq<Event<T>>)
    ensures AddedIn(es) == [] <==> forall m :: 0 <= m < |es| ==> !es[m].Added?
  {
    if es != [] {
      NothingAddedIff(es[..|es| - 1]);
      assert forall m :: 0 <= m < |es| - 1 ==> es[m] == es[..|es| - 1][m];
    }
  }

  /** Such a run exists: a task that arrives after the only worker left stays queued. */
  lemma LateTaskIsStranded(x: int) returns (ss: seq<State<int>>, es: seq<Event<int>>)
    ensures IsRun({0}, ss, es) && |es| == 3 && ss[3].exited == {0} && ss[3].tasks == [x]
  {
    var s0: State<int> := Init({0});
    var s1 := s0.(stop := true);
    var s2 := s1.(ready := {}, exited := {0});
    var s3 := s2.(tasks := [x], submitted := [x], owed := 1);
    ss, es := [s0, s1, s2, s3], [Stopped, Left(0), Added(x)];
    assert Next(s1, es[1], s2) by {
      assert s1.ready - {0} == {} && s1.woken - {0} == {} && s1.exited + {0} == {0};
    }
    assert Next(s2, es[2], s3) by {
      assert s2.tasks + [x] == [x] && s2.submitted + [x] == [x];
    }
  }

  // ---- the class ----

  /** The object; each method is one atomic part of the source's functions. */
  class ThreadPool<T> {
    var tasks: seq<T>
    var stop: bool
    ghost var notifiedAll: bool
    ghost var owed: nat
    ghost var ready: set<Tid>
    ghost var parked: set<Tid>
    ghost var woken: set<Tid>
    ghost var exec: map<Tid, nat>
    ghost var exited: set<Tid>
    ghost var submitted: seq<T>
    ghost var taken: nat
    ghost var finished: multiset<nat>

    ghost function View(): State<T>
      reads this
    {
      State(tasks, stop, notifiedAll, owed, ready, parked, woken, exec, exited, submitted, taken, finished)
    }

    /** Starts `size` workers; a size of zero or less starts none. */
    constructor (size: int)
      ensures View() == Init(Workers(size))
      ensures |ready| == (if size > 0 then size else 0) && forall w: Tid :: w in ready <==> w < size
    {
      tasks, stop, notifiedAll, owed := [], false, false, 0;
      ready, parked, woken, exec, exited := {}, {}, {}, map[], {};
      submitted, taken, finished := [], 0, multiset{};
      new;
      var i := 0;
      while i < size
        invariant 0 <= i && (i <= size || i == 0)
        invariant View() == Init(Workers(i))
      {
        ready := ready + {i};
        i := i + 1;
      }
      WorkersAre(size);
    }

    /** `addTask` under the lock ... */
    method Push(x: T)
      modifies this`tasks, this`submitted, this`owed
      ensures Next(old(View()), Added(x), View())
    {
      tasks := tasks + [x];
      submitted, owed := submitted + [x], owed + 1;
    }

    /** ... and its notify_one after the unlock. */
    ghost method Notify()
      requires owed > 0
      modifies this`owed, this`parked, this`woken
      ensures Next(old(View()), Notified, View())
    {
      owed := owed - 1;
      if parked != {} {
        var w :| w in parked;
        parked, woken := parked - {w}, woken + {w};
      }
    }

    /** The locked block of the worker loop: wait, return, or take the front task. */
    method WorkerTurn(ghost w: Tid) returns (sleeps: bool, leaves: bool, task: seq<T>)
      requires AtTest(View(), w)
      modifies this
      ensures if sleeps then task == [] && Next(old(View()), Slept(w), View())
              else if leaves then task == [] && Next(old(View()), Left(w), View())
              else old(tasks) != [] && task == [old(tasks)[0]] && Next(old(View()), Took(w), View())
    {
      ready, woken := ready - {w}, woken - {w};
      if !(stop || tasks != []) {
        parked := parked + {w};
        return true, false, [];
      }
      if stop && tasks == [] {
        exited := exited + {w};
        return false, true, [];
      }
      task := [tasks[0]];
      tasks := tasks[1..];
      exec, taken := exec[w := taken], taken + 1;
      sleeps, leaves := false, false;
    }

    /** The task has returned. */
    ghost method TaskDone(w: Tid)
      requires w in exec
      modifies this`exec, this`ready, this`finished
      ensures Next(old(View()), Finished(w), View())
    {
      finished, ready := finished + multiset{exec[w]}, ready + {w};
      exec := exec - {w};
    }

    /** The destructor under the lock. */
    method Stop()
      modifies this`stop
      ensures Next(old(View()), Stopped, View())
    {
      stop := true;
    }

    /** Its notify_all. */
    ghost method NotifyAll()
      requires stop
      modifies this`parked, this`woken, this`notifiedAll
      ensures Next(old(View()), NotifiedAll, View())
    {
      parked, woken, notifiedAll := {}, woken + parked, true;
    }
  }
}

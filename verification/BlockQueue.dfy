/**
 The bounded blocking queue as a step system over any number of threads. A step
 is what one thread does between taking the lock and giving it up, a wake-up, or
 a notification; condition variables may wake threads spuriously.
 */
module BlockQueue {

  type Tid = nat

  /** What a producer calls: push_back, or push_front. */
  datatype Want<T> = Want(front: bool, x: T)

  datatype State<T> = State(
    capacity: nat,
    queue: seq<T>,
    isClose: bool,
    parkedC: set<Tid>,          // consumers waiting on _consumerCond
    wokenC: set<Tid>,           // consumers notified, not yet back under the lock
    parkedP: set<Tid>,          // producers, likewise on _producerCond
    wokenP: set<Tid>,
    wants: map<Tid, Want<T>>,   // what a waiting producer is going to push
    pushed: seq<T>,             // history
    popped: seq<T>)

  datatype Event<T> =
    | Pushed(t: Tid, w: Want<T>)
    | PushParked(t: Tid, w: Want<T>)
    | Popped(t: Tid, x: T)
    | PopParked(t: Tid)
    | PopRefused(t: Tid)
    | SpuriousC(t: Tid)
    | SpuriousP(t: Tid)
    | CloseLocked
    | ConsumersNotified
    | ProducersNotified
    | Flushed
    | Cleared

  function Init<T>(capacity: nat): State<T> {
    State(capacity, [], false, {}, {}, {}, {}, map[], [], [])
  }

  ghost predicate Idle<T>(s: State<T>, t: Tid) {
    t !in s.parkedC && t !in s.wokenC && t !in s.parkedP && t !in s.wokenP
  }

  ghost predicate NotifyConsumer<T>(s: State<T>, s': State<T>) {
    if s.parkedC == {} then s' == s
    else exists c :: c in s.parkedC && s' == s.(parkedC := s.parkedC - {c}, wokenC := s.wokenC + {c})
  }

  ghost predicate NotifyProducer<T>(s: State<T>, s': State<T>) {
    if s.parkedP == {} then s' == s
    else exists p :: p in s.parkedP && s' == s.(parkedP := s.parkedP - {p}, wokenP := s.wokenP + {p})
  }

  /** Thread `t` is about to test `_queue.size() >= _capacity`, on entry or after a wake-up. */
  ghost predicate AtPush<T>(s: State<T>, t: Tid, w: Want<T>) {
    Idle(s, t) || (t in s.wokenP && t in s.wants && s.wants[t] == w)
  }

  /** Thread `t` is about to test `_queue.empty()`; a woken one has seen `_isClose` false. */
  ghost predicate AtPop<T>(s: State<T>, t: Tid) {
    Idle(s, t) || (t in s.wokenC && !s.isClose)
  }

  ghost predicate Next<T>(s: State<T>, e: Event<T>, s': State<T>) {
    match e
    case Pushed(t, w) =>
      && AtPush(s, t, w) && |s.queue| < s.capacity
      && NotifyConsumer(s.(wokenP := s.wokenP - {t}, pushed := s.pushed + [w.x],
                           queue := if w.front then [w.x] + s.queue else s.queue + [w.x]), s')
    case PushParked(t, w) =>
      && AtPush(s, t, w) && |s.queue| >= s.capacity
      && s' == s.(wokenP := s.wokenP - {t}, parkedP := s.parkedP + {t}, wants := s.wants[t := w])
    case Popped(t, x) =>
      && AtPop(s, t) && s.queue != [] && x == s.queue[0]
      && NotifyProducer(s.(wokenC := s.wokenC - {t}, queue := s.queue[1..], popped := s.popped + [x]), s')
    case PopParked(t) =>
      && AtPop(s, t) && s.queue == []
      && s' == s.(wokenC := s.wokenC - {t}, parkedC := s.parkedC + {t})
    case PopRefused(t) =>
      t in s.wokenC && s.isClose && s' == s.(wokenC := s.wokenC - {t})
    case SpuriousC(t) =>
      t in s.parkedC && s' == s.(parkedC := s.parkedC - {t}, wokenC := s.wokenC + {t})
    case SpuriousP(t) =>
      t in s.parkedP && s' == s.(parkedP := s.parkedP - {t}, wokenP := s.wokenP + {t})
    case CloseLocked => s' == s.(queue := [], isClose := true)
    case ConsumersNotified => s.isClose && s' == s.(parkedC := {}, wokenC := s.wokenC + s.parkedC)
    case ProducersNotified => s.isClose && s' == s.(parkedP := {}, wokenP := s.wokenP + s.parkedP)
    case Flushed => NotifyConsumer(s, s')
    case Cleared => s' == s.(queue := [])
  }

  ghost predicate IsRun<T>(capacity: nat, ss: seq<State<T>>, es: seq<Event<T>>) {
    && |ss| == |es| + 1 && capacity > 0 && ss[0] == Init(capacity)
    && forall i :: 0 <= i < |es| ==> Next(ss[i], es[i], ss[i + 1])
  }

  /** Steps of an open queue: neither closed nor cleared. */
  predicate Open<T>(e: Event<T>) {
    !e.CloseLocked? && !e.Cleared?
  }

  // ---- no lost wake-up ----

  ghost predicate Shape<T>(s: State<T>) {
    && s.capacity > 0 && |s.queue| <= s.capacity
    && s.parkedC !! s.wokenC !! s.parkedP !! s.wokenP
  }

  /** Whoever is parked has at least as many woken peers as there is work for. */
  ghost predicate ConsumersCovered<T>(s: State<T>) {
    s.parkedC != {} ==> |s.queue| <= |s.wokenC|
  }

  ghost predicate ProducersCovered<T>(s: State<T>) {
    s.parkedP != {} ==> s.capacity - |s.queue| <= |s.wokenP|
  }

  ghost predicate NoneLost<T>(s: State<T>) {
    ConsumersCovered(s) && ProducersCovered(s)
  }

  lemma ShapeKept<T>(s: State<T>, e: Event<T>, s': State<T>)
    requires Shape(s) && Next(s, e, s')
    ensures Shape(s') && s'.capacity == s.capacity
  {
  }

  lemma NotifyConsumerCounts<T>(s: State<T>, s': State<T>)
    requires NotifyConsumer(s, s') && s.parkedC !! s.wokenC
    ensures s'.parkedC != {} ==> s.parkedC != {} && |s'.wokenC| == |s.wokenC| + 1
    ensures s' == s.(parkedC := s'.parkedC, wokenC := s'.wokenC)
  {
  }

  lemma NotifyProducerCounts<T>(s: State<T>, s': State<T>)
    requires NotifyProducer(s, s') && s.parkedP !! s.wokenP
    ensures s'.parkedP != {} ==> s.parkedP != {} && |s'.wokenP| == |s.wokenP| + 1
    ensures s' == s.(parkedP := s'.parkedP, wokenP := s'.wokenP)
  {
  }

  /**
   The three steps that can lose a wake-up, and when they do not: emptying the queue
   frees slots without telling producers, and a woken consumer that gives up takes
   its wake-up with it.
   */
  ghost predicate Safe<T>(s: State<T>, e: Event<T>) {
    match e
    case Cleared => s.parkedP == {} || s.capacity <= |s.wokenP|
    case CloseLocked => s.parkedP == {} || s.capacity <= |s.wokenP|
    case PopRefused(_) => s.parkedC == {} || |s.queue| < |s.wokenC|
    case _ => true
  }

  lemma NoneLostKeptIff<T>(s: State<T>, e: Event<T>, s': State<T>)
    requires Shape(s) && NoneLost(s) && Next(s, e, s')
    ensures NoneLost(s') <==> Safe(s, e)
  {
    hide Shape, Next, ConsumersCovered, ProducersCovered;
    ConsumersKeptIff(s, e, s');
    ProducersKeptIff(s, e, s');
  }

  lemma ConsumersKeptIff<T>(s: State<T>, e: Event<T>, s': State<T>)
    requires Shape(s) && ConsumersCovered(s) && Next(s, e, s')
    ensures ConsumersCovered(s') <==> (e.PopRefused? ==> Safe(s, e))
  {
    match e
    case Pushed(t, w) => PushKeepsConsumers(s, t, w, s');
    case Popped(t, x) => PopKeepsConsumers(s, t, x, s');
    case Flushed => NotifyConsumerCounts(s, s');
    case SpuriousC(t) => assert |s'.wokenC| == |s.wokenC| + 1;
    case PopRefused(t) => assert |s'.wokenC| == |s.wokenC| - 1;
    case _ =>
  }

  lemma PushKeepsConsumers<T>(s: State<T>, t: Tid, w: Want<T>, s': State<T>)
    requires Shape(s) && ConsumersCovered(s) && Next(s, Pushed(t, w), s')
    ensures ConsumersCovered(s')
  {
    NotifyConsumerCounts(s.(wokenP := s.wokenP - {t}, pushed := s.pushed + [w.x],
                            queue := if w.front then [w.x] + s.queue else s.queue + [w.x]), s');
  }

  lemma PopKeepsConsumers<T>(s: State<T>, t: Tid, x: T, s': State<T>)
    requires Shape(s) && ConsumersCovered(s) && Next(s, Popped(t, x), s')
    ensures ConsumersCovered(s')
  {
    assert |s'.wokenC| >= |s.wokenC| - 1 && |s'.queue| == |s.queue| - 1;
  }

  lemma ProducersKeptIff<T>(s: State<T>, e: Event<T>, s': State<T>)
    requires Shape(s) && ProducersCovered(s) && Next(s, e, s')
    ensures ProducersCovered(s') <==> (e.CloseLocked? || e.Cleared? ==> Safe(s, e))
  {
    match e
    case Pushed(t, w) => PushKeepsProducers(s, t, w, s');
    case Popped(t, x) => PopKeepsProducers(s, t, x, s');
    case SpuriousP(t) => assert |s'.wokenP| == |s.wokenP| + 1;
    case _ =>
  }

  lemma PushKeepsProducers<T>(s: State<T>, t: Tid, w: Want<T>, s': State<T>)
    requires Shape(s) && ProducersCovered(s) && Next(s, Pushed(t, w), s')
    ensures ProducersCovered(s')
  {
    assert |s'.wokenP| >= |s.wokenP| - 1 && |s'.queue| == |s.queue| + 1;
  }

  lemma PopKeepsProducers<T>(s: State<T>, t: Tid, x: T, s': State<T>)
    requires Shape(s) && ProducersCovered(s) && Next(s, Popped(t, x), s')
    ensures ProducersCovered(s')
  {
    NotifyProducerCounts(s.(wokenC := s.wokenC - {t}, queue := s.queue[1..], popped := s.popped + [x]), s');
  }

  /**
   In a run of any steps whatsoever, no wake-up is lost at any time if and only if
   every clear, close and refusal meets its condition.
   */
  lemma {:induction false} NoLostWakeupIff<T>(capacity: nat, ss: seq<State<T>>, es: seq<Event<T>>, i: nat)
    requires IsRun(capacity, ss, es) && i <= |es|
    ensures (forall k :: 0 <= k <= i ==> NoneLost(ss[k])) <==> (forall k :: 0 <= k < i ==> Safe(ss[k], es[k]))
  {
    hide Next, Safe;
    if i > 0 {
      NoLostWakeupIff(capacity, ss, es, i - 1);
      NeverOverCapacity(capacity, ss, es, i - 1);
      if NoneLost(ss[i - 1]) {
        NoneLostKeptIff(ss[i - 1], es[i - 1], ss[i]);
      }
    }
  }

  lemma {:induction false} OpenRunIsSafe<T>(capacity: nat, ss: seq<State<T>>, es: seq<Event<T>>, i: nat)
    requires IsRun(capacity, ss, es) && i <= |es|
    requires forall k :: 0 <= k < i ==> Open(es[k]) || (es[k].Cleared? && Safe(ss[k], es[k]))
    ensures !ss[i].isClose && forall k :: 0 <= k < i ==> Safe(ss[k], es[k])
  {
    if i > 0 {
      OpenRunIsSafe(capacity, ss, es, i - 1);
      assert Next(ss[i - 1], es[i - 1], ss[i]);
    }
  }

  /**
   In every state of every run of a queue that is not closed, and cleared only
   safely, no wake-up is lost, so no two sides sleep at once.
   */
  lemma {:induction false} NoLostWakeup<T>(capacity: nat, ss: seq<State<T>>, es: seq<Event<T>>, i: nat)
    requires IsRun(capacity, ss, es) && i <= |es|
    requires forall k :: 0 <= k < i ==> Open(es[k]) || (es[k].Cleared? && Safe(ss[k], es[k]))
    ensures Shape(ss[i]) && NoneLost(ss[i]) && !ss[i].isClose && ss[i].capacity == capacity
    ensures !(ss[i].parkedC != {} && ss[i].parkedP != {} && ss[i].wokenC == {} && ss[i].wokenP == {})
  {
    hide Next;
    OpenRunIsSafe(capacity, ss, es, i);
    NoLostWakeupIff(capacity, ss, es, i);
    NeverOverCapacity(capacity, ss, es, i);
  }

  /** A clear that a caller can tell to be safe: the queue is not full and no producer is on its way back. */
  lemma ClearOfNonFullIsSafe<T>(s: State<T>)
    requires Shape(s) && NoneLost(s) && |s.queue| < s.capacity && s.wokenP == {}
    ensures s.parkedP == {} && Safe(s, Cleared)
  {
  }

  // ---- producers across a close ----

  lemma NotifiedAreCovered<T>(s: State<T>, s': State<T>)
    requires Next(s, ProducersNotified, s')
    ensures ProducersCovered(s')
  {
  }

  /** `close` notifies all producers, so from then on none of theirs is lost, until the next unsafe clear or close. */
  lemma {:induction false} ProducersCoveredAfterClose<T>(
    capacity: nat, ss: seq<State<T>>, es: seq<Event<T>>, i: nat, j: nat)
    requires IsRun(capacity, ss, es) && i < j <= |es| && es[i] == ProducersNotified
    requires forall k :: i < k < j && (es[k].CloseLocked? || es[k].Cleared?) ==> Safe(ss[k], es[k])
    ensures ProducersCovered(ss[j])
  {
    hide Next, Safe, ProducersCovered;
    if j == i + 1 {
      NotifiedAreCovered(ss[i], ss[j]);
    } else {
      ProducersCoveredAfterClose(capacity, ss, es, i, j - 1);
      NeverOverCapacity(capacity, ss, es, j - 1);
      ProducersKeptIff(ss[j - 1], es[j - 1], ss[j]);
    }
  }

  // ---- wake-ups that are lost ----

  /** A run of three steps after which a producer sleeps beside an empty queue. */
  lemma ClearLosesWakeup(x: int) returns (ss: seq<State<int>>, es: seq<Event<int>>)
    ensures IsRun(1, ss, es) && |es| == 3 && es[2] == Cleared && !NoneLost(ss[3])
  {
    var w := Want(false, x);
    var s0: State<int> := Init(1);
    var s1 := s0.(queue := [x], pushed := [x]);
    var s2 := s1.(parkedP := {1}, wants := map[1 := w]);
    ss := [s0, s1, s2, s2.(queue := [])];
    es := [Pushed(0, w), PushParked(1, w), Cleared];
    assert Next(s0, es[0], s1) by {
      assert s0.wokenP - {0} == {} && s0.queue + [x] == [x] && s0.pushed + [x] == [x];
    }
    assert Next(s1, es[1], s2) by {
      assert s1.wokenP - {1} == {} && s1.parkedP + {1} == {1};
    }
  }

  /** After a close a consumer that gives up leaves an item beside a sleeping one. */
  lemma RefusalLosesWakeup(x: int) returns (ss: seq<State<int>>, es: seq<Event<int>>)
    ensures IsRun(1, ss, es) && |es| == 5 && es[4] == PopRefused(0)
    ensures ss[5].parkedC == {1} && ss[5].wokenC == {} && ss[5].queue == [x] && !NoneLost(ss[5])
  {
    var w := Want(false, x);
    var s0: State<int> := Init(1);
    var s1 := s0.(isClose := true);
    var s2 := s1.(parkedC := {0});
    var s3 := s2.(parkedC := {0, 1});
    var s4 := s3.(queue := [x], pushed := [x], parkedC := {1}, wokenC := {0});
    ss := [s0, s1, s2, s3, s4, s4.(wokenC := {})];
    es := [CloseLocked, PopParked(0), PopParked(1), Pushed(2, w), PopRefused(0)];
    assert Next(s1, es[1], s2) by { assert s1.wokenC - {0} == {} && s1.parkedC + {0} == {0}; }
    assert Next(s2, es[2], s3) by { assert s2.wokenC - {1} == {} && s2.parkedC + {1} == {0, 1}; }
    assert Next(s3, es[3], s4) by {
      assert s3.wokenP - {2} == {} && s3.queue + [x] == [x] && s3.pushed + [x] == [x];
      assert 0 in s3.parkedC && s3.parkedC - {0} == {1} && s3.wokenC + {0} == {0};
    }
    assert s4.wokenC - {0} == {};
  }

  // ---- bound, order, conservation ----

  lemma {:induction false} NeverOverCapacity<T>(capacity: nat, ss: seq<State<T>>, es: seq<Event<T>>, i: nat)
    requires IsRun(capacity, ss, es) && i <= |es|
    ensures Shape(ss[i]) && |ss[i].queue| <= ss[i].capacity == capacity
  {
    if i > 0 {
      NeverOverCapacity(capacity, ss, es, i - 1);
      ShapeKept(ss[i - 1], es[i - 1], ss[i]);
    }
  }

  /** Until it is closed or cleared, what was pushed at the back comes out at the front in the same order. */
  lemma {:induction false} Fifo<T>(capacity: nat, ss: seq<State<T>>, es: seq<Event<T>>, i: nat)
    requires IsRun(capacity, ss, es) && i <= |es|
    requires forall k :: 0 <= k < i ==> Open(es[k]) && (es[k].Pushed? ==> !es[k].w.front)
    ensures ss[i].pushed == ss[i].popped + ss[i].queue
  {
    if i > 0 {
      Fifo(capacity, ss, es, i - 1);
      FifoKept(ss[i - 1], es[i - 1], ss[i]);
    }
  }

  lemma FifoKept<T>(s: State<T>, e: Event<T>, s': State<T>)
    requires Next(s, e, s') && Open(e) && (e.Pushed? ==> !e.w.front)
    requires s.pushed == s.popped + s.queue
    ensures s'.pushed == s'.popped + s'.queue
  {
  }

  // ---- whose turn it is ----

  /** How many items come before one that had `ahead` before it, after these steps; -1 is for the item taken. */
  function Ahead<T>(ahead: int, es: seq<Event<T>>): int {
    if es == [] then ahead
    else
      var e := es[|es| - 1];
      Ahead(ahead, es[..|es| - 1]) + if e.Pushed? && e.w.front then 1 else if e.Popped? then -1 else 0
  }

  /** Its place in the queue moves so at every step, until it is its turn. */
  lemma {:induction false} PlaceInLine<T>(
    capacity: nat, ss: seq<State<T>>, es: seq<Event<T>>, i: nat, j: nat, p: nat)
    requires IsRun(capacity, ss, es) && i <= j <= |es| && p < |ss[i].queue|
    requires forall m :: i <= m < j ==> Open(es[m]) && (es[m].Popped? ==> Ahead(p, es[i..m]) > 0)
    ensures 0 <= Ahead(p, es[i..j]) < |ss[j].queue| && ss[j].queue[Ahead(p, es[i..j])] == ss[i].queue[p]
    decreases j
  {
    hide Next;
    assert es[i..i] == [];
    if i < j {
      PlaceInLine(capacity, ss, es, i, j - 1, p);
      assert es[i..j][..j - 1 - i] == es[i..j - 1];
      PlaceMoves(ss[j - 1], es[j - 1], ss[j], Ahead(p, es[i..j - 1]));
    }
  }

  lemma PlaceMoves<T>(s: State<T>, e: Event<T>, s': State<T>, p: nat)
    requires Next(s, e, s') && Open(e) && p < |s.queue| && (e.Popped? ==> p > 0)
    ensures var q := p + if e.Pushed? && e.w.front then 1 else if e.Popped? then -1 else 0;
            q < |s'.queue| && s'.queue[q] == s.queue[p]
  {
  }

  /**
   What a producer puts in comes out when the items before it have: none for
   push_front, all that were queued for push_back, and those that later producers
   put in front.
   */
  lemma ServedInTurn<T>(capacity: nat, ss: seq<State<T>>, es: seq<Event<T>>, i: nat, j: nat)
    requires IsRun(capacity, ss, es) && i < j < |es| && es[i].Pushed? && es[j].Popped?
    requires var p := if es[i].w.front then 0 else |ss[i].queue|;
             && Ahead(p, es[i + 1..j]) == 0
             && forall m :: i < m < j ==> Open(es[m]) && (es[m].Popped? ==> Ahead(p, es[i + 1..m]) > 0)
    ensures es[j].x == es[i].w.x
  {
    hide Ahead;
    var p := if es[i].w.front then 0 else |ss[i].queue|;
    assert Next(ss[i], es[i], ss[i + 1]) && Next(ss[j], es[j], ss[j + 1]);
    assert p < |ss[i + 1].queue| && ss[i + 1].queue[p] == es[i].w.x;
    PlaceInLine(capacity, ss, es, i + 1, j, p);
  }

  /** With push_front in play the order may change, but nothing is lost or made up. */
  lemma {:induction false} Conserved<T>(capacity: nat, ss: seq<State<T>>, es: seq<Event<T>>, i: nat)
    requires IsRun(capacity, ss, es) && i <= |es|
    requires forall k :: 0 <= k < i ==> Open(es[k])
    ensures multiset(ss[i].pushed) == multiset(ss[i].popped) + multiset(ss[i].queue)
  {
    if i > 0 {
      Conserved(capacity, ss, es, i - 1);
      ConservedKept(ss[i - 1], es[i - 1], ss[i]);
    }
  }

  lemma ConservedKept<T>(s: State<T>, e: Event<T>, s': State<T>)
    requires Next(s, e, s') && Open(e)
    requires multiset(s.pushed) == multiset(s.popped) + multiset(s.queue)
    ensures multiset(s'.pushed) == multiset(s'.popped) + multiset(s'.queue)
  {
    match e
    case Pushed(_, w) => PushedCounts(s.pushed, s.popped, s.queue, w);
    case Popped(_, _) => PoppedCounts(s.popped, s.queue);
    case _ =>
  }

  lemma PushedCounts<T>(pushed: seq<T>, popped: seq<T>, q: seq<T>, w: Want<T>)
    requires multiset(pushed) == multiset(popped) + multiset(q)
    ensures multiset(pushed + [w.x]) ==
            multiset(popped) + multiset(if w.front then [w.x] + q else q + [w.x])
  {
    assert multiset([w.x] + q) == multiset{w.x} + multiset(q);
  }

  lemma PoppedCounts<T>(popped: seq<T>, q: seq<T>)
    requires q != []
    ensures multiset(popped) + multiset(q) == multiset(popped + [q[0]]) + multiset(q[1..])
  {
    assert q == [q[0]] + q[1..];
  }

  // ---- closing ----

  /** Thread `t` has been woken into a closed queue. */
  ghost predicate MustRefuse<T>(s: State<T>, t: Tid) {
    t in s.wokenC && s.isClose
  }

  predicate TakesOrSleeps<T>(e: Event<T>, t: Tid) {
    (e.Popped? && e.t == t) || (e.PopParked? && e.t == t)
  }

  lemma MustRefuseKept<T>(s: State<T>, e: Event<T>, s': State<T>, t: Tid)
    requires Shape(s) && MustRefuse(s, t) && Next(s, e, s')
    ensures MustRefuse(s', t) || e == PopRefused(t)
    ensures !TakesOrSleeps(e, t)
  {
  }

  /**
   A consumer parked when `close` notifies returns false before it does anything
   else: from then on it is either still on its way, having taken nothing, or the
   refusal was its first step.
   */
  lemma {:induction false} ParkedAtCloseIsRefused<T>(
    capacity: nat, ss: seq<State<T>>, es: seq<Event<T>>, i: nat, t: Tid, j: nat) returns (k: nat)
    requires IsRun(capacity, ss, es) && i < j <= |es|
    requires es[i] == ConsumersNotified && t in ss[i].parkedC
    ensures i < k <= j && forall m :: i < m < k ==> !TakesOrSleeps(es[m], t)
    ensures if k == j then MustRefuse(ss[j], t) else es[k] == PopRefused(t)
  {
    if j == i + 1 {
      k := j;
    } else {
      k := ParkedAtCloseIsRefused(capacity, ss, es, i, t, j - 1);
      if k == j - 1 {
        NeverOverCapacity(capacity, ss, es, k);
        MustRefuseKept(ss[k], es[k], ss[j], t);
        if es[k] != PopRefused(t) {
          k := j;
        }
      }
    }
  }

  // ---- the class ----

  /**
   The object itself. The wait sets and histories are ghost; a `Turn` method is
   what a thread does under the lock, from taking it to waiting or returning.
   */
  class BlockQueue<T> {
    var queue: seq<T>
    var isClose: bool
    const capacity: nat
    ghost var parkedC: set<Tid>
    ghost var wokenC: set<Tid>
    ghost var parkedP: set<Tid>
    ghost var wokenP: set<Tid>
    ghost var wants: map<Tid, Want<T>>
    ghost var pushed: seq<T>
    ghost var popped: seq<T>

    ghost function View(): State<T>
      reads this
    {
      State(capacity, queue, isClose, parkedC, wokenC, parkedP, wokenP, wants, pushed, popped)
    }

    /** `errif` refuses a capacity of zero. */
    constructor (maxCapacity: nat)
      requires maxCapacity > 0
      ensures View() == Init(maxCapacity)
    {
      capacity, queue, isClose := maxCapacity, [], false;
      parkedC, wokenC, parkedP, wokenP, wants, pushed, popped := {}, {}, {}, {}, map[], [], [];
    }

    ghost method NotifyOneConsumer()
      modifies this`parkedC, this`wokenC
      ensures NotifyConsumer(old(View()), View())
    {
      if parkedC != {} {
        var c :| c in parkedC;
        parkedC, wokenC := parkedC - {c}, wokenC + {c};
      }
    }

    ghost method NotifyOneProducer()
      modifies this`parkedP, this`wokenP
      ensures NotifyProducer(old(View()), View())
    {
      if parkedP != {} {
        var p :| p in parkedP;
        parkedP, wokenP := parkedP - {p}, wokenP + {p};
      }
    }

    /** `push_back` and `push_front`, from the test of the loop to waiting or returning. */
    method PushTurn(ghost t: Tid, front: bool, item: T) returns (parked: bool)
      requires AtPush(View(), t, Want(front, item))
      modifies this
      ensures var w := Want(front, item);
              Next(old(View()), if parked then PushParked(t, w) else Pushed(t, w), View())
    {
      wokenP := wokenP - {t};
      if |queue| >= capacity {
        parkedP, wants := parkedP + {t}, wants[t := Want(front, item)];
        return true;
      }
      queue := if front then [item] + queue else queue + [item];
      pushed := pushed + [item];
      NotifyOneConsumer();
      parked := false;
    }

    /** `pop` of a thread that enters, or that was woken and has found the queue open. */
    method PopTurn(ghost t: Tid) returns (parked: bool, item: seq<T>)
      requires AtPop(View(), t)
      modifies this
      ensures parked ==> item == [] && Next(old(View()), PopParked(t), View())
      ensures !parked ==> |item| == 1 && Next(old(View()), Popped(t, item[0]), View())
    {
      wokenC := wokenC - {t};
      if queue == [] {
        parkedC := parkedC + {t};
        return true, [];
      }
      item, queue := [queue[0]], queue[1..];
      popped := popped + item;
      NotifyOneProducer();
      parked := false;
    }

    /** The test behind `wait` in `pop`: a woken consumer of a closed queue returns false. */
    method WokenPop(ghost t: Tid) returns (refused: bool, parked: bool, item: seq<T>)
      requires t in wokenC
      modifies this
      ensures refused == old(isClose)
      ensures refused ==> Next(old(View()), PopRefused(t), View())
      ensures !refused && parked ==> Next(old(View()), PopParked(t), View())
      ensures !refused && !parked ==> |item| == 1 && Next(old(View()), Popped(t, item[0]), View())
    {
      if isClose {
        wokenC := wokenC - {t};
        return true, false, [];
      }
      refused := false;
      parked, item := PopTurn(t);
    }

    /** The locked part of `close`. */
    method CloseLock()
      modifies this`queue, this`isClose
      ensures Next(old(View()), CloseLocked, View())
    {
      queue, isClose := [], true;
    }

    /** The two `notify_all` calls that follow the unlock. */
    ghost method NotifyAllConsumers()
      requires isClose
      modifies this`parkedC, this`wokenC
      ensures Next(old(View()), ConsumersNotified, View())
    {
      parkedC, wokenC := {}, wokenC + parkedC;
    }

    ghost method NotifyAllProducers()
      requires isClose
      modifies this`parkedP, this`wokenP
      ensures Next(old(View()), ProducersNotified, View())
    {
      parkedP, wokenP := {}, wokenP + parkedP;
    }

    method Clear()
      modifies this`queue
      ensures Next(old(View()), Cleared, View())
    {
      queue := [];
    }
  }
}

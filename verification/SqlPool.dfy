/**
 The connection pool as a step system: GetConn tests the queue without a lock,
 waits on the semaphore, then pops under the mutex; FreeConn pushes and posts
 under the mutex. Each handle taken out is given back at most once.
 */
module SqlPool {

  type Tid = nat

  datatype State<C(==)> = State(
    conns: seq<C>,
    sem: nat,
    waiting: set<Tid>,    // saw a non-empty queue, at sem_wait
    passed: set<Tid>,     // past sem_wait, pop still to come
    posting: set<Tid>,    // in FreeConn with the mutex, pushed but not yet posted
    held: set<C>,         // handles out with callers
    broken: bool)         // front() was called on an empty queue

  datatype Event<C> =
    | Refused(t: Tid)
    | Probed(t: Tid)
    | Waited(t: Tid)
    | Popped(t: Tid)
    | FreePushed(t: Tid, c: C)
    | FreePosted(t: Tid)

  predicate Distinct<C(==)>(cs: seq<C>) {
    forall i, j :: 0 <= i < j < |cs| ==> cs[i] != cs[j]
  }

  function Start<C>(cs: seq<C>): State<C> {
    State(cs, |cs|, {}, {}, {}, {}, false)
  }

  ghost predicate Idle<C>(s: State<C>, t: Tid) {
    t !in s.waiting && t !in s.passed && t !in s.posting
  }

  ghost predicate Next<C>(s: State<C>, e: Event<C>, s': State<C>) {
    match e
    case Refused(t) => Idle(s, t) && s.conns == [] && s' == s
    case Probed(t) => Idle(s, t) && s.conns != [] && s' == s.(waiting := s.waiting + {t})
    case Waited(t) =>
      t in s.waiting && s.sem > 0 && s' == s.(waiting := s.waiting - {t}, sem := s.sem - 1, passed := s.passed + {t})
    case Popped(t) =>
      && t in s.passed && s.posting == {}
      && s' == if s.conns == [] then s.(broken := true)
               else s.(passed := s.passed - {t}, conns := s.conns[1..], held := s.held + {s.conns[0]})
    case FreePushed(t, c) =>
      && Idle(s, t) && s.posting == {} && c in s.held
      && s' == s.(conns := s.conns + [c], held := s.held - {c}, posting := {t})
    case FreePosted(t) => t in s.posting && s' == s.(sem := s.sem + 1, posting := s.posting - {t})
  }

  ghost predicate IsRun<C>(cs: seq<C>, ss: seq<State<C>>, es: seq<Event<C>>) {
    && |ss| == |es| + 1 && Distinct(cs) && ss[0] == Start(cs)
    && forall i :: 0 <= i < |es| ==> Next(ss[i], es[i], ss[i + 1])
  }

  /** The queue is as long as the semaphore, the pops still to come and the posts still to come say. */
  ghost predicate Counted<C>(s: State<C>) {
    && !s.broken && |s.posting| <= 1
    && s.waiting !! s.passed !! s.posting
    && |s.conns| == s.sem + |s.passed| + |s.posting|
  }

  /** Queued and held handles are the initial ones, each once. */
  ghost predicate Conserved<C>(cs: seq<C>, s: State<C>) {
    multiset(s.conns) + multiset(s.held) == multiset(cs)
  }

  lemma CountedKept<C>(s: State<C>, e: Event<C>, s': State<C>)
    requires Counted(s) && Next(s, e, s')
    ensures Counted(s')
  {
  }

  lemma ConservedKept<C>(cs: seq<C>, s: State<C>, e: Event<C>, s': State<C>)
    requires Distinct(cs) && Conserved(cs, s) && Counted(s) && Next(s, e, s')
    ensures Conserved(cs, s')
  {
    match e
    case Popped(t) =>
      var c := s.conns[0];
      assert s.conns == [c] + s.conns[1..];
      DistinctCounts(cs, c);
      assert multiset(s.conns)[c] >= 1;
      assert c !in s.held;
    case FreePushed(t, c) => assert multiset(s.held) == multiset(s.held - {c}) + multiset{c};
    case _ =>
  }

  lemma {:induction false} DistinctCounts<C>(cs: seq<C>, c: C)
    requires Distinct(cs)
    ensures multiset(cs)[c] <= 1
  {
    if cs != [] {
      assert cs == [cs[0]] + cs[1..];
      DistinctCounts(cs[1..], c);
      assert cs[0] !in cs[1..];
    }
  }

  /**
   In every reachable state: front() has never run on an empty queue, and queued
   plus held handles are a duplicate-free permutation of the initial ones.
   */
  lemma {:induction false} Invariants<C>(cs: seq<C>, ss: seq<State<C>>, es: seq<Event<C>>, i: nat)
    requires IsRun(cs, ss, es) && i <= |es|
    ensures Counted(ss[i]) && Conserved(cs, ss[i])
  {
    if i > 0 {
      Invariants(cs, ss, es, i - 1);
      CountedKept(ss[i - 1], es[i - 1], ss[i]);
      ConservedKept(cs, ss[i - 1], es[i - 1], ss[i]);
    }
  }

  lemma NoHandleTwice<C>(cs: seq<C>, ss: seq<State<C>>, es: seq<Event<C>>, i: nat)
    requires IsRun(cs, ss, es) && i <= |es|
    ensures Distinct(ss[i].conns) && (forall c :: c in ss[i].conns ==> c !in ss[i].held)
    ensures |ss[i].conns| + |ss[i].held| == |cs| && ss[i].sem <= |cs|
  {
    Invariants(cs, ss, es, i);
    var s := ss[i];
    forall c | c in s.conns ensures c !in s.held {
      DistinctCounts(cs, c);
      assert multiset(s.conns)[c] >= 1;
    }
    forall a, b | 0 <= a < b < |s.conns| ensures s.conns[a] != s.conns[b] {
      DistinctCounts(cs, s.conns[a]);
      if s.conns[a] == s.conns[b] {
        RepeatCounts(s.conns, a, b);
      }
    }
    assert |multiset(s.conns) + multiset(s.held)| == |multiset(cs)|;
  }

  lemma RepeatCounts<C>(cs: seq<C>, a: nat, b: nat)
    requires a < b < |cs| && cs[a] == cs[b]
    ensures multiset(cs)[cs[a]] >= 2
  {
    assert cs == cs[..b] + cs[b..];
    assert cs[a] in cs[..b] && cs[b] in cs[b..];
  }

  /** A caller stuck at sem_wait, with nobody else on the way, means that every handle is out. */
  lemma StuckMeansAllHeld<C>(cs: seq<C>, ss: seq<State<C>>, es: seq<Event<C>>, i: nat)
    requires IsRun(cs, ss, es) && i <= |es|
    requires ss[i].sem == 0 && ss[i].passed == {} && ss[i].posting == {}
    ensures ss[i].conns == [] && multiset(ss[i].held) == multiset(cs)
  {
    Invariants(cs, ss, es, i);
  }

  /** The unlocked test promises nothing: one handle, two callers past the test, and the second one waits. */
  lemma TestedCallerMayWait(c: int) returns (ss: seq<State<int>>, es: seq<Event<int>>)
    ensures IsRun([c], ss, es) && |es| == 3 && ss[3].waiting == {1} && ss[3].sem == 0 && ss[3].conns != []
  {
    var s0: State<int> := Start([c]);
    var s1 := s0.(waiting := {0});
    var s2 := s1.(waiting := {0, 1});
    var s3 := s2.(waiting := {1}, sem := 0, passed := {0});
    ss, es := [s0, s1, s2, s3], [Probed(0), Probed(1), Waited(0)];
    assert Next(s0, es[0], s1) by { assert s0.waiting + {0} == {0}; }
    assert Next(s1, es[1], s2) by { assert s1.waiting + {1} == {0, 1}; }
    assert Next(s2, es[2], s3) by { assert s2.waiting - {0} == {1} && s2.passed + {0} == {0}; }
  }

  /** Every caller past the test finds the semaphore open. */
  ghost predicate NobodyStuck<C>(s: State<C>) {
    |s.waiting| <= s.sem
  }

  /** More handles queued than callers on their way to one. */
  ghost predicate EnoughQueued<C>(s: State<C>) {
    |s.conns| > |s.waiting| + |s.passed| + |s.posting|
  }

  lemma ProbeKeepsIff<C>(s: State<C>, t: Tid, s': State<C>)
    requires Counted(s) && NobodyStuck(s) && Next(s, Probed(t), s')
    ensures NobodyStuck(s') <==> EnoughQueued(s)
  {
    assert |s'.waiting| == |s.waiting| + 1;
  }

  lemma OthersKeepNobodyStuck<C>(s: State<C>, e: Event<C>, s': State<C>)
    requires Counted(s) && NobodyStuck(s) && Next(s, e, s') && !e.Probed?
    ensures NobodyStuck(s')
  {
    if e.Waited? {
      assert |s.waiting - {e.t}| == |s.waiting| - 1;
    }
  }

  /**
   The test means what it seems to exactly when callers are few enough: in a run no
   tested caller ever has to wait if and only if each test succeeds with more
   handles queued than callers on their way to one.
   */
  lemma {:induction false} NobodyStuckIff<C>(cs: seq<C>, ss: seq<State<C>>, es: seq<Event<C>>, i: nat)
    requires IsRun(cs, ss, es) && i <= |es|
    ensures (forall k :: 0 <= k <= i ==> NobodyStuck(ss[k]))
       <==> (forall k :: 0 <= k < i && es[k].Probed? ==> EnoughQueued(ss[k]))
  {
    if i > 0 {
      hide Next, EnoughQueued;
      NobodyStuckIff(cs, ss, es, i - 1);
      Invariants(cs, ss, es, i - 1);
      if NobodyStuck(ss[i - 1]) {
        hide NobodyStuck, Counted;
        if es[i - 1].Probed? {
          ProbeKeepsIff(ss[i - 1], es[i - 1].t, ss[i]);
        } else {
          OthersKeepNobodyStuck(ss[i - 1], es[i - 1], ss[i]);
        }
      }
    }
  }

  // ---- whose turn it is ----

  function Pops<C>(es: seq<Event<C>>): nat {
    if es == [] then 0 else Pops(es[..|es| - 1]) + if es[|es| - 1].Popped? then 1 else 0
  }

  lemma {:induction false} PlaceInLine<C>(cs: seq<C>, ss: seq<State<C>>, es: seq<Event<C>>, i: nat, j: nat, p: nat)
    requires IsRun(cs, ss, es) && i <= j <= |es| && p < |ss[i].conns| && Pops(es[i..j]) <= p
    ensures p - Pops(es[i..j]) < |ss[j].conns| && ss[j].conns[p - Pops(es[i..j])] == ss[i].conns[p]
    decreases j
  {
    hide Next;
    assert es[i..i] == [];
    if i < j {
      assert es[i..j][..j - 1 - i] == es[i..j - 1];
      PlaceInLine(cs, ss, es, i, j - 1, p);
      PlaceMoves(ss[j - 1], es[j - 1], ss[j], p - Pops(es[i..j - 1]));
    }
  }

  lemma PlaceMoves<C>(s: State<C>, e: Event<C>, s': State<C>, p: nat)
    requires Next(s, e, s') && p < |s.conns| && (e.Popped? ==> p > 0)
    ensures var q := if e.Popped? then p - 1 else p; q < |s'.conns| && s'.conns[q] == s.conns[p]
  {
  }

  /** A handle given back is handed out after those that were queued before it, and in its turn. */
  lemma FreedHandleWaitsItsTurn<C>(cs: seq<C>, ss: seq<State<C>>, es: seq<Event<C>>, i: nat, j: nat)
    requires IsRun(cs, ss, es) && i < j < |es| && es[i].FreePushed? && es[j].Popped?
    requires Pops(es[i + 1..j]) == |ss[i].conns|
    ensures es[i].c !in ss[j].held && ss[j + 1].held == ss[j].held + {es[i].c}
  {
    hide Pops;
    assert Next(ss[i], es[i], ss[i + 1]) && Next(ss[j], es[j], ss[j + 1]);
    PlaceInLine(cs, ss, es, i + 1, j, |ss[i].conns|);
    NoHandleTwice(cs, ss, es, j);
    Invariants(cs, ss, es, j);
  }

  // ---- the class ----

  class SqlPool<C(==)> {
    var conns: seq<C>
    var sems: nat
    var maxConn: int
    ghost var waiting: set<Tid>
    ghost var passed: set<Tid>
    ghost var posting: set<Tid>
    ghost var held: set<C>

    ghost function View(): State<C>
      reads this
    {
      State(conns, sems, waiting, passed, posting, held, false)
    }

    constructor ()
      ensures conns == [] && waiting == {} && passed == {} && posting == {} && held == {}
    {
      conns, sems, maxConn := [], 0, 0;
      waiting, passed, posting, held := {}, {}, {}, {};
    }

    /** `Init`, with the handles that the client library opens one after the other. */
    method Init(handles: seq<C>, maxconn: int)
      requires maxconn > 0 && |handles| == maxconn
      requires conns == [] && waiting == {} && passed == {} && posting == {} && held == {}
      modifies this
      ensures View() == Start(handles) && maxConn == maxconn
    {
      var i := 0;
      while i < maxconn
        invariant 0 <= i <= maxconn && conns == handles[..i]
        invariant waiting == {} && passed == {} && posting == {} && held == {}
      {
        conns := conns + [handles[i]];
        i := i + 1;
      }
      maxConn, sems := maxconn, maxconn;
    }

    /** `GetConn` up to the semaphore; `false` is the null result. */
    method Probe(ghost t: Tid) returns (ok: bool)
      requires Idle(View(), t)
      modifies this`waiting
      ensures Next(old(View()), if ok then Probed(t) else Refused(t), View())
    {
      if conns == [] {
        return false;
      }
      waiting := waiting + {t};
      ok := true;
    }

    /** `sem_wait`, when it returns. */
    method SemWait(ghost t: Tid)
      requires t in waiting && sems > 0
      modifies this`waiting, this`sems, this`passed
      ensures Next(old(View()), Waited(t), View())
    {
      sems := sems - 1;
      waiting, passed := waiting - {t}, passed + {t};
    }

    /** The locked end of `GetConn`; the counting invariant is what makes front() safe. */
    method Pop(ghost t: Tid) returns (sql: C)
      requires t in passed && posting == {} && Counted(View())
      modifies this`conns, this`passed, this`held
      ensures Next(old(View()), Popped(t), View())
      ensures old(conns) != [] && sql == old(conns)[0] && sql in held
    {
      assert |passed| > 0;
      sql := conns[0];
      conns := conns[1..];
      passed, held := passed - {t}, held + {sql};
    }

    /** `FreeConn` up to the push ... */
    method FreePush(ghost t: Tid, sql: C)
      requires Idle(View(), t) && posting == {} && sql in held
      modifies this`conns, this`held, this`posting
      ensures Next(old(View()), FreePushed(t, sql), View())
    {
      conns := conns + [sql];
      held, posting := held - {sql}, {t};
    }

    /** ... and `sem_post`, with the mutex still held. */
    method FreePost(ghost t: Tid)
      requires t in posting
      modifies this`sems, this`posting
      ensures Next(old(View()), FreePosted(t), View())
    {
      sems := sems + 1;
      posting := posting - {t};
    }
  }
}

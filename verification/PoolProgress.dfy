/** The thread pool makes progress: it stops only when it is idle or over, and it does stop. */
module PoolProgress {
  import opened ThreadPool
  import opened PoolTheorems

  /** A poster that can do nothing more: it has posted everything or has been told that the pool is closed. */
  predicate Settled(p: Poster) {
    p.jobs == [] || p.at.GaveUp?
  }

  /** Open, with nothing to do: everything posted has run, every worker waits for more. */
  predicate Idle(s: State) {
    && s.closer.Open? && s.core.q == [] && s.finished == multiset(s.before)
    && (forall w | w in s.workers :: w.Waiting?)
    && (forall p | p in s.posters :: Settled(p))
  }

  /** Closed, every worker has ended. Posters are left behind only when close was forced, or when those
      that were inside post have filled the queue up again; LeftBehind says how many. */
  predicate Over(s: State) {
    && s.closer.Closed? && (forall w | w in s.workers :: w.Stopped?)
    && (forall p | p in s.posters :: Settled(p) || p.at.Waits?)
    && (Waiters(s.posters) ==> s.forced || s.maxSize < |s.late|)
  }

  /** No step is left but to close an open pool (spurious wakeups aside). */
  ghost predicate Stuck(s: State) {
    forall step: Step | !step.Spurious() && !step.Close? :: !Enabled(s, step)
  }

  /** notify_one can always pick a thread. */
  lemma SomeWorker(workers: seq<Worker>) returns (wake: nat)
    ensures Sleepers(workers) ==> wake < |workers| && workers[wake].Waiting?
  {
    wake := 0;
    if Sleepers(workers) {
      wake :| wake < |workers| && workers[wake].Waiting?;
    }
  }

  lemma SomePoster(posters: seq<Poster>) returns (wake: nat)
    ensures Waiters(posters) ==> wake < |posters| && posters[wake].at.Waits?
  {
    wake := 0;
    if Waiters(posters) {
      wake :| wake < |posters| && posters[wake].at.Waits?;
    }
  }

  lemma StuckWorkers(s: State)
    requires Stuck(s)
    ensures forall w | w in s.workers :: w.Waiting? || w.Stopped?
    ensures Sum(IsReady, s.workers) == 0 && Bag(s.workers) == multiset{}
  {
    var wake := SomePoster(s.posters);
    forall i | 0 <= i < |s.workers|
      ensures s.workers[i].Waiting? || s.workers[i].Stopped?
    {
      var w: nat := i;
      assert !Enabled(s, Pop(w, wake));
      assert !Enabled(s, Finish(w));
    }
    SumFull(IsReady, s.workers);
    BagEmpty(s.workers);
  }

  lemma StuckPosters(s: State)
    requires Stuck(s)
    ensures forall p | p in s.posters :: !CanPost(p)
  {
    var wake := SomeWorker(s.workers);
    forall i | 0 <= i < |s.posters|
      ensures !CanPost(s.posters[i])
    {
      var p: nat := i;
      assert !Enabled(s, Post(p, wake));
    }
  }

  /** No deadlock: a state where nobody can move is idle or over. */
  lemma NoDeadlock(s: State)
    requires Inv(s) && s.workers != [] && Stuck(s)
    ensures Idle(s) || Over(s)
  {
    StuckWorkers(s);
    StuckCloser(s);
    if s.closer.Open? {
      OpenAndStuck(s);
    } else {
      ClosedAndStuck(s);
    }
  }

  lemma SleepersFindNothing(s: State)
    requires Inv(s) && Stuck(s) && Sum(IsReady, s.workers) == 0 && Sleepers(s.workers)
    ensures s.core.q == []
  {
    assert !Enabled(s, NotifyAll);
  }

  lemma StuckCloser(s: State)
    requires Inv(s) && Stuck(s) && s.workers != []
    requires Sum(IsReady, s.workers) == 0 && forall w | w in s.workers :: w.Waiting? || w.Stopped?
    ensures s.closer.Open? || s.closer.Closed?
  {
    assert !Enabled(s, NotifyAll);
    assert !Enabled(s, Join);
    if s.closer.Joining? {
      var w := s.closer.left - 1;
      assert s.workers[w] in s.workers;
      SleepersFindNothing(s);
      StopAhead(s, w);
      assert false;
    }
  }

  lemma NobodyWoken(s: State)
    requires Inv(s) && forall p | p in s.posters :: !CanPost(p)
    ensures !s.forced && Waiters(s.posters) ==> s.maxSize < |s.core.q|
    ensures forall p | p in s.posters :: Settled(p) || p.at.Waits?
  {
    SumFull(IsWoken, s.posters);
    hide Sum, Bag, JobIds, Jobs, Stops;
    assert forall p | p in s.posters :: IsWoken(p) == 0;
  }

  lemma OpenAndStuck(s: State)
    requires Inv(s) && Stuck(s) && s.workers != [] && s.closer.Open?
    ensures Idle(s)
  {
    StuckWorkers(s);
    StuckPosters(s);
    NobodyWoken(s);
    NoneStopped(s);
    hide Sum, Bag, JobIds, Jobs, Stops;
    assert s.workers[0] in s.workers;
    SleepersFindNothing(s);
    NoneWaits(s.posters);
    AllTakenRan(s);
  }

  /** No worker stops while the pool is open. */
  lemma NoneStopped(s: State)
    requires Inv(s) && s.closer.Open?
    ensures forall w | w in s.workers :: !w.Stopped?
  {
    TakenIds(s);
    SumFull(IsStopped, s.workers);
    hide Sum, Bag, JobIds;
    assert |s.taken + s.core.q| == |s.before|;
    assert forall w | w in s.workers :: IsStopped(w) == 0;
  }

  lemma AllTakenRan(s: State)
    requires Inv(s) && s.closer.Open? && s.core.q == [] && Bag(s.workers) == multiset{}
    ensures s.finished == multiset(s.before)
  {
    DroppedAreRest(s);
    assert JobIds(s.taken) + [] == s.before;
    hide Sum, Bag, JobIds, Jobs, Stops;
    assert s.finished + multiset{} == s.finished;
  }

  lemma NoneWaits(posters: seq<Poster>)
    ensures !Waiters(posters) ==> forall p | p in posters :: !p.at.Waits?
  {
  }

  lemma ClosedAndStuck(s: State)
    requires Inv(s) && Stuck(s) && s.workers != [] && s.closer.Closed?
    ensures Over(s)
  {
    StuckPosters(s);
    NobodyWoken(s);
    ClosedMeansDone(s);
  }

  // ----- who is left waiting -----

  function IsInside(p: Poster): nat { if p.at.Waits? || p.at.Woken? then 1 else 0 }
  function IsWaiting(p: Poster): nat { if p.at.Waits? then 1 else 0 }

  /** The number of posters that are inside post. */
  function Inside(s: State): nat {
    Sum(IsInside, s.posters)
  }

  /** The number of those that wait on read_cond_. */
  function Asleep(s: State): nat {
    Sum(IsWaiting, s.posters)
  }

  /** The tasks that were in the queue when close left it and have not been taken. */
  function Ahead(s: State): int {
    |s.core.q| - |s.late|
  }

  /** After close every job that still enters the queue is that of one of the k posters that were inside
      post, no more than max_size_ + 1 of them enter, and every task taken wakes one that waits. */
  predicate LateAccount(s: State, k: nat, most: nat) {
    && !s.core.running && !s.closer.Open?
    && Inside(s) + |s.late| == k && |s.late| <= s.maxSize + 1
    && k <= s.maxSize + 1 + most && Asleep(s) <= most + Ahead(s)
  }

  /** Nothing but a task taken wakes a poster. */
  predicate NotLess(s: State, least: int) {
    least + Ahead(s) <= Asleep(s)
  }

  lemma OldTasks(s: State)
    requires Fifo(s) && Ledger(s)
    ensures 0 <= Ahead(s)
    ensures forall w: nat | w < |s.workers| && !s.workers[w].Stopped? && !s.closer.Open? :: 0 < Ahead(s)
  {
    assert |s.taken + s.core.q| == |s.before| + StopsPushed(s) + |s.late|;
    forall w: nat | w < |s.workers| && !s.workers[w].Stopped? && !s.closer.Open?
      ensures 0 < Ahead(s)
    {
      StopAhead(s, w);
    }
  }

  lemma {:induction false} WaitingIsInside(posters: seq<Poster>)
    ensures Sum(IsWaiting, posters) + Sum(IsWoken, posters) == Sum(IsInside, posters)
    ensures Waiters(posters) <==> Sum(IsWaiting, posters) > 0
  {
    if posters != [] {
      WaitingIsInside(posters[1..]);
      assert posters == [posters[0]] + posters[1..];
      assert Waiters(posters[1..]) ==> Waiters(posters);
    }
  }

  lemma StepKeepsLate(s: State, step: Step, k: nat, most: nat, least: int)
    requires Inv(s) && Enabled(s, step) && LateAccount(s, k, most)
    ensures LateAccount(Apply(s, step), k, most)
    ensures NotLess(s, least) && !step.SpuriousPoster? ==> NotLess(Apply(s, step), least)
  {
    OldTasks(s);
    hide *;
    StepLate(s, step, k, most, least);
  }

  lemma StepLate(s: State, step: Step, k: nat, most: nat, least: int)
    requires Enabled(s, step) && LateAccount(s, k, most) && 0 <= Ahead(s)
    requires forall w: nat | w < |s.workers| && !s.workers[w].Stopped? && !s.closer.Open? :: 0 < Ahead(s)
    ensures LateAccount(Apply(s, step), k, most)
    ensures NotLess(s, least) && !step.SpuriousPoster? ==> NotLess(Apply(s, step), least)
  {
    hide Sum, JobIds, Jobs, Stops;
    match step {
      case Post(p, wake) => PostKeepsLate(s, p, wake, k, most);
      case Pop(w, wake) => PopKeepsLate(s, w, wake);
      case SpuriousPoster(p) => WokenInside(s.posters, p);
      case _ =>
    }
  }

  lemma WokenInside(posters: seq<Poster>, p: nat)
    requires p < |posters| && posters[p].at.Waits?
    ensures var r := posters[p := posters[p].(at := Woken)];
            Sum(IsInside, r) == Sum(IsInside, posters) && Sum(IsWaiting, r) == Sum(IsWaiting, posters) - 1
  {
    SumUpdate(IsInside, posters, p, posters[p].(at := Woken));
    SumUpdate(IsWaiting, posters, p, posters[p].(at := Woken));
  }

  lemma PostKeepsLate(s: State, p: nat, wake: nat, k: nat, most: nat)
    requires Enabled(s, Post(p, wake)) && LateAccount(s, k, most) && 0 <= Ahead(s)
    ensures LateAccount(ApplyPost(s, p, wake), k, most)
    ensures Asleep(s) <= Asleep(ApplyPost(s, p, wake)) && Ahead(ApplyPost(s, p, wake)) == Ahead(s)
  {
    var t := ApplyPost(s, p, wake);
    WaitingIsInside(t.posters);
    hide Sum, WakeWorker;
    assert t.posters == s.posters[p := t.posters[p]];
    SumUpdate(IsInside, s.posters, p, t.posters[p]);
    SumUpdate(IsWaiting, s.posters, p, t.posters[p]);
  }

  lemma PopKeepsLate(s: State, w: nat, wake: nat)
    requires Enabled(s, Pop(w, wake)) && 0 < Ahead(s)
    ensures var t := ApplyPop(s, w, wake);
            && Inside(t) == Inside(s) && Ahead(t) == Ahead(s) - 1
            && Asleep(t) == if Asleep(s) == 0 then 0 else Asleep(s) - 1
  {
    WaitingIsInside(s.posters);
    hide Sum;
    if Waiters(s.posters) {
      WokenInside(s.posters, wake);
    }
  }

  /** No poster wakes up for no reason. */
  predicate NoneSpurious(steps: seq<Step>) {
    forall step | step in steps :: !step.SpuriousPoster?
  }

  lemma {:induction false} RunKeepsLate(s: State, steps: seq<Step>, k: nat, most: nat, least: int)
    requires Inv(s) && Legal(s, steps) && LateAccount(s, k, most)
    ensures LateAccount(After(s, steps), k, most)
    ensures NotLess(s, least) && NoneSpurious(steps) ==> NotLess(After(s, steps), least)
    decreases |steps|
  {
    hide Inv, Enabled, Apply, LateAccount, NotLess;
    if steps != [] {
      StepKeeps(s, steps[0]);
      StepKeepsLate(s, steps[0], k, most, least);
      RunKeepsLate(Apply(s, steps[0]), steps[1..], k, most, least);
    }
  }

  /** How many posters close leaves behind: those inside post in excess of max_size_ + 1, for which there
      is no room; when close is forced, also those waiting in excess of the stop tasks that wake them. */
  function Overhang(s: State, force: bool): nat {
    var noRoom := Inside(s) - (s.maxSize + 1);
    var notWoken := if force then Asleep(s) - |s.workers| else 0;
    if noRoom < 0 && notWoken < 0 then 0 else if noRoom < notWoken then notWoken else noRoom
  }

  /** When no step is left after close, that many posters are inside post, and all of them wait for good.
      Only spurious wakeups can save one, after a forced close, and none of those without room. */
  lemma LeftBehind(s: State, force: bool, steps: seq<Step>)
    requires Inv(s) && s.closer.Open? && s.workers != [] && Legal(Apply(s, Close(force)), steps)
    requires Stuck(After(Apply(s, Close(force)), steps))
    ensures var t := After(Apply(s, Close(force)), steps);
            && Over(t)
            && Asleep(t) == Inside(t) && (Waiters(t.posters) <==> Inside(t) > 0)
            && Overhang(s, false) <= Inside(t) <= Overhang(s, force)
            && (NoneSpurious(steps) ==> Inside(t) == Overhang(s, force))
  {
    StepKeeps(s, Close(force));
    CloseCounts(s, force);
    hide *;
    LeftFrom(Apply(s, Close(force)), steps, Inside(s), Overhang(s, force), Unwoken(s, force));
    OverhangIs(s, force);
  }

  /** The waiting posters less the tasks that can wake them. */
  function Unwoken(s: State, force: bool): int {
    Asleep(s) - |s.workers| - (if force then 0 else |s.core.q|)
  }

  lemma OverhangIs(s: State, force: bool)
    requires PostersAwake(s) && !s.forced
    ensures Inside(s) - (s.maxSize + 1) <= Overhang(s, false) <= Overhang(s, force)
    ensures Overhang(s, false) == 0 || Overhang(s, false) == Inside(s) - (s.maxSize + 1)
    ensures Overhang(s, force) == Overhang(s, false) || Overhang(s, force) == Unwoken(s, force)
    ensures Asleep(s) <= Overhang(s, force) + (if force then 0 else |s.core.q|) + |s.workers|
  {
    WaitingIsInside(s.posters);
    hide Sum;
  }

  lemma CloseCounts(s: State, force: bool)
    requires Inv(s) && s.closer.Open?
    ensures var m := Apply(s, Close(force));
            && LateAccount(m, Inside(s), Overhang(s, force)) && NotLess(m, Unwoken(s, force))
            && |m.workers| == |s.workers| && m.maxSize == s.maxSize
  {
    OverhangIs(s, force);
    hide Sum, JobIds, Jobs, Stops, Overhang;
  }

  lemma LeftFrom(m: State, steps: seq<Step>, k: nat, most: nat, least: int)
    requires Inv(m) && m.workers != [] && LateAccount(m, k, most) && NotLess(m, least)
    requires Legal(m, steps) && Stuck(After(m, steps))
    ensures var t := After(m, steps);
            && Over(t)
            && Asleep(t) == Inside(t) && (Waiters(t.posters) <==> Inside(t) > 0)
            && k - (m.maxSize + 1) <= Inside(t) <= most
            && (NoneSpurious(steps) ==> least <= Inside(t))
  {
    AlwaysInv(m, steps);
    RunKeepsLate(m, steps, k, most, least);
    hide Apply, Legal, Enabled, After, Inv;
    StuckAccount(After(m, steps), k, most);
  }

  lemma StuckAccount(t: State, k: nat, most: nat)
    requires Inv(t) && Stuck(t) && t.workers != [] && LateAccount(t, k, most)
    ensures Over(t)
    ensures Ahead(t) == 0 && Asleep(t) == Inside(t) && (Waiters(t.posters) <==> Inside(t) > 0)
    ensures k - (t.maxSize + 1) <= Inside(t) <= most
  {
    NoDeadlock(t);
    StuckPosters(t);
    ClosedMeansDone(t);
    WaitingIsInside(t.posters);
    hide Sum, Bag, JobIds, Stops, Inv;
    NoneWoken(t);
    assert |t.core.q| == |t.late|;
  }

  lemma NoneWoken(t: State)
    requires Inv(t) && forall p | p in t.posters :: !CanPost(p)
    ensures Sum(IsWoken, t.posters) == 0
  {
    SumFull(IsWoken, t.posters);
    hide Sum;
    assert forall p | p in t.posters :: IsWoken(p) == 0;
  }

  /** In terms of what close finds: nobody waits for good if and only if the posters inside post fit the
      queue and, when close is forced, the stop tasks are enough to wake those that wait. */
  lemma NobodyLeft(s: State, force: bool, steps: seq<Step>)
    requires Inv(s) && s.closer.Open? && s.workers != [] && Legal(Apply(s, Close(force)), steps)
    requires Stuck(After(Apply(s, Close(force)), steps)) && (force ==> NoneSpurious(steps))
    ensures !Waiters(After(Apply(s, Close(force)), steps).posters) <==>
              Inside(s) <= s.maxSize + 1 && (force ==> Asleep(s) <= |s.workers|)
  {
    LeftBehind(s, force, steps);
  }

  /** With no post under way, nobody waits at any time after close. */
  lemma QuietClose(s: State, force: bool, steps: seq<Step>)
    requires Inv(s) && s.closer.Open? && NoPostUnderWay(s) && Legal(Apply(s, Close(force)), steps)
    ensures !Waiters(After(Apply(s, Close(force)), steps).posters)
  {
    RunStaysShut(Apply(s, Close(force)), steps);
    var t := After(Apply(s, Close(force)), steps);
    assert forall i | 0 <= i < |t.posters| :: t.posters[i] in t.posters;
  }

  lemma {:induction false} RunStaysShut(s: State, steps: seq<Step>)
    requires ShutTight(s) && Legal(s, steps)
    ensures ShutTight(After(s, steps))
    decreases |steps|
  {
    hide ShutTight, Enabled, Apply;
    if steps != [] {
      StaysShut(s, steps[0]);
      RunStaysShut(Apply(s, steps[0]), steps[1..]);
    }
  }

  /** One job fills the queue, two posters wait for room, close comes: one of them gets its job in, the
      other one waits for good. */
  lemma PosterLeftWaiting() returns (steps: seq<Step>)
    ensures var s := Opened(0, 1, [[7], [8], [9]]);
            && Legal(s, steps) && After(s, steps).closer.Closed?
            && After(s, steps).workers == [Stopped]
            && After(s, steps).posters == [Poster(Start, []), Poster(Start, []), Poster(Waits, [9])]
            && Stuck(After(s, steps))
  {
    var s6, first := TwoWaitAtClose();
    var s7, s8, s9 := OneGetsIn(s6);
    var s10, s11, s12 := JoinStopped(s9);
    NobodyMoves(s12);
    hide *;
    ThreeSteps(s6, Pop(0, 2), Post(1, 0), Post(2, 0));
    ThreeSteps(s9, NotifyAll, Join, Join);
    steps := [Pop(0, 2), Post(1, 0), Post(2, 0)] + [NotifyAll, Join, Join];
    LegalJoin(s6, [Pop(0, 2), Post(1, 0), Post(2, 0)], [NotifyAll, Join, Join]);
    LegalJoin(Opened(0, 1, [[7], [8], [9]]), first, steps);
    steps := first + steps;
  }

  lemma TwoWaitAtClose() returns (s6: State, steps: seq<Step>)
    ensures Legal(Opened(0, 1, [[7], [8], [9]]), steps) && s6 == After(Opened(0, 1, [[7], [8], [9]]), steps)
    ensures && s6.maxSize == 0 && s6.core == Core([Stop], false) && s6.workers == [Ready] && s6.closer == Notifying
            && s6.posters == [Poster(Start, []), Poster(Woken, [8]), Poster(Waits, [9])]
  {
    var s1, s2, s3 := FullQueue();
    var s4, s5;
    s4, s5, s6 := CloseOnFull(s3);
    hide *;
    var s0 := Opened(0, 1, [[7], [8], [9]]);
    ThreeSteps(s0, Post(0, 0), Post(1, 0), Post(2, 0));
    ThreeSteps(s3, Close(false), Pop(0, 1), Finish(0));
    LegalJoin(s0, [Post(0, 0), Post(1, 0), Post(2, 0)], [Close(false), Pop(0, 1), Finish(0)]);
    steps := [Post(0, 0), Post(1, 0), Post(2, 0)] + [Close(false), Pop(0, 1), Finish(0)];
  }

  lemma FullQueue() returns (s1: State, s2: State, s3: State)
    ensures var s0 := Opened(0, 1, [[7], [8], [9]]);
            && Enabled(s0, Post(0, 0)) && s1 == Apply(s0, Post(0, 0))
            && Enabled(s1, Post(1, 0)) && s2 == Apply(s1, Post(1, 0))
            && Enabled(s2, Post(2, 0)) && s3 == Apply(s2, Post(2, 0))
    ensures && s3.maxSize == 0 && s3.core == Core([Job(7)], true) && s3.workers == [Ready] && s3.closer == Open
            && s3.posters == [Poster(Start, []), Poster(Waits, [8]), Poster(Waits, [9])]
  {
    var s0 := Opened(0, 1, [[7], [8], [9]]);
    assert s0.workers == [Ready];
    assert s0.posters == [Poster(Start, [7]), Poster(Start, [8]), Poster(Start, [9])];
    assert [7][1..] == [];
    s1 := Apply(s0, Post(0, 0));
    assert s1.core.q == [Job(7)] && s1.workers == [Ready];
    assert s1.posters == [Poster(Start, []), Poster(Start, [8]), Poster(Start, [9])];
    s2 := Apply(s1, Post(1, 0));
    assert s2.posters == [Poster(Start, []), Poster(Waits, [8]), Poster(Start, [9])];
    s3 := Apply(s2, Post(2, 0));
  }

  lemma CloseOnFull(s3: State) returns (s4: State, s5: State, s6: State)
    requires && s3.maxSize == 0 && s3.core == Core([Job(7)], true) && s3.workers == [Ready] && s3.closer == Open
             && s3.posters == [Poster(Start, []), Poster(Waits, [8]), Poster(Waits, [9])]
    ensures && Enabled(s3, Close(false)) && s4 == Apply(s3, Close(false))
            && Enabled(s4, Pop(0, 1)) && s5 == Apply(s4, Pop(0, 1))
            && Enabled(s5, Finish(0)) && s6 == Apply(s5, Finish(0))
    ensures && s6.maxSize == 0 && s6.core == Core([Stop], false) && s6.workers == [Ready] && s6.closer == Notifying
            && s6.posters == [Poster(Start, []), Poster(Woken, [8]), Poster(Waits, [9])]
  {
    s4 := Apply(s3, Close(false));
    assert s4.core.q == [Job(7), Stop];
    assert [Job(7), Stop][1..] == [Stop];
    s5 := Apply(s4, Pop(0, 1));
    assert s5.workers == [Running(7)];
    s6 := Apply(s5, Finish(0));
  }

  lemma OneGetsIn(s6: State) returns (s7: State, s8: State, s9: State)
    requires && s6.maxSize == 0 && s6.core == Core([Stop], false) && s6.workers == [Ready] && s6.closer == Notifying
             && s6.posters == [Poster(Start, []), Poster(Woken, [8]), Poster(Waits, [9])]
    ensures && Enabled(s6, Pop(0, 2)) && s7 == Apply(s6, Pop(0, 2))
            && Enabled(s7, Post(1, 0)) && s8 == Apply(s7, Post(1, 0))
            && Enabled(s8, Post(2, 0)) && s9 == Apply(s8, Post(2, 0))
    ensures && s9.workers == [Stopped] && s9.closer == Notifying
            && s9.posters == [Poster(Start, []), Poster(Start, []), Poster(Waits, [9])]
  {
    assert [Stop][1..] == [] && [8][1..] == [];
    s7 := Apply(s6, Pop(0, 2));
    assert s7.workers == [Stopped] && s7.core.q == [];
    assert s7.posters == [Poster(Start, []), Poster(Woken, [8]), Poster(Woken, [9])];
    s8 := Apply(s7, Post(1, 0));
    assert s8.core.q == [Job(8)] && s8.workers == [Stopped];
    s9 := Apply(s8, Post(2, 0));
  }

  /** Two jobs fill the queue, two posters wait for room, and a forced close clears it: only the one stop
      task wakes a poster, and the other one waits for good although there is room. */
  lemma ForcedLeavesOne() returns (steps: seq<Step>)
    ensures var s := Opened(1, 1, [[7], [8], [9], [10]]);
            && Legal(s, steps) && NoneSpurious(steps) && After(s, steps).closer.Closed?
            && After(s, steps).core.q == [Job(9)] && After(s, steps).workers == [Stopped]
            && After(s, steps).posters ==
                 [Poster(Start, []), Poster(Start, []), Poster(Start, []), Poster(Waits, [10])]
            && Stuck(After(s, steps))
  {
    var s4, first := TwoWaitForRoom();
    var s5, s6, s7 := ClearedAndStopped(s4);
    var s8, s9, s10 := JoinStopped(s7);
    NobodyMoves(s10);
    hide Enabled, Apply, Opened;
    ThreeSteps(s4, Close(true), Pop(0, 2), Post(2, 0));
    ThreeSteps(s7, NotifyAll, Join, Join);
    LegalJoin(s4, [Close(true), Pop(0, 2), Post(2, 0)], [NotifyAll, Join, Join]);
    steps := [Close(true), Pop(0, 2), Post(2, 0)] + [NotifyAll, Join, Join];
    hide *;
    LegalJoin(Opened(1, 1, [[7], [8], [9], [10]]), first, steps);
    steps := first + steps;
  }

  lemma TwoWaitForRoom() returns (s4: State, steps: seq<Step>)
    ensures Legal(Opened(1, 1, [[7], [8], [9], [10]]), steps) && s4 == After(Opened(1, 1, [[7], [8], [9], [10]]), steps)
    ensures forall step | step in steps :: step.Post?
    ensures && s4.maxSize == 1 && s4.core.running && s4.workers == [Ready] && s4.closer == Open
            && s4.posters == [Poster(Start, []), Poster(Start, []), Poster(Waits, [9]), Poster(Waits, [10])]
  {
    var s1, s2, s3;
    s1, s2, s3, s4 := FullForTwo();
    hide *;
    ThreeSteps(Opened(1, 1, [[7], [8], [9], [10]]), Post(0, 0), Post(1, 0), Post(2, 0));
    OneStep(s3, Post(3, 0));
    LegalJoin(Opened(1, 1, [[7], [8], [9], [10]]), [Post(0, 0), Post(1, 0), Post(2, 0)], [Post(3, 0)]);
    steps := [Post(0, 0), Post(1, 0), Post(2, 0)] + [Post(3, 0)];
  }

  lemma FullForTwo() returns (s1: State, s2: State, s3: State, s4: State)
    ensures var s0 := Opened(1, 1, [[7], [8], [9], [10]]);
            && Enabled(s0, Post(0, 0)) && s1 == Apply(s0, Post(0, 0))
            && Enabled(s1, Post(1, 0)) && s2 == Apply(s1, Post(1, 0))
            && Enabled(s2, Post(2, 0)) && s3 == Apply(s2, Post(2, 0))
            && Enabled(s3, Post(3, 0)) && s4 == Apply(s3, Post(3, 0))
    ensures && s4.maxSize == 1 && s4.core.running && s4.workers == [Ready] && s4.closer == Open
            && s4.posters == [Poster(Start, []), Poster(Start, []), Poster(Waits, [9]), Poster(Waits, [10])]
  {
    var s0 := Opened(1, 1, [[7], [8], [9], [10]]);
    assert s0.workers == [Ready];
    assert s0.posters == [Poster(Start, [7]), Poster(Start, [8]), Poster(Start, [9]), Poster(Start, [10])];
    assert [7][1..] == [] && [8][1..] == [];
    s1 := Apply(s0, Post(0, 0));
    assert |s1.core.q| == 1 && s1.workers == [Ready];
    assert s1.posters == [Poster(Start, []), Poster(Start, [8]), Poster(Start, [9]), Poster(Start, [10])];
    s2 := Apply(s1, Post(1, 0));
    assert |s2.core.q| == 2 && s2.workers == [Ready];
    assert s2.posters == [Poster(Start, []), Poster(Start, []), Poster(Start, [9]), Poster(Start, [10])];
    s3 := Apply(s2, Post(2, 0));
    assert s3.posters == [Poster(Start, []), Poster(Start, []), Poster(Waits, [9]), Poster(Start, [10])];
    s4 := Apply(s3, Post(3, 0));
  }

  lemma ClearedAndStopped(s4: State) returns (s5: State, s6: State, s7: State)
    requires && s4.maxSize == 1 && s4.core.running && s4.workers == [Ready] && s4.closer == Open
             && s4.posters == [Poster(Start, []), Poster(Start, []), Poster(Waits, [9]), Poster(Waits, [10])]
    ensures && Enabled(s4, Close(true)) && s5 == Apply(s4, Close(true))
            && Enabled(s5, Pop(0, 2)) && s6 == Apply(s5, Pop(0, 2))
            && Enabled(s6, Post(2, 0)) && s7 == Apply(s6, Post(2, 0))
    ensures && s7.core.q == [Job(9)] && s7.workers == [Stopped] && s7.closer == Notifying
            && s7.posters == [Poster(Start, []), Poster(Start, []), Poster(Start, []), Poster(Waits, [10])]
  {
    s5 := Apply(s4, Close(true));
    assert s5.core.q == [Stop];
    assert [Stop][1..] == [] && [9][1..] == [];
    s6 := Apply(s5, Pop(0, 2));
    assert s6.core.q == [] && s6.workers == [Stopped];
    assert s6.posters == [Poster(Start, []), Poster(Start, []), Poster(Woken, [9]), Poster(Waits, [10])];
    s7 := Apply(s6, Post(2, 0));
  }

  lemma JoinStopped(s7: State) returns (s8: State, s9: State, s10: State)
    requires s7.workers == [Stopped] && s7.closer == Notifying
    ensures && Enabled(s7, NotifyAll) && s8 == Apply(s7, NotifyAll)
            && Enabled(s8, Join) && s9 == Apply(s8, Join)
            && Enabled(s9, Join) && s10 == Apply(s9, Join)
    ensures s10.workers == [Stopped] && s10.closer == Closed && s10.posters == s7.posters && s10.core == s7.core
  {
    s8 := Apply(s7, NotifyAll);
    assert s8.workers == [Stopped];
    s9 := Apply(s8, Join);
    s10 := Apply(s9, Join);
  }

  lemma NobodyMoves(s: State)
    requires s.workers == [Stopped] && s.closer == Closed
    requires forall p | p in s.posters :: !CanPost(p)
    ensures Stuck(s)
  {
  }

  // ----- termination -----

  function WorkerRank(w: Worker): nat {
    match w case Running(_) => 2 case Ready => 1 case _ => 0
  }

  function PosterRank(p: Poster): nat {
    if p.at.GaveUp? then 0 else 5 * |p.jobs| + (if p.at.Waits? then 0 else 1)
  }

  function CloserRank(c: Closer, threads: nat): nat {
    match c
    case Open => 5 * threads + 3
    case Notifying => 2 * threads + 2
    case Joining(left) => left + 1
    case Closed => 0
  }

  /** A bound on the steps still to come. */
  function Rank(s: State): nat {
    Sum(WorkerRank, s.workers) + Sum(PosterRank, s.posters) + 3 * |s.core.q| + CloserRank(s.closer, |s.workers|)
  }

  /** Every step uses up some of it; a spurious wakeup gives one back. */
  lemma StepRanks(s: State, step: Step)
    requires Enabled(s, step)
    ensures if step.Spurious() then Rank(Apply(s, step)) <= Rank(s) + 1 else Rank(Apply(s, step)) < Rank(s)
  {
    match step {
      case Post(p, wake) => PostRanks(s, p, wake);
      case Pop(w, wake) => PopRanks(s, w, wake);
      case Finish(w) => SumUpdate(WorkerRank, s.workers, w, Ready); hide Sum;
      case Close(_) => hide Sum;
      case NotifyAll => AwakeRanks(s.workers); hide Sum;
      case Join => hide Sum;
      case SpuriousWorker(w) => SumUpdate(WorkerRank, s.workers, w, Ready); hide Sum;
      case SpuriousPoster(p) => SumUpdate(PosterRank, s.posters, p, s.posters[p].(at := Woken)); hide Sum;
    }
  }

  lemma PostRanks(s: State, p: nat, wake: nat)
    requires Enabled(s, Post(p, wake))
    ensures Rank(ApplyPost(s, p, wake)) < Rank(s)
  {
    var t := ApplyPost(s, p, wake);
    SumUpdate(PosterRank, s.posters, p, t.posters[p]);
    if wake < |s.workers| {
      SumUpdate(WorkerRank, s.workers, wake, Ready);
    }
    hide Sum;
  }

  lemma PopRanks(s: State, w: nat, wake: nat)
    requires Enabled(s, Pop(w, wake))
    ensures Rank(ApplyPop(s, w, wake)) < Rank(s)
  {
    var t := ApplyPop(s, w, wake);
    SumUpdate(WorkerRank, s.workers, w, t.workers[w]);
    if wake < |s.posters| {
      SumUpdate(PosterRank, s.posters, wake, s.posters[wake].(at := Woken));
    }
    hide Sum;
  }

  lemma {:induction false} AwakeRanks(workers: seq<Worker>)
    ensures Sum(WorkerRank, WakeAll(workers)) <= Sum(WorkerRank, workers) + |workers|
  {
    if workers != [] {
      assert WakeAll(workers)[1..] == WakeAll(workers[1..]);
      AwakeRanks(workers[1..]);
    }
  }

  function SpuriousIn(steps: seq<Step>): nat {
    if steps == [] then 0 else (if steps[0].Spurious() then 1 else 0) + SpuriousIn(steps[1..])
  }

  /** No run goes on forever, but for threads that keep waking up for no reason. */
  lemma {:induction false} RunsEnd(s: State, steps: seq<Step>)
    requires Legal(s, steps)
    ensures |steps| + Rank(After(s, steps)) <= Rank(s) + 2 * SpuriousIn(steps)
    decreases |steps|
  {
    hide Enabled, Apply, Rank;
    if steps != [] {
      StepRanks(s, steps[0]);
      RunsEnd(Apply(s, steps[0]), steps[1..]);
    }
  }
}

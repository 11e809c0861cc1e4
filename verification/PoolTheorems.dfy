/** What holds of every run of the thread pool, in any interleaving of its threads. */
module PoolTheorems {
  import opened ThreadPool

  /** Reachable from open(threads), by any steps. */
  predicate Reached(s: State, maxSize: nat, lists: seq<seq<nat>>, threads: nat, steps: seq<Step>) {
    Legal(Opened(maxSize, threads, lists), steps) && s == After(Opened(maxSize, threads, lists), steps)
  }

  lemma ReachedInv(s: State, maxSize: nat, lists: seq<seq<nat>>, threads: nat, steps: seq<Step>)
    requires Reached(s, maxSize, lists, threads, steps)
    ensures Inv(s) && |s.workers| == threads && s.maxSize == maxSize
  {
    OpenedInv(maxSize, threads, lists);
    AlwaysInv(Opened(maxSize, threads, lists), steps);
  }

  /** The queue outgrows its limit by one at most, as long as the pool is open. */
  lemma QueueBound(s: State, maxSize: nat, lists: seq<seq<nat>>, threads: nat, steps: seq<Step>)
    requires Reached(s, maxSize, lists, threads, steps) && s.core.running
    ensures |s.core.q| <= maxSize + 1
  {
    ReachedInv(s, maxSize, lists, threads, steps);
  }

  // ----- after close -----

  /** When close has returned, every job posted before it has run exactly once, they were taken in the
      order in which they were posted, then each worker took one stop task; what was posted later is
      still in the queue. */
  lemma ClosedMeansDone(s: State)
    requires Inv(s) && s.closer.Closed? && s.workers != []
    ensures s.finished == multiset(s.before)
    ensures s.taken == Jobs(s.before) + Stops(|s.workers|)
    ensures s.core.q == Jobs(s.late)
  {
    assert forall w | w in s.workers :: w.Stopped?;
    SumFull(IsStopped, s.workers);
    BagEmpty(s.workers);
    TakenIds(s);
    hide Sum, Bag, Jobs, Stops, JobIds;
    var all := Jobs(s.before) + Stops(|s.workers|);
    assert |s.taken| == |all|;
    assert all[..|all|] == all;
    assert s.finished + multiset{} == s.finished;
    assert s.core.q == (s.taken + s.core.q)[|s.taken|..] == (all + Jobs(s.late))[|all|..];
  }

  lemma AllRanOnce(s: State, maxSize: nat, lists: seq<seq<nat>>, threads: nat, steps: seq<Step>)
    requires Reached(s, maxSize, lists, threads, steps) && s.closer.Closed? && threads > 0
    ensures s.finished == multiset(s.before) && s.core.q == Jobs(s.late)
    ensures s.taken == Jobs(s.before) + Stops(threads)
  {
    ReachedInv(s, maxSize, lists, threads, steps);
    ClosedMeansDone(s);
  }

  /** No post is under way: every poster is outside post. */
  predicate NoPostUnderWay(s: State) {
    forall p | p in s.posters :: p.at.Start? || p.at.GaveUp?
  }

  /** Closed, and nobody is left inside post: nothing more enters the queue. */
  predicate ShutTight(s: State) {
    !s.core.running && !s.closer.Open? && NoPostUnderWay(s)
  }

  lemma StaysShut(s: State, step: Step)
    requires ShutTight(s) && Enabled(s, step)
    ensures ShutTight(Apply(s, step)) && Apply(s, step).late == s.late && Apply(s, step).before == s.before
    ensures Apply(s, step).dropped == s.dropped
  {
    if step.Post? {
      assert s.posters[step.p] in s.posters;
    }
  }

  lemma {:induction false} StaysShutAlways(s: State, steps: seq<Step>)
    requires ShutTight(s) && Legal(s, steps)
    ensures After(s, steps).late == s.late && After(s, steps).before == s.before
    ensures After(s, steps).dropped == s.dropped
    decreases |steps|
  {
    hide ShutTight, Enabled, Apply;
    if steps != [] {
      StaysShut(s, steps[0]);
      StaysShutAlways(Apply(s, steps[0]), steps[1..]);
    }
  }

  /** No post races close: what was posted before it is everything that is ever posted. */
  lemma NoRaceNothingLate(s: State, force: bool, steps: seq<Step>)
    requires Inv(s) && s.closer.Open? && NoPostUnderWay(s) && Legal(Apply(s, Close(force)), steps)
    ensures After(Apply(s, Close(force)), steps).late == []
    ensures !force ==> After(Apply(s, Close(force)), steps).before == s.before
    ensures !force ==> After(Apply(s, Close(force)), steps).dropped == []
  {
    StaysShutAlways(Apply(s, Close(force)), steps);
  }

  /** What counts as posted before close never changes after it. */
  lemma StaysClosed(s: State, step: Step)
    requires !s.core.running && !s.closer.Open? && Enabled(s, step)
    ensures var t := Apply(s, step);
            && !t.core.running && !t.closer.Open?
            && t.before == s.before && t.dropped == s.dropped && |t.workers| == |s.workers|
  {
  }

  lemma {:induction false} StaysClosedAlways(s: State, steps: seq<Step>)
    requires !s.core.running && !s.closer.Open? && Legal(s, steps)
    ensures After(s, steps).before == s.before && After(s, steps).dropped == s.dropped
    decreases |steps|
  {
    hide Enabled, Apply;
    if steps != [] {
      StaysClosed(s, steps[0]);
      StaysClosedAlways(Apply(s, steps[0]), steps[1..]);
    }
  }

  /** The jobs of the posters that are inside post. */
  function Entering(posters: seq<Poster>): multiset<nat> {
    if posters == [] then multiset{}
    else
      (if (posters[0].at.Waits? || posters[0].at.Woken?) && posters[0].jobs != [] then multiset{posters[0].jobs[0]}
       else multiset{})
      + Entering(posters[1..])
  }

  lemma {:induction false} NobodyEntering(posters: seq<Poster>)
    requires forall p | p in posters && (p.at.Waits? || p.at.Woken?) :: p.jobs != []
    ensures Entering(posters) == multiset{} <==> forall p | p in posters :: p.at.Start? || p.at.GaveUp?
  {
    if posters != [] {
      NobodyEntering(posters[1..]);
      assert forall p | p in posters :: p == posters[0] || p in posters[1..];
      assert posters[0].at.Waits? || posters[0].at.Woken? ==> posters[0].jobs[0] in Entering(posters);
    }
  }

  /** A close that is not forced runs every job whose post was entered before it if and only if no post
      was still under way. */
  lemma AllEnteredRan(s: State, steps: seq<Step>)
    requires Inv(s) && s.workers != [] && s.closer.Open? && Legal(Apply(s, Close(false)), steps)
    requires After(Apply(s, Close(false)), steps).closer.Closed?
    ensures var ran := After(Apply(s, Close(false)), steps).finished;
            && ran == multiset(s.before)
            && (ran == multiset(s.before) + Entering(s.posters) <==> NoPostUnderWay(s))
  {
    var m := Apply(s, Close(false));
    StepKeeps(s, Close(false));
    AlwaysInv(m, steps);
    StaysClosedAlways(m, steps);
    ClosedMeansDone(After(m, steps));
    NobodyEntering(s.posters);
    Surplus(multiset(s.before), Entering(s.posters));
  }

  lemma Surplus(a: multiset<nat>, b: multiset<nat>)
    ensures a == a + b <==> b == multiset{}
  {
    if a == a + b {
      forall x
        ensures b[x] == 0
      {
        assert (a + b)[x] == a[x] + b[x];
      }
    }
  }

  // ----- nothing is lost -----

  /** Every job is pushed in one of three ways, or its poster still has it. */
  function AllJobs(s: State): multiset<nat> {
    multiset(s.before) + multiset(s.late) + multiset(s.dropped) + Remaining(s.posters)
  }

  lemma StepConserves(s: State, step: Step)
    requires Inv(s) && Enabled(s, step)
    ensures AllJobs(Apply(s, step)) == AllJobs(s)
  {
    hide Remaining, JobIds, Inv;
    match step {
      case Post(p, wake) => PostConserves(s, p, wake);
      case Pop(w, wake) => PopConserves(s, w, wake);
      case Close(force) => CloseConserves(s, force);
      case SpuriousPoster(p) => SameJobs(s.posters, p, s.posters[p].(at := Woken));
      case _ =>
    }
  }

  lemma PopConserves(s: State, w: nat, wake: nat)
    requires Inv(s) && Enabled(s, Pop(w, wake))
    ensures AllJobs(ApplyPop(s, w, wake)) == AllJobs(s)
  {
    WokenPoster(s.posters, wake);
    hide Remaining, JobIds;
  }

  lemma CloseConserves(s: State, force: bool)
    requires Inv(s) && s.closer.Open?
    ensures AllJobs(Apply(s, Close(force))) == AllJobs(s)
  {
    BeforeClose(s);
    DroppedAreRest(s);
    hide *;
    SplitBag(s.before, JobIds(s.taken), JobIds(s.core.q), Remaining(s.posters));
    ClosedJobs(s, force);
  }

  lemma ClosedJobs(s: State, force: bool)
    requires s.closer.Open?
    ensures var t := Apply(s, Close(force));
            && t.late == s.late && t.posters == s.posters
            && t.before == (if force then JobIds(s.taken) else s.before)
            && t.dropped == (if force then JobIds(s.core.q) else [])
  {
  }

  lemma SplitBag(before: seq<nat>, a: seq<nat>, b: seq<nat>, r: multiset<nat>)
    requires before == a + b
    ensures multiset(before) + multiset([]) + multiset([]) + r == multiset(a) + multiset([]) + multiset(b) + r
  {
  }

  lemma BeforeClose(s: State)
    requires Inv(s) && s.closer.Open?
    ensures s.late == s.dropped == []
  {
  }

  /** A poster that has the same jobs ahead of it. */
  lemma SameJobs(posters: seq<Poster>, p: nat, x: Poster)
    requires p < |posters| && x.jobs == posters[p].jobs
    ensures Remaining(posters[p := x]) == Remaining(posters)
  {
    RemainingUpdate(posters, p, x);
    hide Remaining;
    Cancel(Remaining(posters[p := x]), Remaining(posters), multiset(x.jobs));
  }

  lemma OneJobLess(posters: seq<Poster>, p: nat, x: Poster)
    requires p < |posters| && posters[p].jobs != [] && x.jobs == posters[p].jobs[1..]
    ensures Remaining(posters[p := x]) + multiset{posters[p].jobs[0]} == Remaining(posters)
  {
    var id := posters[p].jobs[0];
    RemainingUpdate(posters, p, x);
    hide Remaining;
    assert posters[p].jobs == [id] + x.jobs;
    assert multiset(posters[p].jobs) == multiset{id} + multiset(x.jobs);
    Cancel(Remaining(posters[p := x]) + multiset{id}, Remaining(posters), multiset(x.jobs));
  }

  lemma PostConserves(s: State, p: nat, wake: nat)
    requires Enabled(s, Post(p, wake))
    ensures AllJobs(ApplyPost(s, p, wake)) == AllJobs(s)
  {
    var poster, t := s.posters[p], ApplyPost(s, p, wake);
    var id, x := poster.jobs[0], t.posters[p];
    hide Remaining, WakeWorker;
    assert t.posters == s.posters[p := x];
    if t.core == s.core {
      SameJobs(s.posters, p, x);
    } else {
      OneJobLess(s.posters, p, x);
      assert multiset(s.before + [id]) == multiset(s.before) + multiset{id};
      assert multiset(s.late + [id]) == multiset(s.late) + multiset{id};
    }
  }

  /** A forced close drops the jobs that have not been taken, and no other. */
  lemma DroppedAreRest(s: State)
    requires Inv(s) && s.closer.Open?
    ensures s.before == JobIds(s.taken) + JobIds(s.core.q)
  {
    var n := |s.taken|;
    TakenIds(s);
    hide JobIds;
    assert s.taken + s.core.q == Jobs(s.before) by {
      assert Jobs(s.before) + Stops(0) + Jobs([]) == Jobs(s.before);
    }
    var rest := s.before[n..];
    assert s.core.q == (s.taken + s.core.q)[n..] == Jobs(rest);
    IdsOfFirst(rest, 0, |rest|);
    assert (Jobs(rest) + Stops(0))[..|rest|] == Jobs(rest);
  }

  lemma {:induction false} Conserved(s: State, steps: seq<Step>)
    requires Inv(s) && Legal(s, steps)
    ensures AllJobs(After(s, steps)) == AllJobs(s)
    decreases |steps|
  {
    hide Inv, Enabled, Apply, AllJobs;
    if steps != [] {
      StepKeeps(s, steps[0]);
      StepConserves(s, steps[0]);
      Conserved(Apply(s, steps[0]), steps[1..]);
    }
  }

  // ----- one client -----

  /** A single client's jobs enter the queue in the order in which it posts them. */
  predicate InOrder(s: State, list: seq<nat>) {
    && |s.posters| == 1 && !s.forced && s.late == []
    && s.before + s.posters[0].jobs == list
  }

  lemma StepInOrder(s: State, list: seq<nat>, step: Step)
    requires InOrder(s, list) && s.core.running && Enabled(s, step) && !step.Close?
    ensures InOrder(Apply(s, step), list) && Apply(s, step).core.running
  {
    if step.Post? {
      var jobs := s.posters[0].jobs;
      assert (s.before + [jobs[0]]) + jobs[1..] == s.before + jobs;
    }
  }

  lemma {:induction false} RunInOrder(s: State, list: seq<nat>, steps: seq<Step>)
    requires InOrder(s, list) && s.core.running && Legal(s, steps) && forall step | step in steps :: !step.Close?
    ensures InOrder(After(s, steps), list) && After(s, steps).core.running
    decreases |steps|
  {
    hide InOrder, Enabled, Apply;
    if steps != [] {
      assert steps[0] in steps;
      StepInOrder(s, list, steps[0]);
      RunInOrder(Apply(s, steps[0]), list, steps[1..]);
    }
  }

  /** One client posts a list of jobs, to the last, and closes the pool: whatever the interleaving, when
      close has returned exactly these jobs have run, and were started in this order. */
  lemma PostAllThenClose(maxSize: nat, threads: nat, list: seq<nat>, posting: seq<Step>, closing: seq<Step>)
    requires threads > 0 && (forall step | step in posting :: !step.Close?)
    requires var s := Opened(maxSize, threads, [list]);
             && Legal(s, posting) && (forall p | p in After(s, posting).posters :: p.jobs == [])
             && Legal(After(s, posting), [Close(false)] + closing)
    ensures var t := After(After(Opened(maxSize, threads, [list]), posting), [Close(false)] + closing);
            t.closer.Closed? ==>
              t.finished == multiset(list) && t.taken == Jobs(list) + Stops(threads) && t.core.q == []
  {
    var s := Opened(maxSize, threads, [list]);
    OpenedInv(maxSize, threads, [list]);
    AlwaysInv(s, posting);
    RunInOrder(s, list, posting);
    hide Inv, Opened, Enabled, Apply, Jobs, Stops;
    ThenClose(After(s, posting), list, closing);
  }

  lemma ThenClose(m: State, list: seq<nat>, closing: seq<Step>)
    requires Inv(m) && m.workers != [] && InOrder(m, list) && m.core.running
    requires forall p | p in m.posters :: p.jobs == []
    requires Legal(m, [Close(false)] + closing)
    ensures var t := After(m, [Close(false)] + closing);
            t.closer.Closed? ==>
              t.finished == multiset(list) && t.taken == Jobs(list) + Stops(|m.workers|) && t.core.q == []
  {
    assert m.posters[0] in m.posters;
    OnlyStart(m);
    AlwaysInv(m, [Close(false)] + closing);
    assert ([Close(false)] + closing)[1..] == closing;
    NoRaceNothingLate(m, false, closing);
    var t := After(m, [Close(false)] + closing);
    assert t == After(Apply(m, Close(false)), closing);
    if t.closer.Closed? {
      ClosedMeansDone(t);
      assert m.before + [] == list;
    }
  }

  lemma OnlyStart(s: State)
    requires Inv(s) && |s.posters| == 1 && s.posters[0].jobs == []
    ensures NoPostUnderWay(s)
  {
  }

  /** A post that races close: job 8 is accepted, and never runs. */
  lemma RaceLosesJob() returns (steps: seq<Step>)
    ensures var s := Opened(0, 1, [[7, 8]]);
            && Legal(s, steps) && After(s, steps).closer.Closed?
            && After(s, steps).late == [8] && After(s, steps).finished == multiset{7}
            && After(s, steps).posters == [Poster(Start, [])]
  {
    var s0 := Opened(0, 1, [[7, 8]]);
    var s1, s2, s3 := RacePosts();
    var s4, s5, s6 := RaceCloses(s3);
    var s7, s8, s9, s10 := RaceEnds(s6);
    hide *;
    ThreeSteps(s0, Post(0, 0), Post(0, 0), Pop(0, 0));
    ThreeSteps(s3, Close(false), Finish(0), Pop(0, 0));
    OneStep(s6, Post(0, 0));
    ThreeSteps(s7, NotifyAll, Join, Join);
    steps := [Post(0, 0)] + [NotifyAll, Join, Join];
    LegalJoin(s6, [Post(0, 0)], [NotifyAll, Join, Join]);
    LegalJoin(s3, [Close(false), Finish(0), Pop(0, 0)], steps);
    steps := [Close(false), Finish(0), Pop(0, 0)] + steps;
    LegalJoin(s0, [Post(0, 0), Post(0, 0), Pop(0, 0)], steps);
    steps := [Post(0, 0), Post(0, 0), Pop(0, 0)] + steps;
  }

  lemma OneStep(s: State, a: Step)
    requires Enabled(s, a)
    ensures Legal(s, [a]) && After(s, [a]) == Apply(s, a)
  {
    hide Enabled, Apply;
    assert [a][1..] == [];
  }

  lemma ThreeSteps(s: State, a: Step, b: Step, c: Step)
    requires Enabled(s, a) && Enabled(Apply(s, a), b) && Enabled(Apply(Apply(s, a), b), c)
    ensures Legal(s, [a, b, c]) && After(s, [a, b, c]) == Apply(Apply(Apply(s, a), b), c)
  {
    hide Enabled, Apply;
    assert [a, b, c][1..] == [b, c] && [b, c][1..] == [c];
    OneStep(Apply(Apply(s, a), b), c);
  }

  lemma {:induction false} LegalJoin(s: State, first: seq<Step>, rest: seq<Step>)
    requires Legal(s, first) && Legal(After(s, first), rest)
    ensures Legal(s, first + rest) && After(s, first + rest) == After(After(s, first), rest)
    decreases |first|
  {
    hide Enabled, Apply;
    if first == [] {
      assert first + rest == rest;
    } else {
      assert (first + rest)[1..] == first[1..] + rest;
      LegalJoin(Apply(s, first[0]), first[1..], rest);
    }
  }

  /** Job 7 fills the queue, job 8 has to wait, the worker takes job 7 and wakes the poster. */
  lemma RacePosts() returns (s1: State, s2: State, s3: State)
    ensures var s0 := Opened(0, 1, [[7, 8]]);
            && Enabled(s0, Post(0, 0)) && s1 == Apply(s0, Post(0, 0))
            && Enabled(s1, Post(0, 0)) && s2 == Apply(s1, Post(0, 0))
            && Enabled(s2, Pop(0, 0)) && s3 == Apply(s2, Pop(0, 0))
    ensures s3 == State(0, Core([], true), [Running(7)], [Poster(Woken, [8])], Open, false, [7], [], [], [Job(7)],
                        multiset{})
  {
    var s0 := Opened(0, 1, [[7, 8]]);
    assert s0.workers == [Ready] && s0.posters == [Poster(Start, [7, 8])];
    s1 := Apply(s0, Post(0, 0));
    assert s1.core.q == [Job(7)] && s1.posters == [Poster(Start, [8])] && s1.before == [7] && s1.workers == [Ready];
    s2 := Apply(s1, Post(0, 0));
    assert s2 == s1.(posters := [Poster(Waits, [8])]);
    s3 := Apply(s2, Pop(0, 0));
    assert s3.core.q == [] && s3.workers == [Running(7)] && s3.taken == [Job(7)];
  }

  /** Close comes first; the worker finishes job 7 and takes its stop task. */
  lemma RaceCloses(s3: State) returns (s4: State, s5: State, s6: State)
    requires s3 == State(0, Core([], true), [Running(7)], [Poster(Woken, [8])], Open, false, [7], [], [], [Job(7)],
                         multiset{})
    ensures && Enabled(s3, Close(false)) && s4 == Apply(s3, Close(false))
            && Enabled(s4, Finish(0)) && s5 == Apply(s4, Finish(0))
            && Enabled(s5, Pop(0, 0)) && s6 == Apply(s5, Pop(0, 0))
    ensures && s6.maxSize == 0 && s6.core == Core([], false) && s6.workers == [Stopped]
            && s6.posters == [Poster(Woken, [8])] && s6.closer == Notifying
            && s6.late == [] && s6.finished == multiset{7}
  {
    s4 := Apply(s3, Close(false));
    assert s4.core.q == [Stop];
    s5 := Apply(s4, Finish(0));
    assert s5.workers == [Ready] && s5.core.q == [Stop];
    assert [Stop][1..] == [];
    s6 := Apply(s5, Pop(0, 0));
    assert s6.core.q == [] && s6.workers == [Stopped];
  }

  /** The poster finds room and leaves job 8 behind. */
  lemma RaceEnds(s6: State) returns (s7: State, s8: State, s9: State, s10: State)
    requires && s6.maxSize == 0 && s6.core == Core([], false) && s6.workers == [Stopped]
             && s6.posters == [Poster(Woken, [8])] && s6.closer == Notifying
             && s6.late == [] && s6.finished == multiset{7}
    ensures && Enabled(s6, Post(0, 0)) && s7 == Apply(s6, Post(0, 0))
            && Enabled(s7, NotifyAll) && s8 == Apply(s7, NotifyAll)
            && Enabled(s8, Join) && s9 == Apply(s8, Join)
            && Enabled(s9, Join) && s10 == Apply(s9, Join)
    ensures s10.closer == Closed && s10.late == [8] && s10.finished == multiset{7} && s10.posters == [Poster(Start, [])]
  {
    assert [8][1..] == [];
    s7 := Apply(s6, Post(0, 0));
    assert s7.late == [8] && s7.posters == [Poster(Start, [])] && s7.workers == [Stopped];
    s8 := Apply(s7, NotifyAll);
    assert s8.workers == [Stopped] && s8.closer == Joining(1);
    s9 := Apply(s8, Join);
    s10 := Apply(s9, Join);
  }
}

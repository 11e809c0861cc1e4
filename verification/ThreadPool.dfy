/**
  basic_thread_pool (src/client/thread_pool.h): a bounded queue of tasks, the threads that run them,
  the threads that post them and the thread that closes the pool. What a thread does while it holds
  the mutex is one step; the condition variables are the threads waiting on them.
 */
module ThreadPool {

  /** Stop is the empty task that close pushes, one for each worker. */
  datatype Task = Stop | Job(id: nat)

  datatype PostResult = Threw | MustWait | Pushed
  datatype PopResult = Empty | Stopping | Took(id: nat) | BadCall

  /** The members that the mutex guards. */
  datatype Core = Core(q: seq<Task>, running: bool)

  function PostSection(core: Core, maxSize: nat, woken: bool, id: nat): (Core, PostResult) {
    if !woken && !core.running then (core, Threw)
    else if |core.q| <= maxSize then (core.(q := core.q + [Job(id)]), Pushed)
    else (core, MustWait)
  }

  function PopSection(core: Core): (Core, PopResult) {
    if core.q == [] then (core, Empty)
    else
      (core.(q := core.q[1..]),
       match core.q[0]
       case Job(id) => Took(id)
       case Stop => if core.running then BadCall else Stopping)
  }

  function Stops(n: nat): (r: seq<Task>)
    ensures |r| == n && forall i | 0 <= i < n :: r[i] == Stop
  {
    seq(n, i => Stop)
  }

  function CloseSection(core: Core, force: bool, threads: nat): Core {
    Core((if force then [] else core.q) + Stops(threads), false)
  }

  /** The critical sections as the program has them. */
  class BasicThreadPool {
    const maxSize: nat
    var q: seq<Task>
    var running: bool

    constructor (max: nat)
      ensures maxSize == max && q == [] && !running
    {
      maxSize, q, running := max, [], false;
    }

    function State(): Core
      reads this
    {
      Core(q, running)
    }

    method Open()
      modifies this`running
      ensures running
    {
      running := true;
    }

    /** post, from entering (woken == false) or from being woken to leaving or waiting. */
    method Post(woken: bool, id: nat) returns (r: PostResult)
      modifies this`q
      ensures (State(), r) == PostSection(old(State()), maxSize, woken, id)
    {
      if !woken && !running {
        return Threw;
      }
      if !(|q| <= maxSize) {
        return MustWait;
      }
      q := q + [Job(id)];
      return Pushed;
    }

    /** pop, from entering or being woken to leaving or waiting. */
    method Pop() returns (r: PopResult)
      modifies this`q
      ensures (State(), r) == PopSection(old(State()))
    {
      if |q| == 0 {
        return Empty;
      }
      var task := q[0];
      q := q[1..];
      if task.Stop? && !running {
        return Stopping;
      }
      return if task.Stop? then BadCall else Took(task.id);
    }

    method Close(force: bool, threads: nat)
      modifies this
      ensures State() == CloseSection(old(State()), force, threads)
    {
      running := false;
      if force {
        q := [];
      }
      ghost var was := q;
      for i := 0 to threads
        invariant !running && q == was + Stops(i)
      {
        assert Stops(i + 1) == Stops(i) + [Stop];
        q := q + [Stop];
      }
    }
  }

  // ----- the threads -----

  datatype Worker =
    | Ready             // about to enter pop, or woken in it
    | Waiting           // on write_cond_
    | Running(id: nat)
    | Stopped           // run has returned

  datatype PostAt = Start | Waits | Woken | GaveUp
  datatype Poster = Poster(at: PostAt, jobs: seq<nat>)    // jobs[0] is the one being posted

  datatype Closer = Open | Notifying | Joining(left: nat) | Closed

  datatype State = State(
    maxSize: nat, core: Core, workers: seq<Worker>, posters: seq<Poster>, closer: Closer, forced: bool,
    before: seq<nat>,           // jobs pushed before close, less those that a forced close dropped
    late: seq<nat>,             // jobs pushed after it
    dropped: seq<nat>,
    taken: seq<Task>,           // everything popped, in order
    finished: multiset<nat>)

  datatype Step =
    | Post(p: nat, wake: nat)
    | Pop(w: nat, wake: nat)
    | Finish(w: nat)
    | Close(force: bool)
    | NotifyAll
    | Join
    | SpuriousWorker(w: nat)
    | SpuriousPoster(p: nat)
  {
    predicate Spurious() {
      SpuriousWorker? || SpuriousPoster?
    }
  }

  function JobIds(q: seq<Task>): (r: seq<nat>)
    ensures |r| <= |q|
  {
    if q == [] then [] else
      JobIds(q[..|q| - 1]) + (match q[|q| - 1] case Job(id) => [id] case Stop => [])
  }

  predicate Waiters(posters: seq<Poster>) {
    exists p :: 0 <= p < |posters| && posters[p].at.Waits?
  }

  predicate Sleepers(workers: seq<Worker>) {
    exists w :: 0 <= w < |workers| && workers[w].Waiting?
  }

  /** notify_one wakes any one of the waiting threads, when there are any. */
  function WakeWorker(workers: seq<Worker>, w: nat): (r: seq<Worker>)
    ensures |r| == |workers|
  {
    if w < |workers| && workers[w].Waiting? then workers[w := Ready] else workers
  }

  function WakePoster(posters: seq<Poster>, p: nat): (r: seq<Poster>)
    ensures |r| == |posters|
  {
    if p < |posters| && posters[p].at.Waits? then posters[p := posters[p].(at := Woken)] else posters
  }

  function WakeAll(workers: seq<Worker>): (r: seq<Worker>)
    ensures |r| == |workers|
    ensures forall i | 0 <= i < |r| :: r[i] == if workers[i].Waiting? then Ready else workers[i]
  {
    seq(|workers|, i requires 0 <= i < |workers| => if workers[i].Waiting? then Ready else workers[i])
  }

  predicate CanPost(poster: Poster) {
    poster.jobs != [] && (poster.at.Start? || poster.at.Woken?)
  }

  predicate Enabled(s: State, step: Step) {
    match step
    case Post(p, wake) =>
      && p < |s.posters| && CanPost(s.posters[p])
      && (Sleepers(s.workers) ==> wake < |s.workers| && s.workers[wake].Waiting?)
    case Pop(w, wake) =>
      && w < |s.workers| && s.workers[w].Ready?
      && (Waiters(s.posters) ==> wake < |s.posters| && s.posters[wake].at.Waits?)
    case Finish(w) => w < |s.workers| && s.workers[w].Running?
    case Close(_) => s.closer.Open?
    case NotifyAll => s.closer.Notifying?
    case Join =>
      && s.closer.Joining?
      && (s.closer.left == 0 || (s.closer.left <= |s.workers| && s.workers[s.closer.left - 1].Stopped?))
    case SpuriousWorker(w) => w < |s.workers| && s.workers[w].Waiting?
    case SpuriousPoster(p) => p < |s.posters| && s.posters[p].at.Waits?
  }

  function Apply(s: State, step: Step): State
    requires Enabled(s, step)
  {
    match step
    case Post(p, wake) => ApplyPost(s, p, wake)
    case Pop(w, wake) => ApplyPop(s, w, wake)
    case Finish(w) => s.(workers := s.workers[w := Ready], finished := s.finished + multiset{s.workers[w].id})
    case Close(force) =>
      s.(core := CloseSection(s.core, force, |s.workers|), closer := Notifying, forced := force,
         before := if force then JobIds(s.taken) else s.before,
         dropped := if force then JobIds(s.core.q) else [])
    case NotifyAll => s.(workers := WakeAll(s.workers), closer := Joining(|s.workers|))
    case Join => s.(closer := if s.closer.left == 0 then Closed else Joining(s.closer.left - 1))
    case SpuriousWorker(w) => s.(workers := s.workers[w := Ready])
    case SpuriousPoster(p) => s.(posters := s.posters[p := s.posters[p].(at := Woken)])
  }

  function ApplyPost(s: State, p: nat, wake: nat): State
    requires Enabled(s, Post(p, wake))
  {
    var poster := s.posters[p];
    var (core, r) := PostSection(s.core, s.maxSize, poster.at.Woken?, poster.jobs[0]);
    match r
    case Threw => s.(posters := s.posters[p := poster.(at := GaveUp)])
    case MustWait => s.(posters := s.posters[p := poster.(at := Waits)])
    case Pushed =>
      s.(core := core, workers := WakeWorker(s.workers, wake),
         posters := s.posters[p := Poster(Start, poster.jobs[1..])],
         before := if core.running then s.before + [poster.jobs[0]] else s.before,
         late := if core.running then s.late else s.late + [poster.jobs[0]])
  }

  function ApplyPop(s: State, w: nat, wake: nat): State
    requires Enabled(s, Pop(w, wake))
  {
    var (core, r) := PopSection(s.core);
    if r.Empty? then s.(workers := s.workers[w := Waiting])
    else
      s.(core := core, taken := s.taken + [s.core.q[0]], posters := WakePoster(s.posters, wake),
         workers := s.workers[w := match r case Took(id) => Running(id) case _ => Stopped])
  }

  /** After open(threads), with clients that have lists of jobs to post. */
  function Opened(maxSize: nat, threads: nat, lists: seq<seq<nat>>): State {
    State(maxSize, Core([], true), seq(threads, i => Ready),
          seq(|lists|, i requires 0 <= i < |lists| => Poster(Start, lists[i])),
          Open, false, [], [], [], [], multiset{})
  }

  predicate Legal(s: State, steps: seq<Step>)
    decreases |steps|
  {
    steps == [] || (Enabled(s, steps[0]) && Legal(Apply(s, steps[0]), steps[1..]))
  }

  function After(s: State, steps: seq<Step>): State
    requires Legal(s, steps)
    decreases |steps|
  {
    if steps == [] then s else After(Apply(s, steps[0]), steps[1..])
  }

  // ----- counting -----

  function Sum<T>(f: T -> nat, s: seq<T>): nat {
    if s == [] then 0 else f(s[0]) + Sum(f, s[1..])
  }

  lemma {:induction false} SumUpdate<T>(f: T -> nat, s: seq<T>, i: nat, x: T)
    requires i < |s|
    ensures Sum(f, s[i := x]) + f(s[i]) == Sum(f, s) + f(x)
  {
    if i == 0 {
      assert s[i := x][1..] == s[1..];
    } else {
      assert s[i := x][1..] == s[1..][i - 1 := x];
      SumUpdate(f, s[1..], i - 1, x);
    }
  }

  lemma {:induction false} SumAtLeast<T>(f: T -> nat, s: seq<T>, i: nat)
    requires i < |s|
    ensures f(s[i]) <= Sum(f, s)
  {
    if i > 0 {
      SumAtLeast(f, s[1..], i - 1);
    }
  }

  lemma {:induction false} SumFull<T>(f: T -> nat, s: seq<T>)
    requires forall x | x in s :: f(x) <= 1
    ensures Sum(f, s) <= |s|
    ensures Sum(f, s) == |s| <==> forall x | x in s :: f(x) == 1
    ensures Sum(f, s) == 0 <==> forall x | x in s :: f(x) == 0
  {
    if s != [] {
      SumFull(f, s[1..]);
      assert forall x | x in s :: x == s[0] || x in s[1..];
    }
  }

  function IsReady(w: Worker): nat { if w.Ready? then 1 else 0 }
  function IsStopped(w: Worker): nat { if w.Stopped? then 1 else 0 }
  function IsWoken(p: Poster): nat { if p.at.Woken? then 1 else 0 }

  function Carried(w: Worker): multiset<nat> { if w.Running? then multiset{w.id} else multiset{} }

  /** The jobs that the workers are running. */
  function Bag(workers: seq<Worker>): multiset<nat> {
    if workers == [] then multiset{} else Carried(workers[0]) + Bag(workers[1..])
  }

  lemma AddFront(h: multiset<nat>, a: multiset<nat>, c: multiset<nat>, b: multiset<nat>, d: multiset<nat>)
    requires a + c == b + d
    ensures (h + a) + c == (h + b) + d
  {
    assert (h + a) + c == h + (a + c);
  }

  lemma {:induction false} BagUpdate(s: seq<Worker>, i: nat, x: Worker)
    requires i < |s|
    ensures Bag(s[i := x]) + Carried(s[i]) == Bag(s) + Carried(x)
  {
    if i == 0 {
      assert s[i := x][1..] == s[1..];
    } else {
      assert s[i := x][1..] == s[1..][i - 1 := x];
      BagUpdate(s[1..], i - 1, x);
      AddFront(Carried(s[0]), Bag(s[1..][i - 1 := x]), Carried(s[i]), Bag(s[1..]), Carried(x));
    }
  }

  lemma {:induction false} BagEmpty(s: seq<Worker>)
    requires forall w | w in s :: !w.Running?
    ensures Bag(s) == multiset{}
  {
    if s != [] {
      BagEmpty(s[1..]);
    }
  }

  /** The jobs that posters still have to post. */
  function Remaining(posters: seq<Poster>): multiset<nat> {
    if posters == [] then multiset{} else multiset(posters[0].jobs) + Remaining(posters[1..])
  }

  lemma {:induction false} RemainingUpdate(s: seq<Poster>, i: nat, x: Poster)
    requires i < |s|
    ensures Remaining(s[i := x]) + multiset(s[i].jobs) == Remaining(s) + multiset(x.jobs)
  {
    if i == 0 {
      assert s[i := x][1..] == s[1..];
    } else {
      assert s[i := x][1..] == s[1..][i - 1 := x];
      RemainingUpdate(s[1..], i - 1, x);
      var rest := s[1..];
      AddFront(multiset(s[0].jobs), Remaining(rest[i - 1 := x]), multiset(s[i].jobs), Remaining(rest),
               multiset(x.jobs));
    }
  }

  function Jobs(ids: seq<nat>): (r: seq<Task>)
    ensures |r| == |ids| && forall i | 0 <= i < |r| :: r[i] == Job(ids[i])
  {
    seq(|ids|, i requires 0 <= i < |ids| => Job(ids[i]))
  }

  lemma JobIdsSnoc(q: seq<Task>, t: Task)
    ensures JobIds(q + [t]) == JobIds(q) + (match t case Job(id) => [id] case Stop => [])
  {
    assert (q + [t])[..|q|] == q;
  }

  /** The first k of these jobs and stop tasks. */
  lemma {:induction false} IdsOfFirst(ids: seq<nat>, n: nat, k: nat)
    requires k <= |ids| + n
    ensures JobIds((Jobs(ids) + Stops(n))[..k]) == if k <= |ids| then ids[..k] else ids
  {
    if k > 0 {
      IdsOfFirst(ids, n, k - 1);
      hide JobIds;
      var all := Jobs(ids) + Stops(n);
      assert all[..k] == all[..k - 1] + [all[k - 1]];
      JobIdsSnoc(all[..k - 1], all[k - 1]);
      assert k <= |ids| ==> ids[..k] == ids[..k - 1] + [ids[k - 1]];
    }
  }

  // ----- the invariant -----

  function StopsPushed(s: State): nat {
    if s.closer.Open? then 0 else |s.workers|
  }

  /** Tasks leave the queue in the order in which they entered it. */
  predicate Fifo(s: State) {
    && (s.core.running <==> s.closer.Open?)
    && (s.closer.Open? ==> s.late == [] && s.dropped == [] && !s.forced)
    && (s.dropped != [] ==> s.forced)
    && s.taken + s.core.q == Jobs(s.before) + Stops(StopsPushed(s)) + Jobs(s.late)
    && |s.taken| <= |s.before| + StopsPushed(s)
  }

  /** Every task taken is being run, has been run, or has stopped a worker. */
  predicate Ledger(s: State) {
    && s.finished + Bag(s.workers) == multiset(JobIds(s.taken))
    && Sum(IsStopped, s.workers) == |s.taken| - |JobIds(s.taken)|
  }

  predicate Bounded(s: State) {
    s.core.running ==> |s.core.q| <= s.maxSize + 1
  }

  /** While a worker sleeps, enough others are about to look at the queue. */
  predicate WorkersAwake(s: State) {
    Sleepers(s.workers) && !s.closer.Notifying? ==> |s.core.q| <= Sum(IsReady, s.workers)
  }

  /** While a poster sleeps, enough others are about to fill the queue up. */
  predicate PostersAwake(s: State) {
    && (forall p | p in s.posters && (p.at.Waits? || p.at.Woken?) :: p.jobs != [])
    && (s.core.running ==> forall p | p in s.posters :: !p.at.GaveUp?)
    && (!s.forced && Waiters(s.posters) ==> s.maxSize + 1 <= |s.core.q| + Sum(IsWoken, s.posters))
  }

  predicate Joined(s: State) {
    && (s.closer.Joining? ==>
          s.closer.left <= |s.workers| && forall i | s.closer.left <= i < |s.workers| :: s.workers[i].Stopped?)
    && (s.closer.Closed? ==> forall i | 0 <= i < |s.workers| :: s.workers[i].Stopped?)
  }

  predicate Inv(s: State) {
    Fifo(s) && Ledger(s) && Bounded(s) && WorkersAwake(s) && PostersAwake(s) && Joined(s)
  }

  /** The jobs taken so far are the first ones pushed. */
  lemma TakenIds(s: State)
    requires Fifo(s)
    ensures JobIds(s.taken) == if |s.taken| <= |s.before| then s.before[..|s.taken|] else s.before
    ensures s.taken == (Jobs(s.before) + Stops(StopsPushed(s)))[..|s.taken|]
  {
    hide Jobs, Stops, JobIds;
    var all := Jobs(s.before) + Stops(StopsPushed(s));
    assert (s.taken + s.core.q)[..|s.taken|] == s.taken;
    assert (all + Jobs(s.late))[..|s.taken|] == all[..|s.taken|];
    IdsOfFirst(s.before, StopsPushed(s), |s.taken|);
  }

  /** A worker that still runs has its stop task ahead of it. */
  lemma StopAhead(s: State, w: nat)
    requires Fifo(s) && Ledger(s) && w < |s.workers| && !s.workers[w].Stopped?
    ensures !s.closer.Open? ==> |s.taken| < |s.before| + |s.workers|
    ensures !s.closer.Open? ==> s.core.q != []
  {
    TakenIds(s);
    SumFull(IsStopped, s.workers);
    assert s.workers[w] in s.workers && IsStopped(s.workers[w]) == 0;
    assert |s.taken + s.core.q| == |s.before| + StopsPushed(s) + |s.late|;
  }

  // ----- every step keeps the invariant -----

  lemma Cancel(a: multiset<nat>, b: multiset<nat>, c: multiset<nat>)
    requires a + c == b + c
    ensures a == b
  {
    assert a == (a + c) - c;
    assert b == (b + c) - c;
  }

  lemma WokenWorker(workers: seq<Worker>, wake: nat)
    requires Sleepers(workers) ==> wake < |workers| && workers[wake].Waiting?
    ensures var r := WakeWorker(workers, wake);
            && Bag(r) == Bag(workers) && Sum(IsStopped, r) == Sum(IsStopped, workers)
            && Sum(IsReady, r) == Sum(IsReady, workers) + (if Sleepers(workers) then 1 else 0)
            && (Sleepers(r) ==> Sleepers(workers))
            && forall i | 0 <= i < |r| :: workers[i].Stopped? <==> r[i].Stopped?
  {
    hide Bag, Sum;
    if Sleepers(workers) {
      BagUpdate(workers, wake, Ready);
      Cancel(Bag(workers[wake := Ready]), Bag(workers), multiset{});
      assert WakeWorker(workers, wake) == workers[wake := Ready];
      SumUpdate(IsStopped, workers, wake, Ready);
      SumUpdate(IsReady, workers, wake, Ready);
    }
  }

  lemma WokenPoster(posters: seq<Poster>, wake: nat)
    requires Waiters(posters) ==> wake < |posters| && posters[wake].at.Waits?
    requires forall p | p in posters && (p.at.Waits? || p.at.Woken?) :: p.jobs != []
    ensures forall p | p in WakePoster(posters, wake) :: p in posters || p.at.Woken?
    ensures var r := WakePoster(posters, wake);
            && Remaining(r) == Remaining(posters)
            && Sum(IsWoken, r) == Sum(IsWoken, posters) + (if Waiters(posters) then 1 else 0)
            && (Waiters(r) ==> Waiters(posters))
            && forall p | p in r && (p.at.Waits? || p.at.Woken?) :: p.jobs != []
  {
    hide Remaining, Sum;
    if Waiters(posters) {
      var x := posters[wake].(at := Woken);
      RemainingUpdate(posters, wake, x);
      Cancel(Remaining(posters[wake := x]), Remaining(posters), multiset(x.jobs));
      SumUpdate(IsWoken, posters, wake, x);
      assert posters[wake] in posters;
      assert forall p | p in posters[wake := x] :: p in posters || p == x;
    }
  }

  /** A poster that moved on, having found the queue full, thrown, or pushed its job. */
  lemma PosterMoved(posters: seq<Poster>, p: nat, x: Poster)
    requires p < |posters| && CanPost(posters[p]) && !x.at.Woken? && (x.at.Waits? ==> x.jobs != [])
    requires forall q | q in posters && (q.at.Waits? || q.at.Woken?) :: q.jobs != []
    ensures var r := posters[p := x];
            && Sum(IsWoken, r) == Sum(IsWoken, posters) - IsWoken(posters[p])
            && (Waiters(r) ==> Waiters(posters) || x.at.Waits?)
            && forall q | q in r && (q.at.Waits? || q.at.Woken?) :: q.jobs != []
  {
    SumUpdate(IsWoken, posters, p, x);
    SumAtLeast(IsWoken, posters, p);
  }

  lemma PostKeeps(s: State, p: nat, wake: nat)
    requires Inv(s) && Enabled(s, Post(p, wake))
    ensures Inv(ApplyPost(s, p, wake))
  {
    hide Bag, Sum, Remaining, JobIds, Jobs, Stops;
    var poster, t := s.posters[p], ApplyPost(s, p, wake);
    var id := poster.jobs[0];
    match PostSection(s.core, s.maxSize, poster.at.Woken?, id).1 {
      case Threw => PosterMoved(s.posters, p, poster.(at := GaveUp));
      case MustWait => PosterMoved(s.posters, p, poster.(at := Waits));
      case Pushed =>
        PosterMoved(s.posters, p, Poster(Start, poster.jobs[1..]));
        WokenWorker(s.workers, wake);
        assert Fifo(t) by {
          PushedLast(s, id);
        }
    }
  }

  lemma PushedLast(s: State, id: nat)
    requires Fifo(s)
    ensures s.taken + (s.core.q + [Job(id)]) ==
              if s.core.running then Jobs(s.before + [id]) + Stops(StopsPushed(s)) + Jobs(s.late)
              else Jobs(s.before) + Stops(StopsPushed(s)) + Jobs(s.late + [id])
  {
    assert s.taken + (s.core.q + [Job(id)]) == (s.taken + s.core.q) + [Job(id)];
    assert Jobs(s.before + [id]) == Jobs(s.before) + [Job(id)];
    assert Jobs(s.late + [id]) == Jobs(s.late) + [Job(id)];
  }

  lemma PopKeeps(s: State, w: nat, wake: nat)
    requires Inv(s) && Enabled(s, Pop(w, wake))
    ensures Inv(ApplyPop(s, w, wake))
    ensures !PopSection(s.core).1.BadCall?
  {
    StopAhead(s, w);
    if s.core.q == [] {
      SleepKeeps(s, w);
    } else {
      FrontIs(s);
      PopMoves(s, w, wake);
      PopFifo(s, w, wake);
      PopLedger(s, w, wake);
      hide Fifo, Ledger, WorkersAwake, PostersAwake, Joined, Bounded;
    }
  }

  lemma SleepKeeps(s: State, w: nat)
    requires Inv(s) && w < |s.workers| && s.workers[w].Ready? && s.core.q == [] && s.closer.Open?
    ensures Inv(s.(workers := s.workers[w := Waiting]))
  {
    hide Bag, Sum, Remaining, JobIds, Jobs, Stops;
    WorkerMoved(s.workers, w, Waiting);
    assert Bag(s.workers) + multiset{} == Bag(s.workers);
  }

  lemma PopFifo(s: State, w: nat, wake: nat)
    requires Fifo(s) && Enabled(s, Pop(w, wake)) && s.core.q != []
    requires !s.closer.Open? ==> |s.taken| < |s.before| + |s.workers|
    ensures Fifo(ApplyPop(s, w, wake))
  {
    hide Jobs, Stops;
    assert s.taken + s.core.q == (s.taken + [s.core.q[0]]) + s.core.q[1..];
    assert |s.taken + s.core.q| == |s.before| + StopsPushed(s) + |s.late|;
  }

  lemma PopLedger(s: State, w: nat, wake: nat)
    requires Ledger(s) && Enabled(s, Pop(w, wake)) && s.core.q != [] && (s.core.running ==> s.core.q[0].Job?)
    ensures Ledger(ApplyPop(s, w, wake))
  {
    hide Bag, Sum, JobIds;
    var t := ApplyPop(s, w, wake);
    WorkerMoved(s.workers, w, t.workers[w]);
    JobIdsSnoc(s.taken, s.core.q[0]);
    BookedIn(s.finished, Bag(s.workers), Bag(t.workers), t.workers[w], JobIds(s.taken));
  }

  lemma PopMoves(s: State, w: nat, wake: nat)
    requires WorkersAwake(s) && PostersAwake(s) && Joined(s) && Bounded(s)
    requires Enabled(s, Pop(w, wake)) && s.core.q != []
    ensures var t := ApplyPop(s, w, wake); WorkersAwake(t) && PostersAwake(t) && Joined(t) && Bounded(t)
  {
    hide Sum, Bag, Remaining;
    var t := ApplyPop(s, w, wake);
    WorkerMoved(s.workers, w, t.workers[w]);
    WokenPoster(s.posters, wake);
    assert t.workers == s.workers[w := t.workers[w]];
  }

  lemma BookedIn(finished: multiset<nat>, bag: multiset<nat>, bag': multiset<nat>, x: Worker, ids: seq<nat>)
    requires finished + bag == multiset(ids) && bag' == bag + Carried(x)
    ensures x.Running? ==> finished + bag' == multiset(ids + [x.id])
    ensures !x.Running? ==> finished + bag' == multiset(ids)
  {
    assert finished + bag' == multiset(ids) + Carried(x);
  }

  /** A worker that looked at the queue. */
  lemma WorkerMoved(workers: seq<Worker>, w: nat, x: Worker)
    requires w < |workers| && workers[w].Ready? && !x.Ready?
    ensures var r := workers[w := x];
            && Bag(r) == Bag(workers) + Carried(x)
            && Sum(IsReady, r) == Sum(IsReady, workers) - 1
            && Sum(IsStopped, r) == Sum(IsStopped, workers) + IsStopped(x)
            && (Sleepers(r) ==> Sleepers(workers) || x.Waiting?)
  {
    SumUpdate(IsReady, workers, w, x);
    SumUpdate(IsStopped, workers, w, x);
    BagUpdate(workers, w, x);
    hide Bag, Sum;
    assert Carried(workers[w]) == multiset{};
  }

  /** Stop tasks are not in the queue before close. */
  lemma FrontIs(s: State)
    requires Fifo(s) && s.core.q != []
    ensures s.core.running ==> s.core.q[0].Job?
  {
    assert (s.taken + s.core.q)[|s.taken|] == s.core.q[0];
  }

  /** A worker that was running a job, or asleep, is about to look at the queue. */
  lemma ReadyKeeps(s: State, w: nat, t: State)
    requires Inv(s) && w < |s.workers| && (s.workers[w].Running? || s.workers[w].Waiting?)
    requires t == s.(workers := s.workers[w := Ready], finished := s.finished + Carried(s.workers[w]))
    ensures Inv(t)
  {
    ReadyLedger(s, w, t);
    ReadyAwake(s, w, t);
    hide Bag, Sum, Remaining, JobIds, Jobs, Stops, Ledger, WorkersAwake;
  }

  lemma ReadyAwake(s: State, w: nat, t: State)
    requires WorkersAwake(s) && w < |s.workers| && (s.workers[w].Running? || s.workers[w].Waiting?)
    requires t == s.(workers := s.workers[w := Ready], finished := s.finished + Carried(s.workers[w]))
    ensures WorkersAwake(t)
  {
    SumUpdate(IsReady, s.workers, w, Ready);
    hide Sum;
  }

  lemma ReadyLedger(s: State, w: nat, t: State)
    requires Ledger(s) && w < |s.workers| && (s.workers[w].Running? || s.workers[w].Waiting?)
    requires t == s.(workers := s.workers[w := Ready], finished := s.finished + Carried(s.workers[w]))
    ensures Ledger(t)
  {
    SumUpdate(IsStopped, s.workers, w, Ready);
    BagUpdate(s.workers, w, Ready);
    hide Bag, Sum, JobIds;
    BookedOut(s.finished, Carried(s.workers[w]), Bag(t.workers), Bag(s.workers));
  }

  lemma BookedOut(finished: multiset<nat>, x: multiset<nat>, bag': multiset<nat>, bag: multiset<nat>)
    requires bag' + x == bag + multiset{}
    ensures (finished + x) + bag' == finished + bag
  {
    assert (finished + x) + bag' == finished + (bag' + x);
  }

  lemma CloseKeeps(s: State, force: bool)
    requires Inv(s) && s.closer.Open?
    ensures Inv(Apply(s, Close(force)))
  {
    CloseFifo(s, force);
    CloseAwake(s, force);
    hide Bag, Sum, Remaining, JobIds, Jobs, Stops, Fifo, PostersAwake;
  }

  lemma CloseAwake(s: State, force: bool)
    requires PostersAwake(s) && s.closer.Open? && !s.forced
    ensures PostersAwake(Apply(s, Close(force)))
  {
    hide Bag, Sum, Remaining, JobIds;
  }

  lemma CloseFifo(s: State, force: bool)
    requires Fifo(s) && s.closer.Open?
    ensures Fifo(Apply(s, Close(force)))
  {
    var n := |s.workers|;
    TakenIds(s);
    hide JobIds;
    assert Jobs(s.before) + Stops(0) + Jobs([]) == Jobs(s.before);
    assert s.taken + s.core.q == Jobs(s.before);
    if force {
      assert s.taken == Jobs(s.before)[..|s.taken|];
      assert s.taken + ([] + Stops(n)) == Jobs(s.before[..|s.taken|]) + Stops(n) + Jobs(s.late);
    } else {
      assert s.taken + (s.core.q + Stops(n)) == Jobs(s.before) + Stops(n) + Jobs(s.late);
    }
  }

  lemma NotifyAllKeeps(s: State)
    requires Inv(s) && s.closer.Notifying?
    ensures Inv(Apply(s, NotifyAll))
  {
    AllAwake(s.workers);
    hide Bag, Sum, Remaining, JobIds, Jobs, Stops;
  }

  lemma {:induction false} AllAwake(workers: seq<Worker>)
    ensures Bag(WakeAll(workers)) == Bag(workers) && Sum(IsStopped, WakeAll(workers)) == Sum(IsStopped, workers)
  {
    if workers != [] {
      assert WakeAll(workers)[1..] == WakeAll(workers[1..]);
      AllAwake(workers[1..]);
    }
  }

  lemma SpuriousPosterKeeps(s: State, p: nat)
    requires Inv(s) && Enabled(s, SpuriousPoster(p))
    ensures Inv(Apply(s, SpuriousPoster(p)))
  {
    var x := s.posters[p].(at := Woken);
    SumUpdate(IsWoken, s.posters, p, x);
    hide Bag, Sum, Remaining, JobIds, Jobs, Stops;
    assert s.posters[p] in s.posters;
  }

  lemma StepKeeps(s: State, step: Step)
    requires Inv(s) && Enabled(s, step)
    ensures Inv(Apply(s, step)) && |Apply(s, step).workers| == |s.workers| && Apply(s, step).maxSize == s.maxSize
    ensures step.Pop? ==> !PopSection(s.core).1.BadCall?
  {
    hide Inv;
    match step {
      case Post(p, wake) => PostKeeps(s, p, wake);
      case Pop(w, wake) => PopKeeps(s, w, wake);
      case Finish(w) => ReadyKeeps(s, w, Apply(s, step));
      case Close(force) => CloseKeeps(s, force);
      case NotifyAll => NotifyAllKeeps(s);
      case Join => JoinKeeps(s);
      case SpuriousWorker(w) =>
        assert s.finished + multiset{} == s.finished;
        ReadyKeeps(s, w, Apply(s, step));
      case SpuriousPoster(p) => SpuriousPosterKeeps(s, p);
    }
  }

  lemma JoinKeeps(s: State)
    requires Inv(s) && Enabled(s, Join)
    ensures Inv(Apply(s, Join))
  {
    hide Bag, Sum, Remaining, JobIds, Jobs, Stops;
  }

  lemma OpenedInv(maxSize: nat, threads: nat, lists: seq<seq<nat>>)
    ensures Inv(Opened(maxSize, threads, lists))
  {
    var s := Opened(maxSize, threads, lists);
    SumFull(IsStopped, s.workers);
    BagEmpty(s.workers);
  }

  /** Whatever the threads do, in any order. */
  lemma {:induction false} AlwaysInv(s: State, steps: seq<Step>)
    requires Inv(s) && Legal(s, steps)
    ensures Inv(After(s, steps)) && |After(s, steps).workers| == |s.workers| && After(s, steps).maxSize == s.maxSize
    decreases |steps|
  {
    hide Inv, Enabled, Apply;
    if steps != [] {
      StepKeeps(s, steps[0]);
      AlwaysInv(Apply(s, steps[0]), steps[1..]);
    }
  }
}

/** libdotnet/CryptoWorker.h: a pool of worker threads over a queue guarded by a mutex and a condition
    variable, as a machine whose steps are what one thread does between two others. */
module ThreadPool {
  import opened Wrappers

  /** A job is known by the number of the Offer call that brings it. */
  type Job = nat

  /** Ready: wants the mutex. Locked: has it. Taking: has it and a copy of the front of the queue. */
  datatype Worker = Ready | Locked | Taking(job: Job) | Running(job: Job) | Posting(job: Job) | Waiting | Returned

  /** Queued: the job is in, the mutex released, notify_one still to come. */
  datatype Offerer = Calling | Inside | Queued | Finished

  datatype Destroyer = Idle | Wanting | Holding | Notifying | Joining(joined: nat)

  datatype Owner = Free | OfWorker(worker: nat) | OfOfferer(offerer: nat) | OfDestroyer

  /** accepted, taken, ran and posted record which jobs went into the queue, left it, were run and had
      their result posted, in that order. */
  datatype Pool = Pool(
    workers: seq<Worker>, offers: seq<Offerer>, destroyer: Destroyer,
    jobs: seq<Job>, stop: bool, owner: Owner,
    accepted: seq<Job>, taken: seq<Job>, ran: seq<Job>, posted: seq<Job>)

  /** Call, Destroy and Wake (a spurious wake-up) come from outside; the others are the program's. */
  datatype Event =
    | Call | Enter(offer: nat) | Emplace(offer: nat) | NotifyOne(offer: nat, woken: Option<nat>)
    | Acquire(worker: nat) | Evaluate(worker: nat) | Pop(worker: nat) | Run(worker: nat) | Post(worker: nat)
    | Wake(worker: nat)
    | Destroy | Lock | Stop | NotifyAll | Join

  function Start(workers: int): Pool {
    Pool(seq(if workers > 0 then workers else 0, _ => Ready), [], Idle, [], false, Free, [], [], [], [])
  }

  predicate At(p: Pool, i: nat, w: Worker) {
    i < |p.workers| && p.workers[i] == w
  }

  predicate AtOffer(p: Pool, j: nat, o: Offerer) {
    j < |p.offers| && p.offers[j] == o
  }

  predicate Enabled(p: Pool, e: Event) {
    match e
    case Call => true
    case Enter(j) => AtOffer(p, j, Calling) && p.owner == Free
    case Emplace(j) => AtOffer(p, j, Inside)
    case NotifyOne(j, woken) =>
      AtOffer(p, j, Queued) && if woken.Some? then At(p, woken.value, Waiting) else Waiting !in p.workers
    case Acquire(i) => At(p, i, Ready) && p.owner == Free
    case Evaluate(i) => At(p, i, Locked)
    case Pop(i) => i < |p.workers| && p.workers[i].Taking? && p.jobs != []
    case Run(i) => i < |p.workers| && p.workers[i].Running?
    case Post(i) => i < |p.workers| && p.workers[i].Posting?
    case Wake(i) => At(p, i, Waiting)
    case Destroy => p.destroyer == Idle
    case Lock => p.destroyer == Wanting && p.owner == Free
    case Stop => p.destroyer == Holding
    case NotifyAll => p.destroyer == Notifying
    case Join => p.destroyer.Joining? && At(p, p.destroyer.joined, Returned)
  }

  predicate Internal(e: Event) {
    !e.Call? && !e.Wake? && !e.Destroy?
  }

  /** The worker holds the mutex: go on if the pool stops or there is a job, wait if not. */
  function Evaluated(p: Pool, i: nat): Pool
    requires At(p, i, Locked)
  {
    if !p.stop && p.jobs == [] then p.(workers := p.workers[i := Waiting], owner := Free)
    else if p.jobs == [] then p.(workers := p.workers[i := Returned], owner := Free)
    else p.(workers := p.workers[i := Taking(p.jobs[0])])
  }

  function Emplaced(p: Pool, j: nat): Pool
    requires AtOffer(p, j, Inside)
  {
    if p.stop then p.(offers := p.offers[j := Finished], owner := Free)
    else p.(offers := p.offers[j := Queued], owner := Free, jobs := p.jobs + [j], accepted := p.accepted + [j])
  }

  function Woken(workers: seq<Worker>): (r: seq<Worker>)
    ensures |r| == |workers|
  {
    seq(|workers|, i requires 0 <= i < |workers| => if workers[i] == Waiting then Ready else workers[i])
  }

  function Next(p: Pool, e: Event): Pool
    requires Enabled(p, e)
  {
    match e
    case Call => p.(offers := p.offers + [Calling])
    case Enter(j) => p.(offers := p.offers[j := Inside], owner := OfOfferer(j))
    case Emplace(j) => Emplaced(p, j)
    case NotifyOne(j, woken) =>
      p.(offers := p.offers[j := Finished],
         workers := if woken.Some? then p.workers[woken.value := Ready] else p.workers)
    case Acquire(i) => p.(workers := p.workers[i := Locked], owner := OfWorker(i))
    case Evaluate(i) => Evaluated(p, i)
    case Pop(i) =>
      var job := p.workers[i].job;
      p.(workers := p.workers[i := Running(job)], owner := Free, jobs := p.jobs[1..], taken := p.taken + [job])
    case Run(i) =>
      var job := p.workers[i].job;
      p.(workers := p.workers[i := Posting(job)], ran := p.ran + [job])
    case Post(i) => p.(workers := p.workers[i := Ready], posted := p.posted + [p.workers[i].job])
    case Wake(i) => p.(workers := p.workers[i := Ready])
    case Destroy => p.(destroyer := Wanting)
    case Lock => p.(destroyer := Holding, owner := OfDestroyer)
    case Stop => p.(destroyer := Notifying, owner := Free, stop := true)
    case NotifyAll => p.(destroyer := Joining(0), workers := Woken(p.workers))
    case Join => p.(destroyer := Joining(p.destroyer.joined + 1))
  }

  predicate Possible(p: Pool, run: seq<Event>)
    decreases |run|
  {
    run == [] || (Enabled(p, run[0]) && Possible(Next(p, run[0]), run[1..]))
  }

  function After(p: Pool, run: seq<Event>): Pool
    requires Possible(p, run)
    decreases |run|
  {
    if run == [] then p else After(Next(p, run[0]), run[1..])
  }

  // ---------------------------------------------------------------------------------------
  // Sums over threads
  // ---------------------------------------------------------------------------------------

  function Sum<T>(s: seq<T>, f: T -> nat): nat {
    if s == [] then 0 else Sum(s[..|s| - 1], f) + f(s[|s| - 1])
  }

  lemma {:induction false} SumUpdate<T>(s: seq<T>, i: nat, x: T, f: T -> nat)
    requires i < |s|
    ensures Sum(s[i := x], f) + f(s[i]) == Sum(s, f) + f(x)
    decreases |s|
  {
    var n := |s| - 1;
    if i == n {
      assert s[i := x][..n] == s[..n];
    } else {
      assert s[i := x][..n] == s[..n][i := x] && s[i := x][n] == s[n];
      SumUpdate(s[..n], i, x, f);
    }
  }

  lemma {:induction false} SumSnoc<T>(s: seq<T>, x: T, f: T -> nat)
    ensures Sum(s + [x], f) == Sum(s, f) + f(x)
  {
    assert (s + [x])[..|s|] == s;
  }

  lemma {:induction false} SumZero<T>(s: seq<T>, f: T -> nat)
    requires forall i :: 0 <= i < |s| ==> f(s[i]) == 0
    ensures Sum(s, f) == 0
    decreases |s|
  {
    if s != [] { SumZero(s[..|s| - 1], f); }
  }

  /** How often j is in s. */
  function Copies(s: seq<Job>, j: Job): nat {
    multiset(s)[j]
  }

  lemma CopiesSnoc(s: seq<Job>, x: Job, j: Job)
    ensures Copies(s + [x], j) == Copies(s, j) + if x == j then 1 else 0
  {
  }

  lemma CopiesJoin(s: seq<Job>, t: seq<Job>, j: Job)
    ensures Copies(s + t, j) == Copies(s, j) + Copies(t, j)
  {
  }

  function ToRun(j: Job): Worker -> nat {
    w => if w == Running(j) then 1 else 0
  }

  function ToPost(j: Job): Worker -> nat {
    w => if w == Posting(j) then 1 else 0
  }

  lemma {:induction false} SumWoken(s: seq<Worker>, f: Worker -> nat)
    requires f(Ready) == f(Waiting)
    ensures Sum(Woken(s), f) == Sum(s, f)
    decreases |s|
  {
    if s != [] {
      assert Woken(s)[..|s| - 1] == Woken(s[..|s| - 1]);
      SumWoken(s[..|s| - 1], f);
    }
  }

  /** Workers that will look at the queue before they wait again. */
  function Active(w: Worker): nat {
    if w.Waiting? || w.Returned? then 0 else 1
  }

  /** Offers that still have to notify. */
  function Unnotified(o: Offerer): nat {
    if o.Queued? then 1 else 0
  }

  // ---------------------------------------------------------------------------------------
  // The invariant
  // ---------------------------------------------------------------------------------------

  /** The mutex is with the one thread that is inside. */
  ghost predicate Exclusive(p: Pool) {
    && (forall i :: 0 <= i < |p.workers| ==> (p.workers[i].Locked? || p.workers[i].Taking? <==> p.owner == OfWorker(i)))
    && (forall j :: 0 <= j < |p.offers| ==> (p.offers[j] == Inside <==> p.owner == OfOfferer(j)))
    && (p.destroyer.Holding? <==> p.owner == OfDestroyer)
    && (p.owner.OfWorker? ==> p.owner.worker < |p.workers|) && (p.owner.OfOfferer? ==> p.owner.offerer < |p.offers|)
    && (p.stop <==> p.destroyer.Notifying? || p.destroyer.Joining?)
  }

  /** The queue is a suffix of what was accepted, and a worker that takes a job has its front. */
  ghost predicate InOrder(p: Pool) {
    && p.taken + p.jobs == p.accepted
    && forall i :: 0 <= i < |p.workers| && p.workers[i].Taking? ==> p.jobs != [] && p.jobs[0] == p.workers[i].job
  }

  ghost predicate Distinct(p: Pool) {
    && (forall k :: 0 <= k < |p.accepted| ==>
        p.accepted[k] < |p.offers| && (p.offers[p.accepted[k]] == Queued || p.offers[p.accepted[k]] == Finished))
    && (forall k, l :: 0 <= k < l < |p.accepted| ==> p.accepted[k] != p.accepted[l])
  }

  ghost predicate ConservedJob(p: Pool, j: Job) {
    && Copies(p.taken, j) == Copies(p.ran, j) + Sum(p.workers, ToRun(j))
    && Copies(p.ran, j) == Copies(p.posted, j) + Sum(p.workers, ToPost(j))
  }

  /** No job is lost or doubled on its way from the queue to its result. */
  ghost predicate Conserved(p: Pool) {
    (forall j :: ConservedJob(p, j)) && (p.workers == [] ==> p.taken == [])
  }

  /** No wake-up is lost: while a worker waits there are enough others, or notifications to come, for
      the jobs in the queue. After notify_all nobody waits. */
  ghost predicate Noticed(p: Pool) {
    && (Waiting in p.workers ==> |p.jobs| <= Sum(p.workers, Active) + Sum(p.offers, Unnotified))
    && (p.destroyer.Joining? ==> Waiting !in p.workers)
  }

  ghost predicate Emptied(p: Pool) {
    && (Returned in p.workers ==> p.stop && p.jobs == [])
    && (p.destroyer.Joining? ==> p.destroyer.joined <= |p.workers|)
    && (p.destroyer.Joining? ==> forall i :: 0 <= i < p.destroyer.joined ==> p.workers[i] == Returned)
  }

  ghost predicate Inv(p: Pool) {
    Exclusive(p) && InOrder(p) && Distinct(p) && Conserved(p) && Noticed(p) && Emptied(p)
  }

  lemma StartInv(n: int)
    ensures Inv(Start(n))
  {
    var p := Start(n);
    forall j ensures ConservedJob(p, j) {
      SumZero(p.workers, ToRun(j));
      SumZero(p.workers, ToPost(j));
    }
  }

  lemma NextExclusive(p: Pool, e: Event)
    requires Exclusive(p) && Enabled(p, e)
    ensures Exclusive(Next(p, e))
  {
  }

  lemma NextInOrder(p: Pool, e: Event)
    requires Exclusive(p) && InOrder(p) && Enabled(p, e)
    ensures InOrder(Next(p, e))
  {
    var q := Next(p, e);
    match e
    case Emplace(j) =>
      assert p.taken + (p.jobs + [j]) == p.taken + p.jobs + [j];
    case Pop(i) =>
      assert p.jobs == [p.jobs[0]] + p.jobs[1..];
      assert p.taken + [p.jobs[0]] + p.jobs[1..] == p.taken + p.jobs;
    case _ =>
  }

  lemma NextDistinct(p: Pool, e: Event)
    requires Distinct(p) && Enabled(p, e)
    ensures Distinct(Next(p, e))
  {
  }

  lemma NextConserved(p: Pool, e: Event)
    requires Conserved(p) && Enabled(p, e)
    ensures Conserved(Next(p, e))
  {
    SameThreads(p, e);
    forall j ensures ConservedJob(Next(p, e), j) {
      NextConservedJob(p, e, j);
    }
  }

  lemma NextConservedJob(p: Pool, e: Event, j: Job)
    requires ConservedJob(p, j) && Enabled(p, e)
    ensures ConservedJob(Next(p, e), j)
  {
    hide Sum, Woken, Copies;
    match e
    case NotifyOne(_, woken) => if woken.Some? { Moved(p, woken.value, Ready, j); }
    case Acquire(i) => Moved(p, i, Locked, j);
    case Evaluate(i) => Moved(p, i, Evaluated(p, i).workers[i], j);
    case Pop(i) =>
      CopiesSnoc(p.taken, p.workers[i].job, j);
      Moved(p, i, Running(p.workers[i].job), j);
    case Run(i) =>
      CopiesSnoc(p.ran, p.workers[i].job, j);
      Moved(p, i, Posting(p.workers[i].job), j);
    case Post(i) =>
      CopiesSnoc(p.posted, p.workers[i].job, j);
      Moved(p, i, Ready, j);
    case Wake(i) => Moved(p, i, Ready, j);
    case NotifyAll =>
      SumWoken(p.workers, ToRun(j));
      SumWoken(p.workers, ToPost(j));
    case _ =>
  }

  lemma Moved(p: Pool, i: nat, w: Worker, j: Job)
    requires i < |p.workers|
    ensures Sum(p.workers[i := w], ToRun(j)) + ToRun(j)(p.workers[i]) == Sum(p.workers, ToRun(j)) + ToRun(j)(w)
    ensures Sum(p.workers[i := w], ToPost(j)) + ToPost(j)(p.workers[i]) == Sum(p.workers, ToPost(j)) + ToPost(j)(w)
  {
    SumUpdate(p.workers, i, w, ToRun(j));
    SumUpdate(p.workers, i, w, ToPost(j));
  }

  lemma NextNoticed(p: Pool, e: Event)
    requires Exclusive(p) && Noticed(p) && Enabled(p, e)
    ensures Noticed(Next(p, e))
  {
    hide Sum, Exclusive;
    match e
    case Call => SumSnoc(p.offers, Calling, Unnotified);
    case Enter(j) => SumUpdate(p.offers, j, Inside, Unnotified);
    case Emplace(j) => SumUpdate(p.offers, j, Emplaced(p, j).offers[j], Unnotified);
    case NotifyOne(j, woken) =>
      SumUpdate(p.offers, j, Finished, Unnotified);
      if woken.Some? { Turned(p.workers, woken.value, Ready); }
    case Acquire(i) => Turned(p.workers, i, Locked);
    case Evaluate(i) =>
      Turned(p.workers, i, Evaluated(p, i).workers[i]);
      StopsWhileJoining(p);
    case Pop(i) => Turned(p.workers, i, Running(p.workers[i].job));
    case Run(i) => Turned(p.workers, i, Posting(p.workers[i].job));
    case Post(i) => Turned(p.workers, i, Ready);
    case Wake(i) => Turned(p.workers, i, Ready);
    case _ =>
  }

  lemma StopsWhileJoining(p: Pool)
    requires Exclusive(p)
    ensures p.destroyer.Joining? ==> p.stop
  {
  }

  lemma Turned(s: seq<Worker>, i: nat, w: Worker)
    requires i < |s|
    ensures Sum(s[i := w], Active) + Active(s[i]) == Sum(s, Active) + Active(w)
    ensures w != Waiting && Waiting in s[i := w] ==> Waiting in s
  {
    SumUpdate(s, i, w, Active);
  }

  lemma NextEmptied(p: Pool, e: Event)
    requires Exclusive(p) && InOrder(p) && Emptied(p) && Enabled(p, e)
    ensures Emptied(Next(p, e))
  {
  }

  lemma NextInv(p: Pool, e: Event)
    requires Inv(p) && Enabled(p, e)
    ensures Inv(Next(p, e))
  {
    hide Exclusive, InOrder, Distinct, Conserved, Noticed, Emptied, Enabled, Next;
    NextExclusive(p, e); NextInOrder(p, e); NextDistinct(p, e);
    NextConserved(p, e); NextNoticed(p, e); NextEmptied(p, e);
  }

  lemma SameThreads(p: Pool, e: Event)
    requires Enabled(p, e)
    ensures |Next(p, e).workers| == |p.workers|
  {
  }

  lemma {:induction false} RunKeeps(p: Pool, run: seq<Event>)
    requires Inv(p) && Possible(p, run)
    ensures Inv(After(p, run)) && |After(p, run).workers| == |p.workers|
    decreases |run|
  {
    hide Inv, Next, Enabled;
    if run != [] {
      NextInv(p, run[0]);
      SameThreads(p, run[0]);
      RunKeeps(Next(p, run[0]), run[1..]);
    }
  }

  /** Every state that a pool constructed with n workers can get into. */
  ghost predicate Reachable(n: int, p: Pool) {
    exists run :: Possible(Start(n), run) && After(Start(n), run) == p
  }

  lemma ReachableInv(n: int, p: Pool)
    requires Reachable(n, p)
    ensures Inv(p) && |p.workers| == if n > 0 then n else 0
  {
    var run :| Possible(Start(n), run) && After(Start(n), run) == p;
    StartInv(n);
    RunKeeps(Start(n), run);
  }

  // ---------------------------------------------------------------------------------------
  // What the pool promises
  // ---------------------------------------------------------------------------------------

  /** How many workers are about to run job j or to post its result. */
  function Carried(p: Pool, j: Job): nat {
    Sum(p.workers, ToRun(j)) + Sum(p.workers, ToPost(j))
  }

  /** Jobs leave the queue in the order they came in. Each is in exactly one place: queued, carried by
      a worker, or done; so none runs twice. */
  lemma FirstInFirstOut(n: int, p: Pool)
    requires Reachable(n, p)
    ensures p.taken + p.jobs == p.accepted
    ensures forall j :: Copies(p.accepted, j) == Copies(p.jobs, j) + Carried(p, j) + Copies(p.posted, j)
    ensures forall j :: Copies(p.ran, j) <= Copies(p.accepted, j) <= 1
  {
    ReachableInv(n, p);
    hide Sum, Copies;
    forall j
      ensures Copies(p.accepted, j) == Copies(p.jobs, j) + Carried(p, j) + Copies(p.posted, j)
      ensures Copies(p.ran, j) <= Copies(p.accepted, j) <= 1
    {
      assert ConservedJob(p, j);
      CopiesJoin(p.taken, p.jobs, j);
      DistinctOnce(p.accepted, j);
    }
  }

  lemma {:induction false} DistinctOnce(s: seq<Job>, j: Job)
    requires forall k, l :: 0 <= k < l < |s| ==> s[k] != s[l]
    ensures Copies(s, j) <= 1
    decreases |s|
  {
    if s != [] {
      var n := |s| - 1;
      DistinctOnce(s[..n], j);
      assert s == s[..n] + [s[n]];
      assert s[n] !in multiset(s[..n]);
    }
  }

  /** The destructor is through. */
  predicate Destroyed(p: Pool) {
    p.destroyer == Joining(|p.workers|)
  }

  /** When the joins are complete the queue is empty and every accepted job has run exactly once, if
      and only if there were workers or nothing was accepted. */
  lemma JoinsComplete(n: int, p: Pool)
    requires Reachable(n, p) && Destroyed(p)
    ensures (p.jobs == [] && multiset(p.posted) == multiset(p.accepted)) <==> (n > 0 || p.accepted == [])
  {
    ReachableInv(n, p);
    AllPosted(p);
    if n > 0 {
      assert p.workers[0] == Returned;
      assert p.taken == p.accepted;
    } else {
      if p.jobs == [] { assert p.taken == p.accepted; }
    }
  }

  /** Nothing is on its way when no worker carries a job. */
  lemma AllPosted(p: Pool)
    requires Conserved(p) && forall i :: 0 <= i < |p.workers| ==> !p.workers[i].Running? && !p.workers[i].Posting?
    ensures multiset(p.posted) == multiset(p.taken)
  {
    forall j ensures multiset(p.posted)[j] == multiset(p.taken)[j] {
      assert ConservedJob(p, j);
      SumZero(p.workers, ToRun(j));
      SumZero(p.workers, ToPost(j));
    }
  }

  /** Without workers the destructor leaves an accepted job behind. */
  lemma NobodyWorks(n: int)
    requires n <= 0
    ensures exists p :: Reachable(n, p) && Destroyed(p) && p.jobs == [0] && p.ran == []
  {
    var p0 := Start(n);
    var p3 := p0.(offers := [Finished], jobs := [0], accepted := [0]);
    var r1 := [Call, Enter(0), Emplace(0), NotifyOne(0, None)];
    var r2 := [Destroy, Lock, Stop, NotifyAll];
    OneOffer(p0);
    Shutdown(p3);
    AfterConcat(p0, r1, r2);
    assert Reachable(n, After(p3, r2));
  }

  lemma {:induction false} OneOffer(p: Pool)
    requires p.workers == [] && p.offers == [] && p.jobs == [] && p.accepted == [] && p.owner == Free && !p.stop
    ensures var run := [Call, Enter(0), Emplace(0), NotifyOne(0, None)];
      Possible(p, run) && After(p, run) == p.(offers := [Finished], jobs := [0], accepted := [0])
  {
    var p1 := Next(p, Call);
    assert p1.offers == [Calling];
    var p2 := Next(p1, Enter(0));
    assert p2.offers == [Inside];
    var p3 := Next(p2, Emplace(0));
    assert p3.offers == [Queued] && p3.jobs == [0] && p3.accepted == [0];
    FourSteps(p, Call, Enter(0), Emplace(0), NotifyOne(0, None));
  }

  lemma {:induction false} Shutdown(p: Pool)
    requires p.workers == [] && p.destroyer == Idle && p.owner == Free
    ensures var run := [Destroy, Lock, Stop, NotifyAll];
      Possible(p, run) && After(p, run) == p.(destroyer := Joining(0), stop := true)
  {
    FourSteps(p, Destroy, Lock, Stop, NotifyAll);
  }

  lemma {:induction false} FourSteps(p: Pool, a: Event, b: Event, c: Event, d: Event)
    requires Enabled(p, a)
    requires Enabled(Next(p, a), b)
    requires Enabled(Next(Next(p, a), b), c)
    requires Enabled(Next(Next(Next(p, a), b), c), d)
    ensures Possible(p, [a, b, c, d]) && After(p, [a, b, c, d]) == Next(Next(Next(Next(p, a), b), c), d)
  {
    hide Next, Enabled;
    var p1 := Next(p, a);
    var p2 := Next(p1, b);
    var p3 := Next(p2, c);
    OneStep(p3, d, []);
    OneStep(p2, c, [d]);
    OneStep(p1, b, [c, d]);
    OneStep(p, a, [b, c, d]);
  }

  lemma {:induction false} OneStep(p: Pool, e: Event, run: seq<Event>)
    requires Enabled(p, e) && Possible(Next(p, e), run)
    ensures Possible(p, [e] + run) && After(p, [e] + run) == After(Next(p, e), run)
  {
    hide Next, Enabled;
    assert ([e] + run)[1..] == run;
  }

  lemma {:induction false} AfterConcat(p: Pool, a: seq<Event>, b: seq<Event>)
    requires Possible(p, a) && Possible(After(p, a), b)
    ensures Possible(p, a + b) && After(p, a + b) == After(After(p, a), b)
    decreases |a|
  {
    hide Next, Enabled;
    if a == [] {
      assert a + b == b;
    } else {
      AfterConcat(Next(p, a[0]), a[1..], b);
      assert a + b == [a[0]] + (a[1..] + b);
      OneStep(p, a[0], a[1..] + b);
    }
  }

  // ---------------------------------------------------------------------------------------
  // Progress
  // ---------------------------------------------------------------------------------------

  /** No thread of the program can take a step. */
  ghost predicate Quiet(p: Pool) {
    forall e :: Enabled(p, e) ==> !Internal(e)
  }

  /** No wake-up is lost and nothing blocks for ever: where no thread can go on, every offer has
      returned, the destructor has not begun or is through, and everything accepted has run, unless
      there are no workers. */
  lemma QuietMeansDone(n: int, p: Pool)
    requires Reachable(n, p) && Quiet(p)
    ensures forall j :: 0 <= j < |p.offers| ==> p.offers[j] == Finished
    ensures p.destroyer == Idle || Destroyed(p)
    ensures (p.jobs == [] && multiset(p.posted) == multiset(p.accepted)) <==> (n > 0 || p.accepted == [])
  {
    ReachableInv(n, p);
    NobodyInside(p);
    forall i | 0 <= i < |p.workers| ensures p.workers[i] == Waiting || p.workers[i] == Returned { WorkerRests(p, i); }
    forall j | 0 <= j < |p.offers| ensures p.offers[j] == Finished { OfferOver(p, j); }
    AllPosted(p);
    SumZero(p.workers, Active);
    SumZero(p.offers, Unnotified);
    DestroyerRests(p);
    if n > 0 {
      assert p.workers[0] == Waiting || p.workers[0] == Returned;
      assert p.jobs == [];
      assert p.taken == p.accepted;
    } else {
      if p.jobs == [] { assert p.taken == p.accepted; }
    }
  }

  /** The thread that holds the mutex can go on. */
  lemma InsideGoesOn(p: Pool) returns (e: Event)
    requires Exclusive(p) && InOrder(p) && p.owner != Free
    ensures Enabled(p, e) && Internal(e)
  {
    match p.owner
    case OfWorker(i) => e := if p.workers[i].Locked? then Evaluate(i) else Pop(i);
    case OfOfferer(j) => e := Emplace(j);
    case OfDestroyer => e := Stop;
  }

  lemma NobodyInside(p: Pool)
    requires Exclusive(p) && InOrder(p) && Quiet(p)
    ensures p.owner == Free
  {
    if p.owner != Free {
      var e := InsideGoesOn(p);
      assert false;
    }
  }

  lemma WorkerRests(p: Pool, i: nat)
    requires Exclusive(p) && Quiet(p) && p.owner == Free && i < |p.workers|
    ensures p.workers[i] == Waiting || p.workers[i] == Returned
  {
    assert !Enabled(p, Acquire(i)) && !Enabled(p, Run(i)) && !Enabled(p, Post(i));
  }

  lemma OfferOver(p: Pool, j: nat)
    requires Exclusive(p) && Quiet(p) && p.owner == Free && j < |p.offers|
    ensures p.offers[j] == Finished
  {
    assert !Enabled(p, Enter(j)) && !Enabled(p, NotifyOne(j, None));
    if Waiting in p.workers {
      var i :| 0 <= i < |p.workers| && p.workers[i] == Waiting;
      assert !Enabled(p, NotifyOne(j, Some(i)));
    }
  }

  lemma DestroyerRests(p: Pool)
    requires Exclusive(p) && Noticed(p) && Emptied(p) && Quiet(p) && p.owner == Free
    requires forall i :: 0 <= i < |p.workers| ==> p.workers[i] == Waiting || p.workers[i] == Returned
    ensures p.destroyer == Idle || Destroyed(p)
  {
    assert !Enabled(p, Lock) && !Enabled(p, NotifyAll) && !Enabled(p, Join);
  }

  function WorkerWeight(w: Worker): nat {
    match w
    case Ready => 2
    case Locked => 1
    case Running(_) => 4
    case Posting(_) => 3
    case _ => 0
  }

  function OfferWeight(o: Offerer): nat {
    match o
    case Calling => 10
    case Inside => 9
    case Queued => 3
    case Finished => 0
  }

  function DestroyerWeight(d: Destroyer, n: nat): nat {
    match d
    case Idle => 3 * n + 4
    case Wanting => 3 * n + 3
    case Holding => 3 * n + 2
    case Notifying => 3 * n + 1
    case Joining(k) => if k <= n then n - k else 0
  }

  /** How many steps there still can be. */
  function Measure(p: Pool): nat {
    5 * |p.jobs| + Sum(p.workers, WorkerWeight) + Sum(p.offers, OfferWeight) + DestroyerWeight(p.destroyer, |p.workers|)
  }

  lemma StepDecreases(p: Pool, e: Event)
    requires Enabled(p, e) && Internal(e)
    ensures Measure(Next(p, e)) < Measure(p)
  {
    hide Sum, Woken;
    match e
    case Enter(j) => SumUpdate(p.offers, j, Inside, OfferWeight);
    case Emplace(j) => SumUpdate(p.offers, j, Emplaced(p, j).offers[j], OfferWeight);
    case NotifyOne(j, woken) =>
      SumUpdate(p.offers, j, Finished, OfferWeight);
      if woken.Some? { SumUpdate(p.workers, woken.value, Ready, WorkerWeight); }
    case Acquire(i) => SumUpdate(p.workers, i, Locked, WorkerWeight);
    case Evaluate(i) => SumUpdate(p.workers, i, Evaluated(p, i).workers[i], WorkerWeight);
    case Pop(i) => SumUpdate(p.workers, i, Running(p.workers[i].job), WorkerWeight);
    case Run(i) => SumUpdate(p.workers, i, Posting(p.workers[i].job), WorkerWeight);
    case Post(i) => SumUpdate(p.workers, i, Ready, WorkerWeight);
    case NotifyAll => WokenWeight(p.workers);
    case _ =>
  }

  lemma {:induction false} WokenWeight(s: seq<Worker>)
    ensures Sum(Woken(s), WorkerWeight) <= Sum(s, WorkerWeight) + 2 * |s|
    decreases |s|
  {
    if s != [] {
      assert Woken(s)[..|s| - 1] == Woken(s[..|s| - 1]);
      WokenWeight(s[..|s| - 1]);
    }
  }

  /** The program's own steps come to an end from every state, in every order. */
  lemma {:induction false} RunsEnd(p: Pool, run: seq<Event>)
    requires Possible(p, run) && forall k :: 0 <= k < |run| ==> Internal(run[k])
    ensures |run| + Measure(After(p, run)) <= Measure(p)
    decreases |run|
  {
    hide Next, Enabled, Measure;
    if run != [] {
      StepDecreases(p, run[0]);
      RunsEnd(Next(p, run[0]), run[1..]);
    }
  }

  // ---------------------------------------------------------------------------------------
  // The code of the threads
  // ---------------------------------------------------------------------------------------

  /** The shared fields and the critical sections. pool follows along with the machine. */
  class Queue {
    var jobs: seq<Job>
    var stop: bool
    ghost var pool: Pool

    ghost predicate Valid()
      reads this
    {
      Inv(pool) && pool.jobs == jobs && pool.stop == stop
    }

    constructor (workers: int)
      ensures Valid() && pool == Start(workers)
    {
      jobs, stop, pool := [], false, Start(workers);
      StartInv(workers);
    }

    /** Offer, with the mutex held. */
    method Emplace(job: Job) returns (notify: bool)
      requires Valid() && AtOffer(pool, job, Inside)
      modifies this
      ensures Valid() && pool == Next(old(pool), Event.Emplace(job))
      ensures notify == !old(stop) && stop == old(stop)
      ensures jobs == if notify then old(jobs) + [job] else old(jobs)
    {
      hide Inv;
      NextInv(pool, Event.Emplace(job));
      pool := Next(pool, Event.Emplace(job));
      if stop { return false; }
      jobs := jobs + [job];
      notify := true;
    }

    /** The destructor, with the mutex held. */
    method SetStop()
      requires Valid() && pool.destroyer == Holding
      modifies this
      ensures Valid() && pool == Next(old(pool), Stop) && stop && jobs == old(jobs)
    {
      hide Inv;
      NextInv(pool, Stop);
      pool := Next(pool, Stop);
      stop := true;
    }

    ghost method Step(i: nat, e: Event)
      requires Valid() && Enabled(pool, e)
      requires e == Acquire(i) || e == Evaluate(i) || e == Event.Run(i) || e == Post(i)
      modifies this`pool
      ensures Valid() && pool == Next(old(pool), e)
    {
      hide Inv;
      NextInv(pool, e);
      pool := Next(pool, e);
    }

    /** From the mutex to the next job, or to a wait or the end of the thread. */
    method Take(i: nat) returns (job: Option<Job>)
      requires Valid() && At(pool, i, Ready) && pool.owner == Free
      modifies this
      ensures Valid() && pool.owner == Free && stop == old(stop)
      ensures job.None? <==> old(jobs) == []
      ensures job.None? ==> pool == old(pool).(workers := old(pool.workers)[i := if stop then Returned else Waiting])
      ensures job.Some? ==> old(jobs) == [job.value] + jobs && At(pool, i, Running(job.value))
      ensures job.Some? ==> pool == old(pool).(workers := old(pool.workers)[i := Running(job.value)], jobs := jobs,
        taken := old(pool.taken) + [job.value])
    {
      hide Inv;
      Step(i, Acquire(i));
      Step(i, Evaluate(i));
      if !stop && jobs == [] { return None; }
      if stop && jobs == [] { return None; }
      job := Some(jobs[0]);
      NextInv(pool, Pop(i));
      pool := Next(pool, Pop(i));
      jobs := jobs[1..];
    }

    /** Runs the job and posts its result, without the mutex. */
    method Execute(i: nat)
      requires Valid() && i < |pool.workers| && pool.workers[i].Running?
      modifies this`pool
      ensures Valid() && var job := old(pool.workers)[i].job;
        pool == old(pool).(workers := old(pool.workers)[i := Ready], ran := old(pool.ran) + [job], posted := old(pool.posted) + [job])
    {
      hide Inv;
      Step(i, Event.Run(i));
      Step(i, Post(i));
    }

    /** A worker that nobody else gets in the way of runs the whole queue in order. */
    method Work(i: nat)
      requires Valid() && At(pool, i, Ready) && pool.owner == Free
      modifies this
      ensures Valid() && jobs == [] && stop == old(stop) && At(pool, i, if stop then Returned else Waiting)
      ensures pool.taken == old(pool.taken) + old(jobs)
      ensures pool.ran == old(pool.ran) + old(jobs) && pool.posted == old(pool.posted) + old(jobs)
    {
      hide Inv, Next, Enabled;
      var job := Take(i);
      while job.Some?
        invariant Valid() && pool.owner == Free && stop == old(stop) && (job.None? ==> jobs == [])
        invariant At(pool, i, if job.Some? then Running(job.value) else if stop then Returned else Waiting)
        invariant pool.taken + jobs == old(pool.taken) + old(jobs)
        invariant pool.ran + Ahead(job, jobs) == old(pool.ran) + old(jobs)
        invariant pool.posted + Ahead(job, jobs) == old(pool.posted) + old(jobs)
        decreases |jobs|, job.Some?
      {
        Shifted(pool.ran, job.value, jobs);
        Shifted(pool.posted, job.value, jobs);
        Execute(i);
        ghost var rest, taken := jobs, pool.taken;
        job := Take(i);
        if job.Some? { Shifted(taken, job.value, jobs); }
        assert Ahead(job, jobs) == rest;
      }
    }
  }

  function Ahead(job: Option<Job>, jobs: seq<Job>): seq<Job> {
    if job.Some? then [job.value] + jobs else jobs
  }

  lemma Shifted(done: seq<Job>, job: Job, jobs: seq<Job>)
    ensures done + [job] + jobs == done + ([job] + jobs)
  {
  }
}

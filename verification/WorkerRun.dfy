/** The worker's run: it creates its threads, joins them as they finish, cancels them once at the
    deadline, and packs their results (src/worker.c). */
module WorkerRun {
  import opened Common
  import opened Packing
  import opened Threads
  import Framing

  const CPU_SETSIZE: int := 1024

  /** The number of joined threads among the first `n`. */
  function CountJoined(args: seq<WorkerThreadArgs>, n: nat): (c: nat)
    requires n <= |args|
    ensures c <= n
  {
    if n == 0 then 0 else CountJoined(args, n - 1) + (if args[n - 1].joined then 1 else 0)
  }

  lemma {:induction false} CountJoinedFlags(a: seq<WorkerThreadArgs>, b: seq<WorkerThreadArgs>, n: nat)
    requires n <= |a| == |b|
    requires forall t :: 0 <= t < n ==> a[t].joined == b[t].joined
    ensures CountJoined(a, n) == CountJoined(b, n)
  {
    if n > 0 {
      CountJoinedFlags(a, b, n - 1);
    }
  }

  lemma {:induction false} CountJoinedOne(a: seq<WorkerThreadArgs>, b: seq<WorkerThreadArgs>, i: nat, n: nat)
    requires i < n <= |a| == |b|
    requires forall t :: 0 <= t < n && t != i ==> a[t].joined == b[t].joined
    requires !a[i].joined && b[i].joined
    ensures CountJoined(b, n) == CountJoined(a, n) + 1
  {
    if i == n - 1 {
      CountJoinedFlags(a, b, n - 1);
    } else {
      CountJoinedOne(a, b, i, n - 1);
    }
  }

  lemma {:induction false} CountJoinedAll(args: seq<WorkerThreadArgs>, n: nat)
    requires n <= |args|
    ensures CountJoined(args, n) == n <==> forall t :: 0 <= t < n ==> args[t].joined
  {
    if n > 0 {
      CountJoinedAll(args, n - 1);
    }
  }

  /** Every thread whose join has failed is marked joined all the same. */
  ghost predicate FlagsSet(env: Pthreads, args: array<WorkerThreadArgs>)
    reads env, args
  {
    forall t :: t in env.unjoined ==> t < args.Length && args[t].joined
  }

  /** A join that went wrong: it failed, or the thread had been cancelled. */
  predicate BadJoin(thread: Thread, failed: bool) {
    failed || thread.phase == Exited(true)
  }

  /** One call of pthread_tryjoin_np(). A thread that cannot be joined counts as joined, too. */
  method JoinOne(env: Pthreads, args: array<WorkerThreadArgs>, count: int, i: int) returns (joined: bool, bad: bool)
    requires env.Valid(args) && FlagsSet(env, args) && 0 <= i < count == |env.threads| && !args[i].joined
    modifies args, env`threads, env`troubled, env`unjoined
    ensures env.Valid(args) && FlagsSet(env, args) && count == |env.threads|
    ensures forall t :: 0 <= t < args.Length ==> args[t].task == old(args[t]).task
    ensures forall t :: 0 <= t < args.Length ==> args[t].joined == if t == i then joined else old(args[t]).joined
    ensures CountJoined(args[..], count) == CountJoined(old(args[..]), count) + (if joined then 1 else 0)
    ensures forall t :: 0 <= t < count ==> env.LaterThread(old(env.threads[t]), env.threads[t])
    ensures env.troubled == (old(env.troubled) || i in env.unjoined)
    ensures env.unjoined == old(env.unjoined) || (joined && env.unjoined == old(env.unjoined) + {i})
    ensures bad <==> joined && BadJoin(env.threads[i], i in env.unjoined)
    ensures joined && i !in env.unjoined ==> env.threads[i].phase.Exited?
    ensures !joined ==> !Overdue(env, i)
  {
    var answer := env.TryJoin(args, i);
    if answer.Busy? {
      CountJoinedFlags(old(args[..]), args[..], count);
      return false, false;
    }
    args[i] := args[i].(joined := true);
    CountJoinedOne(old(args[..]), args[..], i, count);
    joined, bad := true, answer == JoinError || answer == Joined(true);
  }

  /** One of the first `n` threads has been joined since `before`, and that join went wrong. */
  ghost predicate WentWrong(before: seq<WorkerThreadArgs>, args: seq<WorkerThreadArgs>, threads: seq<Thread>,
                            unjoined: set<nat>, n: int)
    requires 0 <= n <= |threads| <= |args| == |before|
  {
    exists t: nat :: t < n && !before[t].joined && args[t].joined && BadJoin(threads[t], t in unjoined)
  }

  /** Joining thread `i` leaves the verdict on the threads before it as it is. */
  lemma WrongStep(before: seq<WorkerThreadArgs>, a: seq<WorkerThreadArgs>, ts: seq<Thread>, u: set<nat>,
                  a': seq<WorkerThreadArgs>, ts': seq<Thread>, u': set<nat>, i: nat)
    requires i < |ts| == |ts'| <= |a| == |a'| == |before| && !before[i].joined
    requires forall t :: 0 <= t < |a| && t != i ==> a'[t].joined == a[t].joined
    requires forall t :: 0 <= t < |ts| ==> Pthreads.LaterThread(ts[t], ts'[t])
    requires forall t :: 0 <= t < i && a[t].joined ==> t in u || ts[t].phase.Exited?
    requires u' == u || u' == u + {i}
    ensures WentWrong(before, a', ts', u', i + 1) <==>
            WentWrong(before, a, ts, u, i) || (a'[i].joined && BadJoin(ts'[i], i in u'))
  {
    forall t: nat | t < i && !before[t].joined && a[t].joined
      ensures BadJoin(ts[t], t in u) <==> BadJoin(ts'[t], t in u')
    {
      assert Pthreads.LaterThread(ts[t], ts'[t]);
    }
    if WentWrong(before, a, ts, u, i) {
      var t: nat :| t < i && !before[t].joined && a[t].joined && BadJoin(ts[t], t in u);
      assert BadJoin(ts'[t], t in u') && a'[t].joined;
    }
    if WentWrong(before, a', ts', u', i + 1) {
      var t: nat :| t < i + 1 && !before[t].joined && a'[t].joined && BadJoin(ts'[t], t in u');
      assert t < i ==> a[t].joined && BadJoin(ts[t], t in u);
    }
  }

  /** From `before`, only flags of the first `n` records have been set. */
  ghost predicate OnlyJoined(before: seq<WorkerThreadArgs>, args: seq<WorkerThreadArgs>, n: int) {
    && |before| == |args|
    && (forall t :: 0 <= t < |args| ==> args[t].task == before[t].task)
    && (forall t :: 0 <= t < |args| && (n <= t || before[t].joined) ==> args[t].joined == before[t].joined)
  }

  /** One call of pthread_tryjoin_np() for each thread that is not joined yet. The status is non-zero
      exactly if one of the threads that this round joins had been cancelled or could not be joined. */
  method JoinReadyThreads(env: Pthreads, args: array<WorkerThreadArgs>, count: int, joinedBefore: int)
    returns (status: int, joinedThreads: int)
    requires env.Valid(args) && FlagsSet(env, args) && count == |env.threads|
    requires joinedBefore == CountJoined(args[..], count)
    modifies args, env`threads, env`troubled, env`unjoined
    ensures env.Valid(args) && FlagsSet(env, args) && count == |env.threads|
    ensures joinedThreads == CountJoined(args[..], count)
    ensures joinedBefore <= joinedThreads
    ensures OnlyJoined(old(args[..]), args[..], count)
    ensures forall t :: 0 <= t < count ==> env.threads[t].cancelPending == old(env.threads[t].cancelPending)
    ensures env.troubled == (old(env.troubled) || env.unjoined != old(env.unjoined))
    ensures status == 0 || status == 1
    ensures status == 1 <==> WentWrong(old(args[..]), args[..], env.threads, env.unjoined, count)
    ensures status == 1 ==> env.troubled || env.late
    ensures env.unjoined != old(env.unjoined) ==> status == 1
    ensures (forall t :: 0 <= t < count && !old(args[t].joined) ==> old(Overdue(env, t))) ==> joinedThreads == count
  {
    ghost var before := args[..];
    status, joinedThreads := 0, joinedBefore;
    var i := 0;
    while i < count
      invariant 0 <= i <= count
      invariant env.Valid(args) && FlagsSet(env, args) && count == |env.threads|
      invariant joinedThreads == CountJoined(args[..], count) && joinedBefore <= joinedThreads
      invariant OnlyJoined(before, args[..], i)
      invariant forall t :: 0 <= t < count ==> env.threads[t].cancelPending == old(env.threads[t].cancelPending)
      invariant forall t :: 0 <= t < i && !args[t].joined ==> !Overdue(env, t)
      invariant env.troubled == (old(env.troubled) || env.unjoined != old(env.unjoined))
      invariant old(env.unjoined) <= env.unjoined && (env.unjoined != old(env.unjoined) ==> status == 1)
      invariant status == 0 || status == 1
      invariant status == 1 <==> WentWrong(before, args[..], env.threads, env.unjoined, i)
      invariant status == 1 ==> env.troubled || env.late
    {
      if args[i].joined {
        i := i + 1;
        continue;
      }
      var joined, bad := JoinNext(env, args, count, i, before);
      if joined {
        joinedThreads := joinedThreads + 1;
      }
      if bad {
        status := 1;
      }
      i := i + 1;
    }
    CountJoinedAll(args[..], count);
  }

  /** A thread that can no longer be busy: cancelled long enough ago, or, without a deadline, at its end. */
  predicate Overdue(env: Pthreads, t: int)
    requires 0 <= t < |env.threads|
    reads env
  {
    (env.threads[t].cancelPending && env.delay == 0) || (!env.limited && env.lifetime == 0)
  }

  /** `JoinOne` with what it means for the verdict on the first `i + 1` threads. */
  method JoinNext(env: Pthreads, args: array<WorkerThreadArgs>, count: int, i: int, ghost before: seq<WorkerThreadArgs>)
    returns (joined: bool, bad: bool)
    requires env.Valid(args) && FlagsSet(env, args) && 0 <= i < count == |env.threads| && !args[i].joined
    requires OnlyJoined(before, args[..], i)
    modifies args, env`threads, env`troubled, env`unjoined
    ensures env.Valid(args) && FlagsSet(env, args) && count == |env.threads|
    ensures OnlyJoined(before, args[..], i + 1)
    ensures forall t :: 0 <= t < args.Length && t != i ==> args[t].joined == old(args[t]).joined
    ensures args[i].joined == joined
    ensures CountJoined(args[..], count) == CountJoined(old(args[..]), count) + (if joined then 1 else 0)
    ensures forall t :: 0 <= t < count ==> env.threads[t].cancelPending == old(env.threads[t].cancelPending)
    ensures env.troubled == (old(env.troubled) || env.unjoined != old(env.unjoined))
    ensures old(env.unjoined) <= env.unjoined && (env.unjoined != old(env.unjoined) ==> bad)
    ensures WentWrong(before, args[..], env.threads, env.unjoined, i + 1) <==>
            bad || WentWrong(before, old(args[..]), old(env.threads), old(env.unjoined), i)
    ensures bad ==> env.troubled || env.late
    ensures !joined ==> !Overdue(env, i)
  {
    assert !before[i].joined;
    JoinedOrExited(env, args);
    joined, bad := JoinOne(env, args, count, i);
    WrongStep(before, old(args[..]), old(env.threads), old(env.unjoined), args[..], env.threads, env.unjoined, i);
    if bad {
      CancelledIsLate(env, args, i);
    }
  }

  /** A thread that is marked joined has exited, unless its join has failed. */
  lemma JoinedOrExited(env: Pthreads, args: array<WorkerThreadArgs>)
    requires env.Valid(args)
    ensures forall t :: 0 <= t < |env.threads| && args[t].joined ==> t in env.unjoined || env.threads[t].phase.Exited?
  {
    forall t | 0 <= t < |env.threads| && args[t].joined
      ensures t in env.unjoined || env.threads[t].phase.Exited?
    {
      assert env.Matches(t, args[t]);
    }
  }

  lemma CancelledIsLate(env: Pthreads, args: array<WorkerThreadArgs>, t: nat)
    requires env.Valid(args) && t < |env.threads| && BadJoin(env.threads[t], t in env.unjoined)
    ensures env.troubled || env.late
  {
    assert env.Matches(t, args[t]);
  }

  /** Cancels every created thread that is not joined, and no other. */
  method CancelUnjoinedThreads(env: Pthreads, args: array<WorkerThreadArgs>, count: int)
    requires env.Valid(args) && count == |env.threads| && env.late
    modifies env`threads, env`cancels
    ensures env.Valid(args) && count == |env.threads| && env.cancels == old(env.cancels) + 1
    ensures forall t :: 0 <= t < count ==>
              env.threads[t] == if args[t].joined then old(env.threads[t])
                                else old(env.threads[t]).(cancelPending := true)
    ensures AllCancelled(env, args)
  {
    env.BeginCancel(args);
    var i := 0;
    while i < count
      invariant 0 <= i <= count == |env.threads|
      invariant env.Valid(args) && env.cancels == old(env.cancels) + 1
      invariant forall t :: i <= t < count ==> env.threads[t] == old(env.threads[t])
      invariant forall t :: 0 <= t < i ==>
                  env.threads[t] == if args[t].joined then old(env.threads[t])
                                    else old(env.threads[t]).(cancelPending := true)
    {
      if !args[i].joined {
        env.Cancel(args, i);
      }
      i := i + 1;
    }
  }

  ghost predicate AllCancelled(env: Pthreads, args: array<WorkerThreadArgs>)
    requires |env.threads| <= args.Length
    reads env, args
  {
    forall t :: 0 <= t < |env.threads| && !args[t].joined ==> env.threads[t].cancelPending
  }

  /** The task of thread `i`. */
  function TaskOf(data: seq<byte>, threads: int, i: nat): ThreadTask
    requires threads >= 0
  {
    ThreadTask(i, threads, data)
  }

  ghost predicate TasksGiven(args: array<WorkerThreadArgs>, data: seq<byte>, threads: int, n: int)
    requires threads >= 0
    reads args
  {
    0 <= n <= args.Length && forall t :: 0 <= t < n ==> args[t].task == TaskOf(data, threads, t)
  }

  /** The threads are cancelled exactly when the deadline is noticed, once, and then all of them. */
  ghost predicate CancelState(env: Pthreads, args: array<WorkerThreadArgs>, cancelRequested: bool)
    requires |env.threads| <= args.Length
    reads env, args
  {
    && env.cancels == (if cancelRequested then 1 else 0)
    && (cancelRequested ==> AllCancelled(env, args))
    && env.late == cancelRequested
  }

  /** Thread `t` runs on core `firstCore + t % cores`. */
  predicate Pinned(pinned: seq<int>, threads: nat, firstCore: int, cores: int)
    requires cores > 0
  {
    |pinned| == threads && forall t :: 0 <= t < threads ==> pinned[t] == firstCore + t % cores
  }

  /** There is a limit, and it has passed. */
  predicate TooLate(now: int, startTime: int, maxTime: int) {
    maxTime > 0 && now > startTime + maxTime
  }

  /** The creation loop. It stops at the first failure, and at the deadline, where it cancels. */
  method CreateThreads(env: Pthreads, args: array<WorkerThreadArgs>, data: seq<byte>, threads: int,
                       firstCore: int, cores: int, startTime: int, maxTime: int)
    returns (status: int, cancelRequested: bool)
    requires env.Valid(args) && env.threads == [] && env.pinned == [] && env.cancels == 0
    requires !env.troubled && !env.late
    requires args.Length == threads && cores > 0 && env.limited == (maxTime > 0)
    modifies args, env`threads, env`pinned, env`now, env`expired, env`masterGone, env`late, env`troubled, env`cancels
    ensures env.Valid(args) && CancelState(env, args, cancelRequested)
    ensures TasksGiven(args, data, threads, |env.threads|)
    ensures forall t :: 0 <= t < args.Length ==> !args[t].joined
    ensures status == 0 || status == 1
    ensures status == 1 <==> env.troubled || env.late
    ensures status == 0 ==> |env.threads| == threads
    ensures env.troubled && !env.late ==> |env.threads| < threads
    ensures Pinned(env.pinned, |env.threads|, firstCore, cores)
    ensures threads > 0 && (old(env.expired) || old(env.masterGone) || TooLate(old(env.now), startTime, maxTime)) ==>
              status == 1 && env.threads == []
  {
    status, cancelRequested := 0, false;
    var i := 0;
    while i < threads
      invariant 0 <= i <= threads
      invariant env.Valid(args) && |env.threads| == i && env.cancels == 0 && !cancelRequested && status == 0
      invariant TasksGiven(args, data, threads, i)
      invariant forall t :: 0 <= t < args.Length ==> !args[t].joined
      invariant !env.troubled && !env.late && Pinned(env.pinned, |env.threads|, firstCore, cores)
      invariant i == 0 ==> env.threads == [] && old(env.expired) == env.expired && old(env.masterGone) == env.masterGone
      invariant i == 0 ==> env.now == old(env.now)
      invariant i > 0 ==> !old(env.expired) && !old(env.masterGone) && !TooLate(old(env.now), startTime, maxTime)
    {
      var go;
      go, cancelRequested := CreateOne(env, args, data, threads, i, firstCore, cores, startTime, maxTime);
      if !go {
        return 1, cancelRequested;
      }
      i := i + 1;
    }
  }

  /** One iteration: the deadline and the master are checked, the record is filled in, the attributes
      are set, the thread is created, and the deadline is checked again. */
  method CreateOne(env: Pthreads, args: array<WorkerThreadArgs>, data: seq<byte>, threads: int, i: int,
                   firstCore: int, cores: int, startTime: int, maxTime: int)
    returns (go: bool, cancelled: bool)
    requires env.Valid(args) && |env.threads| == i && env.cancels == 0 && !env.troubled && !env.late
    requires env.limited == (maxTime > 0) && cores > 0 && Pinned(env.pinned, |env.threads|, firstCore, cores)
    requires 0 <= i < args.Length == threads && TasksGiven(args, data, threads, i)
    requires forall t :: 0 <= t < args.Length ==> !args[t].joined
    modifies args, env`threads, env`pinned, env`now, env`expired, env`masterGone, env`late, env`troubled, env`cancels
    ensures env.Valid(args) && i <= |env.threads| <= i + 1
    ensures TasksGiven(args, data, threads, |env.threads|)
    ensures forall t :: 0 <= t < args.Length ==> !args[t].joined
    ensures go <==> !env.troubled && !env.late
    ensures go ==> !cancelled && |env.threads| == i + 1
    ensures env.troubled ==> !env.late && |env.threads| == i
    ensures CancelState(env, args, cancelled) && Pinned(env.pinned, |env.threads|, firstCore, cores)
    ensures old(env.expired) || old(env.masterGone) || TooLate(old(env.now), startTime, maxTime) ==>
              !go && |env.threads| == i
    ensures go ==> !env.expired && !TooLate(env.now, startTime, maxTime)
  {
    var exceeded := env.DeadlineExceeded(args, startTime, maxTime);
    if exceeded {
      CancelUnjoinedThreads(env, args, i);
      return false, true;
    }
    var ok := env.MasterAlive(args);
    if !ok {
      return false, false;
    }
    ok := StartThread(env, args, data, threads, i, firstCore, cores);
    if !ok {
      return false, false;
    }
    exceeded := env.DeadlineExceeded(args, startTime, maxTime);
    if exceeded {
      CancelUnjoinedThreads(env, args, i + 1);
      return false, true;
    }
    go, cancelled := true, false;
  }

  /** Fills in the record, sets the thread's attributes and creates it. */
  method StartThread(env: Pthreads, args: array<WorkerThreadArgs>, data: seq<byte>, threads: int, i: int,
                     firstCore: int, cores: int)
    returns (ok: bool)
    requires env.Valid(args) && |env.threads| == i && env.cancels == 0
    requires cores > 0 && Pinned(env.pinned, |env.threads|, firstCore, cores)
    requires 0 <= i < args.Length == threads && TasksGiven(args, data, threads, i)
    requires forall t :: 0 <= t < args.Length ==> !args[t].joined
    modifies args, env`threads, env`pinned, env`troubled, env`now, env`expired
    ensures env.Valid(args) && |env.threads| == if ok then i + 1 else i
    ensures TasksGiven(args, data, threads, |env.threads|)
    ensures forall t :: 0 <= t < args.Length ==> !args[t].joined
    ensures env.troubled == (old(env.troubled) || !ok)
    ensures Pinned(env.pinned, |env.threads|, firstCore, cores)
  {
    args[i] := WorkerThreadArgs(TaskOf(data, threads, i), None, false);
    ok := env.MayFail(args);
    if ok {
      ok := env.MayFail(args);
    }
    if ok {
      ok := env.Create(args, firstCore + i % cores);
    }
  }

  function TimeLeft(now: int, limit: int): nat {
    if now <= limit then limit - now + 1 else 0
  }

  /** How long the join loop can still go on before the deadline, or, without one, before the threads end. */
  ghost function Waiting(env: Pthreads, startTime: int, maxTime: int): nat
    reads env
  {
    if maxTime > 0 then TimeLeft(env.now, startTime + maxTime) else env.lifetime
  }

  /** The join loop. It ends when every created thread is joined; it terminates because the clock reaches
      the deadline, the threads are then cancelled, and cancelled threads become joinable; without a
      deadline, because the threads end. */
  method JoinThreads(env: Pthreads, args: array<WorkerThreadArgs>, ghost data: seq<byte>, threads: int,
                     startTime: int, maxTime: int, statusBefore: int, cancelBefore: bool)
    returns (status: int, cancelRequested: bool)
    requires env.Valid(args) && args.Length == threads && CancelState(env, args, cancelBefore)
    requires env.limited == (maxTime > 0) && env.unjoined == {}
    requires TasksGiven(args, data, threads, |env.threads|)
    requires forall t :: 0 <= t < args.Length ==> !args[t].joined
    requires statusBefore == 0 || statusBefore == 1
    requires statusBefore == 1 <==> env.troubled || env.late
    modifies args, env`threads, env`now, env`expired, env`masterGone, env`late, env`troubled, env`cancels,
             env`delay, env`lifetime, env`unjoined
    ensures env.Valid(args) && |env.threads| == old(|env.threads|)
    ensures env.cancels == (if cancelRequested then 1 else 0) && env.late == cancelRequested
    ensures TasksGiven(args, data, threads, |env.threads|)
    ensures forall t :: 0 <= t < |env.threads| ==> args[t].joined
    ensures status == 0 || status == 1
    ensures status == 1 <==> env.troubled || env.late
    ensures statusBefore == 1 ==> status == 1
  {
    status, cancelRequested := statusBefore, cancelBefore;
    var createdThreads := |env.threads|;
    var joinedThreads := 0;
    NoneJoined(args[..], createdThreads);
    while joinedThreads < createdThreads
      invariant env.Valid(args) && FlagsSet(env, args) && |env.threads| == createdThreads
      invariant CancelState(env, args, cancelRequested)
      invariant TasksGiven(args, data, threads, createdThreads)
      invariant joinedThreads == CountJoined(args[..], createdThreads)
      invariant status == 0 || status == 1
      invariant status == 1 <==> env.troubled || env.late
      invariant statusBefore == 1 ==> status == 1
      decreases if cancelRequested then 0 else 1,
                if cancelRequested then env.delay else Waiting(env, startTime, maxTime),
                createdThreads - joinedThreads
    {
      status, cancelRequested, joinedThreads :=
        JoinRound(env, args, createdThreads, startTime, maxTime, status, cancelRequested, joinedThreads);
    }
    CountJoinedAll(args[..], createdThreads);
  }

  /** An iteration of the join loop: join what is ready and, unless that is all, wait. */
  method JoinRound(env: Pthreads, args: array<WorkerThreadArgs>, count: int, startTime: int, maxTime: int,
                   statusBefore: int, cancelBefore: bool, joinedBefore: int)
    returns (status: int, cancelRequested: bool, joinedThreads: int)
    requires env.Valid(args) && FlagsSet(env, args) && count == |env.threads|
    requires CancelState(env, args, cancelBefore) && env.limited == (maxTime > 0)
    requires joinedBefore == CountJoined(args[..], count)
    requires statusBefore == 0 || statusBefore == 1
    requires statusBefore == 1 <==> env.troubled || env.late
    modifies args, env`threads, env`now, env`expired, env`masterGone, env`late, env`troubled, env`cancels,
             env`delay, env`lifetime, env`unjoined
    ensures env.Valid(args) && FlagsSet(env, args) && count == |env.threads|
    ensures CancelState(env, args, cancelRequested)
    ensures joinedThreads == CountJoined(args[..], count)
    ensures forall t :: 0 <= t < args.Length ==> args[t].task == old(args[t]).task
    ensures status == 0 || status == 1
    ensures status == 1 <==> env.troubled || env.late
    ensures statusBefore == 1 ==> status == 1
    ensures joinedThreads < count && old(env.masterGone) ==> status == 1
    ensures joinedThreads < count && (old(env.expired) || TooLate(old(env.now), startTime, maxTime)) ==> cancelRequested
    ensures joinedThreads >= count ==>
              cancelRequested == cancelBefore && env.delay == old(env.delay) && env.now == old(env.now) &&
                env.lifetime == old(env.lifetime)
    ensures joinedThreads < count && cancelBefore ==> cancelRequested && env.delay < old(env.delay)
    ensures joinedThreads < count && !cancelBefore && !cancelRequested ==>
              Waiting(env, startTime, maxTime) < old(Waiting(env, startTime, maxTime))
  {
    cancelRequested := cancelBefore;
    status, joinedThreads := JoinReadyThreads(env, args, count, joinedBefore);
    status := if status != 0 then 1 else statusBefore;
    if joinedThreads >= count {
      return;
    }
    ghost var before := args[..];
    status, cancelRequested := WaitAWhile(env, args, startTime, maxTime, status, cancelRequested);
    CountJoinedFlags(before, args[..], count);
  }

  /** The rest of an iteration of the join loop: cancel at the deadline, look for the master, sleep. */
  method WaitAWhile(env: Pthreads, args: array<WorkerThreadArgs>, startTime: int, maxTime: int, statusBefore: int,
                    cancelBefore: bool)
    returns (status: int, cancelRequested: bool)
    requires env.Valid(args) && CancelState(env, args, cancelBefore) && env.limited == (maxTime > 0)
    requires if cancelBefore then env.delay > 0 else maxTime <= 0 ==> env.lifetime > 0
    requires statusBefore == 0 || statusBefore == 1
    requires statusBefore == 1 <==> env.troubled || env.late
    modifies args, env`threads, env`now, env`expired, env`masterGone, env`late, env`troubled, env`cancels,
             env`delay, env`lifetime
    ensures env.Valid(args) && |env.threads| == old(|env.threads|)
    ensures CancelState(env, args, cancelRequested)
    ensures forall t :: 0 <= t < args.Length ==>
            args[t].task == old(args[t]).task && args[t].joined == old(args[t]).joined
    ensures status == 0 || status == 1
    ensures status == 1 <==> env.troubled || env.late
    ensures statusBefore == 1 ==> status == 1
    ensures old(env.masterGone) ==> status == 1
    ensures old(env.expired) || TooLate(old(env.now), startTime, maxTime) ==> cancelRequested
    ensures cancelBefore ==> cancelRequested && env.delay < old(env.delay)
    ensures !cancelBefore && !cancelRequested ==>
            Waiting(env, startTime, maxTime) < old(Waiting(env, startTime, maxTime))
  {
    status, cancelRequested := statusBefore, cancelBefore;
    if !cancelRequested {
      var exceeded := env.DeadlineExceeded(args, startTime, maxTime);
      if exceeded {
        status, cancelRequested := 1, true;
        CancelUnjoinedThreads(env, args, |env.threads|);
      }
    }
    if !cancelRequested {
      var alive := env.MasterAlive(args);
      if !alive {
        status := 1;
      }
    }
    env.Sleep(args);
  }

  lemma {:induction false} NoneJoined(args: seq<WorkerThreadArgs>, n: nat)
    requires n <= |args|
    requires forall t :: 0 <= t < |args| ==> !args[t].joined
    ensures CountJoined(args, n) == 0
  {
    if n > 0 {
      NoneJoined(args, n - 1);
    }
  }

  // ----- The run -----

  /** What the first `n` of `threads` threads answer, in index order. */
  function AnswersUpTo(work: Method, data: seq<byte>, threads: nat, n: nat): (answers: seq<seq<byte>>)
    ensures |answers| == n
  {
    if n == 0 then []
    else
      var last := work(ThreadTask(n - 1, threads, data));
      AnswersUpTo(work, data, threads, n - 1) + [if Packable(last) then last.value.data else []]
  }

  /** The packet that a worker with `threads` threads answers to the task `data`. */
  function WorkerAnswer(work: Method, data: seq<byte>, threads: nat): seq<byte> {
    Framing.Pack(AnswersUpTo(work, data, threads, threads))
  }

  /** Every thread's method returns a valid packet, and the packing fits into a size_t. */
  ghost predicate Answerable(work: Method, data: seq<byte>, threads: nat) {
    && (forall j :: 0 <= j < threads ==> Packable(work(ThreadTask(j, threads, data))))
    && |WorkerAnswer(work, data, threads)| <= SIZE_MAX
  }

  lemma {:induction false} ItemsAreAnswers(work: Method, data: seq<byte>, threads: nat, args: seq<WorkerThreadArgs>)
    requires forall t :: 0 <= t < |args| ==> args[t].result == work(ThreadTask(t, threads, data))
    ensures Items(args) == AnswersUpTo(work, data, threads, |args|)
    decreases |args|
  {
    if args != [] {
      ItemsAreAnswers(work, data, threads, args[..|args| - 1]);
    }
  }

  class Worker {
    var socketFd: int
    var task: ClusterPacket
    var result: ClusterPacket
    var threads: int
    var cores: int
    var firstCore: int
    var maxTime: int

    constructor (socketFd: int, task: ClusterPacket, threads: int, cores: int, firstCore: int, maxTime: int)
      ensures this.socketFd == socketFd && this.task == task && result == EMPTY_PACKET
      ensures this.threads == threads && this.cores == cores && this.firstCore == firstCore && this.maxTime == maxTime
    {
      this.socketFd, this.task, result := socketFd, task, EMPTY_PACKET;
      this.threads, this.cores, this.firstCore, this.maxTime := threads, cores, firstCore, maxTime;
    }

    predicate BadWorker()
      reads this
    {
      || socketFd < 0
      || (task.data == [] && task.size > 0)
      || threads <= 0 || cores <= 0 || firstCore < 0
      || firstCore + cores > CPU_SETSIZE
    }

    /** Runs the method on every thread and packs the answers. Whatever order the threads finish in, it
        returns 0 exactly when no call failed, every thread could be configured, the deadline was not
        noticed, and every answer is valid; `result` is then the packing of the answers in thread order.
        In every other case `result` is as before. The threads are cancelled at most once, never without
        a limit, and when the records are released every thread has exited, except those whose own join
        has failed. */
    method WorkerRun(env: Pthreads) returns (status: int)
      requires env.Unused() && threads <= INT_MAX
      requires forall t: ThreadTask :: Allocated(env.work(t))
      modifies this`result, env
      ensures status == 0 || status == 1
      ensures old(BadWorker()) ==> status == 1 && unchanged(env)
      ensures old(BadWorker()) <==>
                old(socketFd < 0 || (task.data == [] && task.size > 0) || threads < 1 || cores < 1 ||
                    firstCore < 0 || firstCore + cores > 1024)
      ensures !old(BadWorker()) ==>
                (status == 0 <==>
                  && !env.troubled && !env.late
                  && (forall t :: 0 <= t < |env.threads| ==> env.threads[t].configured)
                  && Answerable(env.work, task.data, threads))
      ensures status == 0 ==>
                && |env.threads| == threads && env.cancels == 0
                && result.data == WorkerAnswer(env.work, task.data, threads) && result.size == |result.data|
      ensures status != 0 ==> result == old(result)
      ensures env.cancels <= 1
      ensures env.released || env.threads == []
      ensures maxTime <= 0 ==> !env.late
      ensures status == 0 && maxTime > 0 ==>
                env.firstReading.Some? && old(env.now) <= env.firstReading.value &&
                env.now <= env.firstReading.value + maxTime == env.deadline
      ensures old(env.masterGone) ==> status == 1
      ensures !env.armed
      ensures |env.pinned| == |env.threads|
      ensures !BadWorker() ==> forall t :: 0 <= t < |env.pinned| ==> env.pinned[t] == firstCore + t % cores
      ensures forall t :: 0 <= t < |env.threads| && t !in env.unjoined ==> env.threads[t].phase.Exited?
    {
      if BadWorker() {
        return 1;
      }
      status := RunThreads(env);
    }

    /** The run after its check of the worker. */
    method RunThreads(env: Pthreads) returns (status: int)
      requires env.Unused() && threads <= INT_MAX && !BadWorker()
      requires forall t: ThreadTask :: Allocated(env.work(t))
      modifies this`result, env
      ensures status == 0 || status == 1
      ensures status == 0 <==>
                && !env.troubled && !env.late
                && (forall t :: 0 <= t < |env.threads| ==> env.threads[t].configured)
                && Answerable(env.work, task.data, threads)
      ensures status == 0 ==>
                && |env.threads| == threads && env.cancels == 0
                && result.data == WorkerAnswer(env.work, task.data, threads) && result.size == |result.data|
      ensures status != 0 ==> result == old(result)
      ensures env.cancels <= 1
      ensures env.released || env.threads == []
      ensures maxTime <= 0 ==> !env.late
      ensures status == 0 && maxTime > 0 ==>
                env.firstReading.Some? && old(env.now) <= env.firstReading.value &&
                env.now <= env.firstReading.value + maxTime == env.deadline
      ensures old(env.masterGone) ==> status == 1
      ensures !env.armed
      ensures Pinned(env.pinned, |env.threads|, firstCore, cores)
      ensures forall t :: 0 <= t < |env.threads| && t !in env.unjoined ==> env.threads[t].phase.Exited?
    {
      var ok, args, startTime := Begin(env);
      if !ok {
        return 1;
      }
      status := CreateAndJoin(env, args, startTime);
      status := Finish(env, args, startTime, status);
    }

    /** The records, the clock and the timer. */
    method Begin(env: Pthreads) returns (ok: bool, args: array<WorkerThreadArgs>, startTime: int)
      requires env.Unused() && threads <= INT_MAX && !BadWorker()
      modifies env`threads, env`now, env`expired, env`firstReading, env`troubled, env`deadline, env`limited,
               env`armed
      ensures fresh(args) && args.Length == threads && env.Valid(args)
      ensures forall t :: 0 <= t < threads ==> !args[t].joined
      ensures env.threads == [] && !env.expired && env.troubled == !ok
      ensures if ok then env.limited == (maxTime > 0) else !env.armed
      ensures ok ==> old(env.now) <= startTime <= env.now && env.firstReading == Some(startTime)
      ensures ok ==> env.deadline == startTime + maxTime
    {
      args := new WorkerThreadArgs[threads](_ => WorkerThreadArgs(ThreadTask(0, 0, []), None, false));
      startTime := 0;
      ok := env.MayFail(args);
      if ok {
        ok := env.MayFail(args);
      }
      if ok {
        startTime := env.NowMs(args);
        ok := env.StartTimer(args, maxTime);
      }
    }

    /** The creation loop and the join loop. */
    method CreateAndJoin(env: Pthreads, args: array<WorkerThreadArgs>, startTime: int) returns (status: int)
        requires env.Valid(args) && env.threads == [] && env.pinned == [] && env.cancels == 0
    requires !env.troubled && !env.late
      requires env.unjoined == {} && env.limited == (maxTime > 0)
      requires args.Length == threads && !BadWorker()
      modifies args, env`threads, env`pinned, env`now, env`expired, env`masterGone, env`late, env`troubled, env`cancels,
               env`delay, env`lifetime, env`unjoined
      ensures env.Valid(args) && env.cancels <= 1
      ensures Pinned(env.pinned, |env.threads|, firstCore, cores)
      ensures TasksGiven(args, task.data, threads, |env.threads|)
      ensures forall t :: 0 <= t < |env.threads| ==> args[t].joined
      ensures status == 0 || status == 1
      ensures status == 1 <==> env.troubled || env.late
      ensures status == 0 ==> |env.threads| == threads
      ensures old(env.masterGone) || old(env.expired) || TooLate(old(env.now), startTime, maxTime) ==> status == 1
    {
      var cancelRequested;
      status, cancelRequested := CreateThreads(env, args, task.data, threads, firstCore, cores, startTime, maxTime);
      status, cancelRequested := JoinThreads(env, args, task.data, threads, startTime, maxTime, status,
        cancelRequested);
    }

    /** After the last join: the deadline once more, then the packing. */
    method Finish(env: Pthreads, args: array<WorkerThreadArgs>, startTime: int, statusBefore: int) returns (status: int)
      requires env.limited == (maxTime > 0)
      requires env.Valid(args) && 0 < threads == args.Length <= INT_MAX && env.cancels <= 1
      requires TasksGiven(args, task.data, threads, |env.threads|)
      requires forall t :: 0 <= t < |env.threads| ==> args[t].joined
      requires statusBefore == 0 || statusBefore == 1
      requires statusBefore == 1 <==> env.troubled || env.late
      requires statusBefore == 0 ==> |env.threads| == threads
      requires forall t: ThreadTask :: Allocated(env.work(t))
      modifies this`result, args, env`threads, env`now, env`armed, env`expired, env`late, env`troubled, env`released
      ensures status == 0 || status == 1
      ensures status == 0 <==>
                && !env.troubled && !env.late
                && (forall t :: 0 <= t < |env.threads| ==> env.threads[t].configured)
                && Answerable(env.work, task.data, threads)
      ensures status == 0 ==>
                && |env.threads| == threads && env.cancels == 0
                && result.data == WorkerAnswer(env.work, task.data, threads) && result.size == |result.data|
      ensures status != 0 ==> result == old(result)
      ensures old(env.expired) || statusBefore == 1 ==> status == 1
      ensures status == 0 ==> !TooLate(env.now, startTime, maxTime)
      ensures !env.armed && old(env.now) <= env.now && |env.threads| == |old(env.threads)|
      ensures env.released && (maxTime <= 0 ==> env.late == old(env.late))
      ensures forall t :: 0 <= t < |env.threads| && t !in env.unjoined ==> env.threads[t].phase.Exited?
    {
      status := statusBefore;
      var exceeded := env.DeadlineExceeded(args, startTime, maxTime);
      if exceeded {
        status := 1;
      }
      env.StopTimer(args);
      if status == 0 {
        status := PackAnswers(env, args);
      }
      JoinedOrExited(env, args);
      env.Release(args);
    }

    method PackAnswers(env: Pthreads, args: array<WorkerThreadArgs>) returns (status: int)
      requires env.Valid(args) && 0 < threads == args.Length == |env.threads| <= INT_MAX
      requires !env.troubled && !env.late
      requires TasksGiven(args, task.data, threads, threads)
      requires forall t :: 0 <= t < threads ==> args[t].joined
      requires forall t: ThreadTask :: Allocated(env.work(t))
      modifies this`result, args, env`threads, env`troubled
      ensures env.Valid(args) && |env.threads| == threads
      ensures forall t :: 0 <= t < threads ==> args[t].joined
      ensures status == 0 || status == 1
      ensures status == 0 <==>
                !env.troubled && (forall t :: 0 <= t < threads ==> env.threads[t].configured) &&
                  Answerable(env.work, task.data, threads)
      ensures status == 0 ==> result.data == WorkerAnswer(env.work, task.data, threads) && result.size == |result.data|
      ensures status != 0 ==> result == old(result)
    {
      var memory := env.MayFail(args);
      FinishedThreads(env, args, task.data, threads);
      status, result := PackThreadResults(args, threads, result, memory);
    }

    /** Once every thread is joined without failure or cancellation, a configured thread's record holds
        its method's answer, and an unconfigured one's holds none. */
    lemma FinishedThreads(env: Pthreads, args: array<WorkerThreadArgs>, data: seq<byte>, threads: int)
      requires env.Valid(args) && 0 < threads == args.Length == |env.threads| && !env.late
      requires TasksGiven(args, data, threads, threads)
      requires forall t :: 0 <= t < threads ==> args[t].joined
      requires forall t: ThreadTask :: Allocated(env.work(t))
      ensures forall i :: 0 <= i < threads ==> Allocated(args[i].result)
      ensures !env.troubled ==>
                ((forall t :: 0 <= t < threads ==> env.threads[t].configured) && Answerable(env.work, data, threads)
                 <==>
                 AllPackable(args[..threads]) && |Framing.Pack(Items(args[..threads]))| <= SIZE_MAX)
      ensures !env.troubled && AllPackable(args[..threads]) ==>
              Framing.Pack(Items(args[..threads])) == WorkerAnswer(env.work, data, threads)
    {
      forall i | 0 <= i < threads
        ensures Allocated(args[i].result)
        ensures !env.troubled ==> HasAnswer(env.work, data, threads, args[i], i, env.threads[i])
      {
        assert env.Matches(i, args[i]);
      }
      if !env.troubled {
        FinishedPacking(env.work, data, threads, args[..threads], env.threads);
      }
    }
  }

  predicate HasAnswer(work: Method, data: seq<byte>, threads: nat, args: WorkerThreadArgs, i: nat, thread: Thread) {
    args.result == if thread.configured then work(ThreadTask(i, threads, data)) else None
  }

  lemma FinishedPacking(work: Method, data: seq<byte>, threads: nat, args: seq<WorkerThreadArgs>, ts: seq<Thread>)
    requires |args| == |ts| == threads
    requires forall i :: 0 <= i < threads ==> HasAnswer(work, data, threads, args[i], i, ts[i])
    ensures (forall t :: 0 <= t < threads ==> ts[t].configured) && Answerable(work, data, threads) <==>
            AllPackable(args) && |Framing.Pack(Items(args))| <= SIZE_MAX
    ensures AllPackable(args) ==> Framing.Pack(Items(args)) == WorkerAnswer(work, data, threads)
  {
    if forall t :: 0 <= t < threads ==> ts[t].configured {
      forall i | 0 <= i < threads
        ensures args[i].result == work(ThreadTask(i, threads, data))
      {
        assert HasAnswer(work, data, threads, args[i], i, ts[i]);
      }
      ItemsAreAnswers(work, data, threads, args);
      if AllPackable(args) {
        forall j | 0 <= j < threads
          ensures Packable(work(ThreadTask(j, threads, data)))
        {
          assert Packable(args[j].result);
        }
      }
    } else {
      var t :| 0 <= t < threads && !ts[t].configured;
      assert HasAnswer(work, data, threads, args[t], t, ts[t]);
      assert !Packable(args[t].result);
    }
  }
}

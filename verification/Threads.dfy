/** The POSIX threads of one worker, as `WorkerRun` sees them.

    Threads run on their own: they store their result in their argument record and exit, in any order
    and at any time between two calls. A thread that was asked to cancel may exit early, and after
    `delay` more sleeps it has exited; without a deadline, every thread has ended after `lifetime` more
    sleeps. What the C library leaves undefined is a precondition here:
    a thread is joined or cancelled only while it is not joined, and the records are released only
    when every thread has been joined.
  */
module Threads {
  import opened Common
  import opened Packing

  type Method = ThreadTask -> Option<ClusterPacket>

  datatype Phase = Running | Stored | Exited(cancelled: bool)

  /** `configured` is lowered when the thread could not set up its cancellation and gave up. */
  datatype Thread = Thread(phase: Phase, cancelPending: bool, configured: bool)

  datatype JoinAnswer = Busy | JoinError | Joined(cancelled: bool)

  class Pthreads {
    const work: Method
    var threads: seq<Thread>
    var pinned: seq<int>          // the core of each thread
    var now: int
    var deadline: int
    var limited: bool             // whether there is a deadline
    var armed: bool               // whether the timer is running
    var expired: bool             // the timer's flag
    var masterGone: bool          // the master has closed the connection
    var delay: nat
    var lifetime: nat
    ghost var troubled: bool      // a call has failed
    ghost var late: bool          // the deadline was noticed
    var cancels: nat              // how often the threads were cancelled
    ghost var unjoined: set<nat>  // the threads whose join has failed
    ghost var released: bool
    ghost var firstReading: Option<int>  // what the clock showed when it was first read

    constructor (work: Method, delay: nat, lifetime: nat, now: int)
      ensures this.work == work && Unused()
    {
      this.work, this.delay, this.lifetime, this.now, deadline := work, delay, lifetime, now, now;
      limited, armed, expired, masterGone, firstReading := false, false, false, false, None;
      threads, pinned, troubled, late, cancels, unjoined, released := [], [], false, false, 0, {}, false;
    }

    ghost predicate Unused()
      reads this
    {
      && threads == [] && pinned == [] && !troubled && !late && cancels == 0 && unjoined == {} && !released
      && !armed && !expired && firstReading == None
    }

    /** Thread `t` and its record belong together. */
    ghost predicate Matches(t: nat, args: WorkerThreadArgs)
      requires t < |threads|
      reads this
    {
      Fits(threads[t], t, args)
    }

    ghost predicate Fits(thread: Thread, t: nat, args: WorkerThreadArgs)
      reads this
    {
      && (thread.phase == Stored ==> thread.configured)
      && (thread.phase == Stored || (thread.phase == Exited(false) && thread.configured) ==>
        args.result == work(args.task))
      && (args.result == None || args.result == work(args.task))
      && (!thread.configured ==> thread.phase == Exited(false) && args.result == None)
      && (thread.cancelPending ==> cancels > 0)
      && (thread.phase == Exited(true) ==> cancels > 0)
      && (args.joined ==> t in unjoined || thread.phase.Exited?)
    }

    /** The records of the created threads match them; the others are not joined. */
    ghost predicate Valid(args: array<WorkerThreadArgs>)
      reads this, args
    {
      && |threads| <= args.Length
      && (forall t :: 0 <= t < |threads| ==> Matches(t, args[t]))
      && (forall t :: |threads| <= t < args.Length ==> !args[t].joined)
      && (cancels > 0 ==> late) && (late ==> limited) && (expired ==> limited)
      && (unjoined != {} ==> troubled)
    }

    /** Time passes: threads move on, their records' tasks and `joined` flags stay. */
    twostate predicate Elapsed(args: array<WorkerThreadArgs>)
      reads this, args
    {
      && |threads| == |old(threads)| && old(now) <= now && deadline == old(deadline)
      && delay <= old(delay) && lifetime <= old(lifetime)
      && (old(expired) ==> expired) && (old(masterGone) ==> masterGone)
      && (forall t :: 0 <= t < args.Length ==>
        args[t].task == old(args[t]).task && args[t].joined == old(args[t]).joined)
      && (forall t :: |threads| <= t < args.Length ==> args[t] == old(args[t]))
      && (forall t :: 0 <= t < |threads| ==> LaterThread(old(threads[t]), threads[t]))
    }

    static predicate LaterThread(a: Thread, b: Thread) {
      (a.phase.Exited? ==> b == a) && a.cancelPending == b.cancelPending
    }

    /** One thread makes one move. */
    method Move(args: array<WorkerThreadArgs>, t: nat)
      requires Valid(args) && t < |threads|
      modifies args, this`threads
      ensures Valid(args) && Elapsed(args)
    {
      var thread := threads[t];
      var choice: int := *;
      if thread.phase.Exited? {
        return;
      }
      if thread.cancelPending && choice == 0 {
        threads := threads[t := thread.(phase := Exited(true))];
      } else if thread.phase == Stored {
        threads := threads[t := thread.(phase := Exited(false))];
      } else if choice == 1 {
        Become(args, t, None, thread.(phase := Exited(false), configured := false));
      } else {
        Become(args, t, work(args[t].task), thread.(phase := Stored));
      }
    }

    /** Thread `t` writes its result and goes on as `thread`. */
    method Become(args: array<WorkerThreadArgs>, t: nat, result: Option<ClusterPacket>, thread: Thread)
      requires Valid(args) && t < |threads| && LaterThread(threads[t], thread)
      requires Fits(thread, t, args[t].(result := result))
      modifies args, this`threads
      ensures Valid(args) && Elapsed(args) && threads == old(threads)[t := thread]
    {
      args[t] := args[t].(result := result);
      threads := threads[t := thread];
    }

    /** Any number of moves of any threads. */
    method Run(args: array<WorkerThreadArgs>)
      requires Valid(args)
      modifies args, this`threads
      ensures Valid(args) && Elapsed(args)
    {
      var moves: nat :| moves >= 0;
      while moves > 0
        invariant Valid(args) && Elapsed(args)
      {
        var t: int := *;
        if 0 <= t < |threads| {
          Move(args, t);
        }
        moves := moves - 1;
      }
    }

    /** Any call that may fail: allocation, attributes, affinity, the timer. */
    method MayFail(args: array<WorkerThreadArgs>) returns (ok: bool)
      requires Valid(args)
      modifies args, this`threads, this`troubled
      ensures Valid(args) && Elapsed(args)
      ensures troubled == (old(troubled) || !ok)
    {
      Run(args);
      ok := *;
      if !ok {
        troubled := true;
      }
    }

    /** WorkerCheckMasterAlive(): it never misses a master that was gone before the call. */
    method MasterAlive(args: array<WorkerThreadArgs>) returns (alive: bool)
      requires Valid(args)
      modifies args, this`threads, this`troubled, this`masterGone
      ensures Valid(args) && Elapsed(args)
      ensures troubled == (old(troubled) || !alive)
      ensures old(masterGone) ==> !alive
    {
      var goes: bool := *;
      masterGone := masterGone || goes;
      alive := MayFail(args);
      if masterGone {
        alive, troubled := false, true;
      }
    }

    /** pthread_create() for the next record, on the given core; never after a cancellation. It takes time. */
    method Create(args: array<WorkerThreadArgs>, core: int) returns (ok: bool)
      requires Valid(args) && |threads| < args.Length && cancels == 0
      requires args[|threads|].result == None && !args[|threads|].joined
      modifies args, this`threads, this`pinned, this`troubled, this`now, this`expired
      ensures Valid(args)
      ensures old(now) <= now && (old(expired) ==> expired)
      ensures troubled == (old(troubled) || !ok)
      ensures |threads| == if ok then |old(threads)| + 1 else |old(threads)|
      ensures pinned == if ok then old(pinned) + [core] else old(pinned)
      ensures forall t :: 0 <= t < args.Length ==>
              args[t].task == old(args[t]).task && args[t].joined == old(args[t]).joined
    {
      ok := MayFail(args);
      if ok {
        Start(args, core);
      }
      Tick(args);
    }

    /** A thread comes into being and runs on the next record. */
    method Start(args: array<WorkerThreadArgs>, core: int)
      requires Valid(args) && |threads| < args.Length
      requires args[|threads|].result == None && !args[|threads|].joined
      modifies this`threads, this`pinned
      ensures Valid(args) && threads == old(threads) + [Thread(Running, false, true)]
      ensures pinned == old(pinned) + [core]
    {
      pinned := pinned + [core];
      threads := threads + [Thread(Running, false, true)];
    }

    /** pthread_tryjoin_np(): allowed only on a thread that is not joined. A cancelled thread is not
        busy any more once `delay` has run down, nor is any thread once `lifetime` has run down without
        a deadline. The caller sets the flag. */
    method TryJoin(args: array<WorkerThreadArgs>, t: nat) returns (answer: JoinAnswer)
      requires Valid(args) && t < |threads| && !args[t].joined
      modifies args, this`threads, this`troubled, this`unjoined
      ensures Valid(args) && Elapsed(args)
      ensures troubled == (old(troubled) || answer == JoinError)
      ensures unjoined == if answer == JoinError then old(unjoined) + {t} else old(unjoined)
      ensures answer.Busy? ==> !(threads[t].cancelPending && delay == 0) && !(!limited && lifetime == 0)
      ensures answer.Joined? ==> threads[t].phase == Exited(answer.cancelled)
    {
      Run(args);
      if * {
        FailToJoin(args, t);
        return JoinError;
      }
      if threads[t].cancelPending && delay == 0 && !threads[t].phase.Exited? {
        threads := threads[t := threads[t].(phase := Exited(true))];
      }
      if !limited && lifetime == 0 && !threads[t].phase.Exited? {
        Become(args, t, work(args[t].task), threads[t].(phase := Exited(false)));
      }
      answer := if threads[t].phase.Exited? then Joined(threads[t].phase.cancelled) else Busy;
    }

    /** A join fails, whatever the thread is doing. */
    method FailToJoin(args: array<WorkerThreadArgs>, t: nat)
      requires Valid(args) && t < |threads| && !args[t].joined
      modifies this`troubled, this`unjoined
      ensures Valid(args) && troubled && unjoined == old(unjoined) + {t}
    {
      troubled, unjoined := true, unjoined + {t};
    }

    /** The run in which a record is released while its thread is running: the thread is created, its join
        fails, the caller sets the flag all the same, and with every flag set the records are released. */
    method ReleasedWhileRunning(args: array<WorkerThreadArgs>, core: int)
      requires Unused() && args.Length == 1 && args[0].result == None && !args[0].joined
      modifies args, this`threads, this`pinned, this`troubled, this`unjoined, this`released
      ensures Valid(args) && args[0].joined && released
      ensures threads == [Thread(Running, false, true)] && unjoined == {0}
    {
      Start(args, core);
      FailToJoin(args, 0);
      args[0] := args[0].(joined := true);
      Release(args);
    }

    /** The threads are about to be cancelled: only at the deadline. */
    method BeginCancel(args: array<WorkerThreadArgs>)
      requires Valid(args) && late
      modifies this`cancels
      ensures Valid(args) && cancels == old(cancels) + 1
    {
      cancels := cancels + 1;
    }

    /** pthread_cancel(): allowed only on a thread that is not joined. */
    method Cancel(args: array<WorkerThreadArgs>, t: nat)
      requires Valid(args) && t < |threads| && !args[t].joined && cancels > 0
      modifies this`threads
      ensures Valid(args)
      ensures threads == old(threads)[t := old(threads[t]).(cancelPending := true)]
    {
      threads := threads[t := threads[t].(cancelPending := true)];
    }

    /** SleepMs(10). */
    method Sleep(args: array<WorkerThreadArgs>)
      requires Valid(args)
      modifies args, this`threads, this`now, this`expired, this`masterGone, this`delay, this`lifetime
      ensures Valid(args) && Elapsed(args) && now >= old(now) + 10
      ensures cancels > 0 && old(delay) > 0 ==> delay < old(delay)
      ensures !limited && old(lifetime) > 0 ==> lifetime < old(lifetime)
    {
      Run(args);
      Doze(args);
    }

    /** What changes besides the threads while the caller sleeps. */
    method Doze(args: array<WorkerThreadArgs>)
      requires Valid(args)
      modifies this`now, this`expired, this`masterGone, this`delay, this`lifetime
      ensures Valid(args) && Elapsed(args) && now >= old(now) + 10
      ensures cancels > 0 && old(delay) > 0 ==> delay < old(delay)
      ensures !limited && old(lifetime) > 0 ==> lifetime < old(lifetime)
    {
      now := now + 10;
      Tick(args);
      var goes: bool := *;
      masterGone := masterGone || goes;
      delay := if cancels > 0 && delay > 0 then delay - 1 else delay;
      lifetime := if !limited && lifetime > 0 then lifetime - 1 else lifetime;
    }

    /** Time passes; once the deadline has come, the timer may go off. */
    method Tick(args: array<WorkerThreadArgs>)
      requires Valid(args)
      modifies this`now, this`expired
      ensures Valid(args) && old(now) <= now && (old(expired) ==> expired)
    {
      var extra: nat :| extra >= 0;
      now := now + extra;
      var fired: bool := *;
      if armed && limited && fired && deadline <= now {
        expired := true;
      }
    }

    /** NowMs(). */
    method NowMs(args: array<WorkerThreadArgs>) returns (t: int)
      requires Valid(args)
      modifies this`now, this`expired, this`firstReading
      ensures Valid(args) && old(now) <= now == t
      ensures firstReading == if old(firstReading).None? then Some(t) else old(firstReading)
    {
      Tick(args);
      t := now;
      firstReading := if firstReading.None? then Some(t) else firstReading;
    }

    /** DeadlineTimerStart(): without a limit there is no timer, and nothing can fail. */
    method StartTimer(args: array<WorkerThreadArgs>, maxTimeMs: int) returns (ok: bool)
      requires Valid(args) && !late
      modifies args, this`threads, this`troubled, this`deadline, this`limited, this`armed, this`expired
      ensures Valid(args) && |threads| == |old(threads)|
      ensures forall t :: 0 <= t < args.Length ==> args[t].joined == old(args[t]).joined
      ensures limited == (maxTimeMs > 0) && armed == (ok && maxTimeMs > 0) && !expired
      ensures deadline == now + maxTimeMs
      ensures troubled == (old(troubled) || !ok)
    {
      deadline, limited, armed, expired := now + maxTimeMs, maxTimeMs > 0, false, false;
      ok := true;
      if limited {
        ok := MayFail(args);
        armed := ok;
      }
    }

    /** DeadlineTimerStop(). */
    method StopTimer(args: array<WorkerThreadArgs>)
      requires Valid(args)
      modifies this`armed, this`expired
      ensures Valid(args) && !armed && !expired
    {
      armed, expired := false, false;
    }

    /** DeadlineExceeded(): there is a limit, and the timer has gone off or the clock has passed it. */
    method DeadlineExceeded(args: array<WorkerThreadArgs>, startTime: int, maxTimeMs: int) returns (exceeded: bool)
      requires Valid(args) && limited == (maxTimeMs > 0)
      modifies args, this`threads, this`now, this`expired, this`late
      ensures Valid(args) && Elapsed(args)
      ensures late == (old(late) || exceeded)
      ensures exceeded <==> expired || (maxTimeMs > 0 && startTime + maxTimeMs < now)
    {
      Run(args);
      Tick(args);
      exceeded := expired || (maxTimeMs > 0 && now - startTime > maxTimeMs);
      if exceeded {
        late := true;
      }
    }

    /** free() of the records: every created thread has been joined. */
    method Release(args: array<WorkerThreadArgs>)
      requires Valid(args) && forall t :: 0 <= t < |threads| ==> args[t].joined
      modifies this`released
      ensures Valid(args) && released
    {
      released := true;
    }
  }
}

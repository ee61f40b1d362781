/** What one thread of the example's worker computes (examples/integral_worker.c). */
module IntegralWorker {
  import opened Common
  import opened Integral
  import opened IntegralSplit
  import opened Packing
  import Framing
  import Protocol
  import Threads
  import WorkerIO
  import WorkerProgram
  import WorkerRun

  const DOUBLE_SIZE: int := 8
  const TASK_SIZE: int := 24

  /** The memory image of a double. Only finitely many reals survive the way through memory. */
  datatype DoubleCodec = DoubleCodec(encode: real -> seq<byte>, decode: seq<byte> -> real)
  {
    ghost predicate Valid() {
      forall x :: |encode(x)| == DOUBLE_SIZE
    }

    predicate Exact(x: real) {
      decode(encode(x)) == x
    }
  }

  datatype IntegralTask = IntegralTask(begin: real, end: real, eps: real)

  /** The struct in memory. */
  function TaskBytes(codec: DoubleCodec, task: IntegralTask): (s: seq<byte>) {
    codec.encode(task.begin) + codec.encode(task.end) + codec.encode(task.eps)
  }

  lemma TaskFields(codec: DoubleCodec, task: IntegralTask)
    requires codec.Valid()
    ensures |TaskBytes(codec, task)| == TASK_SIZE
    ensures TaskBytes(codec, task)[..8] == codec.encode(task.begin)
    ensures TaskBytes(codec, task)[8..16] == codec.encode(task.end)
  {
  }

  /** The value that thread `index` of `count` computes for a task. */
  function ThreadValue(rule: Rule, f: Func, begin: real, end: real, index: nat, count: nat): real
    requires index < count
  {
    Integrate(rule, f, Cut(begin, end, index, count), Cut(begin, end, index + 1, count))
  }

  function RunIntegralTask(codec: DoubleCodec, rule: Rule, f: Func, thread: ThreadTask): (r: Option<ClusterPacket>)
    ensures r.Some? <==> |thread.data| == 24 && thread.threadIndex < thread.threadsCount
  {
    if |thread.data| != TASK_SIZE || thread.threadsCount == 0 || thread.threadIndex >= thread.threadsCount then None
    else
      var begin, end := codec.decode(thread.data[..8]), codec.decode(thread.data[8..16]);
      var value := ThreadValue(rule, f, begin, end, thread.threadIndex, thread.threadsCount);
      Some(ClusterPacket(codec.encode(value), DOUBLE_SIZE))
  }

  function IntegralMethod(codec: DoubleCodec, rule: Rule, f: Func): Threads.Method {
    (thread: ThreadTask) => RunIntegralTask(codec, rule, f, thread)
  }

  lemma AllocatedResults(codec: DoubleCodec, rule: Rule, f: Func)
    requires codec.Valid()
    ensures forall t: ThreadTask :: Allocated(IntegralMethod(codec, rule, f)(t))
  {
  }

  // ----- The packet of all threads -----

  /** Records of the size of an `IntegralResult`. */
  ghost predicate AllDoubles(items: seq<seq<byte>>) {
    forall i :: 0 <= i < |items| ==> |items[i]| == DOUBLE_SIZE
  }

  function SumItems(codec: DoubleCodec, items: seq<seq<byte>>): real {
    if items == [] then 0.0 else SumItems(codec, items[..|items| - 1]) + codec.decode(items[|items| - 1])
  }

  /** Everything that has to pass through memory on the way of one worker's task and results does so
      unchanged. */
  ghost predicate Travels(codec: DoubleCodec, rule: Rule, f: Func, task: IntegralTask, threads: nat) {
    && codec.Valid() && codec.Exact(task.begin) && codec.Exact(task.end)
    && forall j :: 0 <= j < threads ==> codec.Exact(ThreadValue(rule, f, task.begin, task.end, j, threads))
  }

  lemma ThreadAnswer(codec: DoubleCodec, rule: Rule, f: Func, task: IntegralTask, index: nat, threads: nat)
    requires Travels(codec, rule, f, task, threads) && index < threads
    ensures var answer := RunIntegralTask(codec, rule, f, ThreadTask(index, threads, TaskBytes(codec, task)));
            && Packable(answer) && answer.value.size == DOUBLE_SIZE
            && codec.decode(answer.value.data) == ThreadValue(rule, f, task.begin, task.end, index, threads)
  {
    TaskFields(codec, task);
    assert codec.Exact(ThreadValue(rule, f, task.begin, task.end, index, threads));
  }

  lemma SumOneMore(codec: DoubleCodec, items: seq<seq<byte>>, item: seq<byte>)
    ensures SumItems(codec, items + [item]) == SumItems(codec, items) + codec.decode(item)
  {
    assert (items + [item])[..|items|] == items;
  }

  lemma TotalOneMore(rule: Rule, f: Func, begin: real, end: real, k: nat, n: nat)
    requires k < n
    ensures Total(rule, f, Cuts(begin, end, k + 1, n)) ==
            Total(rule, f, Cuts(begin, end, k, n)) + ThreadValue(rule, f, begin, end, k, n)
  {
    var cuts := Cuts(begin, end, k + 1, n);
    assert cuts[..k] == Cuts(begin, end, k, n);
  }

  lemma AnswersOneMore(codec: DoubleCodec, rule: Rule, f: Func, task: IntegralTask, threads: nat, n: nat)
    returns (item: seq<byte>)
    requires Travels(codec, rule, f, task, threads) && n < threads
    ensures var work, data := IntegralMethod(codec, rule, f), TaskBytes(codec, task);
            WorkerRun.AnswersUpTo(work, data, threads, n + 1) == WorkerRun.AnswersUpTo(work, data, threads, n) + [item]
    ensures |item| == DOUBLE_SIZE && codec.decode(item) == ThreadValue(rule, f, task.begin, task.end, n, threads)
  {
    ThreadAnswer(codec, rule, f, task, n, threads);
    item := RunIntegralTask(codec, rule, f, ThreadTask(n, threads, TaskBytes(codec, task))).value.data;
  }

  /** The answers of the first `n` threads decode to the sums over the first `n` parts of the task. */
  lemma {:induction false} AnswersValue(codec: DoubleCodec, rule: Rule, f: Func, task: IntegralTask, threads: nat,
                                        n: nat)
    requires Travels(codec, rule, f, task, threads) && n <= threads && 0 < threads
    ensures var answers := WorkerRun.AnswersUpTo(IntegralMethod(codec, rule, f), TaskBytes(codec, task), threads, n);
            && AllDoubles(answers)
            && SumItems(codec, answers) == Total(rule, f, Cuts(task.begin, task.end, n, threads))
  {
    if n > 0 {
      AnswersValue(codec, rule, f, task, threads, n - 1);
      var item := AnswersOneMore(codec, rule, f, task, threads, n - 1);
      SumOneMore(codec, WorkerRun.AnswersUpTo(IntegralMethod(codec, rule, f), TaskBytes(codec, task), threads, n - 1),
        item);
      TotalOneMore(rule, f, task.begin, task.end, n - 1, threads);
    }
  }

  lemma {:induction false} DoublesSize(items: seq<seq<byte>>)
    requires AllDoubles(items)
    ensures |Framing.FrameAll(items)| == 16 * |items|
  {
    if items != [] {
      DoublesSize(items[1..]);
    }
  }

  /** A worker of the example always has a valid answer: its run fails only if a call fails or the time
      is up. */
  lemma IntegralAnswerable(codec: DoubleCodec, rule: Rule, f: Func, task: IntegralTask, threads: nat)
    requires Travels(codec, rule, f, task, threads) && 0 < threads <= INT_MAX
    ensures WorkerRun.Answerable(IntegralMethod(codec, rule, f), TaskBytes(codec, task), threads)
  {
    var work, data := IntegralMethod(codec, rule, f), TaskBytes(codec, task);
    AnswersValue(codec, rule, f, task, threads, threads);
    DoublesSize(WorkerRun.AnswersUpTo(work, data, threads, threads));
    forall j | 0 <= j < threads
      ensures Packable(work(ThreadTask(j, threads, data)))
    {
      ThreadAnswer(codec, rule, f, task, j, threads);
    }
  }

  // ----- The whole program -----

  /** Slot `i` is served by a worker that runs `threads[i]` threads of the example's method, and its task
      and results travel exactly. */
  ghost predicate Serves(cfg: Protocol.Config, codec: DoubleCodec, rule: Rule, f: Func, task: IntegralTask,
                         threads: nat, i: nat)
    requires i < |cfg.tasks|
  {
    && 0 < threads <= INT_MAX
    && Travels(codec, rule, f, task, threads)
    && cfg.tasks[i] == TaskBytes(codec, task)
    && cfg.run(i, cfg.tasks[i]) == WorkerRun.WorkerAnswer(IntegralMethod(codec, rule, f), cfg.tasks[i], threads)
  }

  /** The example's worker process does what `Serves` says of its slot. It returns 0 after sending its whole
      framed answer, and 1 only if a call has failed, the time was up, a thread could not be configured, or
      the resources are bad; it has then crashed after a prefix of that answer. */
  method IntegralWorkerMain(socket: WorkerIO.Socket, env: Threads.Pthreads, socketFd: int,
                            threads: int, cores: int, firstCore: int, maxTime: int,
                            ghost codec: DoubleCodec, ghost rule: Rule, ghost f: Func, ghost task: IntegralTask)
    returns (status: int)
    requires WorkerProgram.Unread(socket) && env.Unused() && threads <= INT_MAX
    requires codec.Valid() && env.work == IntegralMethod(codec, rule, f)
    requires threads > 0 ==> Serves(socket.cfg, codec, rule, f, task, threads, socket.slot)
    modifies socket, env
    ensures status == 0 || status == 1
    ensures Protocol.Reachable(socket.cfg, socket.sys) && socket.sys.links[socket.slot].closed
    ensures status == 0 ==>
              && socket.received == Framing.Frame(WorkerProgram.Task(socket))
              && socket.sent == Framing.Frame(WorkerProgram.Answer(socket))
              && socket.Proc() == Protocol.Finished(WorkerProgram.Answer(socket))
    ensures status == 1 ==>
              && socket.sent <= Framing.Frame(WorkerProgram.Answer(socket))
              && socket.Proc() == Protocol.Crashed(socket.sent)
    ensures status == 1 ==>
              WorkerProgram.WentWrong(socket, env) || WorkerProgram.BadResources(socketFd, threads, cores, firstCore)
  {
    AllocatedResults(codec, rule, f);
    if threads > 0 {
      IntegralAnswerable(codec, rule, f, task, threads);
    }
    status := WorkerProgram.WorkerMain(socket, env, socketFd, threads, cores, firstCore, maxTime);
  }
}

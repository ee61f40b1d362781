/** A worker process from end to end: it reads its task, runs its threads and sends the result
    (src/worker.c, driven by `main` in examples/integral_worker.c). Every call it makes on its socket is
    shown to be a step of the worker in `Protocol`. */
module WorkerProgram {
  import opened Common
  import opened Framing
  import opened Protocol
  import opened WorkerIO
  import opened WorkerRun
  import Packing
  import ProtocolSafety
  import Threads

  /** Sends the framed result, unless the master is found dead first. */
  method WorkerSendResult(worker: Worker, socket: Socket) returns (status: int)
    requires socket.Valid() && worker.result.size == |worker.result.data| < WORD
    modifies socket`sys, socket`sent, socket`patience, socket`masterGone, socket`broken, socket`attached
    ensures socket.Valid()
    ensures status == 0 || status == 1
    ensures status == 0 ==> socket.sent == old(socket.sent) + Frame(worker.result.data)
    ensures old(socket.sent) <= socket.sent <= old(socket.sent) + Frame(worker.result.data)
    ensures status == 1 ==>
            (worker.socketFd < 0 || socket.broken) && |socket.sent| < |old(socket.sent)| + |Frame(worker.result.data)|
    ensures worker.socketFd < 0 || old(socket.masterGone) ==> status == 1 && socket.sent == old(socket.sent)
    ensures old(socket.attached && socket.sent == [] && socket.Proc() == Answering(worker.result.data, 0)) ==>
              socket.attached && socket.Proc() == Answering(worker.result.data, |socket.sent|)
  {
    if worker.socketFd < 0 {
      return 1;
    }
    var alive := socket.MasterAlive();
    if !alive {
      return 1;
    }
    var ok := WritePacket(socket, worker.result);
    status := if ok then 0 else 1;
  }

  /** A connection on which nothing has happened yet. */
  ghost predicate Unread(socket: Socket)
    reads socket
  {
    socket.Valid() && socket.attached && socket.Proc() == Receiving && socket.received == [] && socket.sent == []
  }

  /** The task of the socket's slot, and the answer that the protocol expects to it. */
  function Task(socket: Socket): seq<byte>
    requires socket.slot < |socket.cfg.tasks|
  {
    socket.cfg.tasks[socket.slot]
  }

  function Answer(socket: Socket): seq<byte>
    requires socket.slot < |socket.cfg.tasks|
  {
    socket.cfg.run(socket.slot, Task(socket))
  }

  /** If the threads' answers are valid and fit into one packet, that packet is the expected answer. */
  ghost predicate Expected(socket: Socket, env: Threads.Pthreads, threads: int)
    requires socket.slot < |socket.cfg.tasks|
  {
    && (forall t: Packing.ThreadTask :: Packing.Allocated(env.work(t)))
    && (threads > 0 && Answerable(env.work, Task(socket), threads) ==>
          Answer(socket) == WorkerAnswer(env.work, Task(socket), threads))
  }

  predicate BadResources(socketFd: int, threads: int, cores: int, firstCore: int) {
    socketFd < 0 || threads <= 0 || cores <= 0 || firstCore < 0 || firstCore + cores > CPU_SETSIZE
  }

  /** A call has failed, the deadline was noticed, or a thread could not be configured. */
  ghost predicate WentWrong(socket: Socket, env: Threads.Pthreads)
    reads socket, env
  {
    || socket.broken || env.troubled || env.late
    || exists t :: 0 <= t < |env.threads| && !env.threads[t].configured
  }

  /** The worker of slot `socket.slot`, in a system in which anything may happen to the others. Its calls
      are steps of the protocol's worker, so `Reachable` and with it every theorem about reachable states
      holds throughout; the task it reads is exactly its own. It ends as a worker that has sent its whole
      answer if it returns 0, and otherwise as one that crashed after a prefix of it, for a reason. */
  method WorkerMain(socket: Socket, env: Threads.Pthreads, socketFd: int,
                    threads: int, cores: int, firstCore: int, maxTime: int)
    returns (status: int)
    requires Unread(socket) && env.Unused() && threads <= INT_MAX
    requires Expected(socket, env, threads)
    modifies socket, env
    ensures status == 0 || status == 1
    ensures Reachable(socket.cfg, socket.sys) && socket.sys.links[socket.slot].closed
    ensures socket.sys.links[socket.slot].got == socket.received && WorkerWrote(socket.Proc()) == socket.sent
    ensures socket.Proc() == if status == 0 then Finished(Answer(socket)) else Crashed(socket.sent)
    ensures socket.sent <= Frame(Answer(socket))
    ensures status == 0 ==> socket.received == Frame(Task(socket))
    ensures status == 0 ==>
              && !env.troubled && !env.late && !BadResources(socketFd, threads, cores, firstCore)
              && (maxTime > 0 ==> env.firstReading.Some? && env.now <= env.firstReading.value + maxTime)
    ensures old(env.masterGone) ==> status == 1
    ensures !env.armed
    ensures status == 1 ==>
              || WentWrong(socket, env) || BadResources(socketFd, threads, cores, firstCore)
              || !Answerable(env.work, Task(socket), threads)
  {
    status := ReadRunSend(socket, env, socketFd, threads, cores, firstCore, maxTime);
    socket.Close();
    ProtocolSafety.StreamSafety(socket.cfg, socket.sys, socket.slot);
  }

  /** Everything before the socket is closed. */
  method ReadRunSend(socket: Socket, env: Threads.Pthreads, socketFd: int,
                     threads: int, cores: int, firstCore: int, maxTime: int)
    returns (status: int)
    requires Unread(socket) && env.Unused() && threads <= INT_MAX
    requires Expected(socket, env, threads)
    modifies socket, env
    ensures socket.Valid() && socket.attached
    ensures status == 0 || status == 1
    ensures var answer := Answer(socket);
            if status == 0 then socket.Proc() == Answering(answer, |Frame(answer)|)
            else if socket.Proc().Answering? then
              socket.Proc() == Answering(answer, |socket.sent|) && |socket.sent| < |Frame(answer)|
            else socket.Proc() == Receiving
    ensures status == 0 ==> socket.received == Frame(Task(socket))
    ensures status == 0 ==>
              && !env.troubled && !env.late && !BadResources(socketFd, threads, cores, firstCore)
              && (maxTime > 0 ==> env.firstReading.Some? && env.now <= env.firstReading.value + maxTime)
    ensures old(env.masterGone) ==> status == 1
    ensures !env.armed
    ensures status == 1 ==>
              || WentWrong(socket, env) || BadResources(socketFd, threads, cores, firstCore)
              || !Answerable(env.work, Task(socket), threads)
  {
    var ok, packet := ReadPacket(socket);
    if !ok {
      return 1;
    }
    OwnTask(socket, packet.data);
    var worker := new Worker(socketFd, packet, threads, cores, firstCore, maxTime);
    status := worker.WorkerRun(env);
    if status != 0 {
      return;
    }
    socket.Compute();
    status := WorkerSendResult(worker, socket);
  }

  /** A complete packet that the worker has read is its task. */
  lemma OwnTask(socket: Socket, packet: seq<byte>)
    requires socket.Valid() && socket.attached && |packet| < WORD && socket.received == Frame(packet)
    ensures packet == socket.cfg.tasks[socket.slot] && Want(socket.received) == 0
  {
    ProtocolSafety.StreamSafety(socket.cfg, socket.sys, socket.slot);
    WantOnFrame(socket.received, packet);
    WholeFrame(packet, socket.sys.links[socket.slot].toWorker, socket.cfg.tasks[socket.slot]);
  }

  lemma WholeFrame(packet: seq<byte>, inFlight: seq<byte>, task: seq<byte>)
    requires |packet| < WORD && |task| < WORD && Frame(packet) + inFlight <= Frame(task)
    ensures packet == task
  {
    FrameInFrame(packet, inFlight, task);
  }
}

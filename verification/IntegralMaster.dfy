/** The example's master: it cuts the interval, runs the cluster and adds up what comes back
    (examples/integral_master.c). */
module IntegralMaster {
  import opened Common
  import opened Framing
  import opened Protocol
  import opened Master
  import opened Integral
  import opened IntegralSplit
  import opened IntegralWorker
  import ProtocolSafety
  import Network
  import WorkerRun

  const RECORD_SIZE: int := 16

  // ----- Parsing a worker's packet -----

  /** `data` is the packing of these records. */
  ghost predicate IsPacking(items: seq<seq<byte>>, data: seq<byte>) {
    AllDoubles(items) && data == Pack(items)
  }

  /** `taken` are the first records of a packet that announces `count`. */
  ghost predicate Parsed(data: seq<byte>, count: nat, taken: seq<seq<byte>>) {
    && count < WORD && AllDoubles(taken) && |taken| <= count
    && HEADER_SIZE + RECORD_SIZE * |taken| <= |data|
    && data[..HEADER_SIZE] == EncodeSize(count)
    && data[HEADER_SIZE..HEADER_SIZE + RECORD_SIZE * |taken|] == FrameAll(taken)
  }

  /** A complete record with the right size header stands at `offset`. */
  predicate RecordAt(data: seq<byte>, offset: nat) {
    offset + RECORD_SIZE <= |data| && data[offset..offset + HEADER_SIZE] == EncodeSize(DOUBLE_SIZE)
  }

  lemma ParseStep(data: seq<byte>, count: nat, taken: seq<seq<byte>>)
    requires Parsed(data, count, taken) && |taken| < count
    requires RecordAt(data, HEADER_SIZE + RECORD_SIZE * |taken|)
    ensures var at := HEADER_SIZE + RECORD_SIZE * |taken| + HEADER_SIZE;
            Parsed(data, count, taken + [data[at..at + DOUBLE_SIZE]])
  {
    var at := HEADER_SIZE + RECORD_SIZE * |taken|;
    var item := data[at + HEADER_SIZE..at + HEADER_SIZE + DOUBLE_SIZE];
    FrameAllAppend(taken, item);
    OneMoreRecord(data, at, FrameAll(taken), EncodeSize(DOUBLE_SIZE), item);
  }

  lemma OneMoreRecord(data: seq<byte>, at: nat, body: seq<byte>, head: seq<byte>, item: seq<byte>)
    requires HEADER_SIZE <= at && at + RECORD_SIZE <= |data|
    requires data[HEADER_SIZE..at] == body && data[at..at + HEADER_SIZE] == head
    requires item == data[at + HEADER_SIZE..at + RECORD_SIZE]
    ensures data[HEADER_SIZE..at + RECORD_SIZE] == body + (head + item)
  {
  }

  lemma {:induction false} FrameAllJoin(ps: seq<seq<byte>>, qs: seq<seq<byte>>)
    ensures FrameAll(ps + qs) == FrameAll(ps) + FrameAll(qs)
  {
    if ps == [] {
      assert ps + qs == qs;
    } else {
      assert (ps + qs)[1..] == ps[1..] + qs;
      FrameAllJoin(ps[1..], qs);
    }
  }

  /** If the packet is the packing of some records, the records parsed so far are the first of those,
      and the next one, if any, is where the parser looks for it. */
  lemma ParsedIsPrefix(data: seq<byte>, count: nat, taken: seq<seq<byte>>, items: seq<seq<byte>>)
    requires Parsed(data, count, taken) && |data| < WORD
    requires IsPacking(items, data)
    ensures |items| == count && |data| == HEADER_SIZE + RECORD_SIZE * count
    ensures taken == items[..|taken|]
    ensures |taken| < count ==> RecordAt(data, HEADER_SIZE + RECORD_SIZE * |taken|)
  {
    DoublesSize(items);
    SameCount(data, count, items);
    PrefixOfItems(data, EncodeSize(count), taken, items);
  }

  lemma PrefixOfItems(data: seq<byte>, head: seq<byte>, taken: seq<seq<byte>>, items: seq<seq<byte>>)
    requires |head| == HEADER_SIZE && AllDoubles(taken) && AllDoubles(items) && |taken| <= |items|
    requires |data| == HEADER_SIZE + RECORD_SIZE * |items|
    requires data == head + FrameAll(items)
    requires data[HEADER_SIZE..HEADER_SIZE + RECORD_SIZE * |taken|] == FrameAll(taken)
    ensures taken == items[..|taken|]
    ensures |taken| < |items| ==> RecordAt(data, HEADER_SIZE + RECORD_SIZE * |taken|)
  {
    var k := |taken|;
    var x, y := SplitItems(items, k);
    BodyParts(data, head, x, y);
    StreamUnique(taken, items[..k]);
    if k < |items| {
      FirstFrame(items[k..]);
    }
  }

  /** The stream of the first `k` records, and the rest. */
  lemma SplitItems(items: seq<seq<byte>>, k: nat) returns (x: seq<byte>, y: seq<byte>)
    requires AllDoubles(items) && k <= |items|
    ensures x == FrameAll(items[..k]) && y == FrameAll(items[k..])
    ensures |x| == RECORD_SIZE * k && |y| == RECORD_SIZE * (|items| - k)
    ensures FrameAll(items) == x + y
  {
    x, y := FrameAll(items[..k]), FrameAll(items[k..]);
    assert items == items[..k] + items[k..];
    FrameAllJoin(items[..k], items[k..]);
    DoublesSize(items[..k]);
    DoublesSize(items[k..]);
  }

  lemma BodyParts(data: seq<byte>, head: seq<byte>, x: seq<byte>, y: seq<byte>)
    requires |head| == HEADER_SIZE && data == head + (x + y)
    ensures data[HEADER_SIZE..HEADER_SIZE + |x|] == x
    ensures |y| >= HEADER_SIZE ==> data[HEADER_SIZE + |x|..HEADER_SIZE + |x| + HEADER_SIZE] == y[..HEADER_SIZE]
  {
  }

  lemma FirstFrame(items: seq<seq<byte>>)
    requires AllDoubles(items) && items != []
    ensures |FrameAll(items)| >= HEADER_SIZE && FrameAll(items)[..HEADER_SIZE] == EncodeSize(DOUBLE_SIZE)
  {
    Prefixed(EncodeSize(|items[0]|), items[0], FrameAll(items[1..]));
  }

  lemma Prefixed(head: seq<byte>, item: seq<byte>, rest: seq<byte>)
    ensures ((head + item) + rest)[..|head|] == head
  {
  }

  lemma SameCount(data: seq<byte>, count: nat, items: seq<seq<byte>>)
    requires count < WORD && |data| < WORD && IsPacking(items, data)
    requires |data| >= HEADER_SIZE && data[..HEADER_SIZE] == EncodeSize(count)
    ensures |items| == count
  {
    DoublesSize(items);
    assert data[..HEADER_SIZE] == EncodeSize(|items|);
    DecodeEncode(count);
    DecodeEncode(|items|);
  }

  lemma ParsedAll(data: seq<byte>, count: nat, taken: seq<seq<byte>>)
    requires Parsed(data, count, taken) && |taken| == count
    requires |data| == HEADER_SIZE + RECORD_SIZE * count
    ensures IsPacking(taken, data)
  {
    HeadAndBody(data, EncodeSize(count), FrameAll(taken));
  }

  lemma HeadAndBody(data: seq<byte>, head: seq<byte>, body: seq<byte>)
    requires |head| == HEADER_SIZE && |data| == HEADER_SIZE + |body|
    requires data[..HEADER_SIZE] == head && data[HEADER_SIZE..HEADER_SIZE + |body|] == body
    ensures data == head + body
  {
  }

  /** Why a packet is rejected: no room for a count, a record that is cut off or has the wrong size, or
      bytes left over after the last record. */
  ghost predicate Malformed(data: seq<byte>, taken: seq<seq<byte>>) {
    || |data| < HEADER_SIZE
    || exists count: nat ::
         && Parsed(data, count, taken)
         && if |taken| < count then !RecordAt(data, HEADER_SIZE + RECORD_SIZE * |taken|)
            else HEADER_SIZE + RECORD_SIZE * |taken| != |data|
  }

  lemma MalformedIsNoPacking(data: seq<byte>, taken: seq<seq<byte>>, items: seq<seq<byte>>)
    requires Malformed(data, taken) && |data| < WORD
    ensures !IsPacking(items, data)
  {
    if IsPacking(items, data) && |data| >= HEADER_SIZE {
      var count: nat :| Parsed(data, count, taken) &&
        if |taken| < count then !RecordAt(data, HEADER_SIZE + RECORD_SIZE * |taken|)
        else HEADER_SIZE + RECORD_SIZE * |taken| != |data|;
      ParsedIsPrefix(data, count, taken, items);
    }
  }

  /** Looks at one record: its size header and whether its bytes are all there. No subtraction wraps. */
  method FindItem(data: seq<byte>, size: nat, start: nat) returns (ok: bool, offset: nat)
    requires |data| == size < WORD && start <= size
    ensures ok <==> RecordAt(data, start)
    ensures ok ==> offset == start + HEADER_SIZE
  {
    offset := start;
    var left: nat := size - offset;
    if left < HEADER_SIZE {
      return false, offset;
    }
    var itemSize := ClusterDecodeSize(data[offset..offset + HEADER_SIZE]);
    DecodeEncode(itemSize);
    DecodeEncode(DOUBLE_SIZE);
    offset := offset + HEADER_SIZE;
    left := size - offset;
    if itemSize != DOUBLE_SIZE || itemSize > SIZE_MAX || left < itemSize {
      return false, offset;
    }
    ok := true;
  }

  /** Adds the records of a packet to `before`. It accepts exactly the packings of 8-byte records and
      then adds all of them in order; it rejects a packet after adding the records that stand before
      the flaw. However large the count claims to be, it looks at `rounds` <= size / 16 + 1 records. */
  method AddPackedResults(codec: DoubleCodec, packet: ClusterPacket, before: real)
    returns (status: int, value: real, ghost taken: seq<seq<byte>>, ghost rounds: nat)
    requires packet.data == [] || |packet.data| == packet.size < WORD
    ensures status == 0 || status == 1
    ensures status == 0 <==> exists items :: IsPacking(items, packet.data)
    ensures status == 0 ==> IsPacking(taken, packet.data)
    ensures status == 1 ==> Malformed(packet.data, taken)
    ensures value == before + SumItems(codec, taken)
    ensures rounds <= packet.size / RECORD_SIZE + 1
  {
    var data := packet.data;
    value, taken, rounds := before, [], 0;
    if data == [] || packet.size < HEADER_SIZE {
      forall items
        ensures !IsPacking(items, data)
      {
        MalformedIsNoPacking(data, taken, items);
      }
      status := 1;
      return;
    }
    var count := ClusterDecodeSize(data[..HEADER_SIZE]);
    var offset, i := HEADER_SIZE, 0;
    assert data[HEADER_SIZE..HEADER_SIZE] == [];
    while i < count
      invariant i == |taken| == rounds
      invariant Parsed(data, count, taken)
      invariant offset == HEADER_SIZE + RECORD_SIZE * i
      invariant value == before + SumItems(codec, taken)
      decreases packet.size - offset
    {
      rounds := rounds + 1;
      var ok;
      ok, offset := FindItem(data, packet.size, offset);
      if !ok {
        status := Reject(data, count, taken);
        return;
      }
      ParseStep(data, count, taken);
      SumOneMore(codec, taken, data[offset..offset + DOUBLE_SIZE]);
      value := value + codec.decode(data[offset..offset + DOUBLE_SIZE]);
      taken := taken + [data[offset..offset + DOUBLE_SIZE]];
      offset := offset + DOUBLE_SIZE;
      i := i + 1;
    }
    if offset == packet.size {
      ParsedAll(data, count, taken);
      status := 0;
    } else {
      status := Reject(data, count, taken);
    }
  }

  /** The failing return. */
  method Reject(ghost data: seq<byte>, ghost count: nat, ghost taken: seq<seq<byte>>) returns (status: int)
    requires |data| < WORD && Parsed(data, count, taken)
    requires if |taken| < count then !RecordAt(data, HEADER_SIZE + RECORD_SIZE * |taken|)
             else HEADER_SIZE + RECORD_SIZE * |taken| != |data|
    ensures status == 1
    ensures Malformed(data, taken)
    ensures forall items :: !IsPacking(items, data)
  {
    forall items
      ensures !IsPacking(items, data)
    {
      MalformedIsNoPacking(data, taken, items);
    }
    status := 1;
  }

  // ----- Cutting the interval -----

  /** The task of worker `i` of `count`. */
  function WorkerTask(task: IntegralTask, i: nat, count: nat): IntegralTask
    requires i < count
  {
    IntegralTask(Cut(task.begin, task.end, i, count), Cut(task.begin, task.end, i + 1, count), task.eps / count as real)
  }

  /** The tasks are consecutive parts of the interval, all of the same length, with an equal share of `eps`. */
  lemma WorkerTaskParts(task: IntegralTask, i: nat, count: nat)
    requires i < count
    ensures WorkerTask(task, 0, count).begin == task.begin && WorkerTask(task, count - 1, count).end == task.end
    ensures i > 0 ==> WorkerTask(task, i - 1, count).end == WorkerTask(task, i, count).begin
    ensures WorkerTask(task, i, count).end - WorkerTask(task, i, count).begin == (task.end - task.begin) / count as real
    ensures WorkerTask(task, i, count).eps == task.eps / count as real
  {
    CutEnds(task.begin, task.end, count);
    CutStep(task.begin, task.end, i, count);
  }

  method MakeTasks(task: IntegralTask, totalTasks: nat) returns (tasks: array<IntegralTask>)
    requires totalTasks > 0
    ensures fresh(tasks) && tasks.Length == totalTasks
    ensures forall i :: 0 <= i < totalTasks ==> tasks[i] == WorkerTask(task, i, totalTasks)
  {
    tasks := new IntegralTask[totalTasks](_ => IntegralTask(0.0, 0.0, 0.0));
    var length := task.end - task.begin;
    var i := 0;
    while i < totalTasks
      invariant 0 <= i <= totalTasks
      invariant forall k :: 0 <= k < i ==> tasks[k] == WorkerTask(task, k, totalTasks)
    {
      tasks[i] := IntegralTask(
        task.begin + length * i as real / totalTasks as real,
        task.begin + length * (i + 1) as real / totalTasks as real,
        task.eps / totalTasks as real);
      i := i + 1;
    }
  }

  /** The array of tasks in memory. */
  function TasksBytes(codec: DoubleCodec, tasks: seq<IntegralTask>): seq<byte> {
    if tasks == [] then [] else TasksBytes(codec, tasks[..|tasks| - 1]) + TaskBytes(codec, tasks[|tasks| - 1])
  }

  lemma {:induction false} TasksSize(codec: DoubleCodec, tasks: seq<IntegralTask>)
    requires codec.Valid()
    ensures |TasksBytes(codec, tasks)| == TASK_SIZE * |tasks|
    decreases |tasks|
  {
    if tasks != [] {
      TasksSize(codec, tasks[..|tasks| - 1]);
      TaskFields(codec, tasks[|tasks| - 1]);
    }
  }

  lemma {:induction false} TaskAt(codec: DoubleCodec, tasks: seq<IntegralTask>, i: nat)
    requires codec.Valid() && i < |tasks|
    ensures |TasksBytes(codec, tasks)| == TASK_SIZE * |tasks|
    ensures TasksBytes(codec, tasks)[TASK_SIZE * i..TASK_SIZE * (i + 1)] == TaskBytes(codec, tasks[i])
    decreases |tasks|
  {
    var n := |tasks| - 1;
    TasksSize(codec, tasks);
    TasksSize(codec, tasks[..n]);
    TaskFields(codec, tasks[n]);
    if i < n {
      TaskAt(codec, tasks[..n], i);
      Within(TasksBytes(codec, tasks[..n]), TaskBytes(codec, tasks[n]), TASK_SIZE * i, TASK_SIZE * (i + 1));
    }
  }

  lemma Within(s: seq<byte>, t: seq<byte>, p: nat, q: nat)
    requires p <= q <= |s|
    ensures (s + t)[p..q] == s[p..q]
  {
  }

  lemma SplitPointWhole(unit: nat, index: nat, parts: nat)
    requires index <= parts && 0 < parts
    ensures SplitPoint(unit * parts, index, parts) == unit * index
  {
    assert unit * parts * index == unit * index * parts;
    FloorUnique(unit * parts * index, parts, unit * index);
  }

  /** The byte slices that the master cuts are whole tasks: worker `i` gets `tasks[i]`. */
  lemma SliceIsTask(codec: DoubleCodec, tasks: seq<IntegralTask>, i: nat)
    requires codec.Valid() && i < |tasks|
    ensures Slice(TasksBytes(codec, tasks), i, |tasks|) == TaskBytes(codec, tasks[i])
  {
    TaskAt(codec, tasks, i);
    SplitPointWhole(TASK_SIZE, i, |tasks|);
    SplitPointWhole(TASK_SIZE, i + 1, |tasks|);
  }

  // ----- The cluster of the example -----

  ghost predicate Deploys(cfg: Config, codec: DoubleCodec, rule: Rule, f: Func, task: IntegralTask, threads: seq<nat>) {
    && codec.Valid()
    && 0 < |threads| == |cfg.tasks| && Positive(threads)
    && forall i :: 0 <= i < |threads| ==> Serves(cfg, codec, rule, f, WorkerTask(task, i, |threads|), threads[i], i)
  }

  lemma {:induction false} TotalJoin(rule: Rule, f: Func, ps: seq<Piece>, qs: seq<Piece>)
    ensures Total(rule, f, ps + qs) == Total(rule, f, ps) + Total(rule, f, qs)
    decreases |qs|
  {
    if qs == [] {
      assert ps + qs == ps;
    } else {
      var n := |qs| - 1;
      assert (ps + qs)[..|ps| + n] == ps + qs[..n];
      TotalJoin(rule, f, ps, qs[..n]);
    }
  }

  /** A packing of records that decode to this sum. */
  ghost predicate IsShare(codec: DoubleCodec, data: seq<byte>, share: real) {
    exists items :: IsPacking(items, data) && SumItems(codec, items) == share
  }

  /** What the first `n` workers compute. */
  function Shares(rule: Rule, f: Func, task: IntegralTask, threads: seq<nat>, n: nat): (shares: seq<real>)
    requires n <= |threads| && Positive(threads)
    ensures |shares| == n
  {
    if n == 0 then []
    else
      var own := WorkerTask(task, n - 1, |threads|);
      Shares(rule, f, task, threads, n - 1) + [Total(rule, f, Split(Piece(own.begin, own.end), threads[n - 1]))]
  }

  function SumShares(shares: seq<real>): real {
    if shares == [] then 0.0 else SumShares(shares[..|shares| - 1]) + shares[|shares| - 1]
  }

  lemma RefineOneMore(ps: seq<Piece>, threads: seq<nat>, p: Piece, t: nat)
    requires |ps| == |threads| && Positive(threads) && t > 0
    ensures Refine(ps + [p], threads + [t]) == Refine(ps, threads) + Split(p, t)
  {
    assert (ps + [p])[..|ps|] == ps && (threads + [t])[..|ps|] == threads;
  }

  lemma SumSharesOneMore(shares: seq<real>, share: real)
    ensures SumShares(shares + [share]) == SumShares(shares) + share
  {
    assert (shares + [share])[..|shares|] == shares;
  }

  lemma {:induction false} SharesAreTotal(rule: Rule, f: Func, task: IntegralTask, threads: seq<nat>, n: nat)
    requires n <= |threads| && Positive(threads) && 0 < |threads|
    ensures SumShares(Shares(rule, f, task, threads, n)) ==
            Total(rule, f, Refine(Cuts(task.begin, task.end, n, |threads|), threads[..n]))
  {
    if n > 0 {
      SharesAreTotal(rule, f, task, threads, n - 1);
      var ps, own := Cuts(task.begin, task.end, n - 1, |threads|), WorkerTask(task, n - 1, |threads|);
      var p, t := Piece(own.begin, own.end), threads[n - 1];
      assert threads[..n] == threads[..n - 1] + [t];
      RefineOneMore(ps, threads[..n - 1], p, t);
      SumSharesOneMore(Shares(rule, f, task, threads, n - 1), Total(rule, f, Split(p, t)));
      TotalJoin(rule, f, Refine(ps, threads[..n - 1]), Split(p, t));
    }
  }

  /** All shares together are the total over the pieces of all threads. */
  lemma SharesAddUp(rule: Rule, f: Func, task: IntegralTask, threads: seq<nat>)
    requires Positive(threads) && 0 < |threads|
    ensures SumShares(Shares(rule, f, task, threads, |threads|)) ==
            Total(rule, f, AllPieces(task.begin, task.end, threads))
  {
    SharesAreTotal(rule, f, task, threads, |threads|);
    assert threads[..|threads|] == threads;
  }

  /** A worker's answer is a packing of records that sum to its share. */
  lemma AnswerIsShare(cfg: Config, codec: DoubleCodec, rule: Rule, f: Func, task: IntegralTask, threads: nat, i: nat)
    requires i < |cfg.tasks| && Serves(cfg, codec, rule, f, task, threads, i)
    ensures IsShare(codec, cfg.run(i, cfg.tasks[i]), Total(rule, f, Split(Piece(task.begin, task.end), threads)))
  {
    AnswersValue(codec, rule, f, task, threads, threads);
    var items := WorkerRun.AnswersUpTo(IntegralMethod(codec, rule, f), cfg.tasks[i], threads, threads);
    assert IsPacking(items, cfg.run(i, cfg.tasks[i]));
  }

  /** Every worker answers its share. */
  ghost predicate Answers(cfg: Config, codec: DoubleCodec, shares: seq<real>) {
    |shares| == |cfg.tasks| && forall i :: 0 <= i < |shares| ==> IsShare(codec, cfg.run(i, cfg.tasks[i]), shares[i])
  }

  lemma {:induction false} ShareAt(rule: Rule, f: Func, task: IntegralTask, threads: seq<nat>, n: nat, i: nat)
    requires i < n <= |threads| && Positive(threads)
    ensures var own := WorkerTask(task, i, |threads|);
            Shares(rule, f, task, threads, n)[i] == Total(rule, f, Split(Piece(own.begin, own.end), threads[i]))
  {
    if i < n - 1 {
      ShareAt(rule, f, task, threads, n - 1, i);
    }
  }

  lemma DeployedAnswers(cfg: Config, codec: DoubleCodec, rule: Rule, f: Func, task: IntegralTask, threads: seq<nat>)
    requires Deploys(cfg, codec, rule, f, task, threads)
    ensures Answers(cfg, codec, Shares(rule, f, task, threads, |threads|))
  {
    forall i | 0 <= i < |threads|
      ensures IsShare(codec, cfg.run(i, cfg.tasks[i]), Shares(rule, f, task, threads, |threads|)[i])
    {
      var own := WorkerTask(task, i, |threads|);
      assert Serves(cfg, codec, rule, f, own, threads[i], i);
      AnswerIsShare(cfg, codec, rule, f, own, threads[i], i);
      ShareAt(rule, f, task, threads, |threads|, i);
    }
  }

  /** A packet holds one share only. */
  lemma OneShare(codec: DoubleCodec, data: seq<byte>, x: real, y: real)
    requires IsShare(codec, data, x) && IsShare(codec, data, y)
    ensures x == y
  {
    var xs :| IsPacking(xs, data) && SumItems(codec, xs) == x;
    var ys :| IsPacking(ys, data) && SumItems(codec, ys) == y;
    PackInjective(xs, ys);
  }

  // ----- The whole program -----

  ghost predicate NoRogue(s: System) {
    forall i :: 0 <= i < |s.links| ==> !s.links[i].proc.Rogue?
  }

  lemma RogueIsFault(cfg: Config, s: System)
    requires cfg.Valid() && Reachable(cfg, s)
    ensures !s.faults.any ==> NoRogue(s)
  {
    ProtocolSafety.ReachableInv(cfg, s);
    if !s.faults.any {
      forall i | 0 <= i < |s.links|
        ensures !s.links[i].proc.Rogue?
      {
        assert ProtocolSafety.Sound(s.At(i));
      }
    }
  }

  /** Each result is a packet of its worker, and the answer to its task unless that turned rogue. */
  ghost predicate Collectable(cfg: Config, s: System, results: array<ClusterPacket>)
    reads results
  {
    && s.Shape(cfg) && results.Length == |cfg.tasks|
    && forall i :: 0 <= i < results.Length ==>
         && |results[i].data| == results[i].size < WORD
         && (!s.links[i].proc.Rogue? ==> results[i].data == cfg.run(i, cfg.tasks[i]))
  }

  lemma CompleteIsCollectable(master: Master, net: Network.Kernel, results: array<ClusterPacket>)
    requires master.Complete(net, results)
    ensures Collectable(net.cfg, net.sys, results)
  {
    ProtocolSafety.ReachableInv(net.cfg, net.sys);
    forall i | 0 <= i < results.Length
      ensures |results[i].data| == results[i].size < WORD
      ensures !net.sys.links[i].proc.Rogue? ==> results[i].data == net.cfg.run(i, net.cfg.tasks[i])
    {
      assert ProtocolSafety.PeerInv(net.cfg, i, net.sys.At(i));
      assert ProtocolSafety.Delivered(net.cfg, i, net.sys.At(i));
    }
  }

  ghost predicate WellFormed(data: seq<byte>) {
    exists items :: IsPacking(items, data)
  }

  /** Packet by packet: what it holds. */
  ghost predicate HoldShares(codec: DoubleCodec, packets: seq<ClusterPacket>, shares: seq<real>)
    decreases |packets|
  {
    && |packets| == |shares|
    && (packets == [] ||
        (&& HoldShares(codec, packets[..|packets| - 1], shares[..|packets| - 1])
         && IsShare(codec, packets[|packets| - 1].data, shares[|packets| - 1])))
  }

  lemma HoldOneMore(codec: DoubleCodec, packets: seq<ClusterPacket>, shares: seq<real>, packet: ClusterPacket,
                    share: real)
    requires HoldShares(codec, packets, shares) && IsShare(codec, packet.data, share)
    ensures HoldShares(codec, packets + [packet], shares + [share])
  {
    assert (packets + [packet])[..|packets|] == packets && (shares + [share])[..|packets|] == shares;
  }

  /** Packets that hold shares are well-formed, and hold no others. */
  lemma {:induction false} HoldOnly(codec: DoubleCodec, packets: seq<ClusterPacket>, shares: seq<real>, i: nat)
    requires HoldShares(codec, packets, shares) && i < |packets|
    ensures WellFormed(packets[i].data) && IsShare(codec, packets[i].data, shares[i])
    decreases |packets|
  {
    if i < |packets| - 1 {
      HoldOnly(codec, packets[..|packets| - 1], shares[..|packets| - 1], i);
    }
  }

  /** Adds one more packet to the sum of those before it. */
  method AddOne(codec: DoubleCodec, packet: ClusterPacket, before: real, ghost packets: seq<ClusterPacket>,
                ghost shares: seq<real>)
    returns (status: int, value: real, ghost share: real)
    requires |packet.data| == packet.size < WORD
    requires HoldShares(codec, packets, shares) && before == SumShares(shares)
    ensures status == 0 || status == 1
    ensures status == 0 ==>
            HoldShares(codec, packets + [packet], shares + [share]) && value == SumShares(shares + [share])
    ensures status == 1 ==> !WellFormed(packet.data)
  {
    ghost var taken, rounds;
    status, value, taken, rounds := AddPackedResults(codec, packet, before);
    share := SumItems(codec, taken);
    if status == 0 {
      HoldOneMore(codec, packets, shares, packet, share);
      SumSharesOneMore(shares, share);
    }
  }

  /** Adds up all packets. It succeeds with the sum of what they hold, and fails only on a packet that is
      no packing of results. */
  method AddAll(codec: DoubleCodec, results: array<ClusterPacket>)
    returns (status: int, value: real, ghost shares: seq<real>)
    requires forall i :: 0 <= i < results.Length ==> |results[i].data| == results[i].size < WORD
    ensures status == 0 || status == 1
    ensures status == 0 ==> HoldShares(codec, results[..], shares) && value == SumShares(shares)
    ensures status == 1 ==> exists i :: 0 <= i < results.Length && !WellFormed(results[i].data)
  {
    value, shares := 0.0, [];
    var i := 0;
    while i < results.Length
      invariant 0 <= i <= results.Length
      invariant HoldShares(codec, results[..i], shares)
      invariant value == SumShares(shares)
    {
      ghost var share;
      status, value, share := AddOne(codec, results[i], value, results[..i], shares);
      if status != 0 {
        return;
      }
      assert results[..i + 1] == results[..i] + [results[i]];
      shares := shares + [share];
      i := i + 1;
    }
    assert results[..i] == results[..];
    status := 0;
  }

  /** A kernel that nobody has used yet. */
  ghost predicate Fresh(net: Network.Kernel)
    reads net
  {
    net.Valid() && net.sys == Init(net.cfg) && net.open == {} && !net.armed
  }

  /** No more than `maxTimeMs` have passed since the clock was first read, which was not before `start`. */
  ghost predicate InTime(net: Network.Kernel, start: int, maxTimeMs: int)
    reads net
  {
    net.firstReading.Some? && start <= net.firstReading.value && net.now <= net.firstReading.value + maxTimeMs
  }

  /** `MasterRun` on a new master, and everything closed again. */
  method RunOnce(net: Network.Kernel, bytes: seq<byte>, requiredWorkers: int, listenSocketFd: int, maxTimeMs: int)
    returns (status: int, results: array<ClusterPacket>)
    requires Fresh(net) && (net.listening <==> listenSocketFd >= 0)
    requires 0 < requiredWorkers == |net.cfg.tasks| <= INT_MAX && maxTimeMs <= INT_MAX
    requires bytes != [] && |bytes| < WORD
    requires Sliced(net.cfg, bytes)
    modifies net
    ensures status == 0 || status == 1
    ensures net.open == {} && !net.listening && !net.armed
    ensures status == 0 ==> InTime(net, old(net.now), maxTimeMs)
    ensures status == 0 ==> net.Valid() && Collectable(net.cfg, net.sys, results)
    ensures listenSocketFd < 0 ==> status == 1
    ensures status == 1 ==> listenSocketFd < 0 || net.sys.faults.any || old(net.now) + maxTimeMs <= net.now
  {
    var master := new Master(requiredWorkers, listenSocketFd, maxTimeMs);
    results := new ClusterPacket[requiredWorkers](_ => EMPTY_PACKET);
    status := master.MasterRun(net, bytes, |bytes|, results);
    if status == 0 {
      CompleteIsCollectable(master, net, results);
      master.CompleteHolds(net, results);
    }
    master.MasterDestroy(net);
  }

  /** Without a rogue worker, the packets are well-formed and hold everybody's share. */
  lemma EverybodyAnswered(cfg: Config, s: System, codec: DoubleCodec, results: array<ClusterPacket>, shares: seq<real>,
                          found: seq<real>)
    requires Collectable(cfg, s, results) && Answers(cfg, codec, shares) && NoRogue(s)
    ensures forall i :: 0 <= i < results.Length ==> WellFormed(results[i].data)
    ensures HoldShares(codec, results[..], found) ==> found == shares
  {
    forall i | 0 <= i < results.Length
      ensures WellFormed(results[i].data)
    {
      HoldsShare(cfg, s, codec, results, shares, i);
    }
    if HoldShares(codec, results[..], found) {
      forall i | 0 <= i < |found|
        ensures found[i] == shares[i]
      {
        HoldsShare(cfg, s, codec, results, shares, i);
        HoldOnly(codec, results[..], found, i);
        OneShare(codec, results[i].data, found[i], shares[i]);
      }
    }
  }

  lemma HoldsShare(cfg: Config, s: System, codec: DoubleCodec, results: array<ClusterPacket>, shares: seq<real>, i: nat)
    requires Collectable(cfg, s, results) && Answers(cfg, codec, shares) && NoRogue(s) && i < results.Length
    ensures IsShare(codec, results[i].data, shares[i]) && WellFormed(results[i].data)
  {
    assert !s.links[i].proc.Rogue?;
    assert IsShare(codec, cfg.run(i, cfg.tasks[i]), shares[i]);
  }

  /** The part of `main` between the setup and the output: run the cluster and add up. */
  method RunCluster(net: Network.Kernel, codec: DoubleCodec, bytes: seq<byte>, requiredWorkers: int,
                    listenSocketFd: int, maxTimeMs: int, ghost shares: seq<real>)
    returns (status: int, value: real)
    requires Fresh(net) && (net.listening <==> listenSocketFd >= 0)
    requires 0 < requiredWorkers == |net.cfg.tasks| <= INT_MAX && maxTimeMs <= INT_MAX
    requires bytes != [] && |bytes| < WORD
    requires Sliced(net.cfg, bytes)
    requires Answers(net.cfg, codec, shares)
    modifies net
    ensures status == 0 || status == 1
    ensures net.open == {} && !net.listening && !net.armed
    ensures status == 0 ==> InTime(net, old(net.now), maxTimeMs)
    ensures listenSocketFd < 0 ==> status == 1
    ensures status == 1 ==> listenSocketFd < 0 || net.sys.faults.any || old(net.now) + maxTimeMs <= net.now
    ensures status == 0 && NoRogue(net.sys) ==> value == SumShares(shares)
  {
    value := 0.0;
    var results;
    status, results := RunOnce(net, bytes, requiredWorkers, listenSocketFd, maxTimeMs);
    if status == 0 {
      RogueIsFault(net.cfg, net.sys);
      ghost var found;
      status, value, found := AddAll(codec, results);
      if NoRogue(net.sys) {
        EverybodyAnswered(net.cfg, net.sys, codec, results, shares, found);
      }
    }
  }

  /** The example's `main`. Whatever the network does, the connections are closed at the end. It returns 0
      only with a well-formed packet of every worker; unless a worker is rogue, the printed value is then
      the total over the pieces of all threads, which is the sequential answer where the cuts change
      nothing: with `LongMethod` for any number of workers and any numbers of threads. It returns 1 only
      without memory or socket, after a fault, or when the time is up. */
  method IntegralMain(net: Network.Kernel, codec: DoubleCodec, task: IntegralTask, requiredWorkers: int,
                      listenSocketFd: int, maxTimeMs: int, memory: bool, ghost rule: Rule, ghost f: Func,
                      ghost threads: seq<nat>)
    returns (status: int, value: real)
    requires Fresh(net) && (net.listening <==> requiredWorkers > 0 && listenSocketFd >= 0)
    requires requiredWorkers <= INT_MAX && maxTimeMs <= INT_MAX
    requires requiredWorkers > 0 ==>
             |net.cfg.tasks| == requiredWorkers && Deploys(net.cfg, codec, rule, f, task, threads)
    modifies net
    ensures status == 0 || status == 1
    ensures net.open == {} && !net.listening && !net.armed
    ensures status == 0 ==> InTime(net, old(net.now), maxTimeMs)
    ensures !memory || listenSocketFd < 0 ==> status == 1
    ensures status == 1 ==>
            requiredWorkers <= 0 || !memory || listenSocketFd < 0 || net.sys.faults.any ||
            old(net.now) + maxTimeMs <= net.now
    ensures status == 0 ==> Positive(threads) && 0 < |threads| == requiredWorkers
    ensures status == 0 && NoRogue(net.sys) ==> value == Total(rule, f, AllPieces(task.begin, task.end, threads))
    ensures status == 0 && NoRogue(net.sys) && CutsChangeNothing(rule, task.begin, task.end, threads) ==>
              value == Integrate(rule, f, task.begin, task.end)
  {
    value := 0.0;
    if requiredWorkers <= 0 {
      return 1, value;
    }
    if !memory {
      var master := new Master(requiredWorkers, listenSocketFd, maxTimeMs);
      master.MasterDestroy(net);
      return 1, value;
    }
    var tasks := MakeTasks(task, requiredWorkers);
    var bytes := TasksBytes(codec, tasks[..]);
    TasksAreSlices(net.cfg, codec, rule, f, task, threads, tasks[..]);
    DeployedAnswers(net.cfg, codec, rule, f, task, threads);
    status, value := RunCluster(net, codec, bytes, requiredWorkers, listenSocketFd, maxTimeMs,
      Shares(rule, f, task, threads, |threads|));
    SharesAddUp(rule, f, task, threads);
    DistributionIff(rule, task.begin, task.end, threads);
  }

  lemma TasksAreSlices(cfg: Config, codec: DoubleCodec, rule: Rule, f: Func, task: IntegralTask, threads: seq<nat>,
                       tasks: seq<IntegralTask>)
    requires cfg.Valid() && Deploys(cfg, codec, rule, f, task, threads) && |tasks| == |threads|
    requires forall i :: 0 <= i < |tasks| ==> tasks[i] == WorkerTask(task, i, |tasks|)
    ensures |TasksBytes(codec, tasks)| == TASK_SIZE * |tasks|
    ensures Sliced(cfg, TasksBytes(codec, tasks))
  {
    TasksSize(codec, tasks);
    forall i | 0 <= i < |tasks|
      ensures IsSlice(cfg, TasksBytes(codec, tasks), i)
    {
      SliceIsTask(codec, tasks, i);
      assert Serves(cfg, codec, rule, f, WorkerTask(task, i, |threads|), threads[i], i);
    }
  }
}

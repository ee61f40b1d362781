/** Packing the results of a worker's threads into one packet (src/worker.c). */
module Packing {
  import opened Common
  import opened Framing

  /** What a thread's method gets. */
  datatype ThreadTask = ThreadTask(threadIndex: nat, threadsCount: nat, data: seq<byte>)

  /** `result` is None when the method returned NULL or never got to return. */
  datatype WorkerThreadArgs = WorkerThreadArgs(task: ThreadTask, result: Option<ClusterPacket>, joined: bool)

  /** A packet as C sees it: `data` is NULL, or an allocation of `size` bytes. */
  predicate Allocated(result: Option<ClusterPacket>) {
    result.Some? ==> result.value.size < WORD && (result.value.data == [] || |result.value.data| == result.value.size)
  }

  /** A result that can be packed: a NULL `data` only with size 0. */
  predicate Packable(result: Option<ClusterPacket>) {
    result.Some? && |result.value.data| == result.value.size < WORD
  }

  ghost predicate AllPackable(args: seq<WorkerThreadArgs>) {
    forall i :: 0 <= i < |args| ==> Packable(args[i].result)
  }

  /** The bytes of the threads' results in index order. */
  function Items(args: seq<WorkerThreadArgs>): (items: seq<seq<byte>>)
    ensures |items| == |args|
    ensures forall i :: 0 <= i < |args| && Packable(args[i].result) ==> items[i] == args[i].result.value.data
  {
    if args == [] then []
    else
      var last := args[|args| - 1].result;
      Items(args[..|args| - 1]) + [if Packable(last) then last.value.data else []]
  }

  /** The size of the packet that holds the first `i` results. */
  function SizeUpTo(args: seq<WorkerThreadArgs>, i: nat): nat
    requires i <= |args|
  {
    if i == 0 then HEADER_SIZE
    else
      var result := args[i - 1].result;
      SizeUpTo(args, i - 1) + HEADER_SIZE + (if Packable(result) then result.value.size else 0)
  }

  /** The packet that holds the first `i` results, without its count. */
  function BodyUpTo(args: seq<WorkerThreadArgs>, i: nat): seq<byte>
    requires i <= |args|
  {
    FrameAll(Items(args[..i]))
  }

  lemma BodyStep(args: seq<WorkerThreadArgs>, i: nat)
    requires i < |args| && Packable(args[i].result)
    ensures BodyUpTo(args, i + 1) == BodyUpTo(args, i) + Frame(args[i].result.value.data)
  {
    assert args[..i + 1][..i] == args[..i];
    FrameAllAppend(Items(args[..i]), args[i].result.value.data);
  }

  lemma {:induction false} BodySize(args: seq<WorkerThreadArgs>, i: nat)
    requires i <= |args| && AllPackable(args)
    ensures HEADER_SIZE + |BodyUpTo(args, i)| == SizeUpTo(args, i)
  {
    if i > 0 {
      BodySize(args, i - 1);
      BodyStep(args, i - 1);
    }
  }

  /** `SizeUpTo` is the size of the packed items: 8 bytes of count, and 8 more for each item. */
  lemma PackSize(args: seq<WorkerThreadArgs>)
    requires AllPackable(args)
    ensures |Pack(Items(args))| == SizeUpTo(args, |args|)
  {
    assert args[..|args|] == args;
    BodySize(args, |args|);
  }

  lemma {:induction false} SizeGrows(args: seq<WorkerThreadArgs>, i: nat)
    requires i <= |args|
    ensures SizeUpTo(args, i) <= SizeUpTo(args, |args|)
    decreases |args| - i
  {
    if i < |args| {
      SizeGrows(args, i + 1);
    }
  }

  /** The checked addition of the sizing pass. */
  method AddSize(sum: nat, value: nat) returns (overflow: bool, total: nat)
    requires sum < WORD && value < WORD
    ensures overflow <==> sum + value > SIZE_MAX
    ensures total == if overflow then sum else sum + value
  {
    if SIZE_MAX - sum < value {
      return true, sum;
    }
    return false, sum + value;
  }

  /** The loop of the sizing pass. */
  method SumSizes(args: array<WorkerThreadArgs>, count: int) returns (ok: bool, packetSize: nat)
    requires 0 <= count <= args.Length && count <= INT_MAX
    requires forall i :: 0 <= i < count ==> Allocated(args[i].result)
    ensures ok <==> AllPackable(args[..count]) && SizeUpTo(args[..count], count) <= SIZE_MAX
    ensures ok ==> packetSize == SizeUpTo(args[..count], count)
  {
    ghost var all := args[..count];
    packetSize := HEADER_SIZE;
    var i := 0;
    while i < count
      invariant 0 <= i <= count
      invariant forall k :: 0 <= k < i ==> Packable(all[k].result)
      invariant packetSize == SizeUpTo(all, i) <= SIZE_MAX
    {
      var result := args[i].result;
      assert result == all[i].result;
      if result.None? || (result.value.data == [] && result.value.size > 0) {
        assert !Packable(all[i].result);
        return false, packetSize;
      }
      var overflow;
      overflow, packetSize := AddSize(packetSize, HEADER_SIZE);
      if !overflow {
        overflow, packetSize := AddSize(packetSize, result.value.size);
      }
      if overflow {
        SizeGrows(all, i + 1);
        return false, packetSize;
      }
      i := i + 1;
    }
    ok := true;
  }

  /** The sizing pass: it succeeds exactly when every result is valid and the packet's size, computed
      without wrapping, fits; and then it is the exact size of the packed items. */
  method PackedSize(args: array<WorkerThreadArgs>, count: int) returns (ok: bool, packetSize: nat)
    requires 0 <= count <= args.Length && count <= INT_MAX
    requires forall i :: 0 <= i < count ==> Allocated(args[i].result)
    ensures ok <==> AllPackable(args[..count]) && |Pack(Items(args[..count]))| <= SIZE_MAX
    ensures ok ==> packetSize == |Pack(Items(args[..count]))|
  {
    ok, packetSize := SumSizes(args, count);
    if AllPackable(args[..count]) {
      PackSize(args[..count]);
    }
  }

  /** One item: its size header, then its bytes. */
  method WriteItem(bytes: array<byte>, start: nat, item: ClusterPacket) returns (offset: nat)
    requires |item.data| == item.size < WORD
    requires start + HEADER_SIZE + item.size <= bytes.Length
    modifies bytes
    ensures offset == start + HEADER_SIZE + item.size
    ensures bytes[..offset] == old(bytes[..start]) + Frame(item.data)
  {
    ClusterEncodeSize(item.size, bytes, start);
    offset := start + HEADER_SIZE;
    assert bytes[..offset] == old(bytes[..start]) + EncodeSize(item.size);
    if item.size > 0 {
      CopyInto(bytes, offset, item.data);
      offset := offset + item.size;
    }
    assert bytes[..offset] == old(bytes[..start]) + EncodeSize(item.size) + item.data;
  }

  /** The filling pass: every write is inside the buffer, and the buffer ends up full. */
  method FillPacket(args: array<WorkerThreadArgs>, count: int, bytes: array<byte>)
    requires 0 <= count <= args.Length && count <= INT_MAX
    requires AllPackable(args[..count]) && bytes.Length == |Pack(Items(args[..count]))|
    modifies bytes
    ensures bytes[..] == Pack(Items(args[..count]))
  {
    ghost var all := args[..count];
    PackParts(all);
    SizeGrows(all, 0);
    WriteCount(bytes, count);
    ghost var header := bytes[..HEADER_SIZE];
    FillItems(args, count, bytes, header);
  }

  /** The loop of the filling pass, after the count. */
  method FillItems(args: array<WorkerThreadArgs>, count: int, bytes: array<byte>, ghost header: seq<byte>)
    requires 0 <= count <= args.Length && AllPackable(args[..count])
    requires bytes.Length == SizeUpTo(args[..count], count) && HEADER_SIZE <= bytes.Length
    requires header == bytes[..HEADER_SIZE]
    modifies bytes
    ensures bytes[..] == header + BodyUpTo(args[..count], count)
  {
    ghost var all := args[..count];
    var offset, i := HEADER_SIZE, 0;
    BodyNone(all);
    while i < count
      invariant 0 <= i <= count
      invariant args[..count] == all
      invariant offset == SizeUpTo(all, i) <= bytes.Length
      invariant bytes[..offset] == header + BodyUpTo(all, i)
    {
      var item := args[i].result.value;
      assert item == all[i].result.value && Packable(all[i].result);
      FillStep(all, i, header);
      offset := WriteItem(bytes, offset, item);
      i := i + 1;
    }
    assert bytes[..offset] == bytes[..];
  }

  lemma BodyNone(args: seq<WorkerThreadArgs>)
    ensures BodyUpTo(args, 0) == []
  {
    assert args[..0] == [];
  }

  lemma PackParts(args: seq<WorkerThreadArgs>)
    requires AllPackable(args)
    ensures Pack(Items(args)) == EncodeSize(|args|) + BodyUpTo(args, |args|)
    ensures |Pack(Items(args))| == SizeUpTo(args, |args|)
  {
    assert args[..|args|] == args;
    PackSize(args);
  }

  method WriteCount(bytes: array<byte>, count: nat)
    requires count <= INT_MAX && HEADER_SIZE <= bytes.Length
    modifies bytes
    ensures bytes[..HEADER_SIZE] == EncodeSize(count)
  {
    ClusterEncodeSize(count, bytes, 0);
  }

  lemma FillStep(all: seq<WorkerThreadArgs>, i: nat, header: seq<byte>)
    requires i < |all| && Packable(all[i].result)
    ensures header + BodyUpTo(all, i) + Frame(all[i].result.value.data) == header + BodyUpTo(all, i + 1)
    ensures SizeUpTo(all, i) + HEADER_SIZE + all[i].result.value.size == SizeUpTo(all, i + 1) <= SizeUpTo(all, |all|)
  {
    SizeGrows(all, i + 1);
    BodyStep(all, i);
  }

  /** Packs the results of all threads: it fails, leaving `result` as it was, exactly when a result is
      invalid, the total size does not fit, or there is no memory (`memory` is malloc's answer). */
  method PackThreadResults(args: array<WorkerThreadArgs>, count: int, result: ClusterPacket, memory: bool)
    returns (status: int, packed: ClusterPacket)
    requires 0 <= count <= args.Length && count <= INT_MAX
    requires forall i :: 0 <= i < count ==> Allocated(args[i].result)
    ensures status == 0 || status == 1
    ensures status == 0 <==> memory && AllPackable(args[..count]) && |Pack(Items(args[..count]))| <= SIZE_MAX
    ensures status == 0 <==>
            && memory && |Pack(Items(args[..count]))| < 0x1_0000_0000_0000_0000
            && forall i :: 0 <= i < count ==>
                 args[i].result.Some? && (args[i].result.value.data == [] ==> args[i].result.value.size == 0)
    ensures status == 0 ==> packed.data == Pack(Items(args[..count])) && packed.size == |packed.data|
    ensures status != 0 ==> packed == result
  {
    var ok, packetSize := PackedSize(args, count);
    if !ok || !memory {
      return 1, result;
    }
    var bytes := new byte[packetSize];
    FillPacket(args, count, bytes);
    return 0, ClusterPacket(bytes[..], packetSize);
  }
}

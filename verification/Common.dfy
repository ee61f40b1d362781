/** Sizes on the wire and the split of a task (include/common.h).

    `size_t` and `uint64_t` are 64 bits wide: a value is an `int` below `WORD`, and every
    operation that could leave that range is written with an explicit `% WORD`.
  */
module Common {

  newtype byte = x: int | 0 <= x < 256

  const WORD: int := 0x1_0000_0000_0000_0000
  const SIZE_MAX: int := WORD - 1
  const INT_MAX: int := 0x7fff_ffff
  const HEADER_SIZE: int := 8

  datatype Option<+T> = None | Some(value: T)

  /** `data` is empty when the C pointer is NULL. */
  datatype ClusterPacket = ClusterPacket(data: seq<byte>, size: nat)

  const EMPTY_PACKET := ClusterPacket([], 0)

  /** What one I/O call returned: `Moved` counts the bytes, 0 meaning what it means in C. */
  datatype Outcome = Moved(count: nat) | Interrupted | WouldBlock | Error

  /** memcpy: `data` is stored in `buffer` behind its first `offset` elements. */
  method CopyInto(buffer: array<byte>, offset: nat, data: seq<byte>)
    requires offset + |data| <= buffer.Length
    modifies buffer
    ensures buffer[..offset + |data|] == old(buffer[..offset]) + data
  {
    forall k | 0 <= k < |data| {
      buffer[offset + k] := data[k];
    }
  }

  // ----- Big-endian numbers, the meaning of a size header -----

  /** The `n` low-order base-256 digits of `v`, most significant first. */
  function BigEndian(v: nat, n: nat): (s: seq<byte>)
    ensures |s| == n
    decreases n, v
  {
    if n == 0 then [] else BigEndian(v / 256, n - 1) + [(v % 256) as byte]
  }

  function FromBigEndian(s: seq<byte>): (v: nat)
    decreases |s|
  {
    if s == [] then 0 else FromBigEndian(s[..|s| - 1]) * 256 + s[|s| - 1] as int
  }

  function Pow256(n: nat): (p: nat)
    ensures p >= 1
  {
    if n == 0 then 1 else 256 * Pow256(n - 1)
  }

  lemma Pow256Header()
    ensures Pow256(HEADER_SIZE) == WORD
  {
    assert Pow256(2) == 256 * 256;
    assert Pow256(4) == 256 * 256 * Pow256(2);
    assert Pow256(6) == 256 * 256 * Pow256(4);
    assert Pow256(8) == 256 * 256 * Pow256(6);
  }

  lemma {:induction false} FromBigEndianBound(s: seq<byte>)
    ensures FromBigEndian(s) < Pow256(|s|)
    decreases |s|
  {
    if s != [] {
      FromBigEndianBound(s[..|s| - 1]);
    }
  }

  lemma {:induction false} BigEndianRoundTrip(v: nat, n: nat)
    requires v < Pow256(n)
    ensures FromBigEndian(BigEndian(v, n)) == v
    decreases n
  {
    if n > 0 {
      var s := BigEndian(v, n);
      assert s[..|s| - 1] == BigEndian(v / 256, n - 1);
      BigEndianRoundTrip(v / 256, n - 1);
    }
  }

  lemma {:induction false} FromBigEndianRoundTrip(s: seq<byte>)
    ensures BigEndian(FromBigEndian(s), |s|) == s
    decreases |s|
  {
    if s != [] {
      var init := s[..|s| - 1];
      FromBigEndianRoundTrip(init);
      var v := FromBigEndian(s);
      assert v / 256 == FromBigEndian(init) && v % 256 == s[|s| - 1] as int;
      assert s == init + [s[|s| - 1]];
    }
  }

  // ----- The size header -----

  function EncodeSize(v: nat): (s: seq<byte>)
    ensures |s| == HEADER_SIZE
  {
    BigEndian(v, HEADER_SIZE)
  }

  function DecodeSize(s: seq<byte>): (v: nat)
    requires |s| == HEADER_SIZE
    ensures v < WORD
  {
    FromBigEndianBound(s);
    Pow256Header();
    FromBigEndian(s)
  }

  /** Encoding then decoding gives back every 64-bit size. */
  lemma DecodeEncode(v: nat)
    requires v < WORD
    ensures DecodeSize(EncodeSize(v)) == v
  {
    Pow256Header();
    BigEndianRoundTrip(v, HEADER_SIZE);
  }

  /** Decoding then encoding gives back every 8-byte header, so the codec is a bijection. */
  lemma EncodeDecode(s: seq<byte>)
    requires |s| == HEADER_SIZE
    ensures EncodeSize(DecodeSize(s)) == s
  {
    FromBigEndianRoundTrip(s);
  }

  /** Fills `buffer[at..at + 8]` from its last byte backwards, shifting the value right. */
  method ClusterEncodeSize(value: nat, buffer: array<byte>, at: nat)
    requires value < WORD
    requires at + HEADER_SIZE <= buffer.Length
    modifies buffer
    ensures buffer[..] == old(buffer[..at]) + EncodeSize(value) + old(buffer[at + HEADER_SIZE..])
  {
    var rest := value;
    var i := 0;
    ghost var before := buffer[..];
    while i < HEADER_SIZE
      invariant 0 <= i <= HEADER_SIZE && rest >= 0
      invariant |before| == buffer.Length && EncodedSoFar(value, before, buffer[..], at, rest, i)
    {
      EncodeStep(value, before, buffer[..], at, rest, i);
      ghost var now := buffer[..][at + HEADER_SIZE - 1 - i := (rest % 256) as byte];
      buffer[at + HEADER_SIZE - 1 - i] := (rest % 256) as byte;
      assert buffer[..] == now;
      rest := rest / 256;
      i := i + 1;
    }
    Encoded(value, before, buffer[..], at, rest);
  }

  /** The last `i` bytes of the header are in place, and `rest` is what the others are still to encode. */
  ghost predicate EncodedSoFar(value: nat, before: seq<byte>, now: seq<byte>, at: nat, rest: nat, i: nat)
    requires i <= HEADER_SIZE && at + HEADER_SIZE <= |before|
  {
    && |now| == |before|
    && now[..at + HEADER_SIZE - i] == before[..at + HEADER_SIZE - i]
    && now[at + HEADER_SIZE..] == before[at + HEADER_SIZE..]
    && BigEndian(rest, HEADER_SIZE - i) + now[at + HEADER_SIZE - i..at + HEADER_SIZE] == EncodeSize(value)
  }

  lemma EncodeStep(value: nat, before: seq<byte>, now: seq<byte>, at: nat, rest: nat, i: nat)
    requires i < HEADER_SIZE && at + HEADER_SIZE <= |before| && EncodedSoFar(value, before, now, at, rest, i)
    ensures EncodedSoFar(value, before, now[at + HEADER_SIZE - 1 - i := (rest % 256) as byte], at, rest / 256, i + 1)
  {
    var p, digit := at + HEADER_SIZE - 1 - i, (rest % 256) as byte;
    var next := now[p := digit];
    assert next[p..at + HEADER_SIZE] == [digit] + now[p + 1..at + HEADER_SIZE];
    assert next[..p] == now[..p + 1][..p];
    assert before[..p] == before[..p + 1][..p];
    Regroup(BigEndian(rest / 256, HEADER_SIZE - i - 1), digit, now[p + 1..at + HEADER_SIZE]);
  }

  lemma Regroup(s: seq<byte>, x: byte, t: seq<byte>)
    ensures (s + [x]) + t == s + ([x] + t)
  {
  }

  lemma Encoded(value: nat, before: seq<byte>, now: seq<byte>, at: nat, rest: nat)
    requires at + HEADER_SIZE <= |before| && EncodedSoFar(value, before, now, at, rest, HEADER_SIZE)
    ensures now == before[..at] + EncodeSize(value) + before[at + HEADER_SIZE..]
  {
    assert now == now[..at] + now[at..at + HEADER_SIZE] + now[at + HEADER_SIZE..];
    assert [] + now[at..at + HEADER_SIZE] == now[at..at + HEADER_SIZE];
  }

  /** Reads a size header; the 64-bit shift never loses a bit. */
  method ClusterDecodeSize(buffer: seq<byte>) returns (value: nat)
    requires |buffer| == HEADER_SIZE
    ensures value < WORD
    ensures EncodeSize(value) == buffer
  {
    value := 0;
    var i := 0;
    while i < HEADER_SIZE
      invariant 0 <= i <= HEADER_SIZE
      invariant value == FromBigEndian(buffer[..i])
    {
      assert buffer[..i + 1][..i] == buffer[..i];
      FromBigEndianBound(buffer[..i + 1]);
      PowMonotone(i + 1, HEADER_SIZE);
      Pow256Header();
      value := (value * 256) % WORD + buffer[i] as int;
      i := i + 1;
    }
    assert buffer[..HEADER_SIZE] == buffer;
    EncodeDecode(buffer);
    FromBigEndianBound(buffer);
    Pow256Header();
  }

  lemma {:induction false} PowMonotone(m: nat, n: nat)
    requires m <= n
    ensures Pow256(m) <= Pow256(n)
    decreases n
  {
    if m < n {
      PowMonotone(m, n - 1);
    }
  }

  // ----- SplitPoint -----

  lemma MulMono(a: int, b: int, c: int)
    requires a <= b && 0 <= c
    ensures a * c <= b * c
  {
  }

  /** An integer is the floor of `a / b` exactly when it brackets it. */
  lemma FloorUnique(a: int, b: int, q: int)
    requires b > 0
    requires q * b <= a < q * b + b
    ensures a / b == q
  {
    var d := a / b - q;
    assert (a / b) * b <= a < (a / b) * b + b;
    assert (a / b) * b == q * b + d * b;
    if d >= 1 {
      MulMono(1, d, b);
      assert false;
    }
    if d <= -1 {
      MulMono(d, -1, b);
      assert false;
    }
  }

  /** The exact floor of `size * index / parts`: where part `index` of `parts` starts. */
  function SplitPoint(size: nat, index: nat, parts: nat): (p: nat)
    requires index <= parts && 0 < parts
    ensures p <= size
  {
    SplitPointBracket(size, index, parts);
    size * index / parts
  }

  lemma SplitPointBracket(size: nat, index: nat, parts: nat)
    requires index <= parts && 0 < parts
    ensures var p := size * index / parts;
            p * parts <= size * index < p * parts + parts && 0 <= p <= size
  {
    var p := size * index / parts;
    assert p * parts <= size * index < p * parts + parts;
    MulMono(index, parts, size);
    if p > size {
      MulMono(size + 1, p, parts);
      assert false;
    }
  }

  /** The result of a 64-bit unsigned operation. */
  function Wrap(x: nat): nat {
    if x < WORD then x else x % WORD
  }

  lemma Expand(q: nat, b: nat, inner: nat, a: nat)
    ensures (q * b + inner) * a == q * (a * b) + inner * a
  {
    assert q * b * a == q * (a * b);
  }

  lemma NestedFloor(v: nat, a: nat, b: nat, x: nat, low: nat, q: nat, inner: nat)
    requires v == x * a + low && low < a
    requires x == q * b + inner && inner < b
    ensures 0 < a * b && v / (a * b) == q
  {
    MulMono(1, a, b);
    MulMono(inner, b - 1, a);
    Expand(q, b, inner, a);
    FloorUnique(v, a * b, q);
  }

  lemma DivDiv(v: nat, a: nat, b: nat)
    requires 0 < a && 0 < b
    ensures 0 < a * b && v / a / b == v / (a * b)
  {
    var x, low := Division(v, a);
    var q, inner := Division(x, b);
    FloorUnique(v, a, x);
    FloorUnique(x, b, q);
    NestedFloor(v, a, b, x, low, q, inner);
  }

  lemma Division(v: nat, d: nat) returns (q: nat, r: nat)
    requires 0 < d
    ensures v == q * d + r && r < d
  {
    q, r := v / d, v % d;
  }

  /** Byte `i` of the `n` is the digit of weight 256 to the power `n - 1 - i`. */
  lemma {:induction false} DigitAt(v: nat, n: nat, i: nat)
    requires i < n
    ensures BigEndian(v, n)[i] as int == v / Pow256(n - 1 - i) % 256
    decreases n
  {
    if i < n - 1 {
      DigitAt(v / 256, n - 1, i);
      DivDiv(v, 256, Pow256(n - 2 - i));
    }
  }

  lemma Powers()
    ensures Pow256(0) == 1 && Pow256(1) == 0x100 && Pow256(2) == 0x1_0000 && Pow256(3) == 0x100_0000
    ensures Pow256(4) == 0x1_0000_0000 && Pow256(5) == 0x100_0000_0000
    ensures Pow256(6) == 0x1_0000_0000_0000 && Pow256(7) == 0x100_0000_0000_0000
  {
    assert Pow256(2) == 256 * Pow256(1);
    assert Pow256(4) == 256 * Pow256(3);
    assert Pow256(6) == 256 * Pow256(5);
  }

  /** The bytes of a size header: big-endian, eight of them. */
  lemma HeaderBytes(v: nat)
    ensures |EncodeSize(v)| == 8
    ensures EncodeSize(v)[0] as int == v / 0x100_0000_0000_0000 % 256
    ensures EncodeSize(v)[1] as int == v / 0x1_0000_0000_0000 % 256
    ensures EncodeSize(v)[2] as int == v / 0x100_0000_0000 % 256
    ensures EncodeSize(v)[3] as int == v / 0x1_0000_0000 % 256
    ensures EncodeSize(v)[4] as int == v / 0x100_0000 % 256
    ensures EncodeSize(v)[5] as int == v / 0x1_0000 % 256
    ensures EncodeSize(v)[6] as int == v / 0x100 % 256
    ensures EncodeSize(v)[7] as int == v % 256
  {
    Powers();
    forall i | 0 <= i < 8
      ensures EncodeSize(v)[i] as int == v / Pow256(7 - i) % 256
    {
      DigitAt(v, 8, i);
    }
  }

  /** The C expression, with the 64-bit wrap-around of each of its operations. Nothing ever
      wraps and the result is the exact floor, although `size * index` may need 95 bits. */
  method ComputeSplitPoint(size: nat, index: nat, parts: nat) returns (p: nat)
    requires size < WORD
    requires index <= parts && 0 < parts <= INT_MAX
    ensures p == SplitPoint(size, index, parts)
    ensures p * parts <= size * index < p * parts + parts
  {
    SplitPointBracket(size, index, parts);
    var share, extra := DivMod(size, parts);
    SplitPointNoWrap(share, extra, index, parts);
    var whole := Wrap(share * index);
    var rest := Wrap(extra * index) / parts;
    SplitPointParts(share, extra, index, parts, size);
    p := Wrap(whole + rest);
  }

  method DivMod(size: nat, parts: nat) returns (quotient: nat, remainder: nat)
    requires parts > 0
    ensures quotient * parts + remainder == size && remainder < parts
  {
    quotient, remainder := size / parts, size % parts;
  }

  lemma SplitPointNoWrap(share: nat, extra: nat, index: nat, parts: nat)
    requires share * parts + extra < WORD
    requires extra < parts
    requires index <= parts && 0 < parts <= INT_MAX
    ensures share * index < WORD
    ensures extra * index < WORD
  {
    MulMono(index, parts, share);
    MulMono(extra, INT_MAX, index);
    MulMono(index, INT_MAX, INT_MAX);
  }

  lemma SplitPointParts(share: nat, extra: nat, index: nat, parts: nat, size: nat)
    requires 0 < parts && index <= parts && extra < parts
    requires size == share * parts + extra
    ensures SplitPoint(size, index, parts) == share * index + (extra * index) / parts
  {
    var q := (extra * index) / parts;
    assert q * parts <= extra * index < q * parts + parts;
    assert size * index == (share * index) * parts + extra * index by {
      assert (share * parts) * index == (share * index) * parts;
    }
    assert (share * index + q) * parts == (share * index) * parts + q * parts;
    FloorUnique(size * index, parts, share * index + q);
  }

  lemma SplitPointEnds(size: nat, parts: nat)
    requires 0 < parts
    ensures SplitPoint(size, 0, parts) == 0
    ensures SplitPoint(size, parts, parts) == size
  {
    FloorUnique(0, parts, 0);
    FloorUnique(size * parts, parts, size);
  }

  /** Every part has `size / parts` bytes or one more. */
  lemma SplitPointBalanced(size: nat, index: nat, parts: nat)
    requires index < parts
    ensures var part := SplitPoint(size, index + 1, parts) - SplitPoint(size, index, parts);
            size / parts <= part <= size / parts + 1
  {
    var p, q := SplitPoint(size, index, parts), SplitPoint(size, index + 1, parts);
    SplitPointBracket(size, index, parts);
    SplitPointBracket(size, index + 1, parts);
    NextMultiple(size, index);
    FloorStep(size * index, size, parts, p, q);
  }

  lemma SplitPointMono(size: nat, index: nat, parts: nat)
    requires index < parts
    ensures SplitPoint(size, index, parts) <= SplitPoint(size, index + 1, parts)
  {
    SplitPointBalanced(size, index, parts);
  }

  lemma NextMultiple(size: nat, index: nat)
    ensures size * (index + 1) == size * index + size
  {
  }

  lemma FloorStep(a: int, c: int, parts: int, p: int, q: int)
    requires parts > 0
    requires p * parts <= a < p * parts + parts
    requires q * parts <= a + c < q * parts + parts
    ensures c / parts <= q - p <= c / parts + 1
  {
    var b := c / parts;
    assert b * parts <= c < b * parts + parts;
    var d := q - p - b;
    assert q * parts == p * parts + b * parts + d * parts;
    if d <= -1 {
      MulMono(d, -1, parts);
      assert false;
    }
    if d >= 2 {
      MulMono(2, d, parts);
      assert false;
    }
  }

  /** The bytes of part `index`. */
  function Slice(data: seq<byte>, index: nat, parts: nat): (s: seq<byte>)
    requires index < parts
  {
    SplitPointMono(|data|, index, parts);
    Between(data, SplitPoint(|data|, index, parts), SplitPoint(|data|, index + 1, parts))
  }

  function Between(data: seq<byte>, p: nat, q: nat): seq<byte>
    requires p <= q <= |data|
  {
    data[p..q]
  }

  function SlicesUpTo(data: seq<byte>, count: nat, parts: nat): (s: seq<byte>)
    requires count <= parts && 0 < parts
  {
    if count == 0 then [] else SlicesUpTo(data, count - 1, parts) + Slice(data, count - 1, parts)
  }

  lemma Rejoin(data: seq<byte>, p: nat, q: nat)
    requires p <= q <= |data|
    ensures data[..p] + Between(data, p, q) == data[..q]
  {
  }

  /** Consecutive slices concatenate to the whole input: no byte is dropped or sent twice. */
  lemma {:induction false} SlicesCover(data: seq<byte>, count: nat, parts: nat)
    requires count <= parts && 0 < parts
    ensures SlicesUpTo(data, count, parts) == data[..SplitPoint(|data|, count, parts)]
  {
    if count == 0 {
      SplitPointEnds(|data|, parts);
    } else {
      SlicesCover(data, count - 1, parts);
      SplitPointMono(|data|, count - 1, parts);
      Rejoin(data, SplitPoint(|data|, count - 1, parts), SplitPoint(|data|, count, parts));
    }
  }

  lemma AllSlicesCover(data: seq<byte>, parts: nat)
    requires 0 < parts
    ensures SlicesUpTo(data, parts, parts) == data
  {
    SlicesCover(data, parts, parts);
    SplitPointEnds(|data|, parts);
  }
}

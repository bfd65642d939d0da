/** The byte ring of src/queue.c: `stream_fifo_push`, `stream_fifo_length` and `stream_fifo_pop`. */
module StreamFifo {
  import opened Memory
  import opened RingBuffer
  import Bits

  const ENOBUFS: int := 105
  const INT_MAX: int := 0x7fff_ffff
  /** Up to this size the guard of a push stays in the range of `int` (`GuardFitsIff`). */
  const MAX_BUFFER: nat := 0x4000_0000

  /** The memory, and the addresses of the next byte to read and to write.  Both may stand at the
      end of the buffer as well as at its start. */
  datatype State = State(mem: seq<byte>, head: nat, tail: nat)

  /** `tail` is at the start only until the first byte is written. */
  ghost predicate Valid(q: Ring, s: State) {
    && MIN_BUFFER <= q.size && q.End() <= |s.mem|
    && q.start <= s.head <= q.End() && q.start <= s.tail <= q.End()
    && (s.tail == q.start ==> s.head == q.start)
  }

  function Contents(q: Ring, s: State): seq<byte>
    requires Valid(q, s)
  {
    if s.head <= s.tail then s.mem[s.head..s.tail] else s.mem[s.head..q.End()] + s.mem[q.start..s.tail]
  }

  /** `stream_fifo_length` */
  function Length(q: Ring, s: State): int {
    var length := s.tail - s.head;
    if length < 0 then q.size + length else length
  }

  /** What `stream_fifo_push` takes for the free space. */
  function Remaining(q: Ring, s: State): int {
    if s.head == s.tail then q.size
    else
      var remaining := s.tail - s.head;
      if remaining < 0 then q.size + -remaining else remaining
  }

  /** The state after a push that was accepted. */
  function Pushed(q: Ring, s: State, msg: seq<byte>): State
    requires Valid(q, s) && |msg| <= Remaining(q, s)
  {
    if s.tail + |msg| > q.End() then
      var first := q.End() - s.tail;
      var m := Splice(s.mem, s.tail, msg[..first]);
      State(Splice(m, q.start, msg[first..]), s.head, q.start + |msg| - first)
    else
      State(Splice(s.mem, s.tail, msg), s.head, s.tail + |msg|)
  }

  /** `stream_fifo_push` */
  function Push(q: Ring, s: State, msg: seq<byte>): (State, int)
    requires Valid(q, s)
  {
    if Remaining(q, s) < |msg| then (s, -ENOBUFS) else (Pushed(q, s, msg), |msg|)
  }

  /** The state after a pop of `n` bytes, and these bytes. */
  function Taken(q: Ring, s: State, n: nat): (State, seq<byte>)
    requires Valid(q, s) && n <= Length(q, s)
  {
    if s.head + n > q.End() then
      var first := q.End() - s.head;
      (State(s.mem, q.start + (n - first), s.tail), s.mem[s.head..q.End()] + s.mem[q.start..q.start + (n - first)])
    else
      (State(s.mem, s.head + n, s.tail), s.mem[s.head..s.head + n])
  }

  /** `stream_fifo_pop` with room for `room` bytes. */
  function Pop(q: Ring, s: State, room: nat): (State, seq<byte>)
    requires Valid(q, s)
  {
    Taken(q, s, if Length(q, s) < room then Length(q, s) else room)
  }

  // ---------------------------------------------------------------- one call

  /** The address `i` bytes behind `from` in the ring. */
  function Spot(q: Ring, from: nat, i: nat): int {
    if from + i < q.End() then from + i else from + i - q.size
  }

  lemma ContentsAt(q: Ring, s: State, i: nat)
    requires Valid(q, s) && i < |Contents(q, s)|
    ensures q.start <= Spot(q, s.head, i) < q.End() && Contents(q, s)[i] == s.mem[Spot(q, s.head, i)]
  {
  }

  /** The reported length is the number of bytes in the ring. */
  lemma LengthOfContents(q: Ring, s: State)
    requires Valid(q, s)
    ensures Length(q, s) == |Contents(q, s)| <= q.size
  {
  }

  /** The guard of a push never lets it write outside the buffer, nor move `tail` out of it. */
  lemma PushStaysInside(q: Ring, s: State, msg: seq<byte>)
    requires Valid(q, s)
    ensures Valid(q, Push(q, s, msg).0)
    ensures |Push(q, s, msg).0.mem| == |s.mem|
    ensures SameBytes(s.mem, Push(q, s, msg).0.mem, 0, q.start)
    ensures SameBytes(s.mem, Push(q, s, msg).0.mem, q.End(), |s.mem|)
  {
  }

  /** The `int` that the guard of a push computes fits for every state of the ring if and only if the
      buffer has at most 2^30 bytes. */
  lemma GuardFitsIff(q: Ring)
    requires MIN_BUFFER <= q.size
    ensures q.size <= MAX_BUFFER <==> forall s {:trigger Remaining(q, s)} :: Valid(q, s) ==> Remaining(q, s) <= INT_MAX
  {
    var full := State(seq(q.End(), (_: nat) => 0), q.End(), q.start + 1);
    assert Valid(q, full) && Remaining(q, full) == 2 * q.size - 1;
  }

  /** The bytes of an accepted push, fitting or not: from the tail on, and what passes the end from the start
      on, over what was written first if the message is longer than the ring.  Nothing else changes. */
  lemma PushWrites(q: Ring, s: State, msg: seq<byte>, x: nat)
    requires Valid(q, s) && Push(q, s, msg).1 >= 0 && x < |s.mem|
    ensures |Push(q, s, msg).0.mem| == |s.mem|
    ensures var room := q.End() - s.tail;
      Push(q, s, msg).0.mem[x] ==
        if q.start <= x && x - q.start + room < |msg| then msg[x - q.start + room]
        else if s.tail <= x < q.End() && x - s.tail < |msg| then msg[x - s.tail]
        else s.mem[x]
  {
  }

  /** The true free space: one byte less than the buffer once the head has left the start. */
  predicate Fits(q: Ring, s: State, n: nat) {
    Length(q, s) + n < q.size || (Length(q, s) + n == q.size && s.head == q.start)
  }

  /** An accepted push appends exactly the message if and only if the message fits. */
  lemma PushAppendsIff(q: Ring, s: State, msg: seq<byte>)
    requires Valid(q, s) && |msg| <= Remaining(q, s)
    ensures Contents(q, Pushed(q, s, msg)) == Contents(q, s) + msg <==> Fits(q, s, |msg|)
  {
    var t := Pushed(q, s, msg);
    LengthOfContents(q, s);
    LengthOfContents(q, t);
    if Fits(q, s, |msg|) {
      PushAppends(q, s, msg);
    } else {
      assert |Contents(q, t)| != |Contents(q, s) + msg|;
    }
  }

  lemma PushAppends(q: Ring, s: State, msg: seq<byte>)
    requires Valid(q, s) && |msg| <= Remaining(q, s) && Fits(q, s, |msg|)
    ensures Contents(q, Pushed(q, s, msg)) == Contents(q, s) + msg
  {
    PushedLength(q, s, msg);
    LengthOfContents(q, s);
    var t := Pushed(q, s, msg);
    var c, d := Contents(q, s), Contents(q, t);
    hide Splice, Contents, Pushed, Valid;
    forall i | 0 <= i < |d| ensures d[i] == (c + msg)[i] {
      ContentsAt(q, t, i);
      if i < |c| {
        ContentsAt(q, s, i);
      }
      PushedAt(q, s, msg, i);
    }
  }

  lemma PushedLength(q: Ring, s: State, msg: seq<byte>)
    requires Valid(q, s) && |msg| <= Remaining(q, s) && Fits(q, s, |msg|)
    ensures var t := Pushed(q, s, msg);
      Valid(q, t) && t.head == s.head && |Contents(q, t)| == |Contents(q, s)| + |msg|
  {
    hide Splice;
  }

  /** Byte `i` of the ring after a push. */
  lemma PushedAt(q: Ring, s: State, msg: seq<byte>, i: nat)
    requires Valid(q, s) && |msg| <= Remaining(q, s) && Fits(q, s, |msg|) && i < Length(q, s) + |msg|
    ensures var t, at := Pushed(q, s, msg), Spot(q, s.head, i);
      && q.start <= at < q.End() && |t.mem| == |s.mem|
      && t.mem[at] == if i < Length(q, s) then s.mem[at] else msg[i - Length(q, s)]
  {
  }

  /** The guard measures the used space: it refuses a message that fits exactly when the contents do
      not wrap around and are shorter than the message. */
  lemma FittingPushRefused(q: Ring, s: State, msg: seq<byte>)
    requires Valid(q, s) && Fits(q, s, |msg|)
    ensures Push(q, s, msg).1 < 0 <==> s.head < s.tail && |Contents(q, s)| < |msg|
  {
  }

  /** Which messages are accepted, fitting or not: into an empty ring at most its size, behind contents that
      do not wrap around at most as many bytes as they have, behind others at most twice the size of the
      ring less their bytes.  A refused push changes nothing. */
  lemma PushVerdict(q: Ring, s: State, msg: seq<byte>)
    requires Valid(q, s)
    ensures var held, (t, r) := |Contents(q, s)|, Push(q, s, msg);
      var limit := if s.head == s.tail then q.size else if s.head < s.tail then held else 2 * q.size - held;
      if |msg| <= limit then r == |msg| else r == -105 && t == s
  {
  }

  /** A pop returns the oldest bytes, as many as there are and fit, and leaves the others. */
  lemma PopTakesPrefix(q: Ring, s: State, room: nat)
    requires Valid(q, s)
    ensures Valid(q, Pop(q, s, room).0)
    ensures Contents(q, s) == Pop(q, s, room).1 + Contents(q, Pop(q, s, room).0)
    ensures |Pop(q, s, room).1| == if |Contents(q, s)| < room then |Contents(q, s)| else room
  {
    var t, out := Pop(q, s, room).0, Pop(q, s, room).1;
    var c, d := Contents(q, s), Contents(q, t);
    assert Valid(q, t) && |c| == |out| + |d|;
    forall i | 0 <= i < |c| ensures c[i] == (out + d)[i] {
      ContentsAt(q, s, i);
      if i >= |out| {
        ContentsAt(q, t, i - |out|);
      }
      hide Contents;
    }
  }

  // ---------------------------------------------------------------- all runs

  datatype Op = PushOp(msg: seq<byte>) | PopOp(room: nat)

  /** The final state, the bytes that pushes accepted and the bytes that pops returned. */
  datatype Flow = Flow(last: State, pushed: seq<byte>, popped: seq<byte>)

  ghost function Run(q: Ring, s: State, ops: seq<Op>): (f: Flow)
    requires Valid(q, s)
    ensures Valid(q, f.last)
    decreases |ops|
  {
    if ops == [] then Flow(s, [], [])
    else match ops[0]
      case PushOp(msg) =>
        PushStaysInside(q, s, msg);
        var (t, r) := Push(q, s, msg);
        var f := Run(q, t, ops[1..]);
        if r < 0 then f else Flow(f.last, msg + f.pushed, f.popped)
      case PopOp(room) =>
        PopTakesPrefix(q, s, room);
        var (t, out) := Pop(q, s, room);
        var f := Run(q, t, ops[1..]);
        Flow(f.last, f.pushed, out + f.popped)
  }

  /** Every push of the run is refused or fits. */
  ghost predicate AllFit(q: Ring, s: State, ops: seq<Op>)
    requires Valid(q, s)
    decreases |ops|
  {
    ops != [] ==>
      match ops[0]
      case PushOp(msg) =>
        PushStaysInside(q, s, msg);
        (Push(q, s, msg).1 < 0 || Fits(q, s, |msg|)) && AllFit(q, Push(q, s, msg).0, ops[1..])
      case PopOp(room) =>
        PopTakesPrefix(q, s, room);
        AllFit(q, Pop(q, s, room).0, ops[1..])
  }

  lemma {:induction false} FittingRunConserves(q: Ring, s: State, ops: seq<Op>)
    requires Valid(q, s) && AllFit(q, s, ops)
    ensures Contents(q, s) + Run(q, s, ops).pushed == Run(q, s, ops).popped + Contents(q, Run(q, s, ops).last)
    decreases |ops|
  {
    hide Contents, Push, Pop, Fits, Valid;
    if ops != [] {
      match ops[0]
      case PushOp(msg) =>
        PushStaysInside(q, s, msg);
        var (t, r) := Push(q, s, msg);
        FittingRunConserves(q, t, ops[1..]);
        PushConserves(q, s, msg);
        var f := Run(q, t, ops[1..]);
        assert Contents(q, s) + (msg + f.pushed) == (Contents(q, s) + msg) + f.pushed;
      case PopOp(room) =>
        PopTakesPrefix(q, s, room);
        var (t, out) := Pop(q, s, room);
        FittingRunConserves(q, t, ops[1..]);
        var f := Run(q, t, ops[1..]);
        assert (out + Contents(q, t)) + f.pushed == out + (Contents(q, t) + f.pushed);
        assert out + (f.popped + Contents(q, f.last)) == (out + f.popped) + Contents(q, f.last);
    }
  }

  lemma PushConserves(q: Ring, s: State, msg: seq<byte>)
    requires Valid(q, s) && (Push(q, s, msg).1 < 0 || Fits(q, s, |msg|))
    ensures Valid(q, Push(q, s, msg).0)
    ensures Contents(q, Push(q, s, msg).0) == if Push(q, s, msg).1 < 0 then Contents(q, s) else Contents(q, s) + msg
  {
    PushStaysInside(q, s, msg);
    if Remaining(q, s) >= |msg| {
      PushAppends(q, s, msg);
    }
  }

  /** An accepted push that does not fit makes the ring hold fewer bytes than it should. */
  lemma PushLosesLength(q: Ring, s: State, msg: seq<byte>)
    requires Valid(q, s)
    ensures Valid(q, Push(q, s, msg).0)
    ensures var n := if Push(q, s, msg).1 < 0 then 0 else |msg|;
      && |Contents(q, Push(q, s, msg).0)| <= |Contents(q, s)| + n
      && (|Contents(q, Push(q, s, msg).0)| == |Contents(q, s)| + n ==> Push(q, s, msg).1 < 0 || Fits(q, s, |msg|))
  {
    PushStaysInside(q, s, msg);
    hide SameBytes, Splice;
  }

  /** A run never yields more bytes than went in, and only if every accepted push fits as many. */
  lemma {:induction false} RunLosesLength(q: Ring, s: State, ops: seq<Op>)
    requires Valid(q, s)
    ensures var f := Run(q, s, ops);
      && |f.popped| + |Contents(q, f.last)| <= |Contents(q, s)| + |f.pushed|
      && (|f.popped| + |Contents(q, f.last)| == |Contents(q, s)| + |f.pushed| ==> AllFit(q, s, ops))
    decreases |ops|
  {
    hide Contents, Push, Pop, Fits, Valid;
    if ops != [] {
      match ops[0]
      case PushOp(msg) =>
        PushStaysInside(q, s, msg);
        PushLosesLength(q, s, msg);
        RunLosesLength(q, Push(q, s, msg).0, ops[1..]);
      case PopOp(room) =>
        PopTakesPrefix(q, s, room);
        RunLosesLength(q, Pop(q, s, room).0, ops[1..]);
    }
  }

  /** No byte is lost, invented or reordered, so that what was there and what went in is what came out and
      what is there, if and only if every accepted push of the run fits. */
  lemma Conservation(q: Ring, s: State, ops: seq<Op>)
    requires Valid(q, s)
    ensures AllFit(q, s, ops) <==>
      Contents(q, s) + Run(q, s, ops).pushed == Run(q, s, ops).popped + Contents(q, Run(q, s, ops).last)
  {
    hide Contents, Run, AllFit, Valid;
    var f := Run(q, s, ops);
    RunLosesLength(q, s, ops);
    if AllFit(q, s, ops) {
      FittingRunConserves(q, s, ops);
    } else {
      assert |Contents(q, s) + f.pushed| != |f.popped + Contents(q, f.last)|;
    }
  }

  // ---------------------------------------------------------------- where a run leaves the pointers

  /** A pointer that has moved on by `n` bytes in all: it is at the start only as long as it has not moved,
      and stays at the end until the next byte. */
  ghost predicate MovedBy(q: Ring, pointer: nat, n: nat)
    requires q.size > 0
  {
    pointer == q.start + if n == 0 then 0 else 1 + (n - 1) % q.size
  }

  lemma MovesOn(q: Ring, pointer: nat, n: nat, k: nat)
    requires q.size > 0 && MovedBy(q, pointer, n) && pointer + k <= q.End() + q.size && (n == 0 ==> k <= q.size)
    ensures MovedBy(q, if pointer + k > q.End() then pointer + k - q.size else pointer + k, n + k)
  {
    if n > 0 {
      AddModulo(n - 1, k, q.size);
    } else if k > 0 {
      Bits.ModUnique(k - 1, q.size, 0, k - 1);
    }
  }

  lemma AddModulo(a: nat, k: nat, m: nat)
    requires m > 0 && a % m + k < 2 * m
    ensures (a + k) % m == if a % m + k >= m then a % m + k - m else a % m + k
  {
    var c, r := a / m, a % m;
    assert a == c * m + r;
    if r + k >= m {
      assert (c + 1) * m == c * m + m;
      Bits.ModUnique(a + k, m, c + 1, r + k - m);
    } else {
      Bits.ModUnique(a + k, m, c, r + k);
    }
  }

  lemma PushMoves(q: Ring, s: State, msg: seq<byte>, n: nat)
    requires Valid(q, s) && MovedBy(q, s.tail, n)
    ensures var (t, r) := Push(q, s, msg); t.head == s.head && MovedBy(q, t.tail, if r < 0 then n else n + |msg|)
  {
    hide MovedBy;
    if |msg| <= Remaining(q, s) {
      TailMoves(q, s, msg);
      StartTail(q, s, n);
      MovesOn(q, s.tail, n, |msg|);
    }
  }

  lemma TailMoves(q: Ring, s: State, msg: seq<byte>)
    requires Valid(q, s) && |msg| <= Remaining(q, s)
    ensures s.tail + |msg| <= q.End() + q.size && (s.tail == q.start ==> |msg| <= q.size)
    ensures var t := Pushed(q, s, msg);
      t.head == s.head && t.tail == if s.tail + |msg| > q.End() then s.tail + |msg| - q.size else s.tail + |msg|
  {
    hide Splice;
  }

  lemma StartTail(q: Ring, s: State, n: nat)
    requires Valid(q, s) && MovedBy(q, s.tail, n)
    ensures n == 0 ==> s.tail == q.start
  {
  }

  lemma PopMoves(q: Ring, s: State, room: nat, n: nat)
    requires Valid(q, s) && MovedBy(q, s.head, n)
    ensures var (t, out) := Pop(q, s, room); t.tail == s.tail && t.mem == s.mem && MovedBy(q, t.head, n + |out|)
  {
    PopTakesPrefix(q, s, room);
    LengthOfContents(q, s);
    var k := if Length(q, s) < room then Length(q, s) else room;
    MovesOn(q, s.head, n, k);
  }

  /** From a ring in which `popped` bytes have been popped and `pushed` bytes accepted so far. */
  lemma {:induction false} PointersFrom(q: Ring, s: State, ops: seq<Op>, popped: nat, pushed: nat)
    requires Valid(q, s) && MovedBy(q, s.head, popped) && MovedBy(q, s.tail, pushed)
    ensures var f := Run(q, s, ops);
      MovedBy(q, f.last.head, popped + |f.popped|) && MovedBy(q, f.last.tail, pushed + |f.pushed|)
    decreases |ops|
  {
    hide MovedBy, Push, Pop, Valid;
    if ops != [] {
      match ops[0]
      case PushOp(msg) =>
        PushStaysInside(q, s, msg);
        PushMoves(q, s, msg, pushed);
        var (t, r) := Push(q, s, msg);
        PointersFrom(q, t, ops[1..], popped, if r < 0 then pushed else pushed + |msg|);
      case PopOp(room) =>
        PopTakesPrefix(q, s, room);
        PopMoves(q, s, room, popped);
        var (t, out) := Pop(q, s, room);
        PointersFrom(q, t, ops[1..], popped + |out|, pushed);
    }
  }

  /** After any run from a fresh ring, fitting or not, the two totals of bytes popped and bytes accepted
      determine the pointers, and with them which push is accepted next. */
  lemma PointersOfTotals(q: Ring, s: State, ops: seq<Op>, msg: seq<byte>)
    requires Valid(q, s) && s.head == s.tail == q.start
    ensures var f := Run(q, s, ops);
      var h, t := |f.popped|, |f.pushed|;
      var head, tail := if h == 0 then 0 else 1 + (h - 1) % q.size, if t == 0 then 0 else 1 + (t - 1) % q.size;
      && f.last.head == q.start + head && f.last.tail == q.start + tail
      && var limit := if head == tail then q.size else if head < tail then tail - head else q.size + head - tail;
         Push(q, f.last, msg).1 == if |msg| <= limit then |msg| else -105
  {
    hide Run, Pushed;
    PointersFrom(q, s, ops, 0, 0);
  }

  /** Accepted pushes that do not fit happen: in a ring of 17 bytes the guard lets two messages of 10 bytes
      in, and only 3 bytes are held afterwards. */
  lemma OverfullReached(q: Ring, s: State, a: seq<byte>, b: seq<byte>)
    requires Valid(q, s) && q.size == 17 && s.head == s.tail == q.start && |a| == |b| == 10
    ensures var ops := [PushOp(a), PushOp(b)];
      Run(q, s, ops).pushed == a + b && |Contents(q, Run(q, s, ops).last)| == 3 && !AllFit(q, s, ops)
  {
    hide Splice, SameBytes, Contents;
    var t := Push(q, s, a).0;
    PushStaysInside(q, s, a);
    PushStaysInside(q, t, b);
    var u := Push(q, t, b).0;
    LengthOfContents(q, u);
    var ops := [PushOp(a), PushOp(b)];
    assert ops[1..] == [PushOp(b)] && ops[1..][1..] == [];
    assert Run(q, u, []) == Flow(u, [], []);
    assert Run(q, t, ops[1..]) == Flow(u, b + [], []);
    assert !AllFit(q, t, ops[1..]);
    assert a + (b + []) == a + b;
  }

  /** A larger buffer gets there: filled, emptied and given one more byte, the next guard overflows. */
  lemma OverflowReached(q: Ring, s: State, a: seq<byte>, b: seq<byte>)
    requires Valid(q, s) && MAX_BUFFER < q.size && s.head == s.tail == q.start && |a| == q.size && |b| == 1
    ensures Remaining(q, Run(q, s, [PushOp(a), PopOp(q.size), PushOp(b)]).last) > INT_MAX
  {
    hide Splice, SameBytes, Contents;
    var ops := [PushOp(a), PopOp(q.size), PushOp(b)];
    assert ops[1..] == [PopOp(q.size), PushOp(b)] && ops[1..][1..] == [PushOp(b)];
    var t := Push(q, s, a).0;
    PushStaysInside(q, s, a);
    var u := Pop(q, t, q.size).0;
    PopTakesPrefix(q, t, q.size);
    var v := Push(q, u, b).0;
    PushStaysInside(q, u, b);
    assert Run(q, v, []) == Flow(v, [], []);
    assert Run(q, u, [PushOp(b)]).last == v;
  }

  // ---------------------------------------------------------------- stream_fifo_t

  class Fifo {
    var start: nat
    var head: nat
    var tail: nat
    var bufferLen: nat
    const mem: array<byte>

    ghost function Shape(): Ring
      reads this
    {
      Ring(start, bufferLen)
    }

    ghost function Now(): State
      reads this, mem
    {
      State(mem[..], head, tail)
    }

    ghost predicate Usable()
      reads this, mem
    {
      Valid(Shape(), Now())
    }

    constructor (mem: array<byte>)
      ensures this.mem == mem
    {
      this.mem := mem;
    }

    /** `stream_fifo_init` */
    method Init(buf: nat, bufLen: nat) returns (r: int)
      requires buf + bufLen <= mem.Length
      modifies this
      ensures r == if buf == NULL || bufLen < MIN_BUFFER then -1 else 0
      ensures r == 0 ==> Usable() && Shape() == Ring(buf, bufLen) && Now() == State(mem[..], buf, buf)
      ensures r == 0 ==> Contents(Shape(), Now()) == []
      ensures r == -1 ==> unchanged(this)
    {
      if buf == NULL {
        return -1;
      }
      if bufLen < MIN_BUFFER {
        return -1;
      }
      start, head, tail, bufferLen := buf, buf, buf, bufLen;
      return 0;
    }

    /** `stream_fifo_push` */
    method PushBytes(msg: seq<byte>) returns (r: int)
      requires Usable() && bufferLen <= MAX_BUFFER
      modifies this, mem
      ensures Usable() && Shape() == old(Shape())
      ensures (Now(), r) == Push(Shape(), old(Now()), msg)
    {
      hide Contents, SameBytes, Pushed;
      PushStaysInside(Shape(), Now(), msg);
      var remaining := tail - head;
      if head == tail {
        remaining := bufferLen;
      }
      if remaining < 0 {
        remaining := bufferLen + -remaining;
      }
      if remaining < |msg| {
        return -ENOBUFS;
      }
      Write(msg);
      return |msg|;
    }

    /** The copies of `stream_fifo_push`, in one piece or in two. */
    method Write(msg: seq<byte>)
      requires Usable() && |msg| <= Remaining(Shape(), Now())
      modifies `tail, mem
      ensures Now() == Pushed(Shape(), old(Now()), msg)
    {
      hide Contents, Splice;
      if tail + |msg| > start + bufferLen {
        var firstLen := start + bufferLen - tail;
        CopyIn(mem, tail, msg[..firstLen]);
        tail := start;
        CopyIn(mem, tail, msg[firstLen..]);
        tail := tail + (|msg| - firstLen);
      } else {
        CopyIn(mem, tail, msg);
        tail := tail + |msg|;
      }
    }

    /** `stream_fifo_length` */
    method BytesHeld() returns (length: int)
      requires Usable() && bufferLen <= INT_MAX
      ensures length == |Contents(Shape(), Now())|
    {
      length := tail - head;
      if length < 0 {
        length := bufferLen + length;
      }
    }

    /** `stream_fifo_pop` into a buffer with room for `room` bytes. */
    method PopBytes(room: nat) returns (out: seq<byte>)
      requires Usable() && bufferLen <= INT_MAX
      modifies this
      ensures Usable() && Shape() == old(Shape())
      ensures (Now(), out) == Pop(Shape(), old(Now()), room)
    {
      hide Contents, Taken;
      PopTakesPrefix(Shape(), Now(), room);
      LengthOfContents(Shape(), Now());
      var n := room;
      var avail := BytesHeld();
      if avail < n {
        n := avail;
      }
      out := Read(n);
    }

    /** The copies of `stream_fifo_pop`, in one piece or in two. */
    method Read(n: nat) returns (out: seq<byte>)
      requires Usable() && n <= Length(Shape(), Now())
      modifies `head
      ensures (Now(), out) == Taken(Shape(), old(Now()), n)
    {
      hide Contents;
      var end := start + bufferLen;
      if head + n > end {
        var firstLen := end - head;
        out := mem[head..end];
        head := start;
        out := out + mem[head..head + (n - firstLen)];
        head := head + (n - firstLen);
      } else {
        out := mem[head..head + n];
        head := head + n;
      }
    }
  }
}

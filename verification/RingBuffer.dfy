// src/include/ring_buffer.h: a byte ring of length-prefixed records, refining a
// first-in first-out queue of byte strings.
module RingBuffer {
  import opened Bits
  import opened Wrappers

  datatype Exception = BadAlloc

  // The template parameter of Push and Pop: the width of the length prefix in
  // bytes and the largest length its integral type can represent.
  datatype Prefix = Prefix(width: nat, max: nat) {
    predicate Valid() {
      0 < width && max < Pow256(width)
    }
  }

  function Record(p: Prefix, m: seq<byte>): (r: seq<byte>)
    ensures |r| == p.width + |m|
  {
    ToLE(|m|, p.width) + m
  }

  function Records(p: Prefix, q: seq<seq<byte>>): seq<byte> {
    if q == [] then [] else Record(p, q[0]) + Records(p, q[1..])
  }

  predicate Storable(p: Prefix, m: seq<byte>) {
    0 < |m| <= p.max
  }

  lemma {:induction false} RecordsAppend(p: Prefix, q: seq<seq<byte>>, m: seq<byte>)
    ensures Records(p, q + [m]) == Records(p, q) + Record(p, m)
  {
    hide Record;
    if q == [] {
      assert (q + [m])[1..] == [];
    } else {
      assert (q + [m])[1..] == q[1..] + [m];
      RecordsAppend(p, q[1..], m);
      ConcatAssoc(Record(p, q[0]), Records(p, q[1..]), Record(p, m));
    }
  }

  lemma {:induction false} RecordsLength(p: Prefix, q: seq<seq<byte>>)
    ensures |Records(p, q)| == Used(p, q)
  {
    if q != [] { RecordsLength(p, q[1..]); }
  }

  // Bytes taken by a queue: every message and its prefix.
  function Used(p: Prefix, q: seq<seq<byte>>): nat {
    if q == [] then 0 else |q[0]| + p.width + Used(p, q[1..])
  }

  // The first record can be read back from the bytes.
  lemma FirstRecord(p: Prefix, q: seq<seq<byte>>)
    requires p.Valid() && q != [] && Storable(p, q[0])
    ensures var s := Records(p, q);
      && |s| >= p.width + |q[0]|
      && LE(s[..p.width]) == |q[0]|
      && s[p.width..][..|q[0]|] == q[0]
      && s[p.width..][|q[0]|..] == Records(p, q[1..])
  {
    LERoundTrip(|q[0]|, p.width);
    assert Records(p, q) == ToLE(|q[0]|, p.width) + q[0] + Records(p, q[1..]);
    hide *;
    ThreeParts(ToLE(|q[0]|, p.width), q[0], Records(p, q[1..]));
  }

  lemma ThreeParts(a: seq<byte>, b: seq<byte>, c: seq<byte>)
    ensures var s := a + b + c;
      |s| >= |a| + |b| && s[..|a|] == a && s[|a|..][..|b|] == b && s[|a|..][|b|..] == c
  {
    assert (a + b + c)[|a|..] == b + c;
  }

  // The bytes of b from tail up to head, across the end if head is behind.
  function Window(b: seq<byte>, tail: nat, head: nat): seq<byte>
    requires tail <= |b| && head <= |b|
  {
    if tail <= head then b[tail..head] else b[tail..] + b[..head]
  }

  function Free(size: nat, tail: nat, head: nat): int {
    if size == 0 then 0 else if head >= tail then size - head + tail - 1 else tail - head - 1
  }

  lemma Wrap(n: nat, size: nat)
    requires n <= size && 0 < size
    ensures n % size == if n == size then 0 else n
  {}

  lemma WriteAhead(b: seq<byte>, tail: nat, head: nat, data: seq<byte>, b': seq<byte>, next: nat)
    requires tail < |b| && head < |b| && |data| <= Free(|b|, tail, head) && head + |data| <= |b|
    requires Wrote(b, head, data, b')
    requires next == if head + |data| == |b| then 0 else head + |data|
    ensures Window(b', tail, next) == Window(b, tail, head) + data
  {
    var n := head + |data|;
    assert b'[..head] == b[..head] && b'[head..n] == data && b'[n..] == b[n..];
    if n == |b| {
      assert b'[tail..] == b[tail..head] + data;
    } else {
      if tail <= head {
        assert b'[tail..n] == b[tail..head] + data;
      } else {
        assert b'[..n] == b[..head] + data && b'[tail..] == b[tail..];
      }
    }
  }

  lemma WriteAround(b: seq<byte>, tail: nat, head: nat, one: seq<byte>, two: seq<byte>, b': seq<byte>, b'': seq<byte>)
    requires tail < |b| && head < |b| && |one| + |two| <= Free(|b|, tail, head) && head + |one| == |b|
    requires Wrote(b, head, one, b') && Wrote(b', 0, two, b'')
    requires two != []
    ensures Window(b'', tail, |two|) == Window(b, tail, head) + (one + two)
  {
    assert |two| < tail <= head;
    assert b'[..head] == b[..head] && b'[head..] == one;
    assert b''[..|two|] == two && b''[|two|..] == b'[|two|..];
    assert b''[tail..] == b'[tail..] == b[tail..head] + one;
  }

  lemma ReadAhead(b: seq<byte>, pos: nat, head: nat, n: nat)
    requires pos < |b| && head < |b| && n <= |Window(b, pos, head)| && pos + n <= |b|
    ensures b[pos..pos + n] == Window(b, pos, head)[..n]
    ensures Window(b, (n + pos) % |b|, head) == Window(b, pos, head)[n..]
  {
    Wrap(n + pos, |b|);
  }

  lemma ReadAround(b: seq<byte>, pos: nat, head: nat, n: nat)
    requires pos < |b| && head < |b| && n <= |Window(b, pos, head)| && pos + n > |b|
    ensures pos + n - |b| <= head
    ensures b[pos..] + b[..pos + n - |b|] == Window(b, pos, head)[..n]
    ensures Window(b, (pos + n - |b|) % |b|, head) == Window(b, pos, head)[n..]
  {
    Wrap(pos + n - |b|, |b|);
  }

  class RingBuffer {
    var buffer: array<byte>
    var head: nat
    var tail: nat

    ghost var queue: seq<seq<byte>>

    // The bytes from position `pos` up to the head, across the end of the array.
    ghost function From(pos: nat): seq<byte>
      requires pos <= buffer.Length && head <= buffer.Length
      reads this`buffer, this`head, buffer
    {
      Window(buffer[..], pos, head)
    }

    ghost predicate Shape()
      reads this`buffer, this`head, this`tail
    {
      if buffer.Length == 0 then head == tail == 0 else head < buffer.Length && tail < buffer.Length
    }

    ghost predicate Valid(p: Prefix)
      reads this, buffer
    {
      && p.Valid() && Shape()
      && From(tail) == Records(p, queue)
      && (forall m :: m in queue ==> Storable(p, m))
    }

    // A capacity of 0 is an exception in the constructor.
    static method Create(capacity: nat, p: Prefix) returns (r: RingBuffer?)
      requires p.Valid()
      ensures r == null <==> capacity == 0
      ensures r != null ==> fresh(r) && fresh(r.buffer) && r.Valid(p) && r.queue == [] && r.GetCapacity() == capacity
    {
      if capacity == 0 {
        return null;
      }
      r := new RingBuffer(capacity);
    }

    constructor (capacity: nat)
      requires capacity > 0
      ensures fresh(buffer) && buffer.Length == capacity + 1 && head == tail == 0 && queue == []
    {
      buffer := new byte[capacity + 1];
      head, tail, queue := 0, 0, [];
    }

    predicate IsEmpty()
      reads this`head, this`tail
    {
      head == tail
    }

    function GetCapacity(): nat
      reads this`buffer
    {
      if buffer.Length == 0 then 0 else buffer.Length - 1
    }

    function FreeSpace(): nat
      requires Shape()
      reads this`buffer, this`head, this`tail
    {
      if buffer.Length == 0 then 0
      else if head >= tail then (buffer.Length - head) + tail - 1 else tail - head - 1
    }

    // Nothing is lost: free bytes and stored records make up the capacity.
    lemma SpaceConserved(p: Prefix)
      requires Valid(p)
      ensures FreeSpace() + Used(p, queue) == GetCapacity()
    {
      RecordsLength(p, queue);
    }

    lemma EmptyQueue(p: Prefix)
      requires Valid(p)
      ensures IsEmpty() <==> queue == []
    {
      RecordsLength(p, queue);
    }

    // The writing lambda of Push.
    method CopyIn(data: seq<byte>)
      requires Shape() && 0 < |data| <= FreeSpace()
      modifies this`head, buffer
      ensures Shape() && From(tail) == old(From(tail)) + data
      ensures FreeSpace() == old(FreeSpace()) - |data|
    {
      hide Window;
      hide Wrote;
      ghost var b := buffer[..];
      var spaceToEnd := buffer.Length - head;
      if spaceToEnd < |data| {
        var delta := |data| - spaceToEnd;
        CopyBytes(buffer, head, data[..spaceToEnd]);
        ghost var b' := buffer[..];
        CopyBytes(buffer, 0, data[spaceToEnd..]);
        WriteAround(b, tail, head, data[..spaceToEnd], data[spaceToEnd..], b', buffer[..]);
        assert data[..spaceToEnd] + data[spaceToEnd..] == data;
        head := delta;
      } else {
        CopyBytes(buffer, head, data);
        Wrap(head + |data|, buffer.Length);
        WriteAhead(b, tail, head, data, buffer[..], (head + |data|) % buffer.Length);
        head := (head + |data|) % buffer.Length;
      }
    }

    method Push(p: Prefix, data: seq<byte>) returns (ok: bool)
      requires Valid(p)
      modifies this, buffer
      ensures Valid(p) && buffer == old(buffer)
      ensures ok <==> 0 < |data| <= p.max && Used(p, old(queue)) + |data| + p.width <= GetCapacity()
      ensures ok ==> queue == old(queue) + [data]
      ensures !ok ==> queue == old(queue) && head == old(head) && tail == old(tail) && buffer[..] == old(buffer[..])
    {
      hide Window;
      hide Records;
      hide ToLE;
      SpaceConserved(p);
      if data == [] || FreeSpace() < |data| + p.width || |data| > p.max {
        return false;
      }
      CopyIn(ToLE(|data|, p.width));
      CopyIn(data);
      RecordsAppend(p, queue, data);
      ConcatAssoc(Records(p, queue), ToLE(|data|, p.width), data);
      queue := queue + [data];
      return true;
    }

    // The reading lambda of Pop.
    method CopyOut(n: nat, pos: nat) returns (data: seq<byte>, next: nat)
      requires Shape() && pos < buffer.Length && n <= |From(pos)|
      ensures data == From(pos)[..n]
      ensures next < buffer.Length && From(next) == From(pos)[n..]
    {
      hide Window;
      var spaceToEnd := buffer.Length - pos;
      if spaceToEnd < n {
        ReadAround(buffer[..], pos, head, n);
        data := buffer[pos..] + buffer[..n - spaceToEnd];
        next := (n - spaceToEnd) % buffer.Length;
      } else {
        ReadAhead(buffer[..], pos, head, n);
        data := buffer[pos..pos + n];
        next := (n + pos) % buffer.Length;
      }
    }

    // Pop; `allocates` is whether the vector for the message can be allocated. The tail
    // moves only after that, so an exception leaves the ring as it was.
    method Pop(p: Prefix, allocates: bool) returns (r: Result<Option<seq<byte>>, Exception>)
      requires Valid(p)
      modifies this
      ensures Valid(p) && buffer == old(buffer)
      ensures old(queue) == [] ==> r == Ok(None)
      ensures old(queue) != [] && allocates ==> r == Ok(Some(old(queue)[0])) && queue == old(queue)[1..]
      ensures old(queue) != [] && !allocates ==> r == Err(BadAlloc)
      ensures old(queue) == [] || !allocates ==> queue == old(queue) && head == old(head) && tail == old(tail)
    {
      EmptyQueue(p);
      if IsEmpty() {
        return Ok(None);
      }
      FirstRecord(p, queue);
      var size, pos := CopyOut(p.width, tail);
      if !allocates {
        return Err(BadAlloc);
      }
      var result;
      result, pos := CopyOut(LE(size), pos);
      tail := pos;
      queue := queue[1..];
      return Ok(Some(result));
    }

    method Clear()
      requires Shape()
      modifies this
      ensures buffer == old(buffer) && queue == []
      ensures forall p: Prefix :: p.Valid() ==> Valid(p)
    {
      head, tail, queue := 0, 0, [];
    }

    method Swap(other: RingBuffer)
      requires Shape() && other.Shape()
      modifies this, other
      ensures queue == old(other.queue) && other.queue == old(queue)
      ensures buffer == old(other.buffer) && other.buffer == old(buffer)
      ensures head == old(other.head) && tail == old(other.tail)
      ensures other.head == old(head) && other.tail == old(tail)
      ensures forall p: Prefix :: old(Valid(p)) ==> other.Valid(p)
      ensures forall p: Prefix :: old(other.Valid(p)) ==> Valid(p)
    {
      buffer, other.buffer := other.buffer, buffer;
      head, other.head := other.head, head;
      tail, other.tail := other.tail, tail;
      queue, other.queue := other.queue, queue;
    }

    // Move assignment: the moved-from buffer is left with no storage at all.
    method MoveFrom(other: RingBuffer)
      requires Shape() && other.Shape()
      modifies this, other
      ensures queue == old(other.queue) && buffer == old(other.buffer)
      ensures other != this ==> fresh(other.buffer)
      ensures forall p: Prefix :: old(other.Valid(p)) ==> Valid(p)
      ensures other != this ==> other.queue == [] && other.GetCapacity() == 0
      ensures other != this ==> forall p: Prefix :: p.Valid() ==> other.Valid(p)
    {
      if other != this {
        buffer := other.buffer;
        other.buffer := new byte[0];
        head, other.head := other.head, 0;
        tail, other.tail := other.tail, 0;
        queue, other.queue := other.queue, [];
      }
    }
  }

  // ---- whole runs against bounded queues ----

  // Two rings take part, so that Swap and move have a partner; a and b, or from and
  // to, may be the same ring.
  datatype Side = Left | Right
  datatype Op =
    | PushOp(at: Side, data: seq<byte>)
    | PopOp(at: Side, allocates: bool)
    | ClearOp(at: Side)
    | SwapOp(a: Side, b: Side)
    | MoveOp(to: Side, from: Side)
  datatype Reply = Pushed(ok: bool) | Popped(message: Result<Option<seq<byte>>, Exception>) | Done

  // A queue with its past: all messages it took, and those that left it again.
  datatype Fifo = Fifo(capacity: nat, queue: seq<seq<byte>>, accepted: seq<seq<byte>>, gone: seq<seq<byte>>)

  datatype Pair = Pair(left: Fifo, right: Fifo) {
    function On(s: Side): Fifo {
      if s == Left then left else right
    }

    function With(s: Side, f: Fifo): Pair {
      if s == Left then Pair(f, right) else Pair(left, f)
    }
  }

  predicate Accepts(p: Prefix, f: Fifo, m: seq<byte>) {
    Storable(p, m) && Used(p, f.queue) + |m| + p.width <= f.capacity
  }

  function PushTo(p: Prefix, f: Fifo, m: seq<byte>): Fifo {
    if Accepts(p, f, m) then f.(queue := f.queue + [m], accepted := f.accepted + [m]) else f
  }

  function PopFrom(f: Fifo, allocates: bool): Fifo {
    if f.queue == [] || !allocates then f else f.(queue := f.queue[1..], gone := f.gone + [f.queue[0]])
  }

  // All messages of a queue are dropped.
  function Drop(f: Fifo): Fifo {
    f.(queue := [], gone := f.gone + f.queue)
  }

  function PairStep(p: Prefix, w: Pair, op: Op): Pair {
    match op
    case PushOp(s, m) => w.With(s, PushTo(p, w.On(s), m))
    case PopOp(s, allocates) => w.With(s, PopFrom(w.On(s), allocates))
    case ClearOp(s) => w.With(s, Drop(w.On(s)))
    case SwapOp(a, b) => w.With(a, w.On(b)).With(b, w.On(a))
    case MoveOp(to, from) =>
      if to == from then w else w.With(to, w.On(from)).With(from, Drop(w.On(to)).(capacity := 0))
  }

  function PairReply(p: Prefix, w: Pair, op: Op): Reply {
    match op
    case PushOp(s, m) => Pushed(Accepts(p, w.On(s), m))
    case PopOp(s, allocates) =>
      Popped(if w.On(s).queue == [] then Ok(None) else if allocates then Ok(Some(w.On(s).queue[0])) else Err(BadAlloc))
    case _ => Done
  }

  function PairRun(p: Prefix, start: Pair, ops: seq<Op>): Pair {
    if ops == [] then start else PairStep(p, PairRun(p, start, ops[..|ops| - 1]), ops[|ops| - 1])
  }

  function PairReplies(p: Prefix, start: Pair, ops: seq<Op>): seq<Reply> {
    if ops == [] then []
    else
      var before := ops[..|ops| - 1];
      PairReplies(p, start, before) + [PairReply(p, PairRun(p, start, before), ops[|ops| - 1])]
  }

  function Fresh(capacity: nat): Fifo {
    Fifo(capacity, [], [], [])
  }

  predicate InOrder(p: Prefix, f: Fifo) {
    f.accepted == f.gone + f.queue && Used(p, f.queue) <= f.capacity
  }

  lemma PushKeeps(p: Prefix, f: Fifo, m: seq<byte>)
    requires InOrder(p, f)
    ensures InOrder(p, PushTo(p, f, m))
  {
    UsedAppend(p, f.queue, m);
    hide Used;
    assert f.gone + f.queue + [m] == f.gone + (f.queue + [m]);
  }

  lemma PopKeeps(p: Prefix, f: Fifo, allocates: bool)
    requires InOrder(p, f)
    ensures InOrder(p, PopFrom(f, allocates))
  {
    if f.queue != [] { assert f.gone + [f.queue[0]] + f.queue[1..] == f.gone + f.queue; }
  }

  lemma DropKeeps(p: Prefix, f: Fifo, capacity: nat)
    requires InOrder(p, f)
    ensures InOrder(p, Drop(f).(capacity := capacity)) && InOrder(p, Drop(f))
  {
    assert f.gone + f.queue + [] == f.gone + f.queue;
  }

  lemma InOrderKept(p: Prefix, w: Pair, op: Op)
    requires InOrder(p, w.left) && InOrder(p, w.right)
    ensures InOrder(p, PairStep(p, w, op).left) && InOrder(p, PairStep(p, w, op).right)
  {
    hide InOrder;
    hide PushTo;
    hide PopFrom;
    hide Drop;
    match op
    case PushOp(s, m) => PushKeeps(p, w.On(s), m);
    case PopOp(s, allocates) => PopKeeps(p, w.On(s), allocates);
    case ClearOp(s) => DropKeeps(p, w.On(s), 0);
    case SwapOp(_, _) =>
    case MoveOp(to, _) => DropKeeps(p, w.On(to), 0);
  }

  lemma {:induction false} RunInOrder(p: Prefix, left: nat, right: nat, ops: seq<Op>)
    ensures var w := PairRun(p, Pair(Fresh(left), Fresh(right)), ops);
      InOrder(p, w.left) && InOrder(p, w.right)
  {
    if ops != [] {
      hide InOrder;
      hide PairStep;
      var before := ops[..|ops| - 1];
      RunInOrder(p, left, right, before);
      InOrderKept(p, PairRun(p, Pair(Fresh(left), Fresh(right)), before), ops[|ops| - 1]);
    }
  }

  // Messages leave a queue in the order they came, none is lost or doubled, and what is
  // stored never exceeds the capacity; a queue keeps its past when it changes places.
  lemma FirstInFirstOut(p: Prefix, left: nat, right: nat, ops: seq<Op>)
    ensures var w := PairRun(p, Pair(Fresh(left), Fresh(right)), ops);
      && w.left.accepted == w.left.gone + w.left.queue && Used(p, w.left.queue) <= w.left.capacity
      && w.right.accepted == w.right.gone + w.right.queue && Used(p, w.right.queue) <= w.right.capacity
  {
    RunInOrder(p, left, right, ops);
    hide PairRun;
  }

  function Other(s: Side): Side {
    if s == Left then Right else Left
  }

  // One step, as seen from both sides.
  lemma StepIs(p: Prefix, w: Pair, n: Pair, op: Op)
    requires n == PairStep(p, w, op)
    ensures op.PushOp? ==> n.On(Other(op.at)) == w.On(Other(op.at)) && PushedTo(p, w.On(op.at), n.On(op.at), op.data)
    ensures op.PopOp? ==> n.On(Other(op.at)) == w.On(Other(op.at)) && PoppedFrom(w.On(op.at), n.On(op.at), op.allocates)
    ensures op.ClearOp? ==> n.On(Other(op.at)) == w.On(Other(op.at)) && n.On(op.at).queue == []
                            && n.On(op.at).capacity == w.On(op.at).capacity
    ensures op.SwapOp? ==> if op.a == op.b then n == w else n.left == w.right && n.right == w.left
    ensures op.MoveOp? ==> if op.to == op.from then n == w else
              n.On(op.to) == w.On(op.from) && n.On(op.from).queue == [] && n.On(op.from).capacity == 0
  {
    hide Used;
  }

  predicate PushedTo(p: Prefix, f: Fifo, g: Fifo, m: seq<byte>) {
    if 0 < |m| <= p.max && Used(p, f.queue) + |m| + p.width <= f.capacity
    then g == Fifo(f.capacity, f.queue + [m], f.accepted + [m], f.gone) else g == f
  }

  predicate PoppedFrom(f: Fifo, g: Fifo, allocates: bool) {
    if f.queue != [] && allocates
    then [f.queue[0]] + g.queue == f.queue && g == Fifo(f.capacity, g.queue, f.accepted, f.gone + [f.queue[0]])
    else g == f
  }

  lemma {:induction false} UsedAppend(p: Prefix, q: seq<seq<byte>>, m: seq<byte>)
    ensures Used(p, q + [m]) == Used(p, q) + |m| + p.width
  {
    if q == [] {
      assert (q + [m])[1..] == [];
    } else {
      assert (q + [m])[1..] == q[1..] + [m];
      UsedAppend(p, q[1..], m);
    }
  }

  // A ring that holds what a queue holds.
  ghost predicate Holds(ring: RingBuffer, p: Prefix, f: Fifo)
    reads ring, ring.buffer
  {
    ring.Valid(p) && ring.queue == f.queue && ring.GetCapacity() == f.capacity
  }

  // In every run of two rings, each call answers as the queues do.
  method RunOps(leftCapacity: nat, rightCapacity: nat, p: Prefix, ops: seq<Op>)
    returns (left: RingBuffer, right: RingBuffer, replies: seq<Reply>)
    requires p.Valid() && leftCapacity > 0 && rightCapacity > 0
    ensures fresh(left) && fresh(right)
    ensures var start := Pair(Fresh(leftCapacity), Fresh(rightCapacity));
      && Holds(left, p, PairRun(p, start, ops).left)
      && Holds(right, p, PairRun(p, start, ops).right)
      && replies == PairReplies(p, start, ops)
  {
    hide *;
    left := NewRing(leftCapacity, p);
    right := NewRing(rightCapacity, p);
    replies := [];
    ghost var start := Pair(Fresh(leftCapacity), Fresh(rightCapacity));
    RunNothing(p, start, ops);
    for i := 0 to |ops|
      invariant fresh(left) && fresh(right) && fresh(left.buffer) && fresh(right.buffer)
      invariant left != right && left.buffer != right.buffer
      invariant Holds(left, p, PairRun(p, start, ops[..i]).left)
      invariant Holds(right, p, PairRun(p, start, ops[..i]).right)
      invariant replies == PairReplies(p, start, ops[..i])
    {
      RunStep(p, start, ops, i);
      var r := RunOp(left, right, p, ops[i], PairRun(p, start, ops[..i]));
      replies := replies + [r];
    }
    assert ops[..|ops|] == ops;
  }

  lemma RunNothing(p: Prefix, start: Pair, ops: seq<Op>)
    ensures PairRun(p, start, ops[..0]) == start && PairReplies(p, start, ops[..0]) == []
  {}

  lemma RunStep(p: Prefix, start: Pair, ops: seq<Op>, i: nat)
    requires i < |ops|
    ensures var w := PairRun(p, start, ops[..i]);
      && PairRun(p, start, ops[..i + 1]) == PairStep(p, w, ops[i])
      && PairReplies(p, start, ops[..i + 1]) == PairReplies(p, start, ops[..i]) + [PairReply(p, w, ops[i])]
  {
    hide PairStep;
    hide PairReply;
    assert ops[..i + 1][..i] == ops[..i];
  }

  method NewRing(capacity: nat, p: Prefix) returns (ring: RingBuffer)
    requires p.Valid() && capacity > 0
    ensures fresh(ring) && fresh(ring.buffer) && Holds(ring, p, Fresh(capacity))
  {
    ring := new RingBuffer(capacity);
  }

  // One call on one ring.
  method RunOn(ring: RingBuffer, p: Prefix, op: Op, ghost f: Fifo) returns (r: Reply)
    requires op.PushOp? || op.PopOp? || op.ClearOp?
    requires Holds(ring, p, f)
    modifies ring, ring.buffer
    ensures ring.buffer == old(ring.buffer)
    ensures op.PushOp? ==> Holds(ring, p, PushTo(p, f, op.data)) && r == Pushed(Accepts(p, f, op.data))
    ensures op.PopOp? ==>
      && Holds(ring, p, PopFrom(f, op.allocates))
      && r == Popped(if f.queue == [] then Ok(None) else if op.allocates then Ok(Some(f.queue[0])) else Err(BadAlloc))
    ensures op.ClearOp? ==> Holds(ring, p, Drop(f)) && r == Done
  {
    hide RingBuffer.Valid;
    hide Used;
    if op.PushOp? {
      var ok := ring.Push(p, op.data);
      r := Pushed(ok);
    } else if op.PopOp? {
      var message := ring.Pop(p, op.allocates);
      r := Popped(message);
    } else {
      PrefixOf(ring, p);
      ring.Clear();
      r := Done;
    }
  }

  // One call on a pair of rings.
  method RunOp(left: RingBuffer, right: RingBuffer, p: Prefix, op: Op, ghost w: Pair) returns (r: Reply)
    requires left != right && left.buffer != right.buffer
    requires Holds(left, p, w.left) && Holds(right, p, w.right)
    modifies left, right, left.buffer, right.buffer
    ensures left.buffer != right.buffer
    ensures fresh({left.buffer, right.buffer} - {old(left.buffer), old(right.buffer)})
    ensures Holds(left, p, PairStep(p, w, op).left) && Holds(right, p, PairStep(p, w, op).right)
    ensures r == PairReply(p, w, op)
  {
    hide RingBuffer.Valid;
    hide PushTo;
    hide PopFrom;
    hide Drop;
    hide Accepts;
    PrefixOf(left, p);
    PrefixOf(right, p);
    if op.SwapOp? {
      var a, b := if op.a == Left then left else right, if op.b == Left then left else right;
      a.Swap(b);
      r := Done;
    } else if op.MoveOp? {
      var to, from := if op.to == Left then left else right, if op.from == Left then left else right;
      DropIsEmpty(w.On(op.to));
      to.MoveFrom(from);
      r := Done;
    } else if op.at == Left {
      r := RunOn(left, p, op, w.left);
    } else {
      r := RunOn(right, p, op, w.right);
    }
  }

  lemma DropIsEmpty(f: Fifo)
    ensures Drop(f).queue == []
  {}

  lemma PrefixOf(ring: RingBuffer, p: Prefix)
    requires ring.Valid(p)
    ensures p.Valid() && ring.Shape()
  {}
}

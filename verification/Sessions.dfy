// The write side of SessionServer and SessionClient (src/net/server.cpp and
// src/net/client.cpp): handlers that run one at a time on the session's executor.
module WritePump {
  import opened Bits
  import opened RingBuffer

  const QUEUE_CAPACITY: nat := 5680 // ten packets of the largest total size
  const PREFIX: Prefix := Prefix(2, 0xffff) // uint16_t

  // What the executor runs: a posted Write, or the completion of a socket write.
  datatype Step = Post(packet: seq<byte>) | Complete | Fail

  predicate Fits(m: seq<byte>) {
    0 < |m| <= 0xffff && |m| + 2 <= QUEUE_CAPACITY
  }

  // The posted packets that fit, in order.
  function Accepted(steps: seq<Step>): seq<seq<byte>> {
    if steps == [] then []
    else
      var before, last := Accepted(steps[..|steps| - 1]), steps[|steps| - 1];
      if last.Post? && Fits(last.packet) then before + [last.packet] else before
  }

  function Finished(steps: seq<Step>): nat {
    if steps == [] then 0
    else Finished(steps[..|steps| - 1]) + if steps[|steps| - 1].Post? then 0 else 1
  }

  function InFlight(steps: seq<Step>): int {
    |Accepted(steps)| - Finished(steps)
  }

  // A socket write completes only after it was started.
  ghost predicate Feasible(steps: seq<Step>) {
    forall n :: 0 <= n <= |steps| ==> InFlight(steps[..n]) >= 0
  }

  class Session {
    const queue: RingBuffer
    var inFlight: nat
    ghost var accepted: seq<seq<byte>> // Push returned true
    ghost var started: seq<seq<byte>> // handed to async_write

    // Nothing is lost or reordered between Push and async_write.
    ghost predicate Valid()
      reads this, queue, queue.buffer
    {
      && queue.Valid(PREFIX) && queue.GetCapacity() == QUEUE_CAPACITY
      && accepted == started + queue.queue
    }

    constructor ()
      ensures Valid() && queue.queue == [] && fresh(queue) && fresh(queue.buffer)
      ensures inFlight == 0 && accepted == []
    {
      PrefixValid();
      queue := new RingBuffer(QUEUE_CAPACITY);
      inFlight, accepted, started := 0, [], [];
    }

    static lemma PrefixValid()
      ensures PREFIX.Valid()
    {
      assert Pow256(2) == 0x1_0000;
    }

    // Pops before the write it starts has completed.
    method WriteImpl()
      requires queue.Valid(PREFIX)
      modifies this`inFlight, this`started, queue
      ensures queue.Valid(PREFIX) && queue.buffer == old(queue.buffer)
      ensures old(queue.queue) == [] ==> queue.queue == [] && inFlight == old(inFlight) && started == old(started)
      ensures old(queue.queue) != [] ==>
        && queue.queue == old(queue.queue)[1..] && inFlight == old(inFlight) + 1
        && started == old(started) + [old(queue.queue)[0]]
    {
      var opt := queue.Pop(PREFIX, true);
      if opt.value.None? {
        return;
      }
      started := started + [opt.value.value];
      inFlight := inFlight + 1;
    }

    // The handler posted by Write, once the packet is made. Nothing is lost or reordered, and
    // as long as something is queued, a write is in flight whose completion comes back for it.
    method Post(packet: seq<byte>)
      requires Valid()
      modifies this, queue, queue.buffer
      ensures Valid() && queue.buffer == old(queue.buffer)
      ensures accepted == if 0 < |packet| <= 0xffff && Used(PREFIX, old(queue.queue)) + |packet| + 2 <= 5680
                          then old(accepted) + [packet] else old(accepted)
      ensures inFlight - old(inFlight) == |started| - old(|started|)
      ensures accepted == started + queue.queue
      ensures (old(queue.queue) != [] ==> old(inFlight) > 0) ==> (queue.queue != [] ==> inFlight > 0)
      ensures old(queue.queue) == [] ==> queue.queue == []
    {
      queue.EmptyQueue(PREFIX);
      var flag := queue.IsEmpty();
      var ok := queue.Push(PREFIX, packet);
      if ok { accepted := accepted + [packet]; }
      if flag {
        WriteImpl();
      }
    }

    // The completion handler of a socket write; an error ends the pump.
    method Completed(error: bool)
      requires Valid() && inFlight > 0
      modifies this, queue
      ensures Valid() && queue.buffer == old(queue.buffer)
      ensures accepted == old(accepted)
      ensures inFlight - old(inFlight) == |started| - old(|started|) - 1
      ensures !error ==> started == old(started) + (if old(queue.queue) == [] then [] else [old(queue.queue)[0]])
      ensures accepted == started + queue.queue
      ensures !error ==> (queue.queue != [] ==> inFlight > 0)
      ensures old(queue.queue) == [] ==> queue.queue == []
    {
      inFlight := inFlight - 1;
      if error {
        return;
      }
      queue.EmptyQueue(PREFIX);
      if !queue.IsEmpty() {
        WriteImpl();
      }
    }

    lemma NothingWaits()
      requires Valid() && queue.queue == []
      ensures started == accepted && Used(PREFIX, queue.queue) == 0
    {}
  }

  // Over every run: exactly the packets that fit are started, in the order they were
  // posted and each by its own handler, even if socket writes fail.
  method Run(steps: seq<Step>) returns (s: Session)
    requires Feasible(steps)
    ensures fresh(s) && s.Valid() && s.queue.queue == []
    ensures s.started == s.accepted == Accepted(steps)
    ensures s.inFlight == InFlight(steps)
  {
    hide *;
    s := new Session();
    NothingYet(steps);
    s.NothingWaits();
    for i := 0 to |steps|
      invariant fresh(s) && fresh(s.queue) && fresh(s.queue.buffer) && s.Valid() && s.queue.queue == []
      invariant s.accepted == Accepted(steps[..i])
      invariant s.inFlight == InFlight(steps[..i])
    {
      OneStep(steps, i);
      s.NothingWaits();
      match steps[i]
      case Post(packet) =>
        FitsIs(packet);
        s.Post(packet);
        s.NothingWaits();
      case Complete =>
        s.Completed(false);
        s.NothingWaits();
      case Fail =>
        s.Completed(true);
        s.NothingWaits();
    }
    assert steps[..|steps|] == steps;
    s.NothingWaits();
  }

  lemma FitsIs(m: seq<byte>)
    ensures Fits(m) <==> 0 < |m| <= 0xffff && |m| + 2 <= 5680
  {}

  lemma NothingYet(steps: seq<Step>)
    ensures Accepted(steps[..0]) == [] && InFlight(steps[..0]) == 0
  {}

  lemma OneStep(steps: seq<Step>, i: nat)
    requires i < |steps| && Feasible(steps)
    ensures InFlight(steps[..i + 1]) >= 0
    ensures steps[i].Post? && Fits(steps[i].packet) ==>
      Accepted(steps[..i + 1]) == Accepted(steps[..i]) + [steps[i].packet]
      && InFlight(steps[..i + 1]) == InFlight(steps[..i]) + 1
    ensures steps[i].Post? && !Fits(steps[i].packet) ==>
      Accepted(steps[..i + 1]) == Accepted(steps[..i]) && InFlight(steps[..i + 1]) == InFlight(steps[..i])
    ensures !steps[i].Post? ==>
      Accepted(steps[..i + 1]) == Accepted(steps[..i]) && InFlight(steps[..i + 1]) == InFlight(steps[..i]) - 1
  {
    assert steps[..i + 1][..i] == steps[..i];
  }

  // The queue does not keep socket writes apart: at most one is in flight exactly
  // in the runs that post a packet only when none is.
  lemma OneWriteAtATime(steps: seq<Step>)
    requires Feasible(steps)
    ensures (forall n :: 0 <= n <= |steps| ==> InFlight(steps[..n]) <= 1)
       <==> (forall i :: 0 <= i < |steps| && steps[i].Post? && Fits(steps[i].packet) ==> InFlight(steps[..i]) <= 0)
  {
    hide InFlight;
    hide Fits;
    var calm := forall i :: 0 <= i < |steps| && steps[i].Post? && Fits(steps[i].packet) ==> InFlight(steps[..i]) <= 0;
    var single := forall n :: 0 <= n <= |steps| ==> InFlight(steps[..n]) <= 1;
    forall i | 0 <= i < |steps|
      ensures steps[i].Post? && Fits(steps[i].packet) && InFlight(steps[..i]) > 0 ==> InFlight(steps[..i + 1]) > 1
    {
      OneStep(steps, i);
    }
    if single {
      forall i | 0 <= i < |steps| && steps[i].Post? && Fits(steps[i].packet)
        ensures InFlight(steps[..i]) <= 0
      {
        assert InFlight(steps[..i + 1]) <= 1;
      }
    }
    if calm {
      forall n | 0 <= n <= |steps| ensures InFlight(steps[..n]) <= 1 {
        AtMostOne(steps, n);
      }
    }
  }

  lemma {:induction false} AtMostOne(steps: seq<Step>, n: nat)
    requires n <= |steps| && Feasible(steps)
    requires forall i :: 0 <= i < |steps| && steps[i].Post? && Fits(steps[i].packet) ==> InFlight(steps[..i]) <= 0
    ensures InFlight(steps[..n]) <= 1
  {
    if n == 0 {
      NothingYet(steps);
    } else {
      hide InFlight;
      hide Fits;
      AtMostOne(steps, n - 1);
      OneStep(steps, n - 1);
    }
  }

  // The smallest run with two writes in flight.
  lemma TwoInFlight(x: seq<byte>, y: seq<byte>)
    requires Fits(x) && Fits(y)
    ensures Feasible([Post(x), Post(y)]) && InFlight([Post(x), Post(y)]) == 2
  {
    hide Fits;
    var steps := [Post(x), Post(y)];
    assert steps[..0] == [] && steps[..1] == [Post(x)] && steps[..2] == steps && steps[..1][..0] == [];
    assert Accepted(steps[..1]) == [x];
    assert Accepted(steps) == [x, y];
    assert Finished(steps[..1]) == 0;
  }
}

// The message counters as nonces (src/net/client.cpp, src/net/server.cpp and
// src/net/server.h). Each side encrypts with its counter and increments it on every
// receive. A received packet is parsed later, by some thread of a pool, with a nonce
// that this side derives from its counter at that time.
module NonceProtocol {
  import opened Bits
  import opened Wrappers
  import opened AeadSpec
  import Packet

  // Parse(k) parses the packet that was received as number k.
  datatype Event =
    | ClientWrite | ServerReceive | ServerParse(k: nat)
    | ServerWrite | ClientReceive | ClientParse(k: nat)

  // Both counters; for each direction the counter value every packet was made with, how
  // many have arrived, and the value each parsed packet was opened with.
  datatype Net = Net(client: u64, server: u64,
                     requests: seq<u64>, requestsIn: nat, requestReads: map<nat, u64>,
                     replies: seq<u64>, repliesIn: nat, replyReads: map<nat, u64>)

  const START: Net := Net(0, 0, [], 0, map[], [], 0, map[])

  predicate Enabled(n: Net, e: Event) {
    match e
    case ServerReceive => n.requestsIn < |n.requests|
    case ClientReceive => n.repliesIn < |n.replies|
    case ServerParse(k) => k < n.requestsIn && k !in n.requestReads
    case ClientParse(k) => k < n.repliesIn && k !in n.replyReads
    case _ => true
  }

  function U64(x: nat): u64 {
    x % TWO64
  }

  function Step(n: Net, e: Event): Net {
    match e
    case ClientWrite => n.(requests := n.requests + [n.client])
    case ServerWrite => n.(replies := n.replies + [n.server])
    // the handler of a receive only increments the counter
    case ServerReceive => n.(server := U64(n.server + 1), requestsIn := n.requestsIn + 1)
    case ClientReceive => n.(client := U64(n.client + 1), repliesIn := n.repliesIn + 1)
    // the server goes one back from its counter, the client does not
    case ServerParse(k) => n.(requestReads := n.requestReads[k := (n.server - 1) % TWO64])
    case ClientParse(k) => n.(replyReads := n.replyReads[k := n.client])
  }

  function Exec(es: seq<Event>): Net {
    if es == [] then START else Step(Exec(es[..|es| - 1]), es[|es| - 1])
  }

  ghost predicate Feasible(es: seq<Event>) {
    forall i :: 0 <= i < |es| ==> Enabled(Exec(es[..i]), es[i])
  }

  // The counters in closed form, and what can have been parsed.
  ghost predicate Closed(n: Net) {
    && n.client == U64(n.repliesIn) && n.server == U64(n.requestsIn)
    && n.requestsIn <= |n.requests| && n.repliesIn <= |n.replies|
    && (forall k :: k in n.requestReads ==> k < n.requestsIn)
    && (forall k :: k in n.replyReads ==> k < n.repliesIn)
  }

  lemma Successor(c: nat)
    ensures U64(U64(c) + 1) == U64(c + 1) && (U64(c + 1) - 1) % TWO64 == U64(c)
  {}

  lemma ClosedStep(n: Net, e: Event)
    requires Closed(n) && Enabled(n, e)
    ensures Closed(Step(n, e))
  {
    Successor(n.requestsIn);
    Successor(n.repliesIn);
    hide U64;
  }

  lemma {:induction false} ClosedRun(es: seq<Event>)
    requires Feasible(es)
    ensures Closed(Exec(es))
  {
    if es != [] {
      hide Step;
      hide Closed;
      assert es[..|es|] == es;
      FeasiblePrefix(es, |es| - 1);
      ClosedRun(es[..|es| - 1]);
      ClosedStep(Exec(es[..|es| - 1]), es[|es| - 1]);
    }
  }

  lemma FeasiblePrefix(es: seq<Event>, i: nat)
    requires Feasible(es) && i <= |es|
    ensures Feasible(es[..i])
  {
    hide Exec;
    hide Enabled;
    assert forall j :: 0 <= j < i ==> es[..i][..j] == es[..j];
  }

  // A run and the state it leads to.
  ghost predicate Reaches(es: seq<Event>, n: Net) {
    Feasible(es) && Exec(es) == n
  }

  lemma Extend(es: seq<Event>, n: Net, e: Event, next: Net)
    requires Reaches(es, n) && Enabled(n, e) && Step(n, e) == next
    ensures Reaches(es + [e], next)
  {
    hide Step;
    hide Enabled;
    assert (es + [e])[..|es|] == es;
    assert forall j :: 0 <= j < |es| ==> (es + [e])[..j] == es[..j];
  }

  // Packets made with one counter and opened with the other use the same AEAD nonce.
  predicate SameNonce(made: u64, read: u64) {
    Packet.NonceOf(made) == Packet.NonceOf(read)
  }

  // How far a write is from stop-and-wait. For a request: earlier requests without
  // a reply at the client. For a reply: requests received but not yet answered, less
  // the one being answered.
  function Outstanding(n: Net, e: Event): int
    requires e.ClientWrite? || e.ServerWrite?
  {
    if e.ClientWrite? then |n.requests| - n.repliesIn else n.requestsIn - 1 - |n.replies|
  }

  // How many later packets have arrived when a packet is parsed.
  function Late(n: Net, e: Event): int
    requires e.ServerParse? || e.ClientParse?
  {
    (if e.ServerParse? then n.requestsIn else n.repliesIn) - 1 - e.k
  }

  // What happened stays in the record.
  ghost predicate Extends(m: Net, n: Net) {
    && m.requests <= n.requests && m.replies <= n.replies
    && (forall k :: k in m.requestReads ==> k in n.requestReads && n.requestReads[k] == m.requestReads[k])
    && (forall k :: k in m.replyReads ==> k in n.replyReads && n.replyReads[k] == m.replyReads[k])
  }

  lemma StepExtends(n: Net, e: Event)
    requires Enabled(n, e)
    ensures Extends(n, Step(n, e))
  {
    hide U64;
  }

  lemma ExtendsTransitive(m: Net, n: Net, o: Net)
    requires Extends(m, n) && Extends(n, o)
    ensures Extends(m, o)
  {}

  lemma {:induction false} HistoryKept(es: seq<Event>, i: nat)
    requires Feasible(es) && i <= |es|
    ensures Extends(Exec(es[..i]), Exec(es))
  {
    hide *;
    if i == |es| {
      assert es[..i] == es;
      ExtendsItself(Exec(es));
    } else {
      var before := es[..|es| - 1];
      assert before[..i] == es[..i];
      LastStep(es);
      HistoryKept(before, i);
      StepExtends(Exec(before), es[|es| - 1]);
      ExtendsTransitive(Exec(es[..i]), Exec(before), Exec(es));
    }
  }

  lemma ExtendsItself(n: Net)
    ensures Extends(n, n)
  {}

  lemma LastStep(es: seq<Event>)
    requires Feasible(es) && es != []
    ensures var before, e := es[..|es| - 1], es[|es| - 1];
      Feasible(before) && Enabled(Exec(before), e) && Exec(es) == Step(Exec(before), e)
  {
    hide Step;
    hide Enabled;
    FeasiblePrefix(es, |es| - 1);
  }

  lemma LowBits(a: nat)
    ensures U64(a) % TWO32 == a % TWO32
  {
    assert a == TWO32 * (TWO32 * (a / TWO64)) + a % TWO64;
    Mod32(a % TWO64, TWO32 * (a / TWO64));
  }

  lemma Difference(a: nat, b: nat)
    ensures (a - b) % TWO32 == 0 <==> a % TWO32 == b % TWO32
  {
    Mod32(a % TWO32 - b % TWO32, a / TWO32 - b / TWO32);
  }

  lemma SameResidue(made: nat, read: nat)
    ensures SameNonce(U64(made), U64(read)) <==> (read - made) % TWO32 == 0
  {
    LowBits(made);
    LowBits(read);
    hide U64;
    Difference(read, made);
  }

  // An event of a run, from the state before it to the end.
  lemma AtEvent(es: seq<Event>, i: nat)
    requires Feasible(es) && i < |es|
    ensures var before := Exec(es[..i]);
      Closed(before) && Enabled(before, es[i]) && Extends(Step(before, es[i]), Exec(es))
  {
    hide Step;
    hide Closed;
    hide Extends;
    FeasiblePrefix(es, i);
    ClosedRun(es[..i]);
    HistoryKept(es, i + 1);
    assert es[..i + 1][..i] == es[..i];
  }

  // The request written at event i and parsed at event j.
  ghost predicate Request(es: seq<Event>, i: nat, j: nat) {
    i < |es| && j < |es| && es[i].ClientWrite? && es[j] == ServerParse(|Exec(es[..i]).requests|)
  }

  ghost predicate Reply(es: seq<Event>, i: nat, j: nat) {
    i < |es| && j < |es| && es[i].ServerWrite? && es[j] == ClientParse(|Exec(es[..i]).replies|)
  }

  lemma RequestMade(es: seq<Event>, i: nat)
    requires Feasible(es) && i < |es| && es[i].ClientWrite?
    ensures var k := |Exec(es[..i]).requests|;
      k < |Exec(es).requests| && Exec(es).requests[k] == U64(Exec(es[..i]).repliesIn)
  {
    AtEvent(es, i);
    hide Exec;
    hide U64;
    var before := Exec(es[..i]);
    assert Step(before, es[i]).requests[|before.requests|] == before.client;
  }

  lemma RequestRead(es: seq<Event>, j: nat)
    requires Feasible(es) && j < |es| && es[j].ServerParse?
    ensures var n, k := Exec(es), es[j].k;
      k in n.requestReads && Exec(es[..j]).requestsIn > 0 && n.requestReads[k] == U64(Exec(es[..j]).requestsIn - 1)
  {
    AtEvent(es, j);
    hide Exec;
    ServerParses(Exec(es[..j]), es[j].k);
    hide U64;
    hide Step;
    hide Enabled;
  }

  lemma ServerParses(n: Net, k: nat)
    requires Closed(n) && Enabled(n, ServerParse(k))
    ensures n.requestsIn > 0
    ensures var m := Step(n, ServerParse(k)).requestReads; k in m && m[k] == U64(n.requestsIn - 1)
  {
    Successor(n.requestsIn - 1);
    hide U64;
  }

  lemma ReplyMade(es: seq<Event>, i: nat)
    requires Feasible(es) && i < |es| && es[i].ServerWrite?
    ensures var k := |Exec(es[..i]).replies|;
      k < |Exec(es).replies| && Exec(es).replies[k] == U64(Exec(es[..i]).requestsIn)
  {
    AtEvent(es, i);
    hide Exec;
    hide U64;
    var before := Exec(es[..i]);
    assert Step(before, es[i]).replies[|before.replies|] == before.server;
  }

  lemma ReplyRead(es: seq<Event>, j: nat)
    requires Feasible(es) && j < |es| && es[j].ClientParse?
    ensures var n, k := Exec(es), es[j].k;
      k in n.replyReads && n.replyReads[k] == U64(Exec(es[..j]).repliesIn)
  {
    AtEvent(es, j);
    hide Exec;
    hide U64;
    var before := Exec(es[..j]);
    assert Step(before, es[j]).replyReads[es[j].k] == before.client;
  }

  // In any run, however the two sides and their pools interleave: a request is opened with
  // the nonce it was sealed with exactly when the requests outstanding at the write and the
  // packets that overtook its parse add up to a multiple of 2^32.
  lemma RequestNonce(es: seq<Event>, i: nat, j: nat)
    requires Feasible(es) && Request(es, i, j)
    ensures var n, k := Exec(es), es[j].k;
      && k < |n.requests| && k in n.requestReads
      && (SameNonce(n.requests[k], n.requestReads[k])
          <==> (Outstanding(Exec(es[..i]), es[i]) + Late(Exec(es[..j]), es[j])) % TWO32 == 0)
  {
    hide Exec;
    hide Feasible;
    hide U64;
    hide SameNonce;
    RequestMade(es, i);
    RequestRead(es, j);
    SameResidue(Exec(es[..i]).repliesIn, Exec(es[..j]).requestsIn - 1);
  }

  // A reply: the two delays count against each other.
  lemma ReplyNonce(es: seq<Event>, i: nat, j: nat)
    requires Feasible(es) && Reply(es, i, j)
    ensures var n, k := Exec(es), es[j].k;
      && k < |n.replies| && k in n.replyReads
      && (SameNonce(n.replies[k], n.replyReads[k])
          <==> (Late(Exec(es[..j]), es[j]) - Outstanding(Exec(es[..i]), es[i])) % TWO32 == 0)
  {
    hide Exec;
    hide Feasible;
    hide U64;
    hide SameNonce;
    ReplyMade(es, i);
    ReplyRead(es, j);
    SameResidue(Exec(es[..i]).requestsIn, Exec(es[..j]).repliesIn);
  }

  // The smallest failing run: two requests before the first is answered. Request 1 was made
  // with counter 0 and is opened with 1; reply 0 was made with 2 and is opened with 1.
  lemma TwoRequestsAtOnce()
    ensures Reaches([ClientWrite, ClientWrite, ServerReceive, ServerParse(0), ServerReceive, ServerParse(1),
                     ServerWrite, ClientReceive, ClientParse(0)],
                    Net(1, 2, [0, 0], 2, map[0 := 0, 1 := 1], [2], 1, map[0 := 1]))
    ensures !SameNonce(0, 1) && !SameNonce(2, 1)
  {
    TwoRequests();
    hide Exec;
    hide Feasible;
    var m := map[0 := 0, 1 := 1];
    var e6 := [ClientWrite, ClientWrite, ServerReceive, ServerParse(0), ServerReceive, ServerParse(1)];
    Extend(e6, Net(0, 2, [0, 0], 2, m, [], 0, map[]), ServerWrite, Net(0, 2, [0, 0], 2, m, [2], 0, map[]));
    var e7 := e6 + [ServerWrite];
    Extend(e7, Net(0, 2, [0, 0], 2, m, [2], 0, map[]), ClientReceive, Net(1, 2, [0, 0], 2, m, [2], 1, map[]));
    var e8 := e7 + [ClientReceive];
    Extend(e8, Net(1, 2, [0, 0], 2, m, [2], 1, map[]), ClientParse(0),
           Net(1, 2, [0, 0], 2, m, [2], 1, map[0 := 1]));
    assert e8 + [ClientParse(0)] == [ClientWrite, ClientWrite, ServerReceive, ServerParse(0), ServerReceive,
                                     ServerParse(1), ServerWrite, ClientReceive, ClientParse(0)];
  }

  lemma TwoRequests()
    ensures Reaches([ClientWrite, ClientWrite, ServerReceive, ServerParse(0), ServerReceive, ServerParse(1)],
                    Net(0, 2, [0, 0], 2, map[0 := 0, 1 := 1], [], 0, map[]))
  {
    TwoWrites();
    hide Exec;
    hide Feasible;
    var e2 := [ClientWrite, ClientWrite];
    Extend(e2, Net(0, 0, [0, 0], 0, map[], [], 0, map[]), ServerReceive, Net(0, 1, [0, 0], 1, map[], [], 0, map[]));
    var e3 := e2 + [ServerReceive];
    Extend(e3, Net(0, 1, [0, 0], 1, map[], [], 0, map[]), ServerParse(0),
           Net(0, 1, [0, 0], 1, map[0 := 0], [], 0, map[]));
    var e4 := e3 + [ServerParse(0)];
    Extend(e4, Net(0, 1, [0, 0], 1, map[0 := 0], [], 0, map[]), ServerReceive,
           Net(0, 2, [0, 0], 2, map[0 := 0], [], 0, map[]));
    var e5 := e4 + [ServerReceive];
    Extend(e5, Net(0, 2, [0, 0], 2, map[0 := 0], [], 0, map[]), ServerParse(1),
           Net(0, 2, [0, 0], 2, map[0 := 0, 1 := 1], [], 0, map[]));
    assert e5 + [ServerParse(1)]
        == [ClientWrite, ClientWrite, ServerReceive, ServerParse(0), ServerReceive, ServerParse(1)];
  }

  lemma TwoWrites()
    ensures Reaches([ClientWrite, ClientWrite], Net(0, 0, [0, 0], 0, map[], [], 0, map[]))
  {
    var n0, n1, n2 := START, Net(0, 0, [0], 0, map[], [], 0, map[]), Net(0, 0, [0, 0], 0, map[], [], 0, map[]);
    assert Step(n0, ClientWrite) == n1 && Step(n1, ClientWrite) == n2;
    assert Reaches([], n0);
    hide *;
    WriteAnytime(n0);
    WriteAnytime(n1);
    Extend([], n0, ClientWrite, n1);
    assert [] + [ClientWrite] == [ClientWrite];
    Extend([ClientWrite], n1, ClientWrite, n2);
    assert [ClientWrite] + [ClientWrite] == [ClientWrite, ClientWrite];
  }

  lemma WriteAnytime(n: Net)
    ensures Enabled(n, ClientWrite)
  {}

  // A parse overtaken by one receive: even the very first request, made with counter 0, is
  // then opened with 1.
  lemma LateParse()
    ensures Reaches([ClientWrite, ClientWrite, ServerReceive, ServerReceive, ServerParse(0)],
                    Net(0, 2, [0, 0], 2, map[0 := 1], [], 0, map[]))
    ensures !SameNonce(0, 1)
  {
    TwoWrites();
    hide Exec;
    hide Feasible;
    var e2 := [ClientWrite, ClientWrite];
    Extend(e2, Net(0, 0, [0, 0], 0, map[], [], 0, map[]), ServerReceive, Net(0, 1, [0, 0], 1, map[], [], 0, map[]));
    var e3 := e2 + [ServerReceive];
    Extend(e3, Net(0, 1, [0, 0], 1, map[], [], 0, map[]), ServerReceive, Net(0, 2, [0, 0], 2, map[], [], 0, map[]));
    var e4 := e3 + [ServerReceive];
    Extend(e4, Net(0, 2, [0, 0], 2, map[], [], 0, map[]), ServerParse(0),
           Net(0, 2, [0, 0], 2, map[0 := 1], [], 0, map[]));
    assert e4 + [ServerParse(0)] == [ClientWrite, ClientWrite, ServerReceive, ServerReceive, ServerParse(0)];
  }

  // From end to end: under that condition the packet made for the write, followed by any
  // bytes, reads as what was sent when it is parsed, given an acceptable clock.
  lemma RequestArrives(es: seq<Event>, i: nat, j: nat, payload: seq<byte>, version: Packet.u16, flags: u32,
                       messageId: u64, key: seq<byte>, sent: u64, rest: seq<byte>, now: u64)
    requires Feasible(es) && Request(es, i, j)
    requires (Outstanding(Exec(es[..i]), es[i]) + Late(Exec(es[..j]), es[j])) % TWO32 == 0
    requires |payload| <= Packet.PAYLOAD_SIZE_MAX && Packet.Usable(flags, key)
    requires (now - sent) % TWO64 <= Packet.TIMESTAMP_LIMIT
    ensures var n, k := Exec(es), es[j].k;
      && k < |n.requests| && k in n.requestReads
      && Reads(payload, version, flags, messageId, key, sent, rest, now, n.requests[k], n.requestReads[k])
  {
    RequestNonce(es, i, j);
    hide *;
    var n, k := Exec(es), es[j].k;
    SealedReads(payload, version, flags, messageId, key, sent, rest, now, n.requests[k], n.requestReads[k]);
  }

  lemma ReplyArrives(es: seq<Event>, i: nat, j: nat, payload: seq<byte>, version: Packet.u16, flags: u32,
                     messageId: u64, key: seq<byte>, sent: u64, rest: seq<byte>, now: u64)
    requires Feasible(es) && Reply(es, i, j)
    requires (Late(Exec(es[..j]), es[j]) - Outstanding(Exec(es[..i]), es[i])) % TWO32 == 0
    requires |payload| <= Packet.PAYLOAD_SIZE_MAX && Packet.Usable(flags, key)
    requires (now - sent) % TWO64 <= Packet.TIMESTAMP_LIMIT
    ensures var n, k := Exec(es), es[j].k;
      && k < |n.replies| && k in n.replyReads
      && Reads(payload, version, flags, messageId, key, sent, rest, now, n.replies[k], n.replyReads[k])
  {
    ReplyNonce(es, i, j);
    hide *;
    var n, k := Exec(es), es[j].k;
    SealedReads(payload, version, flags, messageId, key, sent, rest, now, n.replies[k], n.replyReads[k]);
  }

  // What is made with one counter and read with the other is the payload.
  ghost predicate Reads(payload: seq<byte>, version: Packet.u16, flags: u32, messageId: u64, key: seq<byte>,
                        sent: u64, rest: seq<byte>, now: u64, made: u64, read: u64)
    requires |payload| <= Packet.PAYLOAD_SIZE_MAX && Packet.Usable(flags, key)
  {
    Packet.Reading(Packet.PacketBytes(Packet.MadePacket(payload, version, flags, made, messageId, key, sent)) + rest,
                   read, key, now)
    == Ok(Packet.Packet(Packet.Header(version, flags, sent, messageId, |payload|, made), payload))
  }

  lemma SealedReads(payload: seq<byte>, version: Packet.u16, flags: u32, messageId: u64, key: seq<byte>,
                    sent: u64, rest: seq<byte>, now: u64, made: u64, read: u64)
    requires |payload| <= Packet.PAYLOAD_SIZE_MAX && Packet.Usable(flags, key)
    requires SameNonce(made, read) && (now - sent) % TWO64 <= Packet.TIMESTAMP_LIMIT
    ensures Reads(payload, version, flags, messageId, key, sent, rest, now, made, read)
  {
    assert made % TWO32 == read % TWO32;
    hide Packet.Reading;
    hide Packet.PacketBytes;
    hide Packet.MadePacket;
    Packet.PacketRoundTrip(payload, version, flags, made, messageId, key, sent, rest, read, now);
  }

  // One outstanding request, each answered before the next, each parse done before the
  // next receive.
  ghost predicate StopAndWait(es: seq<Event>) {
    forall i :: 0 <= i < |es| ==> Prompt(Exec(es[..i]), es[i])
  }

  predicate Prompt(n: Net, e: Event) {
    match e
    case ClientWrite => Outstanding(n, e) == 0
    case ServerWrite => Outstanding(n, e) == 0
    case ServerParse(_) => Late(n, e) == 0
    case ClientParse(_) => Late(n, e) == 0
    case _ => true
  }

  // In every stop-and-wait run both directions agree on every counter value.
  lemma StopAndWaitAgrees(es: seq<Event>)
    requires Feasible(es) && StopAndWait(es)
    ensures var n := Exec(es);
      && (forall k :: k in n.requestReads ==> k < |n.requests| && n.requestReads[k] == n.requests[k])
      && (forall k :: k in n.replyReads ==> k < |n.replies| && n.replyReads[k] == n.replies[k])
  {
    hide U64;
    hide Exec;
    StopAndWaitHistory(es);
    ClosedRun(es);
  }

  // Every packet carries its own number, in both directions.
  ghost predicate InStep(n: Net) {
    && (forall k :: 0 <= k < |n.requests| ==> n.requests[k] == U64(k))
    && (forall k :: 0 <= k < |n.replies| ==> n.replies[k] == U64(k + 1))
    && (forall k :: k in n.requestReads ==> n.requestReads[k] == U64(k))
    && (forall k :: k in n.replyReads ==> n.replyReads[k] == U64(k + 1))
  }

  lemma {:induction false} StopAndWaitHistory(es: seq<Event>)
    requires Feasible(es) && StopAndWait(es)
    ensures InStep(Exec(es))
  {
    if es != [] {
      hide U64;
      hide Prompt;
      hide InStep;
      var before, e := es[..|es| - 1], es[|es| - 1];
      assert forall i :: 0 <= i < |before| ==> before[..i] == es[..i];
      assert StopAndWait(before);
      FeasiblePrefix(es, |es| - 1);
      StopAndWaitHistory(before);
      ClosedRun(before);
      InStepKept(Exec(before), e);
    } else {
      assert InStep(START);
    }
  }

  lemma InStepKept(n: Net, e: Event)
    requires Closed(n) && InStep(n) && Enabled(n, e) && Prompt(n, e)
    ensures InStep(Step(n, e))
  {
    if n.requestsIn > 0 { Successor(n.requestsIn - 1); }
    hide U64;
  }

  // With nothing in transit, the server is ahead of the client by the number of
  // requests it never answered.
  lemma CounterGap(es: seq<Event>)
    requires Feasible(es)
    requires Exec(es).requestsIn == |Exec(es).requests| && Exec(es).repliesIn == |Exec(es).replies|
    ensures (Exec(es).server - Exec(es).client) % TWO64 == (|Exec(es).requests| - |Exec(es).replies|) % TWO64
  {
    hide Exec;
    hide Feasible;
    hide U64;
    ClosedRun(es);
    GapModulo(|Exec(es).requests|, |Exec(es).replies|);
  }

  lemma GapModulo(a: nat, b: nat)
    ensures (U64(a) - U64(b)) % TWO64 == (a - b) % TWO64
  {
    Mod64(U64(a) - U64(b), a / TWO64 - b / TWO64);
  }
}

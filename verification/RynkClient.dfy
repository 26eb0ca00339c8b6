/**
 The Rynk client session: a fixed pool of request slots, a free-list, an 8-bit
 SEQ that cycles through 1..255, cancellation by dropping a guard, and replies
 routed back by SEQ.

 Everything between two suspension points of the source is one atomic step here.
 Each SEQ allocation is numbered; the number is bookkeeping of the proof, the
 code only sees the SEQ it maps to.
 */
module RynkClient {
  import opened Wrappers
  import opened Arithmetic

  const SEQ_COUNT := 255

  /** A frame header: the command, the SEQ, and the allocation the frame belongs to. */
  datatype Frame = Frame(cmd: nat, seqNo: nat, origin: nat)

  /** The SEQ a slot waits for (0 when the slot is free) and its reply signal. */
  datatype Slot = Slot(seqNo: nat, resp: Option<Frame>)

  /** What the shared client object holds. `message` has room for one frame. */
  datatype Pool = Pool(slots: seq<Slot>, free: seq<nat>, nextSeq: nat, message: Option<Frame>)

  // ----- Operations on the pool -----

  function InitPool(n: nat): Pool {
    Pool(seq(n, _ => Slot(0, None)), seq(n, i => i), 1, None)
  }

  function BumpSeq(s: nat): nat {
    if s == 255 then 1 else s + 1
  }

  /** Take the first free index, give its slot the next SEQ and an empty signal. */
  function ClaimSlot(p: Pool): Pool
    requires p.free != [] && p.free[0] < |p.slots|
  {
    p.(free := p.free[1..], slots := p.slots[p.free[0] := Slot(p.nextSeq, None)], nextSeq := BumpSeq(p.nextSeq))
  }

  /** Guard drop: clear the slot and return its index if the free-list has room. */
  function ReleaseSlot(p: Pool, idx: nat): Pool
    requires idx < |p.slots|
  {
    p.(slots := p.slots[idx := Slot(0, None)],
       free := if |p.free| < |p.slots| then p.free + [idx] else p.free)
  }

  /** The first slot at or after `from` that waits for `s`, or the slot count. */
  function FindSlot(slots: seq<Slot>, s: nat, from: nat): (i: nat)
    requires from <= |slots|
    ensures from <= i <= |slots|
    ensures i < |slots| ==> slots[i].seqNo == s
    ensures forall k :: from <= k < i ==> slots[k].seqNo != s
    decreases |slots| - from
  {
    if from == |slots| || slots[from].seqNo == s then from else FindSlot(slots, s, from + 1)
  }

  /** The slot a reply frame is delivered to, if any. */
  function Receiver(p: Pool, f: Frame): (r: Option<nat>)
    ensures r.Some? ==> r.value < |p.slots| && p.slots[r.value].seqNo == f.seqNo
  {
    var i := FindSlot(p.slots, f.seqNo, 0);
    if f.seqNo == 0 || i == |p.slots| then None else Some(i)
  }

  /** Deliver a reply frame to the slot waiting for its SEQ, or drop it. */
  function Route(p: Pool, f: Frame): Pool {
    match Receiver(p, f)
    case None => p
    case Some(i) => p.(slots := p.slots[i := p.slots[i].(resp := Some(f))])
  }

  /** The client object, updated in place. */
  class Client {
    var slots: array<Slot>
    var free: seq<nat>
    var nextSeq: nat
    var message: Option<Frame>

    ghost function View(): Pool
      reads this, slots
    {
      Pool(slots[..], free, nextSeq, message)
    }

    constructor (n: nat)
      ensures View() == InitPool(n) && fresh(slots)
    {
      slots := new Slot[n](_ => Slot(0, None));
      var indices := [];
      var i := 0;
      while i < n
        invariant 0 <= i <= n
        invariant indices == seq(i, k => k)
      {
        indices := indices + [i];
        i := i + 1;
      }
      free := indices;
      nextSeq := 1;
      message := None;
      new;
      assert slots[..] == seq(n, _ => Slot(0, None));
    }

    method AllocSeq() returns (s: nat)
      modifies this`nextSeq
      ensures s == old(nextSeq) && nextSeq == BumpSeq(old(nextSeq))
    {
      s := nextSeq;
      nextSeq := if s == 255 then 1 else s + 1;
    }

    method Claim() returns (idx: nat, s: nat)
      requires free != [] && free[0] < slots.Length
      modifies this`free, this`nextSeq, slots
      ensures slots == old(slots) && idx == old(free)[0] && s == old(nextSeq)
      ensures View() == ClaimSlot(old(View()))
    {
      idx := free[0];
      free := free[1..];
      s := AllocSeq();
      slots[idx] := slots[idx].(resp := None);
      slots[idx] := slots[idx].(seqNo := s);
    }

    method DropGuard(idx: nat)
      requires idx < slots.Length
      modifies this`free, slots
      ensures slots == old(slots)
      ensures View() == ReleaseSlot(old(View()), idx)
    {
      slots[idx] := slots[idx].(seqNo := 0);
      slots[idx] := slots[idx].(resp := None);
      if |free| < slots.Length {
        free := free + [idx];
      }
    }

    method Deliver(f: Frame)
      modifies slots
      ensures slots == old(slots)
      ensures View() == Route(old(View()), f)
    {
      if f.seqNo == 0 {
        return;
      }
      var i := 0;
      while i < slots.Length && slots[i].seqNo != f.seqNo
        invariant 0 <= i <= slots.Length
        invariant FindSlot(slots[..], f.seqNo, 0) == FindSlot(slots[..], f.seqNo, i)
      {
        i := i + 1;
      }
      if i < slots.Length {
        slots[i] := slots[i].(resp := Some(f));
      }
    }
  }

  // ----- The session: every interleaving of requests and the driver -----

  /** A live request: the slot its guard holds, its allocation, whether its frame is queued. */
  datatype Request = Request(idx: nat, alloc: nat, cmd: nat, queued: bool)

  /**
   `requests` are the requests between claim and end; `forgets` the fire-and-forget
   frames still waiting for the writer; `wire` everything written to the device.
   */
  datatype World = World(
    pool: Pool, requests: map<nat, Request>, forgets: seq<Frame>, wire: set<Frame>, allocs: nat)

  /** The SEQ handed out by allocation number `alloc`. */
  function SeqOf(alloc: nat): nat {
    if alloc == 0 then 1 else BumpSeq(SeqOf(alloc - 1))
  }

  function FrameOf(q: Request): Frame {
    Frame(q.cmd, SeqOf(q.alloc), q.alloc)
  }

  datatype Step =
    | Claim(id: nat, cmd: nat)
    | Queue(id: nat)
    | Finish(id: nat)
    | Cancel(id: nat)
    | Forget(cmd: nat)
    | QueueForget(k: nat)
    | CancelForget(k: nat)
    | Write
    | Receive(f: Frame)

  predicate Enabled(w: World, step: Step) {
    match step
    case Claim(id, _) => w.pool.free != [] && w.pool.free[0] < |w.pool.slots| && id !in w.requests
    case Queue(id) => id in w.requests && !w.requests[id].queued && w.pool.message == None
    case Finish(id) =>
      && id in w.requests && w.requests[id].queued && w.requests[id].idx < |w.pool.slots|
      && w.pool.slots[w.requests[id].idx].resp.Some?
    case Cancel(id) => id in w.requests && w.requests[id].idx < |w.pool.slots|
    case Forget(_) => true
    case QueueForget(k) => k < |w.forgets| && w.pool.message == None
    case CancelForget(k) => k < |w.forgets|
    case Write => w.pool.message.Some?
    case Receive(_) => true
  }

  function Apply(w: World, step: Step): World
    requires Enabled(w, step)
  {
    match step
    case Claim(id, cmd) =>
      w.(pool := ClaimSlot(w.pool), allocs := w.allocs + 1,
         requests := w.requests[id := Request(w.pool.free[0], w.allocs, cmd, false)])
    case Queue(id) =>
      w.(pool := w.pool.(message := Some(FrameOf(w.requests[id]))),
         requests := w.requests[id := w.requests[id].(queued := true)])
    case Finish(id) => w.(pool := ReleaseSlot(w.pool, w.requests[id].idx), requests := w.requests - {id})
    case Cancel(id) => w.(pool := ReleaseSlot(w.pool, w.requests[id].idx), requests := w.requests - {id})
    case Forget(cmd) =>
      w.(pool := w.pool.(nextSeq := BumpSeq(w.pool.nextSeq)), allocs := w.allocs + 1,
         forgets := w.forgets + [Frame(cmd, w.pool.nextSeq, w.allocs)])
    case QueueForget(k) =>
      w.(pool := w.pool.(message := Some(w.forgets[k])), forgets := w.forgets[..k] + w.forgets[k + 1..])
    case CancelForget(k) => w.(forgets := w.forgets[..k] + w.forgets[k + 1..])
    case Write => w.(pool := w.pool.(message := None), wire := w.wire + {w.pool.message.value})
    case Receive(f) => w.(pool := Route(w.pool, f))
  }

  function InitWorld(n: nat): World {
    World(InitPool(n), map[], [], {}, 0)
  }

  /** The steps can be taken one after the other from `w`. */
  predicate CanRun(w: World, steps: seq<Step>)
    decreases steps
  {
    steps == [] || (Enabled(w, steps[0]) && CanRun(Apply(w, steps[0]), steps[1..]))
  }

  function Run(w: World, steps: seq<Step>): World
    requires CanRun(w, steps)
    decreases steps
  {
    if steps == [] then w else Run(Apply(w, steps[0]), steps[1..])
  }

  // ----- Slot conservation -----

  ghost predicate Held(w: World, i: nat) {
    exists id :: id in w.requests && w.requests[id].idx == i
  }

  /** The free-list and the guards partition the slots, and no index appears twice. */
  ghost predicate Partition(w: World) {
    && (forall k :: 0 <= k < |w.pool.free| ==> w.pool.free[k] < |w.pool.slots| && !Held(w, w.pool.free[k]))
    && (forall j, k :: 0 <= j < k < |w.pool.free| ==> w.pool.free[j] != w.pool.free[k])
    && (forall id :: id in w.requests ==> w.requests[id].idx < |w.pool.slots|)
    && (forall a, b :: a in w.requests && b in w.requests && a != b ==> w.requests[a].idx != w.requests[b].idx)
    && |w.pool.free| + |w.requests| == |w.pool.slots|
  }

  ghost predicate FramesNumbered(w: World) {
    && (forall f :: f in w.wire ==> f.origin < w.allocs && f.seqNo == SeqOf(f.origin))
    && (forall k :: 0 <= k < |w.forgets| ==> w.forgets[k].origin < w.allocs && w.forgets[k].seqNo == SeqOf(w.forgets[k].origin))
    && (w.pool.message.Some? ==>
          w.pool.message.value.origin < w.allocs && w.pool.message.value.seqNo == SeqOf(w.pool.message.value.origin))
  }

  /** Every live request owns its allocation, and its slot waits for that SEQ. */
  ghost predicate RequestsNumbered(w: World) {
    && (forall id :: id in w.requests && w.requests[id].idx < |w.pool.slots| ==>
          w.requests[id].alloc < w.allocs && w.pool.slots[w.requests[id].idx].seqNo == SeqOf(w.requests[id].alloc))
    && (forall a, b :: a in w.requests && b in w.requests && a != b ==> w.requests[a].alloc != w.requests[b].alloc)
  }

  /** A free slot has SEQ 0 and nothing in its signal. */
  ghost predicate FreeSlotsClear(w: World) {
    forall i :: 0 <= i < |w.pool.slots| && !Held(w, i) ==> w.pool.slots[i] == Slot(0, None)
  }

  ghost predicate Inv(w: World) {
    && Partition(w) && RequestsNumbered(w) && FreeSlotsClear(w) && FramesNumbered(w)
    && w.pool.nextSeq == SeqOf(w.allocs)
  }

  lemma InitInv(n: nat)
    ensures Inv(InitWorld(n))
  {
  }

  lemma NextRemainder(a: nat, m: nat)
    requires m > 1
    ensures (a + 1) % m == if a % m == m - 1 then 0 else a % m + 1
  {
    Quotient(a, m);
    if a % m == m - 1 {
      MulDistributes(a / m, 1, m);
      RemainderUnique(a + 1, m, a / m + 1);
    } else {
      RemainderUnique(a + 1, m, a / m);
    }
  }

  lemma {:induction false} SeqOfCycles(a: nat)
    ensures SeqOf(a) == a % 255 + 1
  {
    if a > 0 {
      SeqOfCycles(a - 1);
      NextRemainder(a - 1, SEQ_COUNT);
    }
  }

  /** The steps that touch neither the free-list nor which guard holds which slot. */
  ghost predicate SameHolders(w: World, w': World) {
    && |w'.pool.slots| == |w.pool.slots| && w'.pool.free == w.pool.free
    && w'.requests.Keys == w.requests.Keys
    && forall id :: id in w.requests ==> w'.requests[id].idx == w.requests[id].idx
  }

  lemma SameHoldersPartition(w: World, w': World)
    requires Partition(w) && SameHolders(w, w')
    ensures Partition(w')
    ensures forall i: nat :: Held(w', i) <==> Held(w, i)
  {
    assert |w'.requests.Keys| == |w'.requests| && |w.requests.Keys| == |w.requests|;
    forall j: nat
      ensures Held(w', j) <==> Held(w, j)
    {
      if Held(w, j) {
        var a :| a in w.requests && w.requests[a].idx == j;
        assert a in w'.requests && w'.requests[a].idx == j;
      }
    }
  }

  lemma ClaimHeld(w: World, id: nat, cmd: nat, j: nat)
    requires Enabled(w, Claim(id, cmd))
    ensures Held(Apply(w, Claim(id, cmd)), j) <==> j == w.pool.free[0] || Held(w, j)
  {
    var w' := Apply(w, Claim(id, cmd));
    assert w'.requests[id].idx == w.pool.free[0];
    if Held(w, j) {
      var a :| a in w.requests && w.requests[a].idx == j;
      assert a in w'.requests && w'.requests[a].idx == j;
    }
  }

  lemma ClaimPartition(w: World, id: nat, cmd: nat)
    requires Partition(w) && Enabled(w, Claim(id, cmd))
    ensures Partition(Apply(w, Claim(id, cmd)))
  {
    var w' := Apply(w, Claim(id, cmd));
    assert |w'.requests| == |w.requests| + 1;
    forall k | 0 <= k < |w'.pool.free|
      ensures !Held(w', w'.pool.free[k])
    {
      ClaimHeld(w, id, cmd, w'.pool.free[k]);
    }
    forall a | a in w.requests
      ensures w.requests[a].idx != w.pool.free[0]
    {
      assert !Held(w, w.pool.free[0]);
    }
  }

  lemma ClaimSlots(w: World, id: nat, cmd: nat)
    requires Inv(w) && Enabled(w, Claim(id, cmd))
    ensures RequestsNumbered(Apply(w, Claim(id, cmd))) && FreeSlotsClear(Apply(w, Claim(id, cmd)))
  {
    assert !Held(w, w.pool.free[0]);
    forall j: nat {
      ClaimHeld(w, id, cmd, j);
    }
  }

  lemma ReleaseHeld(w: World, id: nat, w': World, j: nat)
    requires Partition(w) && id in w.requests && w'.requests == w.requests - {id}
    ensures Held(w', j) <==> j != w.requests[id].idx && Held(w, j)
  {
    if Held(w, j) && j != w.requests[id].idx {
      var a :| a in w.requests && w.requests[a].idx == j;
      assert a in w'.requests && w'.requests[a].idx == j;
    }
  }

  /** Dropping a guard always finds room in the free-list. */
  lemma ReleasePartition(w: World, id: nat, w': World)
    requires Partition(w) && id in w.requests
    requires w' == w.(pool := ReleaseSlot(w.pool, w.requests[id].idx), requests := w.requests - {id})
    ensures |w.pool.free| < |w.pool.slots| && w'.pool.free == w.pool.free + [w.requests[id].idx]
    ensures Partition(w')
  {
    assert Held(w, w.requests[id].idx);
    assert w.requests == w'.requests[id := w.requests[id]];
    assert |w.requests| == |w'.requests| + 1;
    forall k | 0 <= k < |w'.pool.free|
      ensures !Held(w', w'.pool.free[k])
    {
      ReleaseHeld(w, id, w', w'.pool.free[k]);
    }
  }

  lemma ReleaseClear(w: World, id: nat, w': World)
    requires Partition(w) && FreeSlotsClear(w) && id in w.requests
    requires w'.pool.slots == w.pool.slots[w.requests[id].idx := Slot(0, None)] && w'.requests == w.requests - {id}
    ensures FreeSlotsClear(w')
  {
    forall j | 0 <= j < |w'.pool.slots| && !Held(w', j)
      ensures w'.pool.slots[j] == Slot(0, None)
    {
      ReleaseHeld(w, id, w', j);
    }
  }

  lemma ReleaseNumbered(w: World, id: nat, w': World)
    requires Partition(w) && RequestsNumbered(w) && id in w.requests && w'.allocs == w.allocs
    requires w'.pool.slots == w.pool.slots[w.requests[id].idx := Slot(0, None)] && w'.requests == w.requests - {id}
    ensures RequestsNumbered(w')
  {
  }

  lemma ReleaseSlots(w: World, id: nat, w': World)
    requires Partition(w) && RequestsNumbered(w) && FreeSlotsClear(w) && id in w.requests
    requires w' == w.(pool := ReleaseSlot(w.pool, w.requests[id].idx), requests := w.requests - {id})
    ensures RequestsNumbered(w') && FreeSlotsClear(w')
  {
    ReleaseClear(w, id, w');
    ReleaseNumbered(w, id, w');
  }

  /** Routing writes at most one signal, and never that of a free slot. */
  lemma RouteFrame(p: Pool, f: Frame)
    ensures Route(p, f) == p.(slots := Route(p, f).slots) && |Route(p, f).slots| == |p.slots|
    ensures forall i :: 0 <= i < |p.slots| ==> Route(p, f).slots[i].seqNo == p.slots[i].seqNo
    ensures forall i :: 0 <= i < |p.slots| && p.slots[i].seqNo == 0 ==> Route(p, f).slots[i] == p.slots[i]
  {
  }

  lemma ReceiveSlots(w: World, w': World, f: Frame)
    requires Partition(w) && RequestsNumbered(w) && FreeSlotsClear(w)
    requires w' == w.(pool := Route(w.pool, f))
    ensures RequestsNumbered(w') && FreeSlotsClear(w')
  {
    RouteFrame(w.pool, f);
    SameHoldersPartition(w, w');
    forall i | 0 <= i < |w'.pool.slots| && !Held(w', i)
      ensures w'.pool.slots[i] == Slot(0, None)
    {
      assert w.pool.slots[i] == Slot(0, None);
    }
  }

  lemma OtherSlots(w: World, w': World)
    requires Partition(w) && RequestsNumbered(w) && FreeSlotsClear(w)
    requires SameHolders(w, w') && w'.pool.slots == w.pool.slots && w'.allocs >= w.allocs
    requires forall id :: id in w.requests ==> w'.requests[id].alloc == w.requests[id].alloc
    ensures RequestsNumbered(w') && FreeSlotsClear(w')
  {
    SameHoldersPartition(w, w');
  }

  lemma StepPartition(w: World, step: Step)
    requires Partition(w) && Enabled(w, step)
    ensures Partition(Apply(w, step))
  {
    var w' := Apply(w, step);
    match step {
      case Claim(id, cmd) => ClaimPartition(w, id, cmd);
      case Finish(id) => ReleasePartition(w, id, w');
      case Cancel(id) => ReleasePartition(w, id, w');
      case _ => SameHoldersPartition(w, w');
    }
  }

  lemma StepSlots(w: World, step: Step)
    requires Inv(w) && Enabled(w, step)
    ensures RequestsNumbered(Apply(w, step)) && FreeSlotsClear(Apply(w, step))
  {
    var w' := Apply(w, step);
    match step {
      case Claim(id, cmd) => ClaimSlots(w, id, cmd);
      case Finish(id) => ReleaseSlots(w, id, w');
      case Cancel(id) => ReleaseSlots(w, id, w');
      case Receive(f) => ReceiveSlots(w, w', f);
      case _ => OtherSlots(w, w');
    }
  }

  lemma StepFrames(w: World, step: Step)
    requires Inv(w) && Enabled(w, step)
    ensures FramesNumbered(Apply(w, step))
    ensures Apply(w, step).pool.nextSeq == SeqOf(Apply(w, step).allocs)
    ensures |Apply(w, step).pool.slots| == |w.pool.slots|
  {
  }

  lemma StepInv(w: World, step: Step)
    requires Inv(w) && Enabled(w, step)
    ensures Inv(Apply(w, step))
    ensures |Apply(w, step).pool.slots| == |w.pool.slots|
  {
    StepPartition(w, step);
    StepSlots(w, step);
    StepFrames(w, step);
  }

  /** Conservation holds after every run, under any pattern of cancellation. */
  lemma {:induction false} RunInv(w: World, steps: seq<Step>)
    requires Inv(w) && CanRun(w, steps)
    ensures Inv(Run(w, steps)) && |Run(w, steps).pool.slots| == |w.pool.slots|
    decreases steps
  {
    if steps != [] {
      StepInv(w, steps[0]);
      RunInv(Apply(w, steps[0]), steps[1..]);
    }
  }

  // ----- Reply routing -----

  /** Fewer than 255 SEQs were allocated since allocation `a`. */
  predicate Recent(w: World, a: nat) {
    w.allocs <= a + SEQ_COUNT
  }

  ghost predicate AllRecent(w: World) {
    forall id :: id in w.requests ==> Recent(w, w.requests[id].alloc)
  }

  ghost predicate DistinctSeqs(w: World) {
    forall a, b :: a in w.requests && b in w.requests && a != b ==>
      SeqOf(w.requests[a].alloc) != SeqOf(w.requests[b].alloc)
  }

  lemma SameRemainderIff(a: int, b: int)
    ensures a % SEQ_COUNT == b % SEQ_COUNT <==> (a - b) % SEQ_COUNT == 0
  {
    assert a == 255 * (a / 255) + a % 255 && b == 255 * (b / 255) + b % 255;
    assert a - b == 255 * ((a - b) / 255) + (a - b) % 255;
  }

  lemma SameSeqIff(a: nat, b: nat)
    ensures SeqOf(a) == SeqOf(b) <==> (a - b) % 255 == 0
    ensures 1 <= SeqOf(a) <= 255
  {
    SeqOfCycles(a);
    SeqOfCycles(b);
    SameRemainderIff(a, b);
  }

  lemma RecentSeqsDiffer(w: World, a: nat, b: nat)
    requires Recent(w, a) && Recent(w, b) && a < w.allocs && b < w.allocs
    ensures SeqOf(a) == SeqOf(b) <==> a == b
  {
    SameSeqIff(a, b);
    assert -255 < a - b < 255;
  }

  /** Active SEQs are pairwise distinct while every live request is recent. */
  lemma RecentDistinct(w: World)
    requires Inv(w) && AllRecent(w)
    ensures DistinctSeqs(w)
  {
    forall a, b | a in w.requests && b in w.requests && a != b
      ensures SeqOf(w.requests[a].alloc) != SeqOf(w.requests[b].alloc)
    {
      RecentSeqsDiffer(w, w.requests[a].alloc, w.requests[b].alloc);
    }
  }

  /** `f` is the device's answer to a frame it received. */
  ghost predicate Answers(w: World, f: Frame) {
    exists g :: g in w.wire && g.origin == f.origin && g.seqNo == f.seqNo
  }

  /** A frame whose SEQ no live request waits for changes nothing; SEQ 0 is one of those. */
  lemma StrayDropped(w: World, f: Frame)
    requires Inv(w)
    requires forall id :: id in w.requests ==> SeqOf(w.requests[id].alloc) != f.seqNo
    ensures Route(w.pool, f) == w.pool
  {
    if f.seqNo != 0 {
      forall i | 0 <= i < |w.pool.slots|
        ensures w.pool.slots[i].seqNo != f.seqNo
      {
        if Held(w, i) {
          var id :| id in w.requests && w.requests[id].idx == i;
          assert w.pool.slots[i].seqNo == SeqOf(w.requests[id].alloc);
        }
      }
    }
  }

  /** A frame whose SEQ exactly one live request waits for reaches that request's slot alone. */
  lemma UniqueWaiterReached(w: World, f: Frame, id: nat)
    requires Inv(w) && DistinctSeqs(w) && id in w.requests
    requires SeqOf(w.requests[id].alloc) == f.seqNo
    ensures var i := w.requests[id].idx;
      Route(w.pool, f).slots == w.pool.slots[i := w.pool.slots[i].(resp := Some(f))]
  {
    SameSeqIff(w.requests[id].alloc, 0);
    var i := FindSlot(w.pool.slots, f.seqNo, 0);
    assert w.pool.slots[w.requests[id].idx].seqNo == f.seqNo;
    assert Held(w, i);
    var other :| other in w.requests && w.requests[other].idx == i;
    assert SeqOf(w.requests[other].alloc) == f.seqNo;
  }

  /**
   An answer that arrives within 255 allocations of its request reaches that
   request if it is still live, and nobody if it was cancelled.
   */
  lemma ReplyReachesOwner(w: World, f: Frame)
    requires Inv(w) && AllRecent(w) && Answers(w, f) && Recent(w, f.origin)
    ensures forall id :: id in w.requests ==>
              var i := w.requests[id].idx;
              Route(w.pool, f).slots[i].resp ==
                if w.requests[id].alloc == f.origin then Some(f) else w.pool.slots[i].resp
    ensures (forall id :: id in w.requests ==> w.requests[id].alloc != f.origin) ==> Route(w.pool, f) == w.pool
  {
    RecentDistinct(w);
    forall id | id in w.requests
      ensures SeqOf(w.requests[id].alloc) == f.seqNo <==> w.requests[id].alloc == f.origin
    {
      RecentSeqsDiffer(w, w.requests[id].alloc, f.origin);
    }
    if id :| id in w.requests && w.requests[id].alloc == f.origin {
      UniqueWaiterReached(w, f, id);
    } else {
      StrayDropped(w, f);
    }
  }

  /** Every reply waiting in a live request's signal answers that very request. */
  ghost predicate OwnReplies(w: World) {
    forall id :: id in w.requests && w.requests[id].idx < |w.pool.slots| ==>
      var resp := w.pool.slots[w.requests[id].idx].resp;
      resp.Some? ==> resp.value.origin == w.requests[id].alloc
  }

  /** No live request outlasts 255 allocations and the device only answers, within 255 allocations. */
  ghost predicate Orderly(w: World, step: Step) {
    AllRecent(w) && (step.Receive? ==> Answers(w, step.f) && Recent(w, step.f.origin))
  }

  ghost predicate OrderlyRun(w: World, steps: seq<Step>)
    requires CanRun(w, steps)
    decreases steps
  {
    steps == [] || (Orderly(w, steps[0]) && OrderlyRun(Apply(w, steps[0]), steps[1..]))
  }

  lemma ReceiveOwnReplies(w: World, w': World, f: Frame)
    requires Inv(w) && Orderly(w, Receive(f)) && OwnReplies(w) && w' == w.(pool := Route(w.pool, f))
    ensures OwnReplies(w')
  {
    ReplyReachesOwner(w, f);
  }

  lemma ClaimOwnReplies(w: World, id: nat, cmd: nat)
    requires Partition(w) && Enabled(w, Claim(id, cmd)) && OwnReplies(w)
    ensures OwnReplies(Apply(w, Claim(id, cmd)))
  {
    assert !Held(w, w.pool.free[0]);
  }

  lemma ReleaseOwnReplies(w: World, id: nat, w': World)
    requires Partition(w) && id in w.requests && OwnReplies(w)
    requires w' == w.(pool := ReleaseSlot(w.pool, w.requests[id].idx), requests := w.requests - {id})
    ensures OwnReplies(w')
  {
  }

  lemma StepOwnReplies(w: World, step: Step)
    requires Inv(w) && Enabled(w, step) && Orderly(w, step) && OwnReplies(w)
    ensures OwnReplies(Apply(w, step))
  {
    var w' := Apply(w, step);
    match step {
      case Receive(f) => ReceiveOwnReplies(w, w', f);
      case Claim(id, cmd) => ClaimOwnReplies(w, id, cmd);
      case Finish(id) => ReleaseOwnReplies(w, id, w');
      case Cancel(id) => ReleaseOwnReplies(w, id, w');
      case _ =>
    }
  }

  /**
   Over every orderly run a request only ever sees its own reply, so what
   `Finish` hands back answers the request that finishes.
   */
  lemma {:induction false} RunOwnReplies(w: World, steps: seq<Step>)
    requires Inv(w) && OwnReplies(w) && CanRun(w, steps) && OrderlyRun(w, steps)
    ensures OwnReplies(Run(w, steps))
    decreases steps
  {
    if steps != [] {
      StepOwnReplies(w, steps[0]);
      StepInv(w, steps[0]);
      RunOwnReplies(Apply(w, steps[0]), steps[1..]);
    }
  }

  // ----- Commands -----

  /** The command that a step gives to the client, if it allocates. */
  function Given(step: Step): seq<nat> {
    match step
    case Claim(_, cmd) => [cmd]
    case Forget(cmd) => [cmd]
    case _ => []
  }

  /** The commands given to the client, in the order of their allocations. */
  function Commands(steps: seq<Step>): seq<nat>
    decreases steps
  {
    if steps == [] then [] else Given(steps[0]) + Commands(steps[1..])
  }

  /** The frame carries the command and the SEQ of its allocation. */
  predicate Carries(f: Frame, cmds: seq<nat>) {
    f.origin < |cmds| && f.cmd == cmds[f.origin] && f.seqNo == SeqOf(f.origin)
  }

  /** Every frame on its way, and every request, carries the command it was made with. */
  ghost predicate CommandsKept(w: World, cmds: seq<nat>) {
    && |cmds| == w.allocs && w.pool.nextSeq == SeqOf(w.allocs)
    && (forall f :: f in w.wire ==> Carries(f, cmds))
    && (forall k :: 0 <= k < |w.forgets| ==> Carries(w.forgets[k], cmds))
    && (w.pool.message.Some? ==> Carries(w.pool.message.value, cmds))
    && (forall id :: id in w.requests ==> w.requests[id].alloc < |cmds| && w.requests[id].cmd == cmds[w.requests[id].alloc])
  }

  lemma CarriesMore(f: Frame, cmds: seq<nat>, more: seq<nat>)
    requires Carries(f, cmds)
    ensures Carries(f, cmds + more)
  {
  }

  lemma KeptMore(w: World, cmds: seq<nat>, cmd: nat, w': World)
    requires CommandsKept(w, cmds) && w'.allocs == w.allocs + 1 && w'.pool.nextSeq == BumpSeq(w.pool.nextSeq)
    requires w'.wire == w.wire && w'.pool.message == w.pool.message
    requires forall k :: 0 <= k < |w'.forgets| ==> w'.forgets[k] in w.forgets || w'.forgets[k] == Frame(cmd, SeqOf(w.allocs), w.allocs)
    requires forall id :: id in w'.requests ==>
               (id in w.requests && w'.requests[id] == w.requests[id]) ||
               (w'.requests[id].alloc == w.allocs && w'.requests[id].cmd == cmd)
    ensures CommandsKept(w', cmds + [cmd])
  {
    forall f | Carries(f, cmds)
      ensures Carries(f, cmds + [cmd])
    {
      CarriesMore(f, cmds, [cmd]);
    }
  }

  lemma StepCommands(w: World, cmds: seq<nat>, step: Step)
    requires CommandsKept(w, cmds) && Enabled(w, step)
    ensures CommandsKept(Apply(w, step), cmds + Given(step))
  {
    var w' := Apply(w, step);
    match step {
      case Claim(id, cmd) => KeptMore(w, cmds, cmd, w');
      case Forget(cmd) => KeptMore(w, cmds, cmd, w');
      case _ => OtherCommands(w, cmds, step); assert cmds + [] == cmds;
    }
  }

  lemma OtherCommands(w: World, cmds: seq<nat>, step: Step)
    requires CommandsKept(w, cmds) && Enabled(w, step) && !step.Claim? && !step.Forget?
    ensures CommandsKept(Apply(w, step), cmds)
  {
  }

  lemma Regroup(a: seq<nat>, b: seq<nat>, c: seq<nat>)
    ensures (a + b) + c == a + (b + c)
  {
  }

  lemma {:induction false} RunCommands(w: World, cmds: seq<nat>, steps: seq<Step>, all: seq<nat>)
    requires CommandsKept(w, cmds) && CanRun(w, steps) && all == cmds + Commands(steps)
    ensures CommandsKept(Run(w, steps), all)
    decreases steps
  {
    if steps == [] {
      assert all == cmds;
    } else {
      StepCommands(w, cmds, steps[0]);
      Regroup(cmds, Given(steps[0]), Commands(steps[1..]));
      RunCommands(Apply(w, steps[0]), cmds + Given(steps[0]), steps[1..], all);
    }
  }

  /** Over every run from a fresh client: every written frame carries the command of its allocation, and so does every request. */
  lemma WrittenCommands(n: nat, steps: seq<Step>)
    requires CanRun(InitWorld(n), steps)
    ensures CommandsKept(Run(InitWorld(n), steps), Commands(steps))
  {
    RunCommands(InitWorld(n), [], steps, Commands(steps));
  }

  /** A request keeps the command and the allocation it was claimed with until it ends. */
  lemma RequestKept(w: World, step: Step, id: nat)
    requires Enabled(w, step) && id in w.requests && id in Apply(w, step).requests
    ensures Apply(w, step).requests[id].cmd == w.requests[id].cmd && Apply(w, step).requests[id].alloc == w.requests[id].alloc
  {
  }

  /** A device that echoes the command never makes a request see a reply to another command. */
  lemma NoMismatch(w: World, cmds: seq<nat>, f: Frame, g: Frame, id: nat)
    requires CommandsKept(w, cmds) && id in w.requests
    requires g in w.wire && g.origin == f.origin && g.cmd == f.cmd && f.origin == w.requests[id].alloc
    ensures f.cmd == w.requests[id].cmd
  {
    assert Carries(g, cmds);
  }

  // ----- Where the 8-bit SEQ stops being enough -----

  lemma ClaimDistinct(w: World, w': World, id: nat)
    requires DistinctSeqs(w) && id !in w.requests && id in w'.requests
    requires w'.requests == w.requests[id := w'.requests[id]]
    ensures DistinctSeqs(w') <==>
            forall r :: r in w.requests ==> SeqOf(w'.requests[r].alloc) != SeqOf(w'.requests[id].alloc)
  {
  }

  /** A claim keeps the SEQs distinct exactly when no live request is a multiple of 255 allocations old. */
  lemma ClaimDistinctIff(w: World, id: nat, cmd: nat)
    requires Inv(w) && DistinctSeqs(w) && Enabled(w, Claim(id, cmd))
    ensures DistinctSeqs(Apply(w, Claim(id, cmd))) <==>
            forall r :: r in w.requests ==> (w.allocs - w.requests[r].alloc) % SEQ_COUNT != 0
  {
    var w' := Apply(w, Claim(id, cmd));
    forall r | r in w.requests
      ensures SeqOf(w'.requests[r].alloc) == SeqOf(w'.requests[id].alloc) <==>
              (w.allocs - w.requests[r].alloc) % SEQ_COUNT == 0
    {
      SameSeqIff(w.allocs, w.requests[r].alloc);
    }
    ClaimDistinct(w, w', id);
  }

  /** What an answer's SEQ waits for: the live requests whose allocation is a multiple of 255 away. */
  predicate Rivals(w: World, r: nat, f: Frame)
    requires r in w.requests
  {
    (w.requests[r].alloc - f.origin) % SEQ_COUNT == 0
  }

  lemma AnswerSeq(w: World, f: Frame)
    requires Inv(w) && Answers(w, f)
    ensures f.seqNo == SeqOf(f.origin) && f.seqNo != 0
  {
    SameSeqIff(f.origin, 0);
  }

  lemma RivalWaits(w: World, r: nat, f: Frame)
    requires Inv(w) && Answers(w, f) && r in w.requests
    ensures Rivals(w, r, f) <==> w.pool.slots[w.requests[r].idx].seqNo == f.seqNo
  {
    AnswerSeq(w, f);
    SameSeqIff(w.requests[r].alloc, f.origin);
  }

  lemma WaiterIsRival(w: World, f: Frame, i: nat) returns (r: nat)
    requires Inv(w) && Answers(w, f) && i < |w.pool.slots| && w.pool.slots[i].seqNo == f.seqNo != 0
    ensures r in w.requests && w.requests[r].idx == i && Rivals(w, r, f)
  {
    assert Held(w, i);
    r :| r in w.requests && w.requests[r].idx == i;
    RivalWaits(w, r, f);
  }

  /**
   Exactly when an answer reaches its owner: no other live request a multiple
   of 255 allocations away sits in an earlier slot.
   */
  lemma OwnerReceivesIff(w: World, f: Frame, id: nat)
    requires Inv(w) && Answers(w, f) && id in w.requests && w.requests[id].alloc == f.origin
    ensures Receiver(w.pool, f) == Some(w.requests[id].idx) <==>
            forall r :: r in w.requests && r != id && Rivals(w, r, f) ==> w.requests[r].idx > w.requests[id].idx
  {
    var i := w.requests[id].idx;
    AnswerSeq(w, f);
    RivalWaits(w, id, f);
    if Receiver(w.pool, f) == Some(i) {
      forall r | r in w.requests && r != id && Rivals(w, r, f)
        ensures w.requests[r].idx > i
      {
        RivalWaits(w, r, f);
      }
    } else {
      var r := WaiterIsRival(w, f, Receiver(w.pool, f).value);
      assert w.requests[r].idx < i;
    }
  }

  /** Exactly when an answer without a live owner is dropped: no live request is a multiple of 255 away. */
  lemma OrphanDroppedIff(w: World, f: Frame)
    requires Inv(w) && Answers(w, f)
    requires forall id :: id in w.requests ==> w.requests[id].alloc != f.origin
    ensures Receiver(w.pool, f) == None <==> forall r :: r in w.requests ==> !Rivals(w, r, f)
  {
    AnswerSeq(w, f);
    if Receiver(w.pool, f).Some? {
      var r := WaiterIsRival(w, f, Receiver(w.pool, f).value);
    } else {
      forall r | r in w.requests
        ensures !Rivals(w, r, f)
      {
        RivalWaits(w, r, f);
      }
    }
  }

  // ----- A run in which a reply goes astray -----

  /** A fire-and-forget command, sent and written. */
  function Round(rest: seq<Step>): seq<Step> {
    [Forget(0)] + ([QueueForget(0)] + ([Write] + rest))
  }

  function Rounds(k: nat, rest: seq<Step>): seq<Step> {
    if k == 0 then rest else Round(Rounds(k - 1, rest))
  }

  /** A request, sent and written. */
  function Sent(id: nat, rest: seq<Step>): seq<Step> {
    [Step.Claim(id, 0)] + ([Queue(id)] + ([Write] + rest))
  }

  lemma RunCons(w: World, step: Step, rest: seq<Step>)
    requires Enabled(w, step) && CanRun(Apply(w, step), rest)
    ensures CanRun(w, [step] + rest) && Run(w, [step] + rest) == Run(Apply(w, step), rest)
  {
    assert ([step] + rest)[1..] == rest;
  }

  /** Nothing waits for the writer. */
  predicate Quiet(w: World) {
    w.forgets == [] && w.pool.message == None && w.pool.nextSeq == SeqOf(w.allocs)
  }

  /** `k` allocations later, with the same requests. */
  predicate Later(w: World, k: nat, w': World) {
    && Quiet(w') && w'.allocs == w.allocs + k && w'.requests == w.requests
    && w'.pool.slots == w.pool.slots && w'.pool.free == w.pool.free
  }

  lemma RoundRuns(w: World, rest: seq<Step>) returns (w': World)
    requires Quiet(w)
    ensures Later(w, 1, w')
    ensures CanRun(w', rest) ==> CanRun(w, Round(rest)) && Run(w, Round(rest)) == Run(w', rest)
  {
    var w1 := Apply(w, Forget(0));
    var w2 := Apply(w1, QueueForget(0));
    w' := Apply(w2, Write);
    assert w1.forgets[..0] + w1.forgets[1..] == [];
    if CanRun(w', rest) {
      RunCons(w2, Write, rest);
      RunCons(w1, QueueForget(0), [Write] + rest);
      RunCons(w, Forget(0), [QueueForget(0)] + ([Write] + rest));
    }
  }

  lemma {:induction false} RoundsRun(w: World, k: nat, rest: seq<Step>) returns (w': World)
    requires Quiet(w)
    ensures Later(w, k, w')
    ensures CanRun(w', rest) ==> CanRun(w, Rounds(k, rest)) && Run(w, Rounds(k, rest)) == Run(w', rest)
    decreases k
  {
    if k == 0 {
      w' := w;
    } else {
      var w1 := RoundRuns(w, Rounds(k - 1, rest));
      w' := RoundsRun(w1, k - 1, rest);
    }
  }

  lemma SentRuns(w: World, id: nat, rest: seq<Step>) returns (w': World)
    requires Quiet(w) && Enabled(w, Step.Claim(id, 0))
    ensures Quiet(w') && w'.allocs == w.allocs + 1
    ensures w'.pool.free == w.pool.free[1..] && w'.pool.slots == w.pool.slots[w.pool.free[0] := Slot(SeqOf(w.allocs), None)]
    ensures w'.requests == w.requests[id := Request(w.pool.free[0], w.allocs, 0, true)]
    ensures Frame(0, SeqOf(w.allocs), w.allocs) in w'.wire
    ensures CanRun(w', rest) ==> CanRun(w, Sent(id, rest)) && Run(w, Sent(id, rest)) == Run(w', rest)
  {
    var w1 := Apply(w, Step.Claim(id, 0));
    var w2 := Apply(w1, Queue(id));
    w' := Apply(w2, Write);
    assert w2.requests == w1.requests[id := w1.requests[id].(queued := true)];
    if CanRun(w', rest) {
      RunCons(w2, Write, rest);
      RunCons(w1, Queue(id), [Write] + rest);
      RunCons(w, Step.Claim(id, 0), [Queue(id)] + ([Write] + rest));
    }
  }

  /** Request 0 is sent, `k` commands on the side, then request 1. */
  lemma WrapRun(n: nat, k: nat) returns (steps: seq<Step>, w: World)
    requires n >= 2
    ensures CanRun(InitWorld(n), steps) && w == Run(InitWorld(n), steps)
    ensures w.requests == map[0 := Request(0, 0, 0, true), 1 := Request(1, k + 1, 0, true)]
    ensures |w.pool.slots| == n && w.pool.slots[0] == Slot(SeqOf(0), None) && w.pool.slots[1] == Slot(SeqOf(k + 1), None)
    ensures Frame(0, SeqOf(k + 1), k + 1) in w.wire
  {
    var w0 := InitWorld(n);
    steps := Sent(0, Rounds(k, Sent(1, [])));
    var w1 := SentRuns(w0, 0, Rounds(k, Sent(1, [])));
    var w2 := RoundsRun(w1, k, Sent(1, []));
    assert w2.pool.free[0] == 1;
    w := SentRuns(w2, 1, []);
  }

  /**
   The hypothesis is needed: with one request open across 254 written
   fire-and-forget commands, the device's answer to the next request is signalled to the
   first one, which finishes with it, and the request it answers waits on.
   */
  lemma WrapMisroutes(n: nat, k: nat) returns (steps: seq<Step>, w: World, f: Frame, after: World)
    requires n >= 2 && k + 1 == SEQ_COUNT
    ensures CanRun(InitWorld(n), steps) && w == Run(InitWorld(n), steps)
    ensures w.requests == map[0 := Request(0, 0, 0, true), 1 := Request(1, k + 1, 0, true)]
    ensures Answers(w, f) && f == FrameOf(w.requests[1]) && after == Apply(w, Receive(f))
    ensures |after.pool.slots| == n && Enabled(after, Finish(0))
    ensures after.pool.slots[0].resp == Some(f) && after.pool.slots[1].resp == None
  {
    steps, w := WrapRun(n, k);
    f := FrameOf(w.requests[1]);
    after := Apply(w, Receive(f));
    SameSeqIff(k + 1, 0);
    assert FindSlot(w.pool.slots, f.seqNo, 0) == 0;
  }

  /** The whole session: what every run from a fresh client keeps. */
  lemma SessionSafe(n: nat, steps: seq<Step>)
    requires CanRun(InitWorld(n), steps)
    ensures var w := Run(InitWorld(n), steps);
      Inv(w) && |w.pool.slots| == n && |w.requests| <= n &&
      (OrderlyRun(InitWorld(n), steps) ==> OwnReplies(w))
  {
    InitInv(n);
    RunInv(InitWorld(n), steps);
    if OrderlyRun(InitWorld(n), steps) {
      RunOwnReplies(InitWorld(n), steps);
    }
  }
}

/**
 Transport handover: reports are routed to the queue of the active transport,
 senders block on a full queue, and when the active transport changes the old
 queue is emptied and left with an all-up report of every type.

 A status change is two steps here, the commit and the clearing after it, so
 that senders, writers and further changes may run in between.
 */
module Handover {
  import opened Wrappers

  // ----- Connection status -----

  datatype Transport = Usb | Ble

  datatype UsbState = Disabled | Enabled | Configured | Suspended

  datatype BleState = Advertising | Connected | Inactive

  datatype Status = Status(usb: UsbState, ble: BleState, profile: nat, bonded: bool, preferred: Transport)

  predicate UsbReady(s: Status) {
    s.usb == Configured || s.usb == Suspended
  }

  predicate BleReady(s: Status) {
    s.ble == Connected
  }

  function DecideActive(s: Status): Option<Transport> {
    match (UsbReady(s), BleReady(s))
    case (true, false) => Some(Usb)
    case (false, true) => Some(Ble)
    case (true, true) => Some(s.preferred)
    case (false, false) => None
  }

  /**
   A transport is active exactly when it is up and preferred, or the other one
   is not up. USB is up when configured or suspended, BLE when connected.
   */
  lemma ActiveExact(s: Status)
    ensures DecideActive(s) == Some(Usb) <==>
            (s.usb.Configured? || s.usb.Suspended?) && (s.preferred.Usb? || !s.ble.Connected?)
    ensures DecideActive(s) == Some(Ble) <==>
            s.ble.Connected? && (s.preferred.Ble? || !(s.usb.Configured? || s.usb.Suspended?))
    ensures DecideActive(s) == None <==> !(s.usb.Configured? || s.usb.Suspended?) && !s.ble.Connected?
  {
  }

  // ----- Queues -----

  /** A report of one of the types; body 0 means everything of that type is up. */
  datatype Report = Report(kind: nat, body: nat)

  function AllUp(kind: nat): Report {
    Report(kind, 0)
  }

  /** The shared state: the status and the queue of each transport. */
  datatype Router = Router(status: Status, usb: seq<Report>, ble: seq<Report>)

  function Queue(r: Router, t: Transport): seq<Report> {
    if t.Usb? then r.usb else r.ble
  }

  function SetQueue(r: Router, t: Transport, q: seq<Report>): Router {
    if t.Usb? then r.(usb := q) else r.(ble := q)
  }

  function TrySend(q: seq<Report>, report: Report, capacity: nat): seq<Report> {
    if |q| < capacity then q + [report] else q
  }

  /** The all-up report of each type, as far as the queue has room. */
  function Batch(kinds: nat, capacity: nat): seq<Report> {
    seq(if kinds < capacity then kinds else capacity, (i: nat) => AllUp(i))
  }

  class Channels {
    const kinds: nat
    const capacity: nat
    var status: Status
    var usb: seq<Report>
    var ble: seq<Report>

    ghost function View(): Router
      reads this
    {
      Router(status, usb, ble)
    }

    constructor (kinds: nat, capacity: nat, status: Status)
      ensures this.kinds == kinds && this.capacity == capacity && View() == Router(status, [], [])
    {
      this.kinds, this.capacity, this.status := kinds, capacity, status;
      usb, ble := [], [];
    }

    method PushBack(t: Transport, report: Report) returns (ok: bool)
      modifies this`usb, this`ble
      ensures ok <==> |Queue(old(View()), t)| < capacity
      ensures View() == SetQueue(old(View()), t, TrySend(Queue(old(View()), t), report, capacity))
    {
      ok := |if t.Usb? then usb else ble| < capacity;
      if ok {
        if t.Usb? {
          usb := usb + [report];
        } else {
          ble := ble + [report];
        }
      }
    }

    /** Send without waiting: a full queue or no active transport drops the report. */
    method TrySendReport(report: Report)
      modifies this`usb, this`ble
      ensures var active := DecideActive(status);
        View() == if active.None? then old(View())
                  else SetQueue(old(View()), active.value, TrySend(Queue(old(View()), active.value), report, capacity))
    {
      var active := DecideActive(status);
      if active.Some? {
        var _ := PushBack(active.value, report);
      }
    }

    method ClearAndRelease(t: Transport)
      modifies this`usb, this`ble
      ensures View() == SetQueue(old(View()), t, Batch(kinds, capacity))
    {
      if t.Usb? {
        usb := [];
      } else {
        ble := [];
      }
      var i := 0;
      while i < kinds
        invariant 0 <= i <= kinds
        invariant View() == SetQueue(old(View()), t, Batch(i, capacity))
      {
        var _ := PushBack(t, AllUp(i));
        assert TrySend(Batch(i, capacity), AllUp(i), capacity) == Batch(i + 1, capacity);
        i := i + 1;
      }
    }

    /** Commit a new status; the transport it takes out of use is to be cleared next. */
    method CommitStatus(new_: Status) returns (toClear: Option<Transport>)
      modifies this`status
      ensures View() == old(View()).(status := new_)
      ensures toClear == Deselected(old(status), new_)
    {
      var prev := status;
      toClear := None;
      if prev == new_ {
        return;
      }
      status := new_;
      var prevActive, newActive := DecideActive(prev), DecideActive(new_);
      if prevActive != newActive {
        toClear := prevActive;
      }
    }

    /** A whole status update. */
    method UpdateStatus(new_: Status)
      modifies this
      ensures var committed := old(View()).(status := new_);
        View() == match Deselected(old(status), new_)
                  case None => committed
                  case Some(t) => SetQueue(committed, t, Batch(kinds, capacity))
    {
      var toClear := CommitStatus(new_);
      if toClear.Some? {
        ClearAndRelease(toClear.value);
      }
    }
  }

  /** The transport that stops being active, if any. */
  function Deselected(prev: Status, next: Status): Option<Transport> {
    if DecideActive(prev) != DecideActive(next) then DecideActive(prev) else None
  }

  // ----- Every interleaving -----

  /** What one transport's writer holds, and the last report of each type its host has seen. */
  datatype Link = Link(inFlight: Option<Report>, host: map<nat, Report>)

  /**
   A writer delivers the report it took or loses it to a failed write; on a
   suspended bus the USB writer throws reports away. `blocked` are the senders waiting for room, each on the transport it chose;
   `toClear` counts the clearings that are committed but not yet done.
   */
  datatype World = World(
    router: Router, usb: Link, ble: Link, blocked: map<nat, (Transport, Report)>, toClear: multiset<Transport>)

  function LinkOf(w: World, t: Transport): Link {
    if t.Usb? then w.usb else w.ble
  }

  function SetLink(w: World, t: Transport, l: Link): World {
    if t.Usb? then w.(usb := l) else w.(ble := l)
  }

  datatype Step =
    | Send(id: nat, report: Report)
    | Wake(id: nat)
    | Abandon(id: nat)
    | SendNow(report: Report)
    | Commit(status: Status)
    | Clear(t: Transport)
    | Pop(t: Transport)
    | Deliver(t: Transport)
    | Fail(t: Transport)
    | Discard

  predicate BusSuspended(w: World, t: Transport) {
    t.Usb? && w.router.status.usb == Suspended
  }

  predicate CanTake(w: World, step: Step, kinds: nat, capacity: nat) {
    match step
    case Send(id, report) => id !in w.blocked && report.kind < kinds
    case Wake(id) => id in w.blocked && |Queue(w.router, w.blocked[id].0)| < capacity
    case Abandon(id) => id in w.blocked
    case SendNow(report) => report.kind < kinds
    case Commit(_) => true
    case Clear(t) => t in w.toClear
    case Pop(t) => Queue(w.router, t) != [] && LinkOf(w, t).inFlight == None && !BusSuspended(w, t)
    case Deliver(t) => LinkOf(w, t).inFlight.Some?
    case Fail(t) => LinkOf(w, t).inFlight.Some?
    case Discard => w.router.usb != [] && w.usb.inFlight == None && BusSuspended(w, Usb)
  }

  function Apply(w: World, step: Step, kinds: nat, capacity: nat): World
    requires CanTake(w, step, kinds, capacity)
  {
    var active := DecideActive(w.router.status);
    match step
    case Send(id, report) =>
      if active.None? then w
      else if |Queue(w.router, active.value)| < capacity then
        w.(router := SetQueue(w.router, active.value, Queue(w.router, active.value) + [report]))
      else w.(blocked := w.blocked[id := (active.value, report)])
    case Wake(id) =>
      var (t, report) := w.blocked[id];
      var w' := w.(blocked := w.blocked - {id});
      if active != Some(t) then w'
      else w'.(router := SetQueue(w.router, t, Queue(w.router, t) + [report]))
    case Abandon(id) => w.(blocked := w.blocked - {id})
    case SendNow(report) =>
      if active.None? then w
      else w.(router := SetQueue(w.router, active.value, TrySend(Queue(w.router, active.value), report, capacity)))
    case Commit(status) =>
      w.(router := w.router.(status := status),
         toClear := match Deselected(w.router.status, status)
                    case None => w.toClear
                    case Some(t) => w.toClear + multiset{t})
    case Clear(t) =>
      w.(router := SetQueue(w.router, t, Batch(kinds, capacity)), toClear := w.toClear - multiset{t})
    case Pop(t) =>
      var q := Queue(w.router, t);
      SetLink(w.(router := SetQueue(w.router, t, q[1..])), t, LinkOf(w, t).(inFlight := Some(q[0])))
    case Deliver(t) =>
      var l := LinkOf(w, t);
      SetLink(w, t, Link(None, l.host[l.inFlight.value.kind := l.inFlight.value]))
    case Fail(t) => SetLink(w, t, LinkOf(w, t).(inFlight := None))
    case Discard => w.(router := w.router.(usb := w.router.usb[1..]))
  }

  function Start(status: Status, kinds: nat): World {
    var host := map k | 0 <= k < kinds :: AllUp(k);
    World(Router(status, [], []), Link(None, host), Link(None, host), map[], multiset{})
  }

  predicate CanRun(w: World, steps: seq<Step>, kinds: nat, capacity: nat)
    decreases steps
  {
    steps == [] ||
    (CanTake(w, steps[0], kinds, capacity) && CanRun(Apply(w, steps[0], kinds, capacity), steps[1..], kinds, capacity))
  }

  function Run(w: World, steps: seq<Step>, kinds: nat, capacity: nat): World
    requires CanRun(w, steps, kinds, capacity)
    decreases steps
  {
    if steps == [] then w else Run(Apply(w, steps[0], kinds, capacity), steps[1..], kinds, capacity)
  }

  // ----- Invariants of one transport -----

  /** The transport is out of use and its clearing is done. */
  predicate Retired(w: World, t: Transport) {
    DecideActive(w.router.status) != Some(t) && t !in w.toClear
  }

  /** A retired queue holds nothing but the end of the all-up batch. */
  ghost predicate HoldsBatchTail(w: World, t: Transport, kinds: nat) {
    var q := Queue(w.router, t);
    Retired(w, t) ==> |q| <= kinds && q == Batch(kinds, kinds)[kinds - |q|..]
  }

  /** The types whose all-up report has left the queue are settled at the host, or just about to be. */
  ghost predicate HostSettled(w: World, t: Transport, kinds: nat) {
    var l, n := LinkOf(w, t), kinds - |Queue(w.router, t)|;
    Retired(w, t) ==>
      && (l.inFlight.Some? && l.inFlight.value != AllUp(l.inFlight.value.kind) ==> n == 0)
      && (forall k :: 0 <= k < n ==> k in l.host && (l.host[k] == AllUp(k) || l.inFlight == Some(AllUp(k))))
  }

  /** The host has an opinion on every type of report. */
  ghost predicate HostKnows(l: Link, kinds: nat) {
    forall k :: 0 <= k < kinds ==> k in l.host
  }

  ghost predicate Inv(w: World, t: Transport, kinds: nat) {
    HoldsBatchTail(w, t, kinds) && HostSettled(w, t, kinds) && HostKnows(LinkOf(w, t), kinds)
  }

  /** Only clearing makes a transport retired. */
  lemma RetiredBefore(w: World, step: Step, t: Transport, kinds: nat, capacity: nat)
    requires CanTake(w, step, kinds, capacity) && Retired(Apply(w, step, kinds, capacity), t) && step != Clear(t)
    ensures Retired(w, t)
  {
  }

  lemma SetQueueKeeps(r: Router, t: Transport, u: Transport, q: seq<Report>)
    requires u != t
    ensures Queue(SetQueue(r, u, q), t) == Queue(r, t)
  {
  }

  /** A sender pushes to the active queue, which is not a retired one. */
  lemma SendersKeep(w: World, step: Step, t: Transport, kinds: nat, capacity: nat)
    requires DecideActive(w.router.status) != Some(t) && CanTake(w, step, kinds, capacity)
    requires step.Send? || step.Wake? || step.SendNow?
    ensures Queue(Apply(w, step, kinds, capacity).router, t) == Queue(w.router, t)
  {
    var active := DecideActive(w.router.status);
    if active.Some? {
      forall q {
        SetQueueKeeps(w.router, t, active.value, q);
      }
    }
  }

  /** Only its own writer touches the queue of a retired transport. */
  lemma QueueKept(w: World, step: Step, t: Transport, kinds: nat, capacity: nat)
    requires Retired(w, t) && CanTake(w, step, kinds, capacity)
    requires step != Pop(t) && !(step.Discard? && t.Usb?)
    ensures Queue(Apply(w, step, kinds, capacity).router, t) == Queue(w.router, t)
  {
    if step.Send? || step.Wake? || step.SendNow? {
      SendersKeep(w, step, t, kinds, capacity);
    }
  }

  /** And its link is touched by nobody else at all. */
  lemma LinkKept(w: World, step: Step, t: Transport, kinds: nat, capacity: nat)
    requires CanTake(w, step, kinds, capacity) && step != Pop(t) && step != Deliver(t) && step != Fail(t)
    ensures LinkOf(Apply(w, step, kinds, capacity), t) == LinkOf(w, t)
  {
  }

  lemma BatchTail(kinds: nat, n: nat)
    requires n < kinds
    ensures Batch(kinds, kinds)[n..] != [] && Batch(kinds, kinds)[n..][0] == AllUp(n)
    ensures Batch(kinds, kinds)[n..][1..] == Batch(kinds, kinds)[n + 1..]
  {
  }

  lemma WholeBatch(kinds: nat, capacity: nat)
    requires kinds <= capacity
    ensures |Batch(kinds, capacity)| == kinds && Batch(kinds, capacity) == Batch(kinds, kinds)[0..]
  {
  }

  /** The head of a retired queue is the all-up report of the first type not yet taken. */
  lemma HeadOfRetired(w: World, t: Transport, kinds: nat)
    requires Retired(w, t) && HoldsBatchTail(w, t, kinds) && Queue(w.router, t) != []
    ensures var q := Queue(w.router, t);
      && q[0] == AllUp(kinds - |q|) && q[1..] == Batch(kinds, kinds)[kinds - |q| + 1..]
  {
    BatchTail(kinds, kinds - |Queue(w.router, t)|);
  }

  lemma TailStep(w: World, step: Step, t: Transport, kinds: nat, capacity: nat)
    requires HoldsBatchTail(w, t, kinds) && CanTake(w, step, kinds, capacity) && kinds <= capacity
    ensures HoldsBatchTail(Apply(w, step, kinds, capacity), t, kinds)
  {
    if Retired(Apply(w, step, kinds, capacity), t) {
      if step == Clear(t) {
        WholeBatch(kinds, capacity);
      } else {
        RetiredBefore(w, step, t, kinds, capacity);
        if step == Pop(t) || (step.Discard? && t.Usb?) {
          HeadOfRetired(w, t, kinds);
        } else {
          QueueKept(w, step, t, kinds, capacity);
        }
      }
    }
  }

  lemma KnowsStep(w: World, step: Step, t: Transport, kinds: nat, capacity: nat)
    requires HostKnows(LinkOf(w, t), kinds) && CanTake(w, step, kinds, capacity)
    ensures HostKnows(LinkOf(Apply(w, step, kinds, capacity), t), kinds)
  {
  }

  lemma StartInv(status: Status, t: Transport, kinds: nat)
    ensures Inv(Start(status, kinds), t, kinds)
  {
    assert Batch(kinds, kinds)[kinds..] == [];
  }

  /** Whatever was lost before, clearing a transport sets it right. */
  lemma ClearRestores(w: World, t: Transport, kinds: nat, capacity: nat)
    requires CanTake(w, Clear(t), kinds, capacity) && kinds <= capacity && HostKnows(LinkOf(w, t), kinds)
    ensures Inv(Apply(w, Clear(t), kinds, capacity), t, kinds)
  {
    WholeBatch(kinds, capacity);
  }

  // ----- Lost reports -----

  /** The report of this transport that the step throws away. */
  function Lost(w: World, step: Step, t: Transport): Option<Report> {
    if step == Fail(t) then LinkOf(w, t).inFlight
    else if step.Discard? && t.Usb? && w.router.usb != [] then Some(w.router.usb[0])
    else None
  }

  /**
   The step loses the last all-up report that could still settle a type which
   the host of a retired transport has pressed.
   */
  predicate LosesRelease(w: World, step: Step, t: Transport, kinds: nat) {
    Retired(w, t) && Lost(w, step, t).Some? &&
    var r, host := Lost(w, step, t).value, LinkOf(w, t).host;
    && r == AllUp(r.kind) && r.kind < kinds && r.kind in host && host[r.kind] != r
    && (step == Fail(t) ==> r !in Queue(w.router, t))
  }

  lemma PopSettled(w: World, t: Transport, kinds: nat, capacity: nat)
    requires Inv(w, t, kinds) && CanTake(w, Pop(t), kinds, capacity)
    ensures HostSettled(Apply(w, Pop(t), kinds, capacity), t, kinds)
  {
    if Retired(w, t) {
      HeadOfRetired(w, t, kinds);
    }
  }

  lemma DiscardSettled(w: World, kinds: nat, capacity: nat)
    requires Inv(w, Usb, kinds) && CanTake(w, Discard, kinds, capacity) && !LosesRelease(w, Discard, Usb, kinds)
    ensures HostSettled(Apply(w, Discard, kinds, capacity), Usb, kinds)
  {
    if Retired(w, Usb) {
      HeadOfRetired(w, Usb, kinds);
    }
  }

  lemma DeliverSettled(w: World, t: Transport, kinds: nat, capacity: nat)
    requires Inv(w, t, kinds) && CanTake(w, Deliver(t), kinds, capacity)
    ensures HostSettled(Apply(w, Deliver(t), kinds, capacity), t, kinds)
  {
  }

  /** A failed write is made good by the batch behind it, or because the host knew already. */
  lemma FailSettled(w: World, t: Transport, kinds: nat, capacity: nat)
    requires Inv(w, t, kinds) && CanTake(w, Fail(t), kinds, capacity) && !LosesRelease(w, Fail(t), t, kinds)
    ensures HostSettled(Apply(w, Fail(t), kinds, capacity), t, kinds)
  {
    if Retired(w, t) {
      var q, r := Queue(w.router, t), LinkOf(w, t).inFlight.value;
      if r in q {
        var i :| 0 <= i < |q| && q[i] == r;
        assert q[i] == AllUp(kinds - |q| + i);
      }
    }
  }

  lemma StepInv(w: World, step: Step, t: Transport, kinds: nat, capacity: nat)
    requires Inv(w, t, kinds) && CanTake(w, step, kinds, capacity) && kinds <= capacity
    requires !LosesRelease(w, step, t, kinds)
    ensures Inv(Apply(w, step, kinds, capacity), t, kinds)
  {
    TailStep(w, step, t, kinds, capacity);
    KnowsStep(w, step, t, kinds, capacity);
    if step == Clear(t) {
      ClearRestores(w, t, kinds, capacity);
    } else if step == Pop(t) {
      PopSettled(w, t, kinds, capacity);
    } else if step == Deliver(t) {
      DeliverSettled(w, t, kinds, capacity);
    } else if step == Fail(t) {
      FailSettled(w, t, kinds, capacity);
    } else if step.Discard? && t.Usb? {
      DiscardSettled(w, kinds, capacity);
    } else {
      OtherSettled(w, step, t, kinds, capacity);
    }
  }

  lemma OtherSettled(w: World, step: Step, t: Transport, kinds: nat, capacity: nat)
    requires HostSettled(w, t, kinds) && CanTake(w, step, kinds, capacity) && step != Clear(t)
    requires step != Pop(t) && step != Deliver(t) && step != Fail(t) && !(step.Discard? && t.Usb?)
    ensures HostSettled(Apply(w, step, kinds, capacity), t, kinds)
  {
    if Retired(Apply(w, step, kinds, capacity), t) {
      RetiredBefore(w, step, t, kinds, capacity);
      QueueKept(w, step, t, kinds, capacity);
      LinkKept(w, step, t, kinds, capacity);
    }
  }

  /** After every run, lost reports or not, a retired queue is a suffix of the all-up batch. */
  lemma {:induction false} RunTail(w: World, steps: seq<Step>, t: Transport, kinds: nat, capacity: nat)
    requires CanRun(w, steps, kinds, capacity) && kinds <= capacity
    requires HoldsBatchTail(w, t, kinds) && HostKnows(LinkOf(w, t), kinds)
    ensures HoldsBatchTail(Run(w, steps, kinds, capacity), t, kinds)
    ensures HostKnows(LinkOf(Run(w, steps, kinds, capacity), t), kinds)
    decreases steps
  {
    if steps != [] {
      TailStep(w, steps[0], t, kinds, capacity);
      KnowsStep(w, steps[0], t, kinds, capacity);
      RunTail(Apply(w, steps[0], kinds, capacity), steps[1..], t, kinds, capacity);
    }
  }

  // ----- When a key sticks -----

  /** Type `k` has body `v` at the host and nothing about it is on the way. */
  predicate Stuck(w: World, t: Transport, k: nat, v: Report) {
    var q, l := Queue(w.router, t), LinkOf(w, t);
    && Retired(w, t)
    && (forall i :: 0 <= i < |q| ==> q[i].kind != k)
    && (l.inFlight.Some? ==> l.inFlight.value.kind != k)
    && k in l.host && l.host[k] == v
  }

  predicate StaysRetired(w: World, steps: seq<Step>, t: Transport, kinds: nat, capacity: nat)
    requires CanRun(w, steps, kinds, capacity)
    decreases steps
  {
    Retired(w, t) && (steps == [] || StaysRetired(Apply(w, steps[0], kinds, capacity), steps[1..], t, kinds, capacity))
  }

  lemma StuckStep(w: World, step: Step, t: Transport, k: nat, v: Report, kinds: nat, capacity: nat)
    requires Stuck(w, t, k, v) && CanTake(w, step, kinds, capacity) && Retired(Apply(w, step, kinds, capacity), t)
    ensures Stuck(Apply(w, step, kinds, capacity), t, k, v)
  {
    var w' := Apply(w, step, kinds, capacity);
    if step == Pop(t) || (step.Discard? && t.Usb?) {
      assert Queue(w'.router, t) == Queue(w.router, t)[1..];
    } else {
      QueueKept(w, step, t, kinds, capacity);
    }
    if step != Pop(t) && step != Deliver(t) && step != Fail(t) {
      LinkKept(w, step, t, kinds, capacity);
    }
  }

  lemma {:induction false} StuckRun(w: World, steps: seq<Step>, t: Transport, k: nat, v: Report, kinds: nat, capacity: nat)
    requires Stuck(w, t, k, v) && CanRun(w, steps, kinds, capacity) && StaysRetired(w, steps, t, kinds, capacity)
    ensures Stuck(Run(w, steps, kinds, capacity), t, k, v)
    decreases steps
  {
    if steps != [] {
      StuckStep(w, steps[0], t, k, v, kinds, capacity);
      StuckRun(Apply(w, steps[0], kinds, capacity), steps[1..], t, k, v, kinds, capacity);
    }
  }

  lemma TailDiffers(kinds: nat, n: nat, k: nat)
    requires n <= kinds && k < kinds && AllUp(k) !in Batch(kinds, kinds)[n..]
    ensures forall i :: 0 <= i < |Batch(kinds, kinds)[n..]| ==> Batch(kinds, kinds)[n..][i].kind != k
  {
    forall i | 0 <= i < |Batch(kinds, kinds)[n..]|
      ensures Batch(kinds, kinds)[n..][i].kind != k
    {
      assert Batch(kinds, kinds)[n..][i] == AllUp(n + i);
    }
  }

  lemma LossIsStuck(w: World, step: Step, t: Transport, kinds: nat, capacity: nat)
    requires HoldsBatchTail(w, t, kinds) && CanTake(w, step, kinds, capacity) && LosesRelease(w, step, t, kinds)
    requires Retired(Apply(w, step, kinds, capacity), t)
    ensures var k := Lost(w, step, t).value.kind;
      k in LinkOf(w, t).host && Stuck(Apply(w, step, kinds, capacity), t, k, LinkOf(w, t).host[k])
  {
    var k, q := Lost(w, step, t).value.kind, Queue(w.router, t);
    if step == Fail(t) {
      QueueKept(w, step, t, kinds, capacity);
      TailDiffers(kinds, kinds - |q|, k);
    } else {
      HeadOfRetired(w, t, kinds);
      TailDiffers(kinds, kinds - |q| + 1, k);
    }
  }

  // ----- Exactly when everything is released -----

  /** Nothing is left for the transport's host to see. */
  predicate Drained(w: World, t: Transport) {
    Queue(w.router, t) == [] && LinkOf(w, t).inFlight == None
  }

  ghost predicate AllReleased(w: World, t: Transport, kinds: nat) {
    forall k :: 0 <= k < kinds ==> k in LinkOf(w, t).host && LinkOf(w, t).host[k] == AllUp(k)
  }

  predicate NoReleaseLost(w: World, steps: seq<Step>, t: Transport, kinds: nat, capacity: nat)
    requires CanRun(w, steps, kinds, capacity)
    decreases steps
  {
    steps == [] ||
    (!LosesRelease(w, steps[0], t, kinds) &&
     NoReleaseLost(Apply(w, steps[0], kinds, capacity), steps[1..], t, kinds, capacity))
  }

  /** For a transport that stays retired until its queue has drained, from a settled state on. */
  lemma {:induction false} ReleasedIff(w: World, steps: seq<Step>, t: Transport, kinds: nat, capacity: nat)
    requires Inv(w, t, kinds) && CanRun(w, steps, kinds, capacity) && kinds <= capacity
    requires StaysRetired(w, steps, t, kinds, capacity) && Drained(Run(w, steps, kinds, capacity), t)
    ensures AllReleased(Run(w, steps, kinds, capacity), t, kinds) <==> NoReleaseLost(w, steps, t, kinds, capacity)
    decreases steps
  {
    if steps != [] {
      var w' := Apply(w, steps[0], kinds, capacity);
      if LosesRelease(w, steps[0], t, kinds) {
        var k := Lost(w, steps[0], t).value.kind;
        LossIsStuck(w, steps[0], t, kinds, capacity);
        StuckRun(w', steps[1..], t, k, LinkOf(w, t).host[k], kinds, capacity);
      } else {
        StepInv(w, steps[0], t, kinds, capacity);
        ReleasedIff(w', steps[1..], t, kinds, capacity);
      }
    }
  }

  /**
   The handover promise, exactly: whatever happened `before`, reports lost on
   either transport included, once a transport is cleared and while it stays
   out of use until it has drained, its host knows everything to be up if and
   only if no step of that period loses a release.
   */
  lemma HandoverExact(status: Status, before: seq<Step>, after: seq<Step>, t: Transport, kinds: nat, capacity: nat)
    requires CanRun(Start(status, kinds), before, kinds, capacity) && kinds <= capacity
    requires var w := Run(Start(status, kinds), before, kinds, capacity);
      && CanTake(w, Clear(t), kinds, capacity)
      && CanRun(Apply(w, Clear(t), kinds, capacity), after, kinds, capacity)
      && StaysRetired(Apply(w, Clear(t), kinds, capacity), after, t, kinds, capacity)
      && Drained(Run(Apply(w, Clear(t), kinds, capacity), after, kinds, capacity), t)
    ensures var w := Apply(Run(Start(status, kinds), before, kinds, capacity), Clear(t), kinds, capacity);
      AllReleased(Run(w, after, kinds, capacity), t, kinds) <==> NoReleaseLost(w, after, t, kinds, capacity)
  {
    var w := Run(Start(status, kinds), before, kinds, capacity);
    StartInv(status, t, kinds);
    RunTail(Start(status, kinds), before, t, kinds, capacity);
    ClearRestores(w, t, kinds, capacity);
    ReleasedIff(Apply(w, Clear(t), kinds, capacity), after, t, kinds, capacity);
  }

  // ----- Delivery on a transport in use -----

  /** What is on its way to the host: the report in flight, then the queue. */
  function OnTheWay(w: World, t: Transport): seq<Report> {
    (match LinkOf(w, t).inFlight case None => [] case Some(r) => [r]) + Queue(w.router, t)
  }

  /**
   The reports that a step accepts for the active transport: a send that finds
   room, with or without waiting, and a waiting sender that wakes while the
   transport it chose is the active one.
   */
  function Accepted(w: World, step: Step, t: Transport, capacity: nat): seq<Report> {
    var room := |Queue(w.router, t)| < capacity && DecideActive(w.router.status) == Some(t);
    match step
    case Send(_, report) => if room then [report] else []
    case SendNow(report) => if room then [report] else []
    case Wake(id) => if room && id in w.blocked && w.blocked[id].0 == t then [w.blocked[id].1] else []
    case _ => []
  }

  datatype Departure = Departure(report: Report, delivered: bool)

  /** The report that a step takes off the way, and whether the host gets it. */
  function Departs(w: World, step: Step, t: Transport): seq<Departure> {
    if step == Deliver(t) && LinkOf(w, t).inFlight.Some? then [Departure(LinkOf(w, t).inFlight.value, true)]
    else
      match Lost(w, step, t)
      case None => []
      case Some(r) => [Departure(r, false)]
  }

  function AllAccepted(w: World, steps: seq<Step>, t: Transport, kinds: nat, capacity: nat): seq<Report>
    requires CanRun(w, steps, kinds, capacity)
    decreases steps
  {
    if steps == [] then []
    else Accepted(w, steps[0], t, capacity) + AllAccepted(Apply(w, steps[0], kinds, capacity), steps[1..], t, kinds, capacity)
  }

  function AllDepart(w: World, steps: seq<Step>, t: Transport, kinds: nat, capacity: nat): seq<Departure>
    requires CanRun(w, steps, kinds, capacity)
    decreases steps
  {
    if steps == [] then []
    else Departs(w, steps[0], t) + AllDepart(Apply(w, steps[0], kinds, capacity), steps[1..], t, kinds, capacity)
  }

  function Reports(ds: seq<Departure>): seq<Report> {
    if ds == [] then [] else [ds[0].report] + Reports(ds[1..])
  }

  lemma {:induction false} ReportsConcat(a: seq<Departure>, b: seq<Departure>)
    ensures Reports(a + b) == Reports(a) + Reports(b)
  {
    if a == [] {
      assert a + b == b;
    } else {
      assert (a + b)[1..] == a[1..] + b;
      ReportsConcat(a[1..], b);
    }
  }

  /** The transport is active and no clearing of it is due. */
  predicate InUse(w: World, t: Transport) {
    DecideActive(w.router.status) == Some(t) && t !in w.toClear
  }

  predicate StaysInUse(w: World, steps: seq<Step>, t: Transport, kinds: nat, capacity: nat)
    requires CanRun(w, steps, kinds, capacity)
    decreases steps
  {
    InUse(w, t) && (steps == [] || StaysInUse(Apply(w, steps[0], kinds, capacity), steps[1..], t, kinds, capacity))
  }

  lemma SetQueueGets(r: Router, t: Transport, q: seq<Report>)
    ensures Queue(SetQueue(r, t, q), t) == q
  {
  }

  lemma SendersOnTheWay(w: World, step: Step, t: Transport, kinds: nat, capacity: nat)
    requires InUse(w, t) && CanTake(w, step, kinds, capacity) && (step.Send? || step.SendNow? || step.Wake?)
    ensures Queue(Apply(w, step, kinds, capacity).router, t) == Queue(w.router, t) + Accepted(w, step, t, capacity)
    ensures LinkOf(Apply(w, step, kinds, capacity), t) == LinkOf(w, t)
  {
  }

  lemma OneReport(r: Report, delivered: bool)
    ensures Reports([Departure(r, delivered)]) == [r]
  {
    assert [Departure(r, delivered)][1..] == [];
  }

  lemma PopOnTheWay(w: World, t: Transport, kinds: nat, capacity: nat)
    requires CanTake(w, Pop(t), kinds, capacity)
    ensures Departs(w, Pop(t), t) == [] && OnTheWay(w, t) == OnTheWay(Apply(w, Pop(t), kinds, capacity), t)
  {
    assert Queue(w.router, t) == [Queue(w.router, t)[0]] + Queue(w.router, t)[1..];
  }

  lemma DeliverOnTheWay(w: World, t: Transport, kinds: nat, capacity: nat)
    requires CanTake(w, Deliver(t), kinds, capacity)
    ensures OnTheWay(w, t) == Reports(Departs(w, Deliver(t), t)) + OnTheWay(Apply(w, Deliver(t), kinds, capacity), t)
  {
    OneReport(LinkOf(w, t).inFlight.value, true);
  }

  lemma FailOnTheWay(w: World, t: Transport, kinds: nat, capacity: nat)
    requires CanTake(w, Fail(t), kinds, capacity)
    ensures OnTheWay(w, t) == Reports(Departs(w, Fail(t), t)) + OnTheWay(Apply(w, Fail(t), kinds, capacity), t)
  {
    OneReport(LinkOf(w, t).inFlight.value, false);
  }

  lemma DiscardOnTheWay(w: World, kinds: nat, capacity: nat)
    requires CanTake(w, Discard, kinds, capacity)
    ensures OnTheWay(w, Usb) == Reports(Departs(w, Discard, Usb)) + OnTheWay(Apply(w, Discard, kinds, capacity), Usb)
  {
    OneReport(w.router.usb[0], false);
    assert w.router.usb == [w.router.usb[0]] + w.router.usb[1..];
  }

  /** Neither a sender nor this transport's own writer. */
  predicate Aside(step: Step, t: Transport) {
    && !step.Send? && !step.SendNow? && !step.Wake?
    && step != Pop(t) && step != Deliver(t) && step != Fail(t) && !(step.Discard? && t.Usb?)
  }

  lemma AsideOnTheWay(w: World, step: Step, t: Transport, kinds: nat, capacity: nat)
    requires InUse(w, t) && CanTake(w, step, kinds, capacity) && Aside(step, t)
    ensures Departs(w, step, t) == [] && OnTheWay(w, t) == OnTheWay(Apply(w, step, kinds, capacity), t)
  {
    LinkKept(w, step, t, kinds, capacity);
    AsideKeepsQueue(w, step, t, kinds, capacity);
  }

  lemma AsideKeepsQueue(w: World, step: Step, t: Transport, kinds: nat, capacity: nat)
    requires InUse(w, t) && CanTake(w, step, kinds, capacity) && Aside(step, t)
    ensures Queue(Apply(w, step, kinds, capacity).router, t) == Queue(w.router, t)
  {
  }

  lemma WriterOnTheWay(w: World, step: Step, t: Transport, kinds: nat, capacity: nat)
    requires InUse(w, t) && CanTake(w, step, kinds, capacity) && !step.Send? && !step.SendNow? && !step.Wake?
    ensures OnTheWay(w, t) == Reports(Departs(w, step, t)) + OnTheWay(Apply(w, step, kinds, capacity), t)
  {
    if step == Pop(t) {
      PopOnTheWay(w, t, kinds, capacity);
    } else if step == Deliver(t) {
      DeliverOnTheWay(w, t, kinds, capacity);
    } else if step == Fail(t) {
      FailOnTheWay(w, t, kinds, capacity);
    } else if step.Discard? && t.Usb? {
      DiscardOnTheWay(w, kinds, capacity);
    } else {
      AsideOnTheWay(w, step, t, kinds, capacity);
    }
  }

  lemma StepOnTheWay(w: World, step: Step, t: Transport, kinds: nat, capacity: nat)
    requires InUse(w, t) && CanTake(w, step, kinds, capacity)
    ensures OnTheWay(w, t) + Accepted(w, step, t, capacity) ==
            Reports(Departs(w, step, t)) + OnTheWay(Apply(w, step, kinds, capacity), t)
  {
    if step.Send? || step.SendNow? || step.Wake? {
      SendersOnTheWay(w, step, t, kinds, capacity);
    } else {
      WriterOnTheWay(w, step, t, kinds, capacity);
    }
  }

  lemma Chain(a: seq<Report>, b: seq<Report>, c: seq<Report>, d: seq<Report>, e: seq<Report>, f: seq<Report>, h: seq<Report>)
    requires a + b == c + d && d + e == f + h
    ensures a + (b + e) == (c + f) + h
  {
    assert a + (b + e) == (a + b) + e == c + (d + e) == (c + f) + h;
  }

  /**
   Nothing is lost, repeated or overtaken on a transport in use: what was on the
   way, followed by everything accepted, is what has left, followed by what is
   on the way now.
   */
  lemma {:induction false} RunInOrder(w: World, steps: seq<Step>, t: Transport, kinds: nat, capacity: nat)
    requires CanRun(w, steps, kinds, capacity) && StaysInUse(w, steps, t, kinds, capacity)
    ensures OnTheWay(w, t) + AllAccepted(w, steps, t, kinds, capacity) ==
            Reports(AllDepart(w, steps, t, kinds, capacity)) + OnTheWay(Run(w, steps, kinds, capacity), t)
    decreases steps
  {
    if steps != [] {
      var w' := Apply(w, steps[0], kinds, capacity);
      StepOnTheWay(w, steps[0], t, kinds, capacity);
      RunInOrder(w', steps[1..], t, kinds, capacity);
      ReportsConcat(Departs(w, steps[0], t), AllDepart(w', steps[1..], t, kinds, capacity));
      Chain(OnTheWay(w, t), Accepted(w, steps[0], t, capacity), Reports(Departs(w, steps[0], t)), OnTheWay(w', t),
            AllAccepted(w', steps[1..], t, kinds, capacity), Reports(AllDepart(w', steps[1..], t, kinds, capacity)),
            OnTheWay(Run(w, steps, kinds, capacity), t));
    }
  }

  /** What the host knows after these departures: of each type the last report delivered. */
  function HostAfter(host: map<nat, Report>, ds: seq<Departure>): map<nat, Report>
    decreases ds
  {
    if ds == [] then host
    else HostAfter(if ds[0].delivered then host[ds[0].report.kind := ds[0].report] else host, ds[1..])
  }

  lemma {:induction false} HostAfterConcat(host: map<nat, Report>, a: seq<Departure>, b: seq<Departure>)
    ensures HostAfter(host, a + b) == HostAfter(HostAfter(host, a), b)
    decreases a
  {
    if a == [] {
      assert a + b == b;
    } else {
      assert (a + b)[1..] == a[1..] + b;
      HostAfterConcat(if a[0].delivered then host[a[0].report.kind := a[0].report] else host, a[1..], b);
    }
  }

  lemma HostAfterOne(host: map<nat, Report>, d: Departure)
    ensures HostAfter(host, [d]) == if d.delivered then host[d.report.kind := d.report] else host
  {
    assert [d][1..] == [];
  }

  lemma HostStep(w: World, step: Step, t: Transport, kinds: nat, capacity: nat)
    requires CanTake(w, step, kinds, capacity)
    ensures LinkOf(Apply(w, step, kinds, capacity), t).host == HostAfter(LinkOf(w, t).host, Departs(w, step, t))
  {
    var host := LinkOf(w, t).host;
    if step == Deliver(t) {
      HostAfterOne(host, Departure(LinkOf(w, t).inFlight.value, true));
    } else {
      OthersKeepHost(w, step, t, kinds, capacity);
      if Lost(w, step, t).Some? {
        HostAfterOne(host, Departure(Lost(w, step, t).value, false));
      }
    }
  }

  lemma OthersKeepHost(w: World, step: Step, t: Transport, kinds: nat, capacity: nat)
    requires CanTake(w, step, kinds, capacity) && step != Deliver(t)
    ensures LinkOf(Apply(w, step, kinds, capacity), t).host == LinkOf(w, t).host
  {
    if step != Pop(t) && step != Fail(t) {
      LinkKept(w, step, t, kinds, capacity);
    }
  }

  /** The host sees exactly the delivered ones, in that order, in use or not. */
  lemma {:induction false} HostSees(w: World, steps: seq<Step>, t: Transport, kinds: nat, capacity: nat)
    requires CanRun(w, steps, kinds, capacity)
    ensures LinkOf(Run(w, steps, kinds, capacity), t).host ==
            HostAfter(LinkOf(w, t).host, AllDepart(w, steps, t, kinds, capacity))
    decreases steps
  {
    if steps != [] {
      var w' := Apply(w, steps[0], kinds, capacity);
      HostStep(w, steps[0], t, kinds, capacity);
      HostSees(w', steps[1..], t, kinds, capacity);
      HostAfterConcat(LinkOf(w, t).host, Departs(w, steps[0], t), AllDepart(w', steps[1..], t, kinds, capacity));
    }
  }

  /** A send is accepted or waits with its report and its transport; without a transport it is dropped. */
  lemma SendWaits(w: World, id: nat, report: Report, kinds: nat, capacity: nat)
    requires CanTake(w, Send(id, report), kinds, capacity)
    ensures var active, w' := DecideActive(w.router.status), Apply(w, Send(id, report), kinds, capacity);
      match active
      case None => w' == w
      case Some(t) =>
        if Accepted(w, Send(id, report), t, capacity) == [report] then w'.blocked == w.blocked
        else w'.blocked == w.blocked[id := (t, report)] && Queue(w'.router, t) == Queue(w.router, t)
  {
  }

  /** A waiting sender keeps both until it wakes or is given up. */
  lemma WaitingKept(w: World, step: Step, id: nat, kinds: nat, capacity: nat)
    requires CanTake(w, step, kinds, capacity) && id in w.blocked && step != Wake(id) && step != Abandon(id)
    ensures id in Apply(w, step, kinds, capacity).blocked && Apply(w, step, kinds, capacity).blocked[id] == w.blocked[id]
  {
  }

  /** When it wakes, its report is accepted exactly when its transport is still the active one. */
  lemma WakeAcceptedIff(w: World, id: nat, kinds: nat, capacity: nat)
    requires CanTake(w, Wake(id), kinds, capacity)
    ensures var (t, report) := w.blocked[id];
      var w' := Apply(w, Wake(id), kinds, capacity);
      && id !in w'.blocked
      && Queue(w'.router, t) ==
           if DecideActive(w.router.status) == Some(t) then Queue(w.router, t) + [report] else Queue(w.router, t)
  {
  }

  // ----- Runs that go wrong -----

  lemma RunCons(w: World, step: Step, rest: seq<Step>, kinds: nat, capacity: nat)
    requires CanTake(w, step, kinds, capacity) && CanRun(Apply(w, step, kinds, capacity), rest, kinds, capacity)
    ensures CanRun(w, [step] + rest, kinds, capacity)
    ensures Run(w, [step] + rest, kinds, capacity) == Run(Apply(w, step, kinds, capacity), rest, kinds, capacity)
  {
    assert ([step] + rest)[1..] == rest;
  }

  function PressThen(kind: nat, rest: seq<Step>): seq<Step> {
    [Send(0, Report(kind, 1))] + ([Pop(Usb)] + ([Deliver(Usb)] + rest))
  }

  /** A key is down at the USB host and both queues are empty. */
  function PressedOnUsb(status: Status, kind: nat, kinds: nat): World {
    var w := Start(status, kinds);
    w.(usb := Link(None, w.usb.host[kind := Report(kind, 1)]))
  }

  lemma PressThenRuns(status: Status, kind: nat, rest: seq<Step>, kinds: nat, capacity: nat)
    requires 0 < capacity && kind < kinds && DecideActive(status) == Some(Usb) && status.usb != Suspended
    requires CanRun(PressedOnUsb(status, kind, kinds), rest, kinds, capacity)
    ensures CanRun(Start(status, kinds), PressThen(kind, rest), kinds, capacity)
    ensures Run(Start(status, kinds), PressThen(kind, rest), kinds, capacity)
         == Run(PressedOnUsb(status, kind, kinds), rest, kinds, capacity)
  {
    var w0 := Start(status, kinds);
    var w1 := Apply(w0, Send(0, Report(kind, 1)), kinds, capacity);
    var w2 := Apply(w1, Pop(Usb), kinds, capacity);
    assert Apply(w2, Deliver(Usb), kinds, capacity) == PressedOnUsb(status, kind, kinds);
    RunCons(w2, Deliver(Usb), rest, kinds, capacity);
    RunCons(w1, Pop(Usb), [Deliver(Usb)] + rest, kinds, capacity);
    RunCons(w0, Send(0, Report(kind, 1)), [Pop(Usb)] + ([Deliver(Usb)] + rest), kinds, capacity);
  }

  predicate NoLoss(steps: seq<Step>) {
    forall i :: 0 <= i < |steps| ==> !steps[i].Fail? && !steps[i].Discard?
  }

  /** USB alone; then it is unplugged. */
  function OnlyUsb(): Status {
    Status(Configured, Inactive, 0, false, Usb)
  }

  function Unplug(): seq<Step> {
    [Commit(OnlyUsb().(usb := Disabled))] + ([Clear(Usb)] + [])
  }

  /**
   The room is needed: with a slot too few, a type that does not fit the batch
   stays pressed on the host that was left, with nothing queued to release it.
   */
  lemma SmallQueueSticks(kinds: nat, capacity: nat) returns (steps: seq<Step>, w: World)
    requires 0 < capacity < kinds
    ensures CanRun(Start(OnlyUsb(), kinds), steps, kinds, capacity) && NoLoss(steps)
    ensures w == Run(Start(OnlyUsb(), kinds), steps, kinds, capacity)
    ensures Stuck(w, Usb, capacity, Report(capacity, 1))
  {
    steps := PressThen(capacity, Unplug());
    var pressed := PressedOnUsb(OnlyUsb(), capacity, kinds);
    var off := Apply(pressed, Commit(OnlyUsb().(usb := Disabled)), kinds, capacity);
    w := Apply(off, Clear(Usb), kinds, capacity);
    RunCons(off, Clear(Usb), [], kinds, capacity);
    RunCons(pressed, Commit(OnlyUsb().(usb := Disabled)), [Clear(Usb)] + [], kinds, capacity);
    PressThenRuns(OnlyUsb(), capacity, Unplug(), kinds, capacity);
  }

  /** Both hosts connected, USB preferred. */
  function BothReady(): Status {
    Status(Configured, Connected, 0, false, Usb)
  }

  /** The USB bus is suspended, and then BLE preferred. */
  function SwitchWhileSuspended(): seq<Step> {
    var suspended := BothReady().(usb := Suspended);
    [Commit(suspended)] + ([Commit(suspended.(preferred := Ble))] + ([Clear(Usb)] + []))
  }

  lemma SwitchRuns(kinds: nat, capacity: nat) returns (w: World)
    requires 0 < kinds <= capacity
    ensures CanRun(PressedOnUsb(BothReady(), 0, kinds), SwitchWhileSuspended(), kinds, capacity)
    ensures w == Run(PressedOnUsb(BothReady(), 0, kinds), SwitchWhileSuspended(), kinds, capacity)
    ensures w.router == Router(BothReady().(usb := Suspended, preferred := Ble), Batch(kinds, capacity), [])
    ensures w.toClear == multiset{} && w.usb == PressedOnUsb(BothReady(), 0, kinds).usb
  {
    var suspended := BothReady().(usb := Suspended);
    var w0 := PressedOnUsb(BothReady(), 0, kinds);
    var w1 := Apply(w0, Commit(suspended), kinds, capacity);
    var w2 := Apply(w1, Commit(suspended.(preferred := Ble)), kinds, capacity);
    w := Apply(w2, Clear(Usb), kinds, capacity);
    RunCons(w2, Clear(Usb), [], kinds, capacity);
    RunCons(w1, Commit(suspended.(preferred := Ble)), [Clear(Usb)] + [], kinds, capacity);
    RunCons(w0, Commit(suspended), [Commit(suspended.(preferred := Ble))] + ([Clear(Usb)] + []), kinds, capacity);
  }

  /**
   A loss that sticks does happen: with a key down, the USB bus is suspended
   and the user switches to BLE. The USB writer throws the all-up report away,
   and the key stays down at the USB host.
   */
  lemma SuspendedSwitchSticks(kinds: nat, capacity: nat) returns (w: World)
    requires 0 < kinds <= capacity
    ensures CanRun(Start(BothReady(), kinds), PressThen(0, SwitchWhileSuspended()), kinds, capacity)
    ensures w == Run(Start(BothReady(), kinds), PressThen(0, SwitchWhileSuspended()), kinds, capacity)
    ensures CanTake(w, Discard, kinds, capacity) && LosesRelease(w, Discard, Usb, kinds)
    ensures Stuck(Apply(w, Discard, kinds, capacity), Usb, 0, Report(0, 1))
  {
    w := SwitchRuns(kinds, capacity);
    PressThenRuns(BothReady(), 0, SwitchWhileSuspended(), kinds, capacity);
    WholeBatch(kinds, capacity);
    assert w.router.usb[0] == AllUp(0);
    LossIsStuck(w, Discard, Usb, kinds, capacity);
  }
}

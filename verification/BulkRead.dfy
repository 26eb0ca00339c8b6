/**
 Bulk reads of the Rynk client: several lanes claim windows from a shared
 counter, fetch pages of whatever length the device chooses to answer, and the
 pages are stitched into one list. Lanes interleave freely at their awaits.
 */
module BulkRead {

  const U16: nat := 0x1_0000

  const MAX_RETRIES: nat := 16

  /** A page as a lane records it: the cursor it was fetched at and its items. */
  datatype Page<T> = Page(start: nat, items: seq<T>)

  /** A device reply: no room to answer now, some other error, or a page. */
  datatype Reply<T> = Busy | Rejected | Items(items: seq<T>)

  /** Between windows, inside one, past the last one, or ended by an error. */
  datatype Lane<T> =
    | Idle(pages: seq<Page<T>>)
    | Reading(pages: seq<Page<T>>, start: nat, window: nat, cursor: nat, retries: nat)
    | Done(pages: seq<Page<T>>)
    | Failed(pages: seq<Page<T>>)

  /** The shared counter and the lanes. */
  datatype Reader<T> = Reader(next: nat, lanes: seq<Lane<T>>)

  datatype Step<T> = Claim(lane: nat) | Receive(lane: nat, reply: Reply<T>)

  function Min(a: nat, b: nat): nat {
    if a < b then a else b
  }

  /** A lane takes the next window, or ends when none is left. */
  function ClaimWindow<T>(lane: Lane<T>, index: nat, spacing: nat, total: nat): Lane<T>
    requires lane.Idle?
  {
    var start := index * spacing;
    if start >= total then Done(lane.pages)
    else EnterLoop(Reading(lane.pages, start, Min(start + spacing, total), start, 0))
  }

  /** The window loop goes on while the cursor has not reached the window's end. */
  function EnterLoop<T>(lane: Lane<T>): Lane<T>
    requires lane.Reading?
  {
    if lane.cursor < lane.window then lane else Idle(lane.pages)
  }

  function Take<T>(lane: Lane<T>, reply: Reply<T>): Lane<T>
    requires lane.Reading?
  {
    match reply
    case Busy => if lane.retries < MAX_RETRIES then lane.(retries := lane.retries + 1) else Failed(lane.pages)
    case Rejected => Failed(lane.pages)
    case Items(items) =>
      if items == [] then Idle(lane.pages)
      else EnterLoop(lane.(pages := lane.pages + [Page(lane.cursor, items)], cursor := lane.cursor + |items|))
  }

  predicate Enabled<T>(r: Reader<T>, step: Step<T>) {
    && step.lane < |r.lanes|
    && match step
       case Claim(j) => r.lanes[j].Idle?
       case Receive(j, _) => r.lanes[j].Reading?
  }

  function Apply<T>(r: Reader<T>, step: Step<T>, spacing: nat, total: nat): Reader<T>
    requires Enabled(r, step)
  {
    match step
    case Claim(j) => Reader(r.next + 1, r.lanes[j := ClaimWindow(r.lanes[j], r.next, spacing, total)])
    case Receive(j, reply) => r.(lanes := r.lanes[j := Take(r.lanes[j], reply)])
  }

  function Start<T>(lanes: nat): Reader<T> {
    Reader(0, seq(lanes, _ => Idle([])))
  }

  // ----- What the device may answer -----

  /** A page is a run of the device's data from the 16-bit cursor it was asked at. */
  ghost predicate Truthful<T>(r: Reader<T>, step: Step<T>, data: seq<T>) {
    step.Receive? && step.reply.Items? && step.lane < |r.lanes| && r.lanes[step.lane].Reading? ==>
      var at, items := r.lanes[step.lane].cursor % U16, step.reply.items;
      items == [] || (at + |items| <= |data| && items == data[at..at + |items|])
  }

  /** The cursor a reply answers fits the 16 bits it is sent in. */
  predicate AsksNamed<T>(r: Reader<T>, step: Step<T>) {
    step.Receive? && step.lane < |r.lanes| && r.lanes[step.lane].Reading? ==> r.lanes[step.lane].cursor < U16
  }

  /** Only a cursor at or past the end is answered with an empty page. */
  ghost predicate Complete<T>(r: Reader<T>, step: Step<T>, data: seq<T>) {
    step == Receive(step.lane, Items([])) && step.lane < |r.lanes| && r.lanes[step.lane].Reading? ==>
      r.lanes[step.lane].cursor % U16 >= |data|
  }

  /** The firmware's answer from flat index `start`, with room for `cap` items. */
  function BulkPage<T>(start: nat, cap: nat, data: seq<T>): Reply<T> {
    if cap == 0 && start < |data| then Busy
    else if start >= |data| then Items([])
    else Items(data[start..Min(start + cap, |data|)])
  }

  /** The firmware is such a device, whatever room each reply has. */
  lemma FirmwareAnswers<T>(r: Reader<T>, j: nat, cap: nat, data: seq<T>)
    requires j < |r.lanes| && r.lanes[j].Reading?
    ensures var step := Receive(j, BulkPage(r.lanes[j].cursor % U16, cap, data));
      Truthful(r, step, data) && Complete(r, step, data)
  {
  }

  // ----- Invariants -----

  ghost predicate GoodPage<T>(p: Page<T>, data: seq<T>) {
    p.items != [] && p.start + |p.items| <= |data| && p.items == data[p.start..p.start + |p.items|]
  }

  /** Every recorded page is a non-empty piece of the data, in its place. */
  ghost predicate TruePages<T>(r: Reader<T>, data: seq<T>) {
    forall j :: 0 <= j < |r.lanes| ==> forall i :: 0 <= i < |r.lanes[j].pages| ==> GoodPage(r.lanes[j].pages[i], data)
  }

  ghost predicate InBounds<T>(r: Reader<T>, spacing: nat, total: nat) {
    forall j :: 0 <= j < |r.lanes| && r.lanes[j].Reading? ==>
      var lane := r.lanes[j];
      && lane.start <= lane.cursor < lane.window <= total
      && lane.window == Min(lane.start + spacing, total) && lane.retries <= MAX_RETRIES
  }

  ghost predicate PageHas<T>(p: Page<T>, x: nat) {
    p.start <= x < p.start + |p.items|
  }

  ghost predicate LaneHas<T>(lane: Lane<T>, x: nat) {
    exists i :: 0 <= i < |lane.pages| && PageHas(lane.pages[i], x)
  }

  /** The lane still has `x` ahead of it in its window. */
  ghost predicate LaneOwes<T>(lane: Lane<T>, x: nat) {
    lane.Reading? && lane.cursor <= x < lane.window
  }

  ghost predicate Accounted<T>(r: Reader<T>, x: nat) {
    exists j :: 0 <= j < |r.lanes| && (LaneHas(r.lanes[j], x) || LaneOwes(r.lanes[j], x))
  }

  /** Every index of a claimed window has been fetched or is still owed, unless a lane failed. */
  ghost predicate NothingLost<T>(r: Reader<T>, spacing: nat, total: nat, data: seq<T>) {
    forall x :: 0 <= x < r.next * spacing && x < total && x < |data| ==> Accounted(r, x) || AnyFailed(r)
  }

  ghost predicate AnyFailed<T>(r: Reader<T>) {
    exists j :: 0 <= j < |r.lanes| && r.lanes[j].Failed?
  }

  /** A lane only ends once the windows run out. */
  ghost predicate DoneMeansOver<T>(r: Reader<T>, spacing: nat, total: nat) {
    (exists j :: 0 <= j < |r.lanes| && r.lanes[j].Done?) ==> r.next * spacing >= total
  }

  lemma OneMore(n: nat, spacing: nat)
    ensures (n + 1) * spacing == n * spacing + spacing
  {
  }

  /** Changing lane `j` keeps `x` accounted for when lane `j` itself keeps it. */
  lemma StillAccounted<T>(r: Reader<T>, r': Reader<T>, j: nat, x: nat)
    requires j < |r.lanes| && |r'.lanes| == |r.lanes| && r'.lanes == r.lanes[j := r'.lanes[j]]
    requires Accounted(r, x)
    requires LaneHas(r.lanes[j], x) || LaneOwes(r.lanes[j], x) ==> LaneHas(r'.lanes[j], x) || LaneOwes(r'.lanes[j], x)
    ensures Accounted(r', x)
  {
    var k :| 0 <= k < |r.lanes| && (LaneHas(r.lanes[k], x) || LaneOwes(r.lanes[k], x));
    assert LaneHas(r'.lanes[k], x) || LaneOwes(r'.lanes[k], x);
  }

  lemma StepBounds<T>(r: Reader<T>, step: Step<T>, spacing: nat, total: nat)
    requires Enabled(r, step) && spacing > 0 && InBounds(r, spacing, total)
    ensures InBounds(Apply(r, step, spacing, total), spacing, total)
  {
  }

  lemma StepPages<T>(r: Reader<T>, step: Step<T>, spacing: nat, total: nat, data: seq<T>)
    requires Enabled(r, step) && AsksNamed(r, step)
    requires InBounds(r, spacing, total) && TruePages(r, data) && Truthful(r, step, data)
    ensures TruePages(Apply(r, step, spacing, total), data)
  {
  }

  lemma StepDone<T>(r: Reader<T>, step: Step<T>, spacing: nat, total: nat)
    requires Enabled(r, step) && DoneMeansOver(r, spacing, total)
    ensures DoneMeansOver(Apply(r, step, spacing, total), spacing, total)
  {
    OneMore(r.next, spacing);
    var r' := Apply(r, step, spacing, total);
    if j :| 0 <= j < |r'.lanes| && r'.lanes[j].Done? {
      if j == step.lane {
        assert r.next * spacing >= total;
      } else {
        assert r.lanes[j].Done?;
      }
    }
  }

  lemma ClaimLosesNothing<T>(r: Reader<T>, j: nat, spacing: nat, total: nat, data: seq<T>)
    requires Enabled(r, Claim(j)) && spacing > 0 && NothingLost(r, spacing, total, data)
    ensures NothingLost(Apply(r, Claim(j), spacing, total), spacing, total, data)
  {
    var r' := Apply(r, Claim(j), spacing, total);
    OneMore(r.next, spacing);
    forall x | 0 <= x < r'.next * spacing && x < total && x < |data|
      ensures Accounted(r', x) || AnyFailed(r')
    {
      if x < r.next * spacing {
        if Accounted(r, x) {
          StillAccounted(r, r', j, x);
        } else {
          FailedStays(r, r', j);
        }
      } else {
        assert LaneOwes(r'.lanes[j], x);
      }
    }
  }

  lemma FailedStays<T>(r: Reader<T>, r': Reader<T>, j: nat)
    requires j < |r.lanes| && |r'.lanes| == |r.lanes| && r'.lanes == r.lanes[j := r'.lanes[j]]
    requires AnyFailed(r) && !r.lanes[j].Failed?
    ensures AnyFailed(r')
  {
    var k :| 0 <= k < |r.lanes| && r.lanes[k].Failed?;
    assert r'.lanes[k].Failed?;
  }

  lemma TakeKeeps<T>(lane: Lane<T>, reply: Reply<T>, x: nat, total: nat, data: seq<T>)
    requires lane.Reading? && lane.cursor < lane.window <= total && x < |data|
    requires reply == Items([]) ==> lane.cursor >= |data|
    requires LaneHas(lane, x) || LaneOwes(lane, x)
    ensures var lane' := Take(lane, reply); lane'.Failed? || LaneHas(lane', x) || LaneOwes(lane', x)
  {
    var lane' := Take(lane, reply);
    if LaneHas(lane, x) {
      var i :| 0 <= i < |lane.pages| && PageHas(lane.pages[i], x);
      assert lane'.pages[i] == lane.pages[i];
    } else if reply.Items? && reply.items != [] {
      assert lane'.pages[|lane.pages|] == Page(lane.cursor, reply.items);
      assert PageHas(lane'.pages[|lane.pages|], x) || lane.cursor + |reply.items| <= x;
    }
  }

  lemma ReceiveLosesNothing<T>(r: Reader<T>, j: nat, reply: Reply<T>, spacing: nat, total: nat, data: seq<T>)
    requires Enabled(r, Receive(j, reply)) && AsksNamed(r, Receive(j, reply))
    requires InBounds(r, spacing, total) && NothingLost(r, spacing, total, data)
    requires Complete(r, Receive(j, reply), data)
    ensures NothingLost(Apply(r, Receive(j, reply), spacing, total), spacing, total, data)
  {
    var r' := Apply(r, Receive(j, reply), spacing, total);
    forall x | 0 <= x < r'.next * spacing && x < total && x < |data|
      ensures Accounted(r', x) || AnyFailed(r')
    {
      if r'.lanes[j].Failed? {
      } else if Accounted(r, x) {
        if LaneHas(r.lanes[j], x) || LaneOwes(r.lanes[j], x) {
          TakeKeeps(r.lanes[j], reply, x, total, data);
        }
        StillAccounted(r, r', j, x);
      } else {
        FailedStays(r, r', j);
      }
    }
  }

  // ----- Runs -----

  predicate CanRun<T>(r: Reader<T>, steps: seq<Step<T>>, spacing: nat, total: nat)
    decreases steps
  {
    steps == [] || (Enabled(r, steps[0]) && CanRun(Apply(r, steps[0], spacing, total), steps[1..], spacing, total))
  }

  function Run<T>(r: Reader<T>, steps: seq<Step<T>>, spacing: nat, total: nat): Reader<T>
    requires CanRun(r, steps, spacing, total)
    decreases steps
  {
    if steps == [] then r else Run(Apply(r, steps[0], spacing, total), steps[1..], spacing, total)
  }

  /** Every page of the run is a true piece of `data`; with `complete`, none is empty before the end. */
  ghost predicate Device<T>(
    r: Reader<T>, steps: seq<Step<T>>, spacing: nat, total: nat, data: seq<T>, complete: bool)
    requires CanRun(r, steps, spacing, total)
    decreases steps
  {
    steps == [] ||
    (Truthful(r, steps[0], data) && (complete ==> Complete(r, steps[0], data)) &&
     Device(Apply(r, steps[0], spacing, total), steps[1..], spacing, total, data, complete))
  }

  /** Every cursor the run asks for fits 16 bits. */
  predicate NamesCursors<T>(r: Reader<T>, steps: seq<Step<T>>, spacing: nat, total: nat)
    requires CanRun(r, steps, spacing, total)
    decreases steps
  {
    steps == [] ||
    (AsksNamed(r, steps[0]) && NamesCursors(Apply(r, steps[0], spacing, total), steps[1..], spacing, total))
  }

  ghost predicate Inv<T>(r: Reader<T>, spacing: nat, total: nat, data: seq<T>, complete: bool) {
    && InBounds(r, spacing, total) && TruePages(r, data) && DoneMeansOver(r, spacing, total)
    && (complete ==> NothingLost(r, spacing, total, data))
  }

  lemma {:induction false} RunInv<T>(
    r: Reader<T>, steps: seq<Step<T>>, spacing: nat, total: nat, data: seq<T>, complete: bool)
    requires spacing > 0 && Inv(r, spacing, total, data, complete)
    requires CanRun(r, steps, spacing, total) && Device(r, steps, spacing, total, data, complete)
    requires NamesCursors(r, steps, spacing, total)
    ensures Inv(Run(r, steps, spacing, total), spacing, total, data, complete)
    ensures |Run(r, steps, spacing, total).lanes| == |r.lanes|
    decreases steps
  {
    if steps != [] {
      StepBounds(r, steps[0], spacing, total);
      StepPages(r, steps[0], spacing, total, data);
      StepDone(r, steps[0], spacing, total);
      if complete {
        match steps[0] {
          case Claim(j) => ClaimLosesNothing(r, j, spacing, total, data);
          case Receive(j, reply) => ReceiveLosesNothing(r, j, reply, spacing, total, data);
        }
      }
      RunInv(Apply(r, steps[0], spacing, total), steps[1..], spacing, total, data, complete);
    }
  }

  /** With a total of at most 65536 every cursor fits. */
  lemma {:induction false} SmallTotalNamed<T>(r: Reader<T>, steps: seq<Step<T>>, spacing: nat, total: nat)
    requires spacing > 0 && total <= U16 && InBounds(r, spacing, total) && CanRun(r, steps, spacing, total)
    ensures NamesCursors(r, steps, spacing, total)
    decreases steps
  {
    if steps != [] {
      StepBounds(r, steps[0], spacing, total);
      SmallTotalNamed(Apply(r, steps[0], spacing, total), steps[1..], spacing, total);
    }
  }

  /** And that is needed: where no item occurs twice, a page belongs at its cursor exactly when the cursor fits. */
  lemma CursorNamedIff<T>(data: seq<T>, cursor: nat, items: seq<T>)
    requires forall i, j :: 0 <= i < j < |data| ==> data[i] != data[j]
    requires items != [] && cursor % U16 + |items| <= |data| && items == data[cursor % U16..cursor % U16 + |items|]
    ensures GoodPage(Page(cursor, items), data) <==> cursor < U16
  {
    assert items[0] == data[cursor % U16];
    assert GoodPage(Page(cursor, items), data) ==> items[0] == data[cursor];
  }

  // ----- Stitching -----

  function Skip<T>(items: seq<T>, n: nat): seq<T> {
    if n <= |items| then items[n..] else []
  }

  /** Append the pages in turn, dropping what is already there, up to the first gap. */
  function StitchFrom<T>(out: seq<T>, pages: seq<Page<T>>): seq<T>
    decreases pages
  {
    if pages == [] || pages[0].start > |out| then out
    else StitchFrom(out + Skip(pages[0].items, |out| - pages[0].start), pages[1..])
  }

  method Stitch<T>(pages: seq<Page<T>>) returns (out: seq<T>)
    ensures out == StitchFrom([], pages)
  {
    out := [];
    ghost var goal := StitchFrom(out, pages);
    var rest := pages;
    while rest != [] && rest[0].start <= |out|
      invariant goal == StitchFrom(out, rest)
      decreases |rest|
    {
      out, rest := StitchOne(out, rest);
    }
  }

  /** Append what the first page adds. */
  method StitchOne<T>(before: seq<T>, pages: seq<Page<T>>) returns (out: seq<T>, rest: seq<Page<T>>)
    requires pages != [] && pages[0].start <= |before|
    ensures |rest| < |pages| && StitchFrom(out, rest) == StitchFrom(before, pages)
  {
    out := before + Skip(pages[0].items, |before| - pages[0].start);
    rest := pages[1..];
  }

  predicate SortedByStart<T>(pages: seq<Page<T>>) {
    forall i, j :: 0 <= i < j < |pages| ==> pages[i].start <= pages[j].start
  }

  ghost predicate AllGood<T>(pages: seq<Page<T>>, data: seq<T>) {
    forall i :: 0 <= i < |pages| ==> GoodPage(pages[i], data)
  }

  ghost predicate SomePageHas<T>(pages: seq<Page<T>>, x: nat) {
    exists i :: 0 <= i < |pages| && PageHas(pages[i], x)
  }

  /** Adding a true page that leaves no gap extends a prefix of the data to the page's end. */
  lemma AppendPage<T>(out: seq<T>, p: Page<T>, data: seq<T>)
    requires out <= data && GoodPage(p, data) && p.start <= |out|
    ensures var out' := out + Skip(p.items, |out| - p.start);
      out <= out' <= data && p.start + |p.items| <= |out'|
      && (|out'| == |out| || |out'| == p.start + |p.items|)
  {
  }

  /** True pages stitch to a prefix of the data, whatever is missing. */
  lemma {:induction false} StitchPrefix<T>(out: seq<T>, pages: seq<Page<T>>, data: seq<T>)
    requires out <= data && AllGood(pages, data)
    ensures out <= StitchFrom(out, pages) <= data
    decreases pages
  {
    if pages != [] && pages[0].start <= |out| {
      AppendPage(out, pages[0], data);
      StitchPrefix(out + Skip(pages[0].items, |out| - pages[0].start), pages[1..], data);
    }
  }

  /** If the sorted pages reach every index below `m`, so does the stitched list. */
  lemma {:induction false} StitchReaches<T>(out: seq<T>, pages: seq<Page<T>>, data: seq<T>, m: nat)
    requires out <= data && AllGood(pages, data) && SortedByStart(pages)
    requires forall x :: |out| <= x < m ==> SomePageHas(pages, x)
    ensures |StitchFrom(out, pages)| >= m
    decreases pages
  {
    if |out| < m {
      assert SomePageHas(pages, |out|);
      AppendPage(out, pages[0], data);
      var out' := out + Skip(pages[0].items, |out| - pages[0].start);
      forall x | |out'| <= x < m
        ensures SomePageHas(pages[1..], x)
      {
        assert SomePageHas(pages, x);
        var i :| 0 <= i < |pages| && PageHas(pages[i], x);
        assert pages[1..][i - 1] == pages[i];
      }
      StitchReaches(out', pages[1..], data, m);
    } else {
      StitchPrefix(out, pages, data);
    }
  }

  // ----- The whole read -----

  function AllPages<T>(lanes: seq<Lane<T>>): seq<Page<T>> {
    if lanes == [] then [] else AllPages(lanes[..|lanes| - 1]) + lanes[|lanes| - 1].pages
  }

  lemma {:induction false} PageFromLane<T>(lanes: seq<Lane<T>>, j: nat, i: nat)
    requires j < |lanes| && i < |lanes[j].pages|
    ensures lanes[j].pages[i] in AllPages(lanes)
    decreases |lanes|
  {
    if j < |lanes| - 1 {
      PageFromLane(lanes[..|lanes| - 1], j, i);
    }
  }

  lemma {:induction false} LaneOfPage<T>(lanes: seq<Lane<T>>, p: Page<T>) returns (j: nat, i: nat)
    requires p in AllPages(lanes)
    ensures j < |lanes| && i < |lanes[j].pages| && lanes[j].pages[i] == p
    decreases |lanes|
  {
    var last := |lanes| - 1;
    if p in lanes[last].pages {
      j := last;
      i :| 0 <= i < |lanes[last].pages| && lanes[last].pages[i] == p;
    } else {
      j, i := LaneOfPage(lanes[..last], p);
    }
  }

  /** The lanes have all ended without an error. */
  predicate Finished<T>(r: Reader<T>) {
    forall j :: 0 <= j < |r.lanes| ==> r.lanes[j].Done?
  }

  /** Any order the unstable sort may leave the pages of all lanes in. */
  ghost predicate SortOf<T>(sorted: seq<Page<T>>, r: Reader<T>) {
    SortedByStart(sorted) && multiset(sorted) == multiset(AllPages(r.lanes))
  }

  lemma SortedAllGood<T>(r: Reader<T>, sorted: seq<Page<T>>, data: seq<T>)
    requires TruePages(r, data) && SortOf(sorted, r)
    ensures AllGood(sorted, data)
  {
    forall k | 0 <= k < |sorted|
      ensures GoodPage(sorted[k], data)
    {
      assert sorted[k] in multiset(sorted);
      var j, i := LaneOfPage(r.lanes, sorted[k]);
    }
  }

  lemma SortedKeepsPages<T>(r: Reader<T>, sorted: seq<Page<T>>, x: nat)
    requires SortOf(sorted, r) && Finished(r) && Accounted(r, x)
    ensures SomePageHas(sorted, x)
  {
    var j :| 0 <= j < |r.lanes| && (LaneHas(r.lanes[j], x) || LaneOwes(r.lanes[j], x));
    var i :| 0 <= i < |r.lanes[j].pages| && PageHas(r.lanes[j].pages[i], x);
    PageFromLane(r.lanes, j, i);
    assert r.lanes[j].pages[i] in multiset(sorted);
    var k :| 0 <= k < |sorted| && sorted[k] == r.lanes[j].pages[i];
  }

  lemma StartInv<T>(lanes: nat, spacing: nat, total: nat, data: seq<T>, complete: bool)
    ensures Inv(Start<T>(lanes), spacing, total, data, complete)
  {
  }

  /**
   Whatever windows the lanes happened to claim and however the pages were cut,
   an error-free read of a truthful device returns a prefix of its data.
   */
  lemma ReadIsPrefix<T>(
    lanes: nat, steps: seq<Step<T>>, spacing: nat, total: nat, data: seq<T>, sorted: seq<Page<T>>)
    requires spacing > 0 && CanRun(Start(lanes), steps, spacing, total)
    requires Device(Start(lanes), steps, spacing, total, data, false) && NamesCursors(Start(lanes), steps, spacing, total)
    requires SortOf(sorted, Run(Start(lanes), steps, spacing, total))
    ensures StitchFrom([], sorted) <= data
  {
    StartInv(lanes, spacing, total, data, false);
    RunInv(Start(lanes), steps, spacing, total, data, false);
    SortedAllGood(Run(Start(lanes), steps, spacing, total), sorted, data);
    StitchPrefix([], sorted, data);
  }

  /**
   If in addition the device never pages empty before its end, nothing below
   the advertised total is missing; a device with no more than that is read whole.
   */
  lemma ReadIsComplete<T>(
    lanes: nat, steps: seq<Step<T>>, spacing: nat, total: nat, data: seq<T>, sorted: seq<Page<T>>)
    requires spacing > 0 && lanes > 0 && CanRun(Start(lanes), steps, spacing, total)
    requires Device(Start(lanes), steps, spacing, total, data, true) && NamesCursors(Start(lanes), steps, spacing, total)
    requires Finished(Run(Start(lanes), steps, spacing, total))
    requires SortOf(sorted, Run(Start(lanes), steps, spacing, total))
    ensures |StitchFrom([], sorted)| >= Min(total, |data|) && StitchFrom([], sorted) <= data
    ensures |data| <= total ==> StitchFrom([], sorted) == data
  {
    var r := Run(Start(lanes), steps, spacing, total);
    StartInv(lanes, spacing, total, data, true);
    RunInv(Start(lanes), steps, spacing, total, data, true);
    SortedAllGood(r, sorted, data);
    StitchPrefix([], sorted, data);
    assert r.lanes[0].Done?;
    forall x | 0 <= x < Min(total, |data|)
      ensures SomePageHas(sorted, x)
    {
      assert Accounted(r, x) || AnyFailed(r);
      SortedKeepsPages(r, sorted, x);
    }
    StitchReaches([], sorted, data, Min(total, |data|));
  }

  // ----- Exactly when a read fails -----

  /** The Busy replies that lane `j` has had since it last claimed a window. */
  function Busies<T>(steps: seq<Step<T>>, j: nat): nat {
    if steps == [] then 0
    else
      var front, last := steps[..|steps| - 1], steps[|steps| - 1];
      if last == Claim(j) then 0
      else Busies(front, j) + if last == Receive(j, Busy) then 1 else 0
  }

  /** Step `i` turns lane `j` away: an error other than Busy, or the seventeenth Busy in one window. */
  predicate TurnsAway<T>(steps: seq<Step<T>>, i: nat, j: nat) {
    i < |steps| && (steps[i] == Receive(j, Rejected) || (steps[i] == Receive(j, Busy) && Busies(steps[..i + 1], j) == 17))
  }

  ghost predicate TurnedAway<T>(steps: seq<Step<T>>, j: nat) {
    exists i: nat :: TurnsAway(steps, i, j)
  }

  lemma {:induction false} RunSnoc<T>(r: Reader<T>, steps: seq<Step<T>>, step: Step<T>, spacing: nat, total: nat)
    requires CanRun(r, steps + [step], spacing, total)
    ensures CanRun(r, steps, spacing, total) && Enabled(Run(r, steps, spacing, total), step)
    ensures Run(r, steps + [step], spacing, total) == Apply(Run(r, steps, spacing, total), step, spacing, total)
    decreases steps
  {
    if steps == [] {
      assert ([] + [step])[1..] == [];
    } else {
      assert (steps + [step])[1..] == steps[1..] + [step] && (steps + [step])[0] == steps[0];
      RunSnoc(Apply(r, steps[0], spacing, total), steps[1..], step, spacing, total);
    }
  }

  lemma TurnedAwaySnoc<T>(front: seq<Step<T>>, last: Step<T>, steps: seq<Step<T>>, j: nat)
    requires steps == front + [last]
    ensures TurnedAway(steps, j) <==> TurnedAway(front, j) || TurnsAway(steps, |front|, j)
  {
    if i: nat :| TurnsAway(front, i, j) {
      assert steps[..i + 1] == front[..i + 1];
      assert TurnsAway(steps, i, j);
    }
    if i: nat :| TurnsAway(steps, i, j) && i != |front| {
      assert steps[..i + 1] == front[..i + 1];
      assert TurnsAway(front, i, j);
    }
  }

  /** What one step does to the lane, in terms of the replies so far. */
  ghost predicate LaneKnows<T>(lane: Lane<T>, busies: nat, turnedAway: bool) {
    (lane.Failed? <==> turnedAway) && (lane.Reading? ==> lane.retries == busies <= 16)
  }

  lemma OwnStep<T>(lane: Lane<T>, reply: Reply<T>, busies: nat)
    requires lane.Reading? && LaneKnows(lane, busies, false)
    ensures LaneKnows(Take(lane, reply), if reply.Busy? then busies + 1 else busies,
                      reply.Rejected? || (reply.Busy? && busies + 1 == 17))
  {
  }

  /** After every run a lane has failed exactly when it was turned away. */
  lemma {:induction false} FailedIff<T>(lanes: nat, steps: seq<Step<T>>, spacing: nat, total: nat, j: nat)
    requires CanRun(Start(lanes), steps, spacing, total) && j < lanes
    ensures |Run(Start(lanes), steps, spacing, total).lanes| == lanes
    ensures LaneKnows(Run(Start(lanes), steps, spacing, total).lanes[j], Busies(steps, j), TurnedAway(steps, j))
    decreases steps
  {
    if steps != [] {
      var front, last := steps[..|steps| - 1], steps[|steps| - 1];
      assert steps == front + [last] && steps[..|front| + 1] == steps;
      RunSnoc(Start(lanes), front, last, spacing, total);
      FailedIff(lanes, front, spacing, total, j);
      TurnedAwaySnoc(front, last, steps, j);
      var r := Run(Start<T>(lanes), front, spacing, total);
      if last.Receive? && last.lane == j {
        OwnStep(r.lanes[j], last.reply, Busies(front, j));
      }
    }
  }

  /** So a lane that is never turned away is never failed, and once no lane can go on the read is finished. */
  lemma PatientReadFinishes<T>(lanes: nat, steps: seq<Step<T>>, spacing: nat, total: nat)
    requires CanRun(Start(lanes), steps, spacing, total)
    requires forall j :: 0 <= j < lanes ==> !TurnedAway(steps, j)
    requires forall j :: 0 <= j < |Run(Start(lanes), steps, spacing, total).lanes| ==>
               !Run(Start(lanes), steps, spacing, total).lanes[j].Idle? && !Run(Start(lanes), steps, spacing, total).lanes[j].Reading?
    ensures Finished(Run(Start(lanes), steps, spacing, total))
  {
    var r := Run(Start<T>(lanes), steps, spacing, total);
    forall j | 0 <= j < |r.lanes|
      ensures r.lanes[j].Done?
    {
      RunLanes(Start<T>(lanes), steps, spacing, total);
      FailedIff(lanes, steps, spacing, total, j);
    }
  }

  lemma {:induction false} RunLanes<T>(r: Reader<T>, steps: seq<Step<T>>, spacing: nat, total: nat)
    requires CanRun(r, steps, spacing, total)
    ensures |Run(r, steps, spacing, total).lanes| == |r.lanes|
    decreases steps
  {
    if steps != [] {
      RunLanes(Apply(r, steps[0], spacing, total), steps[1..], spacing, total);
    }
  }

  // ----- Exactly which reads come back -----

  /** Whatever the lanes claim and however the device cuts its pages, a finished read is `data`. */
  ghost predicate ReadsBack<T(!new)>(lanes: nat, spacing: nat, data: seq<T>) {
    forall steps: seq<Step<T>>, sorted: seq<Page<T>> ::
      CanRun(Start(lanes), steps, spacing, |data|) && CompleteRead(lanes, steps, spacing, data, sorted) ==>
        StitchFrom([], sorted) == data
  }

  /** A finished run against a device that holds `data` and is empty only at its end, and its pages in order. */
  ghost predicate CompleteRead<T>(lanes: nat, steps: seq<Step<T>>, spacing: nat, data: seq<T>, sorted: seq<Page<T>>)
    requires CanRun(Start(lanes), steps, spacing, |data|)
  {
    && Device(Start(lanes), steps, spacing, |data|, data, true)
    && Finished(Run(Start(lanes), steps, spacing, |data|)) && SortOf(sorted, Run(Start(lanes), steps, spacing, |data|))
  }

  /** What a device may answer to the cursor `c`, of which it sees 16 bits: one item, and two at the last cursor. */
  function LatePage<T>(data: seq<T>, c: nat): Page<T>
    requires U16 < |data| && c < |data|
  {
    var at := c % U16;
    Page(c, data[at..at + if c == |data| - 1 then 2 else 1])
  }

  function LatePages<T>(data: seq<T>, n: nat): seq<Page<T>>
    requires U16 < |data| && n <= |data|
  {
    seq(n, c requires 0 <= c < n => LatePage(data, c))
  }

  /** Lane 0 has fetched page by page up to the cursor `c`; the other lanes have not started. */
  ghost predicate FetchedTo<T>(r: Reader<T>, spacing: nat, data: seq<T>, c: nat)
    requires U16 < |data| && c <= |data|
  {
    var edge := Min(r.next * spacing, |data|);
    && r.lanes != [] && (forall j :: 1 <= j < |r.lanes| ==> r.lanes[j] == Idle([]))
    && r.lanes[0].pages == LatePages(data, c)
    && (r.lanes[0].Idle? || r.lanes[0].Reading?)
    && (r.lanes[0].Idle? ==> edge == c)
    && (r.lanes[0].Reading? ==> c < edge && r.lanes[0].cursor == c && r.lanes[0].window == edge)
  }

  lemma FetchOne<T>(r: Reader<T>, spacing: nat, data: seq<T>, c: nat, step: Step<T>)
    requires U16 < |data| && c < |data| && FetchedTo(r, spacing, data, c) && r.lanes[0].Reading?
    requires step == Receive(0, Items(LatePage(data, c).items))
    ensures Enabled(r, step) && Truthful(r, step, data) && Complete(r, step, data)
    ensures FetchedTo(Apply(r, step, spacing, |data|), spacing, data, c + 1)
  {
    assert LatePages(data, c) + [LatePage(data, c)] == LatePages(data, c + 1);
  }

  lemma ClaimNext<T>(r: Reader<T>, spacing: nat, data: seq<T>, c: nat)
    requires U16 < |data| && c < |data| && spacing > 0 && FetchedTo(r, spacing, data, c) && r.lanes[0].Idle?
    ensures Enabled(r, Claim(0)) && FetchedTo(Apply(r, Claim(0), spacing, |data|), spacing, data, c)
    ensures Apply(r, Claim(0), spacing, |data|).lanes[0].Reading?
  {
    OneMore(r.next, spacing);
  }

  /** The lanes below `j` have ended. */
  ghost predicate ClosedTo<T>(r: Reader<T>, spacing: nat, data: seq<T>, j: nat)
    requires U16 < |data|
  {
    && r.next * spacing >= |data| && j <= |r.lanes|
    && (forall i :: 0 <= i < |r.lanes| ==>
          var pages := if i == 0 then LatePages(data, |data|) else [];
          r.lanes[i] == if i < j then Done(pages) else Idle(pages))
  }

  lemma CloseOne<T>(r: Reader<T>, spacing: nat, data: seq<T>, j: nat)
    requires U16 < |data| && ClosedTo(r, spacing, data, j) && j < |r.lanes|
    ensures Enabled(r, Claim(j)) && ClosedTo(Apply(r, Claim(j), spacing, |data|), spacing, data, j + 1)
  {
    OneMore(r.next, spacing);
  }

  /** The steps can be taken, and the device answers as it should. */
  ghost predicate FairRun<T>(r: Reader<T>, steps: seq<Step<T>>, spacing: nat, data: seq<T>, end: Reader<T>) {
    && CanRun(r, steps, spacing, |data|) && Device(r, steps, spacing, |data|, data, true)
    && Run(r, steps, spacing, |data|) == end
  }

  lemma FairCons<T>(r: Reader<T>, step: Step<T>, rest: seq<Step<T>>, spacing: nat, data: seq<T>, end: Reader<T>)
    requires Enabled(r, step) && Truthful(r, step, data) && Complete(r, step, data)
    requires FairRun(Apply(r, step, spacing, |data|), rest, spacing, data, end)
    ensures FairRun(r, [step] + rest, spacing, data, end)
  {
    assert ([step] + rest)[1..] == rest;
  }

  lemma {:induction false} CloseAll<T>(r: Reader<T>, spacing: nat, data: seq<T>, j: nat)
    returns (steps: seq<Step<T>>, end: Reader<T>)
    requires U16 < |data| && ClosedTo(r, spacing, data, j)
    ensures FairRun(r, steps, spacing, data, end) && ClosedTo(end, spacing, data, |end.lanes|) && |end.lanes| == |r.lanes|
    decreases |r.lanes| - j
  {
    if j == |r.lanes| {
      steps, end := [], r;
    } else {
      CloseOne(r, spacing, data, j);
      steps, end := CloseAll(Apply(r, Claim(j), spacing, |data|), spacing, data, j + 1);
      FairCons(r, Claim(j), steps, spacing, data, end);
      steps := [Claim(j)] + steps;
    }
  }

  lemma {:induction false} FetchRest<T>(r: Reader<T>, spacing: nat, data: seq<T>, c: nat)
    returns (steps: seq<Step<T>>, end: Reader<T>)
    requires U16 < |data| && c <= |data| && spacing > 0 && FetchedTo(r, spacing, data, c)
    ensures FairRun(r, steps, spacing, data, end) && ClosedTo(end, spacing, data, |end.lanes|) && |end.lanes| == |r.lanes|
    decreases |data| - c, if r.lanes[0].Idle? then 1 else 0
  {
    if c == |data| {
      steps, end := CloseAll(r, spacing, data, 0);
    } else if r.lanes[0].Idle? {
      ClaimNext(r, spacing, data, c);
      steps, end := FetchRest(Apply(r, Claim(0), spacing, |data|), spacing, data, c);
      FairCons(r, Claim(0), steps, spacing, data, end);
      steps := [Claim(0)] + steps;
    } else {
      var step := Receive(0, Items(LatePage(data, c).items));
      FetchOne(r, spacing, data, c, step);
      steps, end := FetchRest(Apply(r, step, spacing, |data|), spacing, data, c + 1);
      FairCons(r, step, steps, spacing, data, end);
      steps := [step] + steps;
    }
  }

  lemma {:induction false} PagesOfFirst<T>(lanes: seq<Lane<T>>, pages: seq<Page<T>>)
    requires lanes != [] && lanes[0].pages == pages && forall j :: 1 <= j < |lanes| ==> lanes[j].pages == []
    ensures AllPages(lanes) == pages
    decreases |lanes|
  {
    if |lanes| > 1 {
      PagesOfFirst(lanes[..|lanes| - 1], pages);
    } else {
      assert AllPages(lanes[..0]) == [];
    }
  }

  lemma {:induction false} StitchLate<T>(out: seq<T>, data: seq<T>, pages: seq<Page<T>>, c: nat)
    requires U16 < |data| && c < |data| && |out| == c && pages == LatePages(data, |data|)[c..]
    ensures |StitchFrom(out, pages)| == |data| + 1
    decreases |data| - c
  {
    var first, rest := pages[0], pages[1..];
    assert first == LatePage(data, c) && rest == LatePages(data, |data|)[c + 1..];
    var out' := out + Skip(first.items, 0);
    assert StitchFrom(out, pages) == StitchFrom(out', rest);
    if c + 1 < |data| {
      StitchLate(out', data, rest, c + 1);
    } else {
      assert rest == [];
    }
  }

  lemma LateSorted<T>(data: seq<T>, sorted: seq<Page<T>>)
    requires U16 < |data| && sorted == LatePages(data, |data|)
    ensures SortedByStart(sorted)
  {
    assert forall c :: 0 <= c < |sorted| ==> sorted[c].start == c;
  }

  lemma ClosedPages<T>(end: Reader<T>, spacing: nat, data: seq<T>)
    requires U16 < |data| && end.lanes != [] && ClosedTo(end, spacing, data, |end.lanes|)
    ensures Finished(end) && AllPages(end.lanes) == LatePages(data, |data|)
  {
    var pages := LatePages(data, |data|);
    assert end.lanes[0] == Done(pages);
    forall i | 1 <= i < |end.lanes|
      ensures end.lanes[i].pages == []
    {
      assert end.lanes[i] == Done([]);
    }
    PagesOfFirst(end.lanes, pages);
  }

  lemma StitchAllLate<T>(data: seq<T>, sorted: seq<Page<T>>)
    requires U16 < |data| && sorted == LatePages(data, |data|)
    ensures |StitchFrom([], sorted)| == |data| + 1
  {
    assert sorted[0..] == sorted;
    StitchLate([], data, sorted, 0);
  }

  lemma StartFetched<T>(lanes: nat, spacing: nat, data: seq<T>)
    requires lanes > 0 && U16 < |data|
    ensures FetchedTo(Start(lanes), spacing, data, 0)
  {
  }

  /** Past 65536 items there is always a read that goes wrong: it returns one item too many. */
  lemma LateReadFails<T>(lanes: nat, spacing: nat, data: seq<T>) returns (steps: seq<Step<T>>, sorted: seq<Page<T>>)
    requires lanes > 0 && spacing > 0 && |data| > U16
    ensures CanRun(Start(lanes), steps, spacing, |data|) && CompleteRead(lanes, steps, spacing, data, sorted)
    ensures |StitchFrom([], sorted)| == |data| + 1
  {
    StartFetched(lanes, spacing, data);
    var end;
    steps, end := FetchRest(Start(lanes), spacing, data, 0);
    sorted := LatePages(data, |data|);
    ClosedPages(end, spacing, data);
    LateSorted(data, sorted);
    StitchAllLate(data, sorted);
  }

  /** A resource read with its own size comes back from every such device exactly up to 65536 items. */
  lemma ReadExact<T(!new)>(lanes: nat, spacing: nat, data: seq<T>)
    requires lanes > 0 && spacing > 0
    ensures ReadsBack(lanes, spacing, data) <==> |data| <= 65536
  {
    if |data| <= U16 {
      forall steps: seq<Step<T>>, sorted: seq<Page<T>> |
          CanRun(Start(lanes), steps, spacing, |data|) && CompleteRead(lanes, steps, spacing, data, sorted)
        ensures StitchFrom([], sorted) == data
      {
        SmallTotalNamed(Start(lanes), steps, spacing, |data|);
        ReadIsComplete(lanes, steps, spacing, |data|, data, sorted);
      }
    } else {
      var steps, sorted := LateReadFails(lanes, spacing, data);
    }
  }

  // ----- Every read ends -----

  function LaneWork<T>(lane: Lane<T>): nat {
    match lane
    case Idle(_) => 1
    case Reading(_, _, window, cursor, retries) =>
      2 + (if cursor < window then window - cursor else 0) + (if retries < 16 then 16 - retries else 0)
    case Done(_) => 0
    case Failed(_) => 0
  }

  function LanesWork<T>(lanes: seq<Lane<T>>): nat {
    if lanes == [] then 0 else LanesWork(lanes[..|lanes| - 1]) + LaneWork(lanes[|lanes| - 1])
  }

  lemma {:induction false} LanesWorkUpdate<T>(lanes: seq<Lane<T>>, j: nat, lane: Lane<T>)
    requires j < |lanes|
    ensures LanesWork(lanes[j := lane]) == LanesWork(lanes) - LaneWork(lanes[j]) + LaneWork(lane)
    decreases |lanes|
  {
    var last := |lanes| - 1;
    if j < last {
      assert lanes[j := lane][..last] == lanes[..last][j := lane];
      LanesWorkUpdate(lanes[..last], j, lane);
    } else {
      assert lanes[j := lane][..last] == lanes[..last];
    }
  }

  /** Windows not claimed yet, each at the price of the longest stay in one. */
  function Work<T>(r: Reader<T>, spacing: nat, total: nat): nat {
    (if r.next < total then total - r.next else 0) * (spacing + 19) + LanesWork(r.lanes)
  }

  lemma ClaimStart(index: nat, spacing: nat, total: nat)
    requires spacing > 0 && index * spacing < total
    ensures index < total
  {
    assert index * (spacing - 1) >= 0;
    assert index * spacing == index * (spacing - 1) + index;
  }

  lemma PriceOfWindow(left: nat, price: nat)
    requires left > 0
    ensures left * price == (left - 1) * price + price
  {
  }

  lemma ReceiveUsesWork<T>(lane: Lane<T>, reply: Reply<T>, total: nat)
    requires lane.Reading? && lane.cursor < lane.window
    ensures LaneWork(Take(lane, reply)) < LaneWork(lane)
  {
  }

  lemma ClaimUsesWork<T>(lane: Lane<T>, index: nat, spacing: nat, total: nat)
    requires lane.Idle? && spacing > 0
    ensures index * spacing >= total ==> LaneWork(ClaimWindow(lane, index, spacing, total)) == 0
    ensures LaneWork(ClaimWindow(lane, index, spacing, total)) < spacing + 19
  {
  }

  /** Every step of a lane uses up work, so no run of any device goes on for ever. */
  lemma StepUsesWork<T>(r: Reader<T>, step: Step<T>, spacing: nat, total: nat)
    requires Enabled(r, step) && spacing > 0 && InBounds(r, spacing, total)
    ensures Work(Apply(r, step, spacing, total), spacing, total) < Work(r, spacing, total)
  {
    match step {
      case Receive(j, reply) =>
        LanesWorkUpdate(r.lanes, j, Take(r.lanes[j], reply));
        ReceiveUsesWork(r.lanes[j], reply, total);
      case Claim(j) =>
        LanesWorkUpdate(r.lanes, j, ClaimWindow(r.lanes[j], r.next, spacing, total));
        ClaimUsesWork(r.lanes[j], r.next, spacing, total);
        if r.next * spacing < total {
          ClaimStart(r.next, spacing, total);
        }
        if r.next < total {
          PriceOfWindow(total - r.next, spacing + 19);
        }
    }
  }

  lemma {:induction false} RunsEnd<T>(r: Reader<T>, steps: seq<Step<T>>, spacing: nat, total: nat)
    requires spacing > 0 && InBounds(r, spacing, total) && CanRun(r, steps, spacing, total)
    ensures |steps| <= Work(r, spacing, total)
    decreases steps
  {
    if steps != [] {
      StepBounds(r, steps[0], spacing, total);
      StepUsesWork(r, steps[0], spacing, total);
      RunsEnd(Apply(r, steps[0], spacing, total), steps[1..], spacing, total);
    }
  }

  // ----- The window size -----

  /** Windows shrink by the share of a frame that parked requests take, but never to nothing. */
  function Spacing(advertised: nat, frame: nat, parked: nat): (spacing: nat)
    requires frame > 0
    ensures 1 <= spacing && spacing <= if advertised > 1 then advertised else 1
    ensures advertised * (if parked < frame then frame - parked else 0) < (spacing + 1) * frame
    ensures spacing > 1 ==> spacing * frame <= advertised * (frame - parked)
  {
    var room := if parked < frame then frame - parked else 0;
    ShareBound(advertised, room, frame);
    var share := advertised * room / frame;
    if share > 1 then share else 1
  }

  lemma ShareBound(advertised: nat, room: nat, frame: nat)
    requires frame > 0 && room <= frame
    ensures 0 <= advertised * room / frame <= advertised
  {
    assert advertised * room <= advertised * frame;
    assert advertised * room / frame * frame <= advertised * frame;
  }
}

/**
 The tap-hold decision loop: on every key event, which buffered keys are
 resolved as taps or holds, and what happens to the key of the event itself.
 */
module Decisions {
  import opened Wrappers
  import opened KeyTable
  import opened Forks

  const HOLD_BUFFER_SIZE: nat := 16

  /** The states of a buffered key that the decisions tell apart. */
  datatype KeyState = WaitingCombo | Pressed(pattern: nat) | Holding(pattern: nat) | Released(pattern: nat)
                    | EarlyFired(pattern: nat) | FlowTapped | Processed

  datatype HeldKey = HeldKey(source: Source, action: KeyAction, state: KeyState, pressTime: nat)

  datatype Hand = Left | Right | Bilateral | Unknown

  datatype MorseMode = PermissiveHold | HoldOnOtherPress | Normal

  /** The profile lookups of the keymap, and whether a typing streak is on. */
  datatype Config = Config(
    mode: KeyAction -> MorseMode, unilateralTap: KeyAction -> bool, flowTap: KeyAction -> bool,
    hand: (nat, nat) -> Hand, inStreak: bool)

  datatype CurrentDecision = CleanBuffer | Buffer | Ignore | ReleaseCurrent | FlowTapCurrent

  datatype HeldDecision = TapUnilateral | TapFlow | HoldPermissive | HoldOnPress | ReleaseHeld | NormalHeld

  datatype KeyEvent = KeyEvent(source: Source, pressed: bool)

  datatype Verdict = Verdict(source: Source, decision: HeldDecision)

  predicate IsMorse(a: KeyAction) {
    a.TapHold? || a.Morse?
  }

  predicate SameSide(a: Hand, b: Hand) {
    (a.Left? && b.Left?) || (a.Right? && b.Right?)
  }

  predicate Unresolved(k: HeldKey) {
    k.state.Pressed? || k.state.Released?
  }

  /** Both are matrix keys under the same hand. */
  predicate SameHandKeys(cfg: Config, a: Source, b: Source) {
    a.Key? && b.Key? && SameSide(cfg.hand(a.row, a.col), cfg.hand(b.row, b.col))
  }

  // ----- One held key -----

  /** The verdict on one unresolved held key, and the decision for the current key after it. */
  function Judge(cfg: Config, ev: KeyEvent, current: CurrentDecision, k: HeldKey): (CurrentDecision, Option<HeldDecision>) {
    if !ev.pressed && k.source == ev.source then (ReleaseCurrent, Some(ReleaseHeld))
    else if !IsMorse(k.action) && k.state.Pressed? then (current, Some(NormalHeld))
    else if k.source == ev.source || !IsMorse(k.action) then (current, None)
    else if ev.pressed then JudgeOnPress(cfg, ev, current, k)
    else JudgeOnRelease(cfg, ev, current, k)
  }

  function JudgeOnPress(cfg: Config, ev: KeyEvent, current: CurrentDecision, k: HeldKey): (CurrentDecision, Option<HeldDecision>) {
    if current == FlowTapCurrent && k.state.Pressed? && cfg.flowTap(k.action) then (current, Some(TapFlow))
    else
      match cfg.mode(k.action)
      case PermissiveHold => (Buffer, None)
      case HoldOnOtherPress => (CleanBuffer, Some(HoldOnPress))
      case Normal =>
        if cfg.unilateralTap(k.action) && k.state.Pressed? && SameHandKeys(cfg, k.source, ev.source)
        then (CleanBuffer, Some(TapUnilateral)) else (current, None)
  }

  function JudgeOnRelease(cfg: Config, ev: KeyEvent, current: CurrentDecision, k: HeldKey): (CurrentDecision, Option<HeldDecision>) {
    if current != ReleaseCurrent && RollsInto(cfg, ev, k) then (current, Some(TapUnilateral))
    else if current != ReleaseCurrent && cfg.mode(k.action) == PermissiveHold then (CleanBuffer, Some(HoldPermissive))
    else (current, None)
  }

  /** A unilateral-tap key under the same hand as the released one. */
  predicate RollsInto(cfg: Config, ev: KeyEvent, k: HeldKey) {
    cfg.unilateralTap(k.action) && SameHandKeys(cfg, k.source, ev.source)
  }

  // ----- All held keys -----

  datatype Outcome = Outcome(current: CurrentDecision, verdicts: seq<Verdict>)

  /** Judge the held keys in turn, oldest press first. */
  function JudgeAll(cfg: Config, ev: KeyEvent, start: CurrentDecision, keys: seq<HeldKey>): (o: Outcome)
    ensures |o.verdicts| <= |keys|
  {
    if keys == [] then Outcome(start, [])
    else
      var before, k := JudgeAll(cfg, ev, start, keys[..|keys| - 1]), keys[|keys| - 1];
      if !Unresolved(k) then before
      else
        var (current, verdict) := Judge(cfg, ev, before.current, k);
        match verdict
        case None => Outcome(current, before.verdicts)
        case Some(d) => Outcome(current, before.verdicts + [Verdict(k.source, d)])
  }

  lemma JudgeAllSnoc(cfg: Config, ev: KeyEvent, start: CurrentDecision, keys: seq<HeldKey>, i: nat)
    requires i < |keys|
    ensures var before, k := JudgeAll(cfg, ev, start, keys[..i]), keys[i];
      JudgeAll(cfg, ev, start, keys[..i + 1]) ==
        if !Unresolved(k) then before
        else
          var (current, verdict) := Judge(cfg, ev, before.current, k);
          Outcome(current, before.verdicts + if verdict.Some? then [Verdict(k.source, verdict.value)] else [])
  {
    assert keys[..i + 1][..i] == keys[..i];
  }

  function StartDecision(cfg: Config, ev: KeyEvent, action: KeyAction): CurrentDecision {
    if ev.pressed && IsMorse(action) && cfg.flowTap(action) && cfg.inStreak then FlowTapCurrent else Ignore
  }

  function FindSource(keys: seq<HeldKey>, source: Source): Option<HeldKey> {
    if keys == [] then None
    else if keys[0].source == source then Some(keys[0])
    else FindSource(keys[1..], source)
  }

  /** Releases are only compared with the buffer when the released key is unresolved in it. */
  predicate ChecksBuffer(ev: KeyEvent, keys: seq<HeldKey>) {
    ev.pressed || (var k := FindSource(keys, ev.source); k.Some? && Unresolved(k.value))
  }

  predicate SortedByPress(keys: seq<HeldKey>) {
    forall i, j :: 0 <= i < j < |keys| ==> keys[i].pressTime <= keys[j].pressTime
  }

  /** What comes of a press: the verdict of every held key, none missing, and what is left for the new key. */
  ghost predicate PressOutcome(
    cfg: Config, ev: KeyEvent, action: KeyAction, keys: seq<HeldKey>, current: CurrentDecision, verdicts: seq<Verdict>)
  {
    var start := if Streaking(cfg, action) then FlowTapCurrent else Ignore;
    && current == ExpectedCurrent(cfg, ev, start, keys, |keys|)
    && exists places :: InPressOrder(keys, verdicts, places) && AsExpectedOnPress(cfg, ev, start, keys, verdicts, places)
         && forall i :: 0 <= i < |keys| && ExpectedOnPress(cfg, ev, start, keys, i).Some? ==> i in places
  }

  /** What comes of releasing the key at `r`, if it is unresolved. */
  ghost predicate ReleaseOutcome(
    cfg: Config, ev: KeyEvent, keys: seq<HeldKey>, r: nat, current: CurrentDecision, verdicts: seq<Verdict>)
  {
    && current == ReleaseCurrent
    && exists places :: InPressOrder(keys, verdicts, places) && AsExpected(cfg, ev, keys, r, verdicts, places)
         && forall i :: 0 <= i < |keys| && ExpectedOnRelease(cfg, ev, keys, r, i).Some? ==> i in places
  }

  lemma PressGives(cfg: Config, ev: KeyEvent, action: KeyAction, keys: seq<HeldKey>, o: Outcome)
    requires ev.pressed && o == JudgeAll(cfg, ev, StartDecision(cfg, ev, action), keys)
    ensures PressOutcome(cfg, ev, action, keys, o.current, o.verdicts)
  {
    PressExact(cfg, ev, StartDecision(cfg, ev, action), keys);
  }

  lemma ReleaseGives(cfg: Config, ev: KeyEvent, keys: seq<HeldKey>, r: nat, o: Outcome)
    requires !ev.pressed && OneEntryPerSource(keys) && o == JudgeAll(cfg, ev, Ignore, keys)
    requires r < |keys| && keys[r].source == ev.source && (keys[r].state.Pressed? || keys[r].state.Released?)
    ensures ReleaseOutcome(cfg, ev, keys, r, o.current, o.verdicts)
  {
    ReleaseExact(cfg, ev, keys, r);
    CurrentOnRelease(cfg, ev, keys, r, |keys|);
    assert keys[..|keys|] == keys;
  }

  /** The key that the event releases stands at `r`, unresolved and the only one of its source. */
  ghost predicate ReleasesAt(ev: KeyEvent, keys: seq<HeldKey>, r: nat) {
    && !ev.pressed && OneEntryPerSource(keys) && r < |keys| && keys[r].source == ev.source
    && (keys[r].state.Pressed? || keys[r].state.Released?)
  }

  /** A release is compared with the buffer exactly when its key stands there unresolved. */
  lemma {:induction false} ChecksExact(ev: KeyEvent, keys: seq<HeldKey>)
    requires !ev.pressed && OneEntryPerSource(keys)
    ensures ChecksBuffer(ev, keys) <==> exists r: nat :: ReleasesAt(ev, keys, r)
  {
    if keys != [] {
      var rest := keys[1..];
      ChecksExact(ev, rest);
      if r: nat :| ReleasesAt(ev, rest, r) {
        assert ReleasesAt(ev, keys, r + 1);
      }
      if r: nat :| ReleasesAt(ev, keys, r) {
        assert r > 0 ==> ReleasesAt(ev, rest, r - 1);
      }
      if keys[0].source == ev.source && Unresolved(keys[0]) {
        assert ReleasesAt(ev, keys, 0);
      }
    }
  }

  /** The buffer of held keys, sorted in place before it is judged. */
  class HeldBuffer {
    var keys: seq<HeldKey>

    ghost predicate Valid()
      reads this
    {
      |keys| <= HOLD_BUFFER_SIZE
    }

    constructor (keys: seq<HeldKey>)
      requires |keys| <= HOLD_BUFFER_SIZE
      ensures Valid() && this.keys == keys
    {
      this.keys := keys;
    }

    method FindHeld(source: Source) returns (found: Option<HeldKey>)
      ensures found == FindSource(keys, source)
    {
      for i := 0 to |keys|
        invariant FindSource(keys, source) == FindSource(keys[i..], source)
      {
        if keys[i].source == source {
          return Some(keys[i]);
        }
        assert keys[i..][1..] == keys[i + 1..];
      }
      return None;
    }

    method SortByPress()
      modifies this
      ensures SortedByPress(keys) && multiset(keys) == multiset(old(keys))
    {
      var sorted := [];
      var i := 0;
      while i < |keys|
        invariant 0 <= i <= |keys| && keys == old(keys)
        invariant SortedByPress(sorted) && multiset(sorted) == multiset(keys[..i])
      {
        InsertSorts(sorted, keys[i]);
        InsertKeeps(sorted, keys[i]);
        sorted := Insert(sorted, keys[i]);
        assert keys[..i + 1] == keys[..i] + [keys[i]];
        i := i + 1;
      }
      assert keys[..i] == keys;
      keys := sorted;
    }

    method MakeDecisions(cfg: Config, action: KeyAction, ev: KeyEvent) returns (current: CurrentDecision, verdicts: seq<Verdict>)
      requires Valid()
      modifies this
      ensures Valid() && multiset(keys) == multiset(old(keys)) && |verdicts| <= HOLD_BUFFER_SIZE
      ensures if ChecksBuffer(ev, old(keys))
              then SortedByPress(keys) && Outcome(current, verdicts) == JudgeAll(cfg, ev, StartDecision(cfg, ev, action), keys)
              else keys == old(keys) && current == StartDecision(cfg, ev, action) && verdicts == []
      ensures ev.pressed ==> PressOutcome(cfg, ev, action, keys, current, verdicts)
      ensures ChecksBuffer(ev, old(keys)) ==>
                forall r :: ReleasesAt(ev, keys, r) ==> ReleaseOutcome(cfg, ev, keys, r, current, verdicts)
      ensures !ev.pressed && !ChecksBuffer(ev, old(keys)) ==> current == Ignore && verdicts == []
    {
      current := Ignore;
      verdicts := [];
      if ev.pressed && IsMorse(action) && cfg.flowTap(action) && cfg.inStreak {
        current := FlowTapCurrent;
      }
      var checks := ev.pressed;
      if !checks {
        var found := FindHeld(ev.source);
        checks := found.Some? && Unresolved(found.value);
      }
      if checks {
        SortByPress();
        assert |multiset(keys)| == |multiset(old(keys))|;
        ghost var sorted := keys;
        var i := 0;
        while i < |keys|
          invariant 0 <= i <= |keys| && keys == sorted
          invariant Outcome(current, verdicts) == JudgeAll(cfg, ev, StartDecision(cfg, ev, action), keys[..i])
        {
          var k := keys[i];
          JudgeAllSnoc(cfg, ev, StartDecision(cfg, ev, action), keys, i);
          if Unresolved(k) {
            if !ev.pressed && k.source == ev.source {
              verdicts := verdicts + [Verdict(k.source, ReleaseHeld)];
              current := ReleaseCurrent;
            } else if !IsMorse(k.action) && k.state.Pressed? {
              verdicts := verdicts + [Verdict(k.source, NormalHeld)];
            } else if k.source != ev.source && IsMorse(k.action) {
              var decided;
              current, decided := JudgeMorse(cfg, ev, current, k);
              if decided.Some? {
                verdicts := verdicts + [Verdict(k.source, decided.value)];
              }
            }
          }
          i := i + 1;
        }
        assert keys[..i] == keys;
        Outcomes(cfg, ev, action, keys, Outcome(current, verdicts));
      }
    }
  }

  lemma Outcomes(cfg: Config, ev: KeyEvent, action: KeyAction, keys: seq<HeldKey>, o: Outcome)
    requires o == JudgeAll(cfg, ev, StartDecision(cfg, ev, action), keys)
    ensures ev.pressed ==> PressOutcome(cfg, ev, action, keys, o.current, o.verdicts)
    ensures forall r :: ReleasesAt(ev, keys, r) ==> ReleaseOutcome(cfg, ev, keys, r, o.current, o.verdicts)
  {
    if ev.pressed {
      PressGives(cfg, ev, action, keys, o);
    }
    forall r | ReleasesAt(ev, keys, r)
      ensures ReleaseOutcome(cfg, ev, keys, r, o.current, o.verdicts)
    {
      ReleaseGives(cfg, ev, keys, r, o);
    }
  }

  method JudgeMorse(cfg: Config, ev: KeyEvent, before: CurrentDecision, k: HeldKey)
    returns (current: CurrentDecision, decided: Option<HeldDecision>)
    ensures (current, decided) ==
      if ev.pressed then JudgeOnPress(cfg, ev, before, k) else JudgeOnRelease(cfg, ev, before, k)
  {
    current, decided := before, None;
    if ev.pressed {
      if current == FlowTapCurrent && k.state.Pressed? && cfg.flowTap(k.action) {
        return current, Some(TapFlow);
      }
      match cfg.mode(k.action) {
        case PermissiveHold => current := Buffer;
        case HoldOnOtherPress => current, decided := CleanBuffer, Some(HoldOnPress);
        case Normal =>
          if cfg.unilateralTap(k.action) && k.state.Pressed? && SameHandKeys(cfg, k.source, ev.source) {
            current, decided := CleanBuffer, Some(TapUnilateral);
          }
      }
    } else {
      if cfg.unilateralTap(k.action) && current != ReleaseCurrent && SameHandKeys(cfg, k.source, ev.source) {
        return current, Some(TapUnilateral);
      }
      if current != ReleaseCurrent && cfg.mode(k.action) == PermissiveHold {
        current, decided := CleanBuffer, Some(HoldPermissive);
      }
    }
  }

  /** Insert before the later presses at the end. */
  function Insert(sorted: seq<HeldKey>, k: HeldKey): seq<HeldKey> {
    if sorted == [] || sorted[|sorted| - 1].pressTime <= k.pressTime then sorted + [k]
    else Insert(sorted[..|sorted| - 1], k) + [sorted[|sorted| - 1]]
  }

  lemma {:induction false} InsertKeeps(sorted: seq<HeldKey>, k: HeldKey)
    ensures multiset(Insert(sorted, k)) == multiset(sorted) + multiset{k}
  {
    if sorted != [] {
      assert sorted == sorted[..|sorted| - 1] + [sorted[|sorted| - 1]];
      InsertKeeps(sorted[..|sorted| - 1], k);
    }
  }

  lemma {:induction false} InsertSorts(sorted: seq<HeldKey>, k: HeldKey)
    requires SortedByPress(sorted)
    ensures SortedByPress(Insert(sorted, k))
  {
    if sorted != [] && sorted[|sorted| - 1].pressTime > k.pressTime {
      var rest, last := sorted[..|sorted| - 1], sorted[|sorted| - 1];
      InsertSorts(rest, k);
      InsertKeeps(rest, k);
      InsertBelow(rest, k, Insert(rest, k), last);
    }
  }

  lemma InsertBelow(sorted: seq<HeldKey>, k: HeldKey, front: seq<HeldKey>, last: HeldKey)
    requires multiset(front) == multiset(sorted) + multiset{k}
    requires k.pressTime < last.pressTime && forall x :: x in sorted ==> x.pressTime <= last.pressTime
    ensures forall i :: 0 <= i < |front| ==> front[i].pressTime <= last.pressTime
  {
    forall i | 0 <= i < |front|
      ensures front[i].pressTime <= last.pressTime
    {
      assert front[i] in multiset(front);
    }
  }

  // ----- Order and uniqueness -----

  predicate OneEntryPerSource(keys: seq<HeldKey>) {
    forall i, j :: 0 <= i < j < |keys| ==> keys[i].source != keys[j].source
  }

  /** The verdicts name held keys in press order, each at most once. */
  ghost predicate InPressOrder(keys: seq<HeldKey>, verdicts: seq<Verdict>, at: seq<nat>) {
    && |at| == |verdicts|
    && (forall v :: 0 <= v < |at| ==> at[v] < |keys| && keys[at[v]].source == verdicts[v].source && Unresolved(keys[at[v]]))
    && (forall u, v :: 0 <= u < v < |at| ==> at[u] < at[v])
  }

  /** Where in the buffer the key of each verdict stands. */
  function Places(cfg: Config, ev: KeyEvent, start: CurrentDecision, keys: seq<HeldKey>): seq<nat> {
    if keys == [] then []
    else
      var front, k := keys[..|keys| - 1], keys[|keys| - 1];
      var places := Places(cfg, ev, start, front);
      if Unresolved(k) && Judge(cfg, ev, JudgeAll(cfg, ev, start, front).current, k).1.Some?
      then places + [|front|] else places
  }

  lemma {:induction false} VerdictsInPressOrder(cfg: Config, ev: KeyEvent, start: CurrentDecision, keys: seq<HeldKey>)
    ensures InPressOrder(keys, JudgeAll(cfg, ev, start, keys).verdicts, Places(cfg, ev, start, keys))
  {
    if keys != [] {
      VerdictsInPressOrder(cfg, ev, start, keys[..|keys| - 1]);
    }
  }

  // ----- The verdict of each key -----

  /** What the loop decides about key `i`, after the keys before it. */
  function VerdictAt(cfg: Config, ev: KeyEvent, start: CurrentDecision, keys: seq<HeldKey>, i: nat): Option<HeldDecision>
    requires i < |keys|
  {
    if Unresolved(keys[i]) then Judge(cfg, ev, JudgeAll(cfg, ev, start, keys[..i]).current, keys[i]).1 else None
  }

  lemma JudgeStep(
    cfg: Config, ev: KeyEvent, start: CurrentDecision, keys: seq<HeldKey>, i: nat, before: seq<HeldKey>, after: seq<HeldKey>)
    requires i < |keys| && before == keys[..i] && after == keys[..i + 1]
    ensures var d := VerdictAt(cfg, ev, start, keys, i);
      && JudgeAll(cfg, ev, start, after).verdicts ==
           JudgeAll(cfg, ev, start, before).verdicts + (if d.Some? then [Verdict(keys[i].source, d.value)] else [])
      && Places(cfg, ev, start, after) == Places(cfg, ev, start, before) + (if d.Some? then [i] else [])
  {
    assert after[..|after| - 1] == before;
  }

  ghost predicate Placed(
    cfg: Config, ev: KeyEvent, start: CurrentDecision, keys: seq<HeldKey>, n: nat, verdicts: seq<Verdict>, places: seq<nat>)
    requires n <= |keys|
  {
    && |places| == |verdicts|
    && (forall v :: 0 <= v < |verdicts| ==>
          places[v] < n && VerdictAt(cfg, ev, start, keys, places[v]) == Some(verdicts[v].decision))
    && (forall i :: 0 <= i < n && VerdictAt(cfg, ev, start, keys, i).Some? ==> i in places)
  }

  lemma PlacedSnoc(
    cfg: Config, ev: KeyEvent, start: CurrentDecision, keys: seq<HeldKey>, n: nat, verdicts: seq<Verdict>, places: seq<nat>)
    requires n < |keys| && Placed(cfg, ev, start, keys, n, verdicts, places)
    ensures var d := VerdictAt(cfg, ev, start, keys, n);
      Placed(cfg, ev, start, keys, n + 1,
             verdicts + (if d.Some? then [Verdict(keys[n].source, d.value)] else []),
             places + (if d.Some? then [n] else []))
  {
  }

  lemma {:induction false} VerdictsPlacedUpTo(cfg: Config, ev: KeyEvent, start: CurrentDecision, keys: seq<HeldKey>, n: nat)
    requires n <= |keys|
    ensures Placed(cfg, ev, start, keys, n, JudgeAll(cfg, ev, start, keys[..n]).verdicts, Places(cfg, ev, start, keys[..n]))
    decreases n
  {
    if n > 0 {
      var before, after := keys[..n - 1], keys[..n];
      VerdictsPlacedUpTo(cfg, ev, start, keys, n - 1);
      PlacedSnoc(cfg, ev, start, keys, n - 1, JudgeAll(cfg, ev, start, before).verdicts, Places(cfg, ev, start, before));
      JudgeStep(cfg, ev, start, keys, n - 1, before, after);
    }
  }

  lemma VerdictsPlaced(cfg: Config, ev: KeyEvent, start: CurrentDecision, keys: seq<HeldKey>)
    ensures Placed(cfg, ev, start, keys, |keys|, JudgeAll(cfg, ev, start, keys).verdicts, Places(cfg, ev, start, keys))
  {
    assert keys[..|keys|] == keys;
    VerdictsPlacedUpTo(cfg, ev, start, keys, |keys|);
  }

  // ----- Releasing a buffered key -----

  /** What a release decides for the held key at `i`, when the released key stands at `r`. */
  function ExpectedOnRelease(cfg: Config, ev: KeyEvent, keys: seq<HeldKey>, r: nat, i: nat): Option<HeldDecision>
    requires i < |keys|
  {
    var k := keys[i];
    if !k.state.Pressed? && !k.state.Released? then None
    else if i == r then Some(ReleaseHeld)
    else if !k.action.TapHold? && !k.action.Morse? then (if k.state.Pressed? then Some(NormalHeld) else None)
    else if i > r then None
    else if cfg.unilateralTap(k.action) && OneHand(cfg, k.source, ev.source) then Some(TapUnilateral)
    else if cfg.mode(k.action) == PermissiveHold then Some(HoldPermissive)
    else None
  }

  lemma {:induction false} CurrentOnRelease(cfg: Config, ev: KeyEvent, keys: seq<HeldKey>, r: nat, n: nat)
    requires !ev.pressed && OneEntryPerSource(keys) && n <= |keys|
    requires r < |keys| && keys[r].source == ev.source && Unresolved(keys[r])
    ensures JudgeAll(cfg, ev, Ignore, keys[..n]).current == ReleaseCurrent <==> r < n
    decreases n
  {
    if n > 0 {
      CurrentOnRelease(cfg, ev, keys, r, n - 1);
      assert keys[..n][..n - 1] == keys[..n - 1];
      assert n - 1 != r ==> keys[n - 1].source != keys[r].source;
    }
  }

  /** Every verdict is the expected one for the key at its place. */
  ghost predicate AsExpected(cfg: Config, ev: KeyEvent, keys: seq<HeldKey>, r: nat, verdicts: seq<Verdict>, places: seq<nat>) {
    && |places| == |verdicts|
    && forall v :: 0 <= v < |verdicts| ==>
         places[v] < |keys| && ExpectedOnRelease(cfg, ev, keys, r, places[v]) == Some(verdicts[v].decision)
  }

  lemma VerdictOnRelease(cfg: Config, ev: KeyEvent, keys: seq<HeldKey>, r: nat, i: nat)
    requires !ev.pressed && OneEntryPerSource(keys) && i < |keys|
    requires r < |keys| && keys[r].source == ev.source && Unresolved(keys[r])
    ensures VerdictAt(cfg, ev, Ignore, keys, i) == ExpectedOnRelease(cfg, ev, keys, r, i)
  {
    CurrentOnRelease(cfg, ev, keys, r, i);
    assert i != r ==> keys[i].source != keys[r].source;
  }

  /**
   The verdicts of a release, key by key: keys pressed before the released one
   may be tapped or held, the released one is released, later ones are left.
   */
  lemma ReleaseExact(cfg: Config, ev: KeyEvent, keys: seq<HeldKey>, r: nat)
    requires !ev.pressed && OneEntryPerSource(keys)
    requires r < |keys| && keys[r].source == ev.source && Unresolved(keys[r])
    ensures var places, verdicts := Places(cfg, ev, Ignore, keys), JudgeAll(cfg, ev, Ignore, keys).verdicts;
      && InPressOrder(keys, verdicts, places)
      && AsExpected(cfg, ev, keys, r, verdicts, places)
      && forall i :: 0 <= i < |keys| && ExpectedOnRelease(cfg, ev, keys, r, i).Some? ==> i in places
  {
    VerdictsInPressOrder(cfg, ev, Ignore, keys);
    VerdictsPlaced(cfg, ev, Ignore, keys);
    forall i | 0 <= i < |keys|
      ensures VerdictAt(cfg, ev, Ignore, keys, i) == ExpectedOnRelease(cfg, ev, keys, r, i)
    {
      VerdictOnRelease(cfg, ev, keys, r, i);
    }
  }

  predicate HoldOrRoll(d: HeldDecision) {
    d == HoldPermissive || d == TapUnilateral
  }

  /** One Release, at `at`; holds and rolls come before it, on keys pressed no later. */
  ghost predicate OneReleaseLast(keys: seq<HeldKey>, r: nat, verdicts: seq<Verdict>, at: nat)
    requires r < |keys|
  {
    && at < |verdicts| && verdicts[at] == Verdict(keys[r].source, ReleaseHeld)
    && (forall v :: 0 <= v < |verdicts| && verdicts[v].decision == ReleaseHeld ==> v == at)
    && (forall v :: 0 <= v < |verdicts| && HoldOrRoll(verdicts[v].decision) ==>
          v < at && PressedBefore(keys, r, verdicts[v].source))
  }

  ghost predicate PressedBefore(keys: seq<HeldKey>, r: nat, source: Source)
    requires r < |keys|
  {
    exists i :: 0 <= i < r && keys[i].source == source && keys[i].pressTime <= keys[r].pressTime
  }

  lemma ReleaseStandsLast(
    cfg: Config, ev: KeyEvent, keys: seq<HeldKey>, r: nat, verdicts: seq<Verdict>, places: seq<nat>, at: nat)
    requires SortedByPress(keys) && InPressOrder(keys, verdicts, places) && AsExpected(cfg, ev, keys, r, verdicts, places)
    requires at < |places| && places[at] == r < |keys|
    ensures OneReleaseLast(keys, r, verdicts, at)
  {
    forall v | 0 <= v < |verdicts| && HoldOrRoll(verdicts[v].decision)
      ensures v < at && PressedBefore(keys, r, verdicts[v].source)
    {
      var i := places[v];
      assert i < r;
      assert keys[i].source == verdicts[v].source && keys[i].pressTime <= keys[r].pressTime;
    }
  }

  /**
   Releasing a buffered unresolved key gives exactly one Release, in press
   order among the verdicts; every hold or roll verdict comes before it and so
   falls on a key pressed no later than the released one.
   */
  lemma ReleaseVerdicts(cfg: Config, ev: KeyEvent, keys: seq<HeldKey>, r: nat) returns (at: nat)
    requires !ev.pressed && OneEntryPerSource(keys) && SortedByPress(keys)
    requires r < |keys| && keys[r].source == ev.source && Unresolved(keys[r])
    ensures JudgeAll(cfg, ev, Ignore, keys).current == ReleaseCurrent
    ensures OneReleaseLast(keys, r, JudgeAll(cfg, ev, Ignore, keys).verdicts, at)
  {
    var verdicts, places := JudgeAll(cfg, ev, Ignore, keys).verdicts, Places(cfg, ev, Ignore, keys);
    ReleaseExact(cfg, ev, keys, r);
    assert keys[..|keys|] == keys;
    CurrentOnRelease(cfg, ev, keys, r, |keys|);
    assert ExpectedOnRelease(cfg, ev, keys, r, r).Some?;
    at :| 0 <= at < |places| && places[at] == r;
    ReleaseStandsLast(cfg, ev, keys, r, verdicts, places, at);
  }

  // ----- Pressing a key -----

  /** A morse key that a press is compared with. */
  predicate Compared(ev: KeyEvent, k: HeldKey) {
    (k.state.Pressed? || k.state.Released?) && (k.action.TapHold? || k.action.Morse?) && k.source != ev.source
  }

  /** Both keys are in the matrix, under the left hand or under the right hand. */
  predicate OneHand(cfg: Config, a: Source, b: Source) {
    a.Key? && b.Key? && cfg.hand(a.row, a.col) == cfg.hand(b.row, b.col) && cfg.hand(a.row, a.col) in {Left, Right}
  }

  /** The new key is a tap-hold or morse key that flow tap is on for, pressed within a typing streak. */
  predicate Streaking(cfg: Config, action: KeyAction) {
    (action.TapHold? || action.Morse?) && cfg.flowTap(action) && cfg.inStreak
  }

  /** In a typing streak this key would be tapped. */
  predicate FlowTaps(cfg: Config, k: HeldKey) {
    k.state.Pressed? && cfg.flowTap(k.action)
  }

  /** A pressed unilateral-tap key under the same hand as the new one. */
  predicate RollsOnPress(cfg: Config, ev: KeyEvent, k: HeldKey) {
    cfg.unilateralTap(k.action) && OneHand(cfg, k.source, ev.source) && k.state.Pressed?
  }

  /** The streak goes on up to key `i`: every key compared so far was tapped by it or had no say. */
  predicate Flowing(cfg: Config, ev: KeyEvent, start: CurrentDecision, keys: seq<HeldKey>, i: nat)
    requires i <= |keys|
  {
    start == FlowTapCurrent && forall j :: 0 <= j < i ==> !HasSay(cfg, ev, keys[j]) || FlowTaps(cfg, keys[j])
  }

  /** Without the streak the key would decide about the new one. */
  predicate HasSay(cfg: Config, ev: KeyEvent, k: HeldKey) {
    Compared(ev, k) && (cfg.mode(k.action) != Normal || RollsOnPress(cfg, ev, k))
  }

  /** The key does decide about the new one. */
  predicate HasItsSay(cfg: Config, ev: KeyEvent, start: CurrentDecision, keys: seq<HeldKey>, i: nat)
    requires i < |keys|
  {
    HasSay(cfg, ev, keys[i]) && !(Flowing(cfg, ev, start, keys, i) && FlowTaps(cfg, keys[i]))
  }

  /** What a press decides for the held key at `i`. */
  function ExpectedOnPress(cfg: Config, ev: KeyEvent, start: CurrentDecision, keys: seq<HeldKey>, i: nat): Option<HeldDecision>
    requires i < |keys|
  {
    var k := keys[i];
    if !k.action.TapHold? && !k.action.Morse? then (if k.state.Pressed? then Some(NormalHeld) else None)
    else if !Compared(ev, k) then None
    else if Flowing(cfg, ev, start, keys, i) && FlowTaps(cfg, k) then Some(TapFlow)
    else if cfg.mode(k.action) == HoldOnOtherPress then Some(HoldOnPress)
    else if cfg.mode(k.action) == Normal && RollsOnPress(cfg, ev, k) then Some(TapUnilateral)
    else None
  }

  /** The last of the first `n` keys that has its say. */
  function LastSay(cfg: Config, ev: KeyEvent, start: CurrentDecision, keys: seq<HeldKey>, n: nat): (r: Option<nat>)
    requires n <= |keys|
    ensures r.Some? ==> r.value < n && HasItsSay(cfg, ev, start, keys, r.value)
    ensures forall j :: (if r.Some? then r.value + 1 else 0) <= j < n ==> !HasItsSay(cfg, ev, start, keys, j)
  {
    if n == 0 then None
    else if HasItsSay(cfg, ev, start, keys, n - 1) then Some(n - 1)
    else LastSay(cfg, ev, start, keys, n - 1)
  }

  function Say(cfg: Config, k: HeldKey): CurrentDecision {
    if cfg.mode(k.action) == PermissiveHold then Buffer else CleanBuffer
  }

  /** What a press leaves for the new key: the last held key that has its say decides. */
  function ExpectedCurrent(cfg: Config, ev: KeyEvent, start: CurrentDecision, keys: seq<HeldKey>, n: nat): CurrentDecision
    requires n <= |keys|
  {
    match LastSay(cfg, ev, start, keys, n)
    case None => start
    case Some(i) => Say(cfg, keys[i])
  }

  lemma {:induction false} FlowingOnPress(cfg: Config, ev: KeyEvent, start: CurrentDecision, keys: seq<HeldKey>, n: nat)
    requires ev.pressed && n <= |keys|
    ensures JudgeAll(cfg, ev, start, keys[..n]).current == FlowTapCurrent <==> Flowing(cfg, ev, start, keys, n)
    decreases n
  {
    if n > 0 {
      FlowingOnPress(cfg, ev, start, keys, n - 1);
      assert keys[..n][..n - 1] == keys[..n - 1];
    }
  }

  /** One more key: it decides when it has its say, and changes nothing otherwise. */
  lemma CurrentStep(cfg: Config, ev: KeyEvent, start: CurrentDecision, keys: seq<HeldKey>, i: nat)
    requires ev.pressed && i < |keys|
    ensures JudgeAll(cfg, ev, start, keys[..i + 1]).current ==
            if HasItsSay(cfg, ev, start, keys, i) then Say(cfg, keys[i]) else JudgeAll(cfg, ev, start, keys[..i]).current
  {
    FlowingOnPress(cfg, ev, start, keys, i);
    assert keys[..i + 1][..i] == keys[..i];
  }

  lemma {:induction false} CurrentOnPress(cfg: Config, ev: KeyEvent, start: CurrentDecision, keys: seq<HeldKey>, n: nat)
    requires ev.pressed && n <= |keys|
    ensures JudgeAll(cfg, ev, start, keys[..n]).current == ExpectedCurrent(cfg, ev, start, keys, n)
    decreases n
  {
    if n > 0 {
      CurrentOnPress(cfg, ev, start, keys, n - 1);
      CurrentStep(cfg, ev, start, keys, n - 1);
    }
  }

  /** Every verdict is the expected one for the key at its place. */
  ghost predicate AsExpectedOnPress(
    cfg: Config, ev: KeyEvent, start: CurrentDecision, keys: seq<HeldKey>, verdicts: seq<Verdict>, places: seq<nat>)
  {
    && |places| == |verdicts|
    && forall v :: 0 <= v < |verdicts| ==>
         places[v] < |keys| && ExpectedOnPress(cfg, ev, start, keys, places[v]) == Some(verdicts[v].decision)
  }

  lemma VerdictOnPress(cfg: Config, ev: KeyEvent, start: CurrentDecision, keys: seq<HeldKey>, i: nat)
    requires ev.pressed && i < |keys|
    ensures VerdictAt(cfg, ev, start, keys, i) == ExpectedOnPress(cfg, ev, start, keys, i)
  {
    FlowingOnPress(cfg, ev, start, keys, i);
  }

  /**
   A press, exactly: the verdict of every held key, none missing, in press
   order, and what is left for the new key.
   */
  lemma PressExact(cfg: Config, ev: KeyEvent, start: CurrentDecision, keys: seq<HeldKey>)
    requires ev.pressed
    ensures var places, o := Places(cfg, ev, start, keys), JudgeAll(cfg, ev, start, keys);
      && InPressOrder(keys, o.verdicts, places)
      && AsExpectedOnPress(cfg, ev, start, keys, o.verdicts, places)
      && (forall i :: 0 <= i < |keys| && ExpectedOnPress(cfg, ev, start, keys, i).Some? ==> i in places)
      && o.current == ExpectedCurrent(cfg, ev, start, keys, |keys|)
  {
    assert keys[..|keys|] == keys;
    VerdictsInPressOrder(cfg, ev, start, keys);
    VerdictsPlaced(cfg, ev, start, keys);
    CurrentOnPress(cfg, ev, start, keys, |keys|);
    forall i | 0 <= i < |keys|
      ensures VerdictAt(cfg, ev, start, keys, i) == ExpectedOnPress(cfg, ev, start, keys, i)
    {
      VerdictOnPress(cfg, ev, start, keys, i);
    }
  }

  /** No held key gets two verdicts. */
  lemma OneVerdictPerKey(cfg: Config, ev: KeyEvent, start: CurrentDecision, keys: seq<HeldKey>, u: nat, v: nat)
    requires OneEntryPerSource(keys) && u < v < |JudgeAll(cfg, ev, start, keys).verdicts|
    ensures var verdicts := JudgeAll(cfg, ev, start, keys).verdicts; verdicts[u].source != verdicts[v].source
  {
    VerdictsInPressOrder(cfg, ev, start, keys);
    var places := Places(cfg, ev, start, keys);
    assert places[u] < places[v];
  }
}

/**
 Forks (key overrides): a press may be replaced by a chain of forks, the choice
 is remembered with its source, and the release gets the same replacement.
 */
module Forks {
  import opened Wrappers
  import opened KeyTable

  datatype Action = KeyWithModifier(code: nat, mods: Mods) | Basic(id: nat)

  datatype KeyAction =
    | NoAction
    | Transparent
    | Single(action: Action)
    | Tap(action: Action)
    | TapHold(tap: Action, hold: Action, profile: nat)
    | Morse(index: nat)

  /** Triggers compare by identity: the timing profile of a tap-hold key is not part of it. */
  predicate SameAction(a: KeyAction, b: KeyAction) {
    match (a, b)
    case (TapHold(t, h, _), TapHold(t', h', _)) => t == t' && h == h'
    case _ => a == b
  }

  // ----- State bits -----

  datatype StateBits = StateBits(modifiers: Mods, leds: set<nat>, mouse: set<nat>)

  function And(a: StateBits, b: StateBits): StateBits {
    StateBits(a.modifiers * b.modifiers, a.leds * b.leds, a.mouse * b.mouse)
  }

  const NO_BITS: StateBits := StateBits({}, {}, {})

  const LAYER_BITS: nat := 32

  datatype Layers = AllLayers | SomeLayers(bits: set<nat>)

  datatype Fork = Fork(
    trigger: KeyAction, negative: KeyAction, positive: KeyAction,
    matchAny: StateBits, matchNone: StateBits, kept: Mods, bindable: bool, layers: Layers)

  datatype ActiveFork = ActiveFork(replacement: KeyAction, suppress: Mods, source: Source)

  type States = seq<Option<ActiveFork>>

  /** What a press is decided under: modifiers, LEDs, mouse buttons, and the layer it came from. */
  datatype Env = Env(bits: StateBits, layer: nat)

  // ----- One fork -----

  predicate Decides(fork: Fork, bits: StateBits) {
    And(fork.matchAny, bits) != NO_BITS && And(fork.matchNone, bits) == NO_BITS
  }

  predicate OnLayer(fork: Fork, layer: nat) {
    fork.layers.AllLayers? || (layer < LAYER_BITS && layer in fork.layers.bits)
  }

  /** The fork takes this key now: it is idle, unused in the chain, and has an output. */
  predicate Takes(forks: seq<Fork>, states: States, used: set<nat>, layer: nat, bits: StateBits, key: KeyAction, i: nat)
    requires i < |forks| <= |states|
  {
    && i !in used && states[i] == None && SameAction(forks[i].trigger, key) && OnLayer(forks[i], layer)
    && (Decides(forks[i], bits) || forks[i].negative != Transparent)
  }

  function Output(fork: Fork, bits: StateBits): KeyAction {
    if Decides(fork, bits) then fork.positive else fork.negative
  }

  function Suppressed(fork: Fork): Mods {
    fork.matchAny.modifiers - fork.kept
  }

  function NextFork(
    forks: seq<Fork>, states: States, used: set<nat>, layer: nat, bits: StateBits, key: KeyAction, from: nat): (i: nat)
    requires from <= |forks| <= |states|
    ensures from <= i <= |forks|
    ensures i < |forks| ==> Takes(forks, states, used, layer, bits, key, i)
    ensures forall k :: from <= k < i ==> !Takes(forks, states, used, layer, bits, key, k)
    decreases |forks| - from
  {
    if from == |forks| || Takes(forks, states, used, layer, bits, key, from) then from
    else NextFork(forks, states, used, layer, bits, key, from + 1)
  }

  // ----- The chain -----

  /** What the chain has decided so far; `path` lists the forks it went through. */
  datatype Chain = Chain(replacement: KeyAction, path: seq<nat>, suppress: Mods, keepMask: Mods, bits: StateBits)

  function Extend(c: Chain, fork: Fork, i: nat): Chain {
    Chain(Output(fork, c.bits), c.path + [i], c.suppress + Suppressed(fork),
          (c.keepMask - fork.matchAny.modifiers) + fork.kept,
          if fork.bindable then c.bits.(modifiers := c.bits.modifiers - Suppressed(fork)) else c.bits)
  }

  predicate Distinct(path: seq<nat>, n: nat) {
    && (forall k :: 0 <= k < |path| ==> path[k] < n)
    && (forall j, k :: 0 <= j < k < |path| ==> path[j] != path[k])
  }

  function Used(path: seq<nat>): set<nat> {
    set k | 0 <= k < |path| :: path[k]
  }

  function Range(n: nat): set<nat> {
    if n == 0 then {} else Range(n - 1) + {n - 1}
  }

  lemma {:induction false} RangeExact(n: nat)
    ensures |Range(n)| == n && forall k: nat :: k in Range(n) <==> k < n
  {
    if n > 0 {
      RangeExact(n - 1);
      assert n - 1 !in Range(n - 1);
    }
  }

  lemma DistinctLength(path: seq<nat>, n: nat)
    requires Distinct(path, n)
    ensures |Used(path)| == |path| <= n
  {
    UsedCount(path);
    RangeExact(n);
    SubsetCount(Used(path), Range(n));
  }

  lemma {:induction false} UsedCount(path: seq<nat>)
    requires forall j, k :: 0 <= j < k < |path| ==> path[j] != path[k]
    ensures |Used(path)| == |path|
  {
    if path != [] {
      var front := path[..|path| - 1];
      UsedCount(front);
      assert Used(path) == Used(front) + {path[|path| - 1]};
    }
  }

  lemma {:induction false} SubsetCount(a: set<nat>, b: set<nat>)
    requires a <= b
    ensures |a| <= |b|
  {
    if x :| x in a {
      SubsetCount(a - {x}, b - {x});
    }
  }

  lemma UsedSnoc(path: seq<nat>, i: nat)
    ensures Used(path + [i]) == Used(path) + {i}
  {
    var longer := path + [i];
    forall x | x in Used(path) + {i}
      ensures x in Used(longer)
    {
      if x == i {
        assert longer[|path|] == i;
      } else {
        var k :| 0 <= k < |path| && path[k] == x;
        assert longer[k] == x;
      }
    }
  }

  /** Follow the chain to its end. It ends because each fork is used at most once. */
  function Follow(forks: seq<Fork>, states: States, layer: nat, c: Chain): (r: Chain)
    requires |forks| <= |states| && Distinct(c.path, |forks|)
    ensures Distinct(r.path, |forks|) && c.path <= r.path
    ensures forall k :: |c.path| <= k < |r.path| ==> states[r.path[k]] == None
    decreases |forks| - |c.path|
  {
    DistinctLength(c.path, |forks|);
    var i := NextFork(forks, states, Used(c.path), layer, c.bits, c.replacement, 0);
    if i == |forks| then c
    else
      var c' := Extend(c, forks[i], i);
      if forks[i].bindable then
        DistinctLength(c'.path, |forks|);
        Follow(forks, states, layer, c')
      else c'
  }

  lemma DistinctSnoc(path: seq<nat>, i: nat, n: nat)
    requires Distinct(path, n) && i < n && i !in Used(path)
    ensures Distinct(path + [i], n)
  {
    assert forall k :: 0 <= k < |path| ==> path[k] in Used(path);
  }

  /** One turn of the chain. */
  lemma FollowStep(forks: seq<Fork>, states: States, layer: nat, c: Chain, i: nat)
    requires |forks| <= |states| && Distinct(c.path, |forks|)
    requires i == NextFork(forks, states, Used(c.path), layer, c.bits, c.replacement, 0)
    ensures |c.path| <= |forks|
    ensures i == |forks| ==> Follow(forks, states, layer, c) == c
    ensures i < |forks| ==>
              var c' := Extend(c, forks[i], i);
              && Distinct(c'.path, |forks|) && |c'.path| <= |forks| && Used(c'.path) == Used(c.path) + {i}
              && Follow(forks, states, layer, c) == if forks[i].bindable then Follow(forks, states, layer, c') else c'
  {
    DistinctLength(c.path, |forks|);
    if i < |forks| {
      UsedSnoc(c.path, i);
      DistinctSnoc(c.path, i, |forks|);
      DistinctLength(c.path + [i], |forks|);
    }
  }

  // ----- What a chain decides, in terms of its forks' fields -----

  /** The key, the modifiers and the kept modifiers between two forks of a chain. */
  datatype Moment = Moment(key: KeyAction, mods: Mods, kept: Mods)

  /** The fork waits for this key; the timing profile of a tap-hold key does not matter. */
  predicate WaitsFor(fork: Fork, key: KeyAction) {
    fork.trigger == key ||
    (fork.trigger.TapHold? && key.TapHold? && fork.trigger.tap == key.tap && fork.trigger.hold == key.hold)
  }

  predicate Meets(bits: StateBits, mods: Mods, env: Env) {
    (exists m :: m in bits.modifiers && m in mods) ||
    (exists l :: l in bits.leds && l in env.bits.leds) ||
    (exists b :: b in bits.mouse && b in env.bits.mouse)
  }

  /** Some bit the fork matches is on, and none that it excludes. */
  predicate IsOn(fork: Fork, mods: Mods, env: Env) {
    Meets(fork.matchAny, mods, env) && !Meets(fork.matchNone, mods, env)
  }

  /** The fork is free, waits for the key on this layer, and has an output now. */
  predicate CanFire(fork: Fork, state: Option<ActiveFork>, at: Moment, env: Env) {
    && state.None? && WaitsFor(fork, at.key) && (fork.layers.AllLayers? || (env.layer < 32 && env.layer in fork.layers.bits))
    && (IsOn(fork, at.mods, env) || fork.negative != Transparent)
  }

  /** Fork `i` fires: the first that can, and what it makes of the key and the modifiers. */
  ghost predicate FiresNext(
    forks: seq<Fork>, states: States, env: Env, before: seq<nat>, i: nat, at: Moment, next: Moment)
    requires |forks| <= |states|
  {
    && i < |forks| && i !in before && CanFire(forks[i], states[i], at, env)
    && (forall j :: 0 <= j < i && j !in before ==> !CanFire(forks[j], states[j], at, env))
    && next.key == (if IsOn(forks[i], at.mods, env) then forks[i].positive else forks[i].negative)
    && (forall m :: m in next.mods <==>
          m in at.mods && !(forks[i].bindable && m in forks[i].matchAny.modifiers && m !in forks[i].kept))
    && (forall m :: m in next.kept <==> m in forks[i].kept || (m in at.kept && m !in forks[i].matchAny.modifiers))
  }

  /**
   Step `k` of the path leads from its moment to the next, counting the moments
   from the step `from` on; only the last fork may end a chain by itself.
   */
  ghost predicate TraceAt(
    forks: seq<Fork>, states: States, env: Env, path: seq<nat>, from: nat, moments: seq<Moment>, k: nat)
    requires |forks| <= |states| && from <= k < |path| && |moments| == |path| - from + 1
  {
    && FiresNext(forks, states, env, path[..k], path[k], moments[k - from], moments[k - from + 1])
    && (k < |path| - 1 ==> forks[path[k]].bindable)
  }

  /** After an end that binds, no unused fork can fire any more. */
  ghost predicate TraceEnd(forks: seq<Fork>, states: States, env: Env, path: seq<nat>, last: Moment)
    requires |forks| <= |states|
  {
    path == [] || (path[|path| - 1] < |forks| && forks[path[|path| - 1]].bindable) ==>
      forall i :: 0 <= i < |forks| && i !in path ==> !CanFire(forks[i], states[i], last, env)
  }

  /** The chain from the path's step `from` on, moment by moment. */
  ghost predicate IsTrace(
    forks: seq<Fork>, states: States, env: Env, path: seq<nat>, from: nat, moments: seq<Moment>)
    requires |forks| <= |states| && from <= |path|
  {
    && |moments| == |path| - from + 1
    && (forall k :: from <= k < |path| ==> TraceAt(forks, states, env, path, from, moments, k))
    && TraceEnd(forks, states, env, path, moments[|moments| - 1])
  }

  function MomentOf(c: Chain): Moment {
    Moment(c.replacement, c.bits.modifiers, c.keepMask)
  }

  /** The moments that `Follow` goes through. */
  function Moments(forks: seq<Fork>, states: States, layer: nat, c: Chain): (moments: seq<Moment>)
    requires |forks| <= |states| && Distinct(c.path, |forks|)
    ensures moments != [] && moments[0] == MomentOf(c)
    decreases |forks| - |c.path|
  {
    DistinctLength(c.path, |forks|);
    var i := NextFork(forks, states, Used(c.path), layer, c.bits, c.replacement, 0);
    if i == |forks| then [MomentOf(c)]
    else
      var c' := Extend(c, forks[i], i);
      if forks[i].bindable then
        DistinctLength(c'.path, |forks|);
        [MomentOf(c)] + Moments(forks, states, layer, c')
      else [MomentOf(c), MomentOf(c')]
  }

  /** LEDs and mouse buttons do not change along a chain. */
  predicate SameLights(c: Chain, env: Env) {
    c.bits.leds == env.bits.leds && c.bits.mouse == env.bits.mouse
  }

  lemma MeetsExact(bits: StateBits, c: Chain, env: Env)
    requires SameLights(c, env)
    ensures Meets(bits, c.bits.modifiers, env) <==> And(bits, c.bits) != NO_BITS
  {
    var a := And(bits, c.bits);
    if m :| m in bits.modifiers && m in c.bits.modifiers {
      assert m in a.modifiers;
    }
    if l :| l in bits.leds && l in env.bits.leds {
      assert l in a.leds;
    }
    if b :| b in bits.mouse && b in env.bits.mouse {
      assert b in a.mouse;
    }
    assert a != NO_BITS <==> a.modifiers != {} || a.leds != {} || a.mouse != {};
    if a != NO_BITS {
      if m :| m in a.modifiers {
        assert m in bits.modifiers && m in c.bits.modifiers;
      } else if l :| l in a.leds {
        assert l in bits.leds && l in env.bits.leds;
      } else if b :| b in a.mouse {
        assert b in bits.mouse && b in env.bits.mouse;
      }
    }
  }

  lemma OnExact(fork: Fork, c: Chain, env: Env)
    requires SameLights(c, env)
    ensures IsOn(fork, c.bits.modifiers, env) <==> Decides(fork, c.bits)
  {
    MeetsExact(fork.matchAny, c, env);
    MeetsExact(fork.matchNone, c, env);
  }

  lemma CanFireExact(forks: seq<Fork>, states: States, c: Chain, env: Env, i: nat)
    requires i < |forks| <= |states| && SameLights(c, env)
    ensures i !in Used(c.path) && CanFire(forks[i], states[i], MomentOf(c), env) <==>
            Takes(forks, states, Used(c.path), env.layer, c.bits, c.replacement, i)
  {
    OnExact(forks[i], c, env);
  }

  lemma UsedExact(path: seq<nat>, i: nat)
    ensures i in Used(path) <==> i in path
  {
  }

  lemma FiresNextExact(forks: seq<Fork>, states: States, c: Chain, env: Env, i: nat)
    requires |forks| <= |states| && SameLights(c, env) && i < |forks|
    requires i == NextFork(forks, states, Used(c.path), env.layer, c.bits, c.replacement, 0)
    ensures FiresNext(forks, states, env, c.path, i, MomentOf(c), MomentOf(Extend(c, forks[i], i)))
  {
    UsedExact(c.path, i);
    CanFireExact(forks, states, c, env, i);
    OnExact(forks[i], c, env);
    forall j | 0 <= j < i && j !in c.path
      ensures !CanFire(forks[j], states[j], MomentOf(c), env)
    {
      UsedExact(c.path, j);
      CanFireExact(forks, states, c, env, j);
    }
  }

  lemma NoneFires(forks: seq<Fork>, states: States, c: Chain, env: Env, i: nat)
    requires |forks| <= |states| && SameLights(c, env) && i < |forks| && i !in c.path
    requires NextFork(forks, states, Used(c.path), env.layer, c.bits, c.replacement, 0) == |forks|
    ensures !CanFire(forks[i], states[i], MomentOf(c), env)
  {
    UsedExact(c.path, i);
    CanFireExact(forks, states, c, env, i);
  }

  lemma TraceLater(
    forks: seq<Fork>, states: States, env: Env, path: seq<nat>, from: nat, first: Moment, moments: seq<Moment>, k: nat)
    requires |forks| <= |states| && from < k < |path| && |moments| == |path| - from
    requires TraceAt(forks, states, env, path, from + 1, moments, k)
    ensures TraceAt(forks, states, env, path, from, [first] + moments, k)
  {
    var all := [first] + moments;
    assert all[k - from] == moments[k - (from + 1)] && all[k - from + 1] == moments[k - (from + 1) + 1];
  }

  lemma TraceCons(
    forks: seq<Fork>, states: States, env: Env, path: seq<nat>, from: nat, first: Moment, moments: seq<Moment>)
    requires |forks| <= |states| && from < |path| && IsTrace(forks, states, env, path, from + 1, moments)
    requires TraceAt(forks, states, env, path, from, [first] + moments, from)
    ensures IsTrace(forks, states, env, path, from, [first] + moments)
  {
    var all := [first] + moments;
    forall k | from < k < |path|
      ensures TraceAt(forks, states, env, path, from, all, k)
    {
      TraceLater(forks, states, env, path, from, first, moments, k);
    }
    assert all[|all| - 1] == moments[|moments| - 1];
  }

  lemma TraceEnds(forks: seq<Fork>, states: States, env: Env, c: Chain)
    requires |forks| <= |states| && SameLights(c, env)
    requires NextFork(forks, states, Used(c.path), env.layer, c.bits, c.replacement, 0) == |forks|
    ensures IsTrace(forks, states, env, c.path, |c.path|, [MomentOf(c)])
  {
    forall j | 0 <= j < |forks| && j !in c.path
      ensures !CanFire(forks[j], states[j], MomentOf(c), env)
    {
      NoneFires(forks, states, c, env, j);
    }
  }

  lemma TraceStops(forks: seq<Fork>, states: States, env: Env, path: seq<nat>, last: Moment)
    requires |forks| <= |states| && path != [] && path[|path| - 1] < |forks| && !forks[path[|path| - 1]].bindable
    ensures IsTrace(forks, states, env, path, |path|, [last])
  {
  }

  lemma TraceStep(
    forks: seq<Fork>, states: States, env: Env, c: Chain, i: nat, path: seq<nat>, moments: seq<Moment>)
    requires |forks| <= |states| && SameLights(c, env) && i < |forks|
    requires i == NextFork(forks, states, Used(c.path), env.layer, c.bits, c.replacement, 0)
    requires c.path + [i] <= path && IsTrace(forks, states, env, path, |c.path| + 1, moments)
    requires moments[0] == MomentOf(Extend(c, forks[i], i)) && (|c.path| < |path| - 1 ==> forks[i].bindable)
    ensures IsTrace(forks, states, env, path, |c.path|, [MomentOf(c)] + moments)
  {
    FiresNextExact(forks, states, c, env, i);
    assert path[..|c.path|] == c.path && path[|c.path|] == i;
    TraceCons(forks, states, env, path, |c.path|, MomentOf(c), moments);
  }

  /** Every chain is such a trace. */
  lemma {:induction false} FollowIsTrace(forks: seq<Fork>, states: States, env: Env, c: Chain)
    requires |forks| <= |states| && Distinct(c.path, |forks|) && SameLights(c, env)
    ensures var r := Follow(forks, states, env.layer, c);
      var moments := Moments(forks, states, env.layer, c);
      && IsTrace(forks, states, env, r.path, |c.path|, moments)
      && moments[|moments| - 1] == MomentOf(r)
    decreases |forks| - |c.path|
  {
    var i := NextFork(forks, states, Used(c.path), env.layer, c.bits, c.replacement, 0);
    FollowStep(forks, states, env.layer, c, i);
    if i == |forks| {
      TraceEnds(forks, states, env, c);
    } else {
      var c' := Extend(c, forks[i], i);
      var later := if forks[i].bindable then Moments(forks, states, env.layer, c') else [MomentOf(c')];
      var path := Follow(forks, states, env.layer, c).path;
      if forks[i].bindable {
        FollowIsTrace(forks, states, env, c');
      } else {
        TraceStops(forks, states, env, path, MomentOf(c'));
      }
      TraceStep(forks, states, env, c, i, path, later);
      MomentsStep(forks, states, env.layer, c, i, later);
    }
  }

  lemma MomentsStep(forks: seq<Fork>, states: States, layer: nat, c: Chain, i: nat, later: seq<Moment>)
    requires |forks| <= |states| && Distinct(c.path, |forks|) && i < |forks|
    requires i == NextFork(forks, states, Used(c.path), layer, c.bits, c.replacement, 0)
    requires Distinct(Extend(c, forks[i], i).path, |forks|)
    requires later == if forks[i].bindable then Moments(forks, states, layer, Extend(c, forks[i], i))
                      else [MomentOf(Extend(c, forks[i], i))]
    ensures Moments(forks, states, layer, c) == [MomentOf(c)] + later
  {
  }

  /** A chain suppresses what its forks match and do not keep. */
  ghost predicate SuppressedAlong(forks: seq<Fork>, path: seq<nat>, m: nat) {
    exists k :: 0 <= k < |path| && path[k] < |forks| && m in forks[path[k]].matchAny.modifiers && m !in forks[path[k]].kept
  }

  lemma SuppressedSnoc(forks: seq<Fork>, path: seq<nat>, i: nat, m: nat)
    requires i < |forks|
    ensures SuppressedAlong(forks, path + [i], m) <==>
            SuppressedAlong(forks, path, m) || (m in forks[i].matchAny.modifiers && m !in forks[i].kept)
  {
    var longer := path + [i];
    if k :| 0 <= k < |path| && path[k] < |forks| && m in forks[path[k]].matchAny.modifiers && m !in forks[path[k]].kept {
      assert longer[k] == path[k];
    }
    if m in forks[i].matchAny.modifiers && m !in forks[i].kept {
      assert longer[|path|] == i;
    }
  }

  lemma {:induction false} FollowSuppresses(forks: seq<Fork>, states: States, layer: nat, c: Chain, m: nat)
    requires |forks| <= |states| && Distinct(c.path, |forks|)
    requires m in c.suppress <==> SuppressedAlong(forks, c.path, m)
    ensures var r := Follow(forks, states, layer, c); m in r.suppress <==> SuppressedAlong(forks, r.path, m)
    decreases |forks| - |c.path|
  {
    var i := NextFork(forks, states, Used(c.path), layer, c.bits, c.replacement, 0);
    FollowStep(forks, states, layer, c, i);
    if i < |forks| {
      SuppressedSnoc(forks, c.path, i, m);
      if forks[i].bindable {
        FollowSuppresses(forks, states, layer, Extend(c, forks[i], i), m);
      }
    }
  }

  // ----- The engine's state -----

  datatype Engine = Engine(states: States, keepMask: Mods)

  function FindActive(states: States, source: Source): Option<ActiveFork> {
    if states == [] then None
    else if states[0].Some? && states[0].value.source == source then states[0]
    else FindActive(states[1..], source)
  }

  function PressChain(forks: seq<Fork>, e: Engine, key: KeyAction, env: Env): Chain
    requires |forks| <= |e.states|
  {
    Follow(forks, e.states, env.layer, Chain(key, [], {}, e.keepMask, env.bits))
  }

  /** The engine after a press: the first fork of the chain is marked active for the whole chain. */
  function AfterPress(forks: seq<Fork>, e: Engine, source: Source, key: KeyAction, env: Env): Engine
    requires |forks| <= |e.states|
  {
    var c := PressChain(forks, e, key, env);
    if c.path == [] then Engine(e.states, c.keepMask)
    else Engine(e.states[c.path[0] := Some(ActiveFork(c.replacement, c.suppress, source))], c.keepMask)
  }

  function PressAction(forks: seq<Fork>, e: Engine, key: KeyAction, env: Env): KeyAction
    requires |forks| <= |e.states|
  {
    PressChain(forks, e, key, env).replacement
  }

  function ReleaseAction(e: Engine, source: Source, key: KeyAction): KeyAction {
    match FindActive(e.states, source)
    case Some(active) => active.replacement
    case None => key
  }

  function Clear(states: States, source: Source): States {
    if states == [] then []
    else [if states[0].Some? && states[0].value.source == source then None else states[0]] + Clear(states[1..], source)
  }

  function AfterRelease(e: Engine, source: Source): Engine {
    e.(states := Clear(e.states, source))
  }

  /** Modifiers the active forks suppress, less those pressed or kept since. */
  function SuppressedBy(states: States): Mods {
    if states == [] then {}
    else (match states[0] case Some(a) => a.suppress case None => {}) + SuppressedBy(states[1..])
  }

  function Readded(key: KeyAction): Mods {
    if key.Single? && key.action.KeyWithModifier? then key.action.mods else {}
  }

  /**
   What a press decides, from the forks' fields: the chain starts with the key
   pressed, under the held modifiers, and ends with the replacement; it
   suppresses what its forks match and do not keep.
   */
  lemma PressDecides(forks: seq<Fork>, e: Engine, key: KeyAction, env: Env) returns (moments: seq<Moment>)
    requires |forks| <= |e.states|
    ensures var c := PressChain(forks, e, key, env);
      && IsTrace(forks, e.states, env, c.path, 0, moments)
      && moments[0] == Moment(key, env.bits.modifiers, e.keepMask)
      && moments[|moments| - 1].key == PressAction(forks, e, key, env)
      && moments[|moments| - 1].kept == c.keepMask
      && forall m :: m in c.suppress <==> SuppressedAlong(forks, c.path, m)
  {
    var c := Chain(key, [], {}, e.keepMask, env.bits);
    moments := Moments(forks, e.states, env.layer, c);
    FollowIsTrace(forks, e.states, env, c);
    forall m
      ensures m in PressChain(forks, e, key, env).suppress <==>
              SuppressedAlong(forks, PressChain(forks, e, key, env).path, m)
    {
      FollowSuppresses(forks, e.states, env.layer, c, m);
    }
  }

  /** The replacement itself puts the modifier into the report. */
  predicate AddsBack(replacement: KeyAction, m: nat) {
    match replacement
    case Single(KeyWithModifier(_, mods)) => m in mods
    case _ => false
  }

  // ----- The implementation -----

  class ForkEngine {
    const forks: seq<Fork>
    var states: array<Option<ActiveFork>>
    var keepMask: Mods

    ghost predicate Valid()
      reads this
    {
      |forks| <= states.Length
    }

    ghost function View(): Engine
      reads this, states
    {
      Engine(states[..], keepMask)
    }

    constructor (forks: seq<Fork>, max: nat)
      requires |forks| <= max
      ensures Valid() && fresh(states) && this.forks == forks
      ensures View() == Engine(seq(max, _ => None), {})
    {
      this.forks := forks;
      states := new Option<ActiveFork>[max](_ => None);
      keepMask := {};
      new;
      assert states[..] == seq(max, _ => None);
    }

    /** The first fork that takes `key`, or the fork count. */
    method FindFork(triggered: set<nat>, layer: nat, bits: StateBits, key: KeyAction) returns (i: nat)
      requires Valid()
      ensures i == NextFork(forks, states[..], triggered, layer, bits, key, 0)
    {
      i := 0;
      while i < |forks|
        invariant 0 <= i <= |forks|
        invariant NextFork(forks, states[..], triggered, layer, bits, key, 0)
               == NextFork(forks, states[..], triggered, layer, bits, key, i)
      {
        if i !in triggered && states[i] == None && SameAction(forks[i].trigger, key) && OnLayer(forks[i], layer) {
          if Decides(forks[i], bits) || forks[i].negative != Transparent {
            return;
          }
        }
        i := i + 1;
      }
    }

    /** Walk the chain, collecting the replacement and the suppressed modifiers. */
    method FollowChain(key: KeyAction, env: Env) returns (replacement: KeyAction, suppress: Mods, starter: Option<nat>)
      requires Valid()
      modifies this`keepMask
      ensures var c := PressChain(forks, old(View()), key, env);
        && replacement == c.replacement && suppress == c.suppress && keepMask == c.keepMask
        && starter == if c.path == [] then None else Some(c.path[0])
    {
      ghost var c := Chain(key, [], {}, keepMask, env.bits);
      starter := None;
      var triggered, bits := {}, env.bits;
      replacement, suppress := key, {};
      var searching := true;
      while searching
        invariant Distinct(c.path, |forks|) && Used(c.path) == triggered
        invariant c == Chain(replacement, c.path, suppress, keepMask, bits)
        invariant PressChain(forks, old(View()), key, env) ==
          if searching then Follow(forks, states[..], env.layer, c) else c
        invariant starter == if c.path == [] then None else Some(c.path[0])
        decreases searching, |forks| - |c.path|
      {
        var i := FindFork(triggered, env.layer, bits, replacement);
        FollowStep(forks, states[..], env.layer, c, i);
        if i == |forks| {
          searching := false;
        } else {
          var fork := forks[i];
          c := Extend(c, fork, i);
          replacement := if Decides(fork, bits) then fork.positive else fork.negative;
          var dropNow := fork.matchAny.modifiers - fork.kept;
          suppress := suppress + dropNow;
          keepMask := keepMask - fork.matchAny.modifiers;
          keepMask := keepMask + fork.kept;
          if starter == None {
            starter := Some(i);
          }
          triggered := triggered + {i};
          if fork.bindable {
            bits := bits.(modifiers := bits.modifiers - dropNow);
          } else {
            searching := false;
          }
        }
      }
    }

    /** Replace a pressed key, and tell whether held modifiers stop being reported for it. */
    method TryStartPress(key: KeyAction, source: Source, env: Env, held: Mods) returns (replacement: KeyAction, dropped: bool)
      requires Valid()
      modifies this`keepMask, states
      ensures states == old(states)
      ensures View() == AfterPress(forks, old(View()), source, key, env)
      ensures replacement == PressAction(forks, old(View()), key, env)
      ensures var c := PressChain(forks, old(View()), key, env);
        dropped <==> exists m :: m in held && m in c.suppress && m !in keepMask && !AddsBack(replacement, m)
    {
      var suppress, starter;
      replacement, suppress, starter := FollowChain(key, env);
      if starter.Some? {
        states[starter.value] := Some(ActiveFork(replacement, suppress, source));
      }
      var gone := held * suppress - keepMask - Readded(replacement);
      dropped := gone != {};
      if dropped {
        var m :| m in gone;
        assert m in held && m in suppress && m !in keepMask && !AddsBack(replacement, m);
      }
    }

    method TryStartRelease(key: KeyAction, source: Source) returns (replacement: KeyAction)
      ensures replacement == ReleaseAction(View(), source, key)
    {
      var i := 0;
      while i < states.Length
        invariant 0 <= i <= states.Length
        invariant FindActive(states[..], source) == FindActive(states[i..], source)
      {
        if states[i].Some? && states[i].value.source == source {
          return states[i].value.replacement;
        }
        assert states[i..][1..] == states[i + 1..];
        i := i + 1;
      }
      return key;
    }

    /**
     Everything the report's modifier byte combines; `explicit` are held and
     one-shot modifiers, `capsShift` is caps word's own shift on a press.
     */
    method ResolveModifiers(registered: seq<RegisteredKey>, explicit: Mods, capsShift: bool) returns (result: Mods)
      ensures result == Resolved(registered, explicit, capsShift, View())
    {
      var suppress := {};
      for i := 0 to states.Length
        invariant suppress + SuppressedBy(states[i..]) == SuppressedBy(states[..])
      {
        assert states[i..][1..] == states[i + 1..];
        if states[i].Some? {
          suppress := suppress + states[i].value.suppress;
        }
      }
      suppress := suppress - keepMask;
      result := explicit - suppress;
      for i := 0 to |registered|
        invariant result == Reported(explicit, View()) + KeycodeMods(registered[..i])
      {
        assert registered[..i + 1][..i] == registered[..i];
        if registered[i].keycode != NO {
          result := result + registered[i].mods;
        }
      }
      assert registered[..|registered|] == registered;
      if capsShift {
        result := result + {LEFT_SHIFT};
      }
    }

    /** Deactivate the source's forks on its release, and tell whether the resolved modifiers changed. */
    method TryFinishRelease(pressed: bool, source: Source, registered: seq<RegisteredKey>, explicit: Mods)
      returns (changed: bool)
      modifies states
      ensures states == old(states)
      ensures View() == if pressed then old(View()) else AfterRelease(old(View()), source)
      ensures changed <==>
              Resolved(registered, explicit, false, View()) != Resolved(registered, explicit, false, old(View()))
    {
      var before := ResolveModifiers(registered, explicit, false);
      if !pressed {
        ClearAt(states[..], source);
        var i := 0;
        while i < states.Length
          invariant 0 <= i <= states.Length
          invariant forall k :: 0 <= k < i ==> states[k] == Clear(old(states[..]), source)[k]
          invariant forall k :: i <= k < states.Length ==> states[k] == old(states[k])
        {
          if states[i].Some? && states[i].value.source == source {
            states[i] := None;
          }
          i := i + 1;
        }
        assert states[..] == Clear(old(states[..]), source);
      }
      var after := ResolveModifiers(registered, explicit, false);
      changed := after != before;
    }
  }

  lemma {:induction false} ClearAt(states: States, source: Source)
    ensures |Clear(states, source)| == |states|
    ensures forall k :: 0 <= k < |states| ==>
              Clear(states, source)[k] ==
                if states[k].Some? && states[k].value.source == source then None else states[k]
  {
    if states != [] {
      ClearAt(states[1..], source);
    }
  }

  // ----- What one press or release does -----

  /** `source` is the owner of active fork `k`. */
  predicate Owns(states: States, source: Source, k: nat) {
    k < |states| && states[k].Some? && states[k].value.source == source
  }

  /** A press activates at most one fork, and that one was idle. */
  lemma PressActivatesIdle(forks: seq<Fork>, e: Engine, source: Source, key: KeyAction, env: Env)
    requires |forks| <= |e.states|
    ensures var path, states := PressChain(forks, e, key, env).path, AfterPress(forks, e, source, key, env).states;
      && Distinct(path, |forks|) && |states| == |e.states|
      && (forall k :: 0 <= k < |states| && e.states[k].Some? ==> states[k] == e.states[k])
      && (forall k :: 0 <= k < |states| && states[k] != e.states[k] ==> Owns(states, source, k) && path != [] && k == path[0])
  {
  }

  lemma ReleaseClears(e: Engine, source: Source)
    ensures var states := AfterRelease(e, source).states;
      && |states| == |e.states|
      && (forall k :: !Owns(states, source, k))
      && (forall k :: 0 <= k < |states| ==> states[k] == if Owns(e.states, source, k) then None else e.states[k])
  {
    ClearAt(e.states, source);
  }

  lemma {:induction false} FindActiveNone(states: States, source: Source)
    requires forall k: nat :: !Owns(states, source, k)
    ensures FindActive(states, source) == None
  {
    if states != [] {
      assert !Owns(states, source, 0);
      forall k: nat
        ensures !Owns(states[1..], source, k)
      {
        assert !Owns(states, source, k + 1);
      }
      FindActiveNone(states[1..], source);
    }
  }

  lemma {:induction false} FindActiveOnly(states: States, source: Source, at: nat)
    requires Owns(states, source, at) && forall k: nat :: Owns(states, source, k) ==> k == at
    ensures FindActive(states, source) == states[at]
  {
    if at > 0 {
      assert !Owns(states, source, 0);
      forall k: nat
        ensures Owns(states[1..], source, k) <==> Owns(states, source, k + 1)
      {
      }
      FindActiveOnly(states[1..], source, at - 1);
    }
  }

  // ----- Runs -----

  datatype Step =
    | KeyDown(source: Source, key: KeyAction, env: Env)
    | KeyUp(source: Source, key: KeyAction)
    | ModifierKept(mods: Mods)

  function Apply(forks: seq<Fork>, e: Engine, step: Step): (e': Engine)
    requires |forks| <= |e.states|
    ensures |e'.states| == |e.states|
  {
    match step
    case KeyDown(source, key, env) => AfterPress(forks, e, source, key, env)
    case KeyUp(source, _) => ReleaseClears(e, source); AfterRelease(e, source)
    case ModifierKept(mods) => e.(keepMask := e.keepMask + mods)
  }

  function Run(forks: seq<Fork>, e: Engine, steps: seq<Step>): (e': Engine)
    requires |forks| <= |e.states|
    ensures |e'.states| == |e.states|
    decreases steps
  {
    if steps == [] then e else Run(forks, Apply(forks, e, steps[0]), steps[1..])
  }

  /** The step is not an event of `source`. */
  predicate Other(step: Step, source: Source) {
    step.ModifierKept? || step.source != source
  }

  /** Events of other sources leave a source's active forks alone. */
  lemma OtherKeeps(forks: seq<Fork>, e: Engine, step: Step, source: Source, k: nat)
    requires |forks| <= |e.states| && Other(step, source)
    ensures Owns(Apply(forks, e, step).states, source, k) <==> Owns(e.states, source, k)
    ensures Owns(e.states, source, k) ==> Apply(forks, e, step).states[k] == e.states[k]
  {
    match step {
      case KeyDown(s, key, env) => PressActivatesIdle(forks, e, s, key, env);
      case KeyUp(s, _) => ReleaseClears(e, s);
      case ModifierKept(_) =>
    }
  }

  lemma {:induction false} OthersKeep(forks: seq<Fork>, e: Engine, steps: seq<Step>, source: Source, k: nat)
    requires |forks| <= |e.states| && forall i :: 0 <= i < |steps| ==> Other(steps[i], source)
    ensures Owns(Run(forks, e, steps).states, source, k) <==> Owns(e.states, source, k)
    ensures Owns(e.states, source, k) ==> Run(forks, e, steps).states[k] == e.states[k]
    decreases steps
  {
    if steps != [] {
      OtherKeeps(forks, e, steps[0], source, k);
      OthersKeep(forks, Apply(forks, e, steps[0]), steps[1..], source, k);
    }
  }

  /**
   The release gets the replacement its press chose, whatever other keys,
   modifiers, LEDs or layers did in between; with no fork it gets its own action.
   */
  lemma ReleaseGetsPressChoice(
    forks: seq<Fork>, e: Engine, source: Source, key: KeyAction, env: Env, middle: seq<Step>, upKey: KeyAction)
    requires |forks| <= |e.states| && forall k: nat :: !Owns(e.states, source, k)
    requires forall i :: 0 <= i < |middle| ==> Other(middle[i], source)
    ensures var later := Run(forks, AfterPress(forks, e, source, key, env), middle);
      ReleaseAction(later, source, upKey) ==
        if PressChain(forks, e, key, env).path == [] then upKey else PressAction(forks, e, key, env)
  {
    var c := PressChain(forks, e, key, env);
    var pressed := AfterPress(forks, e, source, key, env);
    var later := Run(forks, pressed, middle);
    PressActivatesIdle(forks, e, source, key, env);
    forall k: nat
      ensures Owns(later.states, source, k) <==> c.path != [] && k == c.path[0]
    {
      OthersKeep(forks, pressed, middle, source, k);
      assert !Owns(e.states, source, k);
    }
    if c.path == [] {
      FindActiveNone(later.states, source);
    } else {
      OthersKeep(forks, pressed, middle, source, c.path[0]);
      FindActiveOnly(later.states, source, c.path[0]);
    }
  }

  /** The source's latest event is a press. */
  predicate IsDown(steps: seq<Step>, source: Source)
    decreases steps
  {
    steps != [] &&
    var last := steps[|steps| - 1];
    if Other(last, source) then IsDown(steps[..|steps| - 1], source) else last.KeyDown?
  }

  lemma {:induction false} RunSnoc(forks: seq<Fork>, e: Engine, steps: seq<Step>, step: Step)
    requires |forks| <= |e.states|
    ensures Run(forks, e, steps + [step]) == Apply(forks, Run(forks, e, steps), step)
    decreases steps
  {
    if steps == [] {
      assert (steps + [step])[1..] == [];
    } else {
      assert (steps + [step])[1..] == steps[1..] + [step];
      RunSnoc(forks, Apply(forks, e, steps[0]), steps[1..], step);
    }
  }

  const IDLE_MASK: Mods := {}

  function Idle(n: nat): Engine {
    Engine(seq(n, _ => None), IDLE_MASK)
  }

  /** Between a release and the next press a source owns no active fork. */
  lemma {:induction false} UpOwnsNothing(forks: seq<Fork>, n: nat, steps: seq<Step>, source: Source, k: nat)
    requires |forks| <= n && !IsDown(steps, source)
    ensures !Owns(Run(forks, Idle(n), steps).states, source, k)
    decreases steps
  {
    if steps != [] {
      var front, last := steps[..|steps| - 1], steps[|steps| - 1];
      assert steps == front + [last];
      RunSnoc(forks, Idle(n), front, last);
      var e := Run(forks, Idle(n), front);
      if Other(last, source) {
        UpOwnsNothing(forks, n, front, source, k);
        OtherKeeps(forks, e, last, source, k);
      } else {
        ReleaseClears(e, source);
      }
    }
  }

  /**
   Over every run: a press of a source that is up, anything by other sources,
   then its release. The release gets the press's replacement.
   */
  lemma PressReleasePair(
    forks: seq<Fork>, n: nat, before: seq<Step>, source: Source, key: KeyAction, env: Env,
    middle: seq<Step>, upKey: KeyAction)
    requires |forks| <= n && !IsDown(before, source)
    requires forall i :: 0 <= i < |middle| ==> Other(middle[i], source)
    ensures var e := Run(forks, Idle(n), before);
      var later := Run(forks, Apply(forks, e, KeyDown(source, key, env)), middle);
      && ReleaseAction(later, source, upKey) ==
           (if PressChain(forks, e, key, env).path == [] then upKey else PressAction(forks, e, key, env))
      && forall k: nat :: !Owns(AfterRelease(later, source).states, source, k)
  {
    var e := Run(forks, Idle(n), before);
    forall k: nat {
      UpOwnsNothing(forks, n, before, source, k);
    }
    ReleaseGetsPressChoice(forks, e, source, key, env, middle, upKey);
    ReleaseClears(Run(forks, Apply(forks, e, KeyDown(source, key, env)), middle), source);
  }

  // ----- Suppressed modifiers -----

  /** Each suppressed modifier is suppressed by an active fork with an owner. */
  lemma {:induction false} SuppressionHasOwner(states: States, m: nat)
    ensures m in SuppressedBy(states) <==>
            exists k :: 0 <= k < |states| && states[k].Some? && m in states[k].value.suppress
  {
    if states != [] {
      SuppressionHasOwner(states[1..], m);
      if k :| 0 <= k < |states[1..]| && states[1..][k].Some? && m in states[1..][k].value.suppress {
        assert states[k + 1] == states[1..][k];
      }
      if k :| 0 <= k < |states| && states[k].Some? && m in states[k].value.suppress {
        assert k > 0 ==> states[1..][k - 1] == states[k];
      }
    }
  }

  /** The explicit modifiers that are reported while these forks are active. */
  function Reported(held: Mods, e: Engine): Mods {
    held - (SuppressedBy(e.states) - e.keepMask)
  }

  const LEFT_SHIFT: nat := 1

  /** Fork suppression does not reach the modifiers that keycode entries carry, nor caps word's shift. */
  function Resolved(registered: seq<RegisteredKey>, explicit: Mods, capsShift: bool, e: Engine): Mods {
    Reported(explicit, e) + KeycodeMods(registered) + (if capsShift then {LEFT_SHIFT} else {})
  }

  ghost predicate SuppressedByFork(e: Engine, m: nat, k: nat) {
    k < |e.states| && e.states[k].Some? && m in e.states[k].value.suppress
  }

  /**
   Why a modifier is in the report: the newest key carries it, caps word adds
   it, or it is held or one-shot and no active fork suppresses it, unless it
   was pressed since.
   */
  lemma ResolvedExact(t: Table, oneShot: Mods, capsShift: bool, e: Engine, m: nat)
    requires Inv(t)
    ensures m in Resolved(t.registered, HeldMods(t.registered) + oneShot, capsShift, e) <==>
            m in LastMods(t.registered) || (capsShift && m == LEFT_SHIFT) ||
            ((m in oneShot || exists k :: k in t.registered && k.keycode == NO && m in k.mods) &&
             (m in e.keepMask || forall k: nat :: !SuppressedByFork(e, m, k)))
  {
    KeycodeModsAreLast(t);
    HeldModsExact(t.registered, m);
    SuppressionHasOwner(e.states, m);
    if k: nat :| SuppressedByFork(e, m, k) {
      assert m in SuppressedBy(e.states);
    } else if m in SuppressedBy(e.states) {
      var k :| 0 <= k < |e.states| && e.states[k].Some? && m in e.states[k].value.suppress;
      assert SuppressedByFork(e, m, k);
    }
  }

  /** The release brings back `m`: only the source's forks suppressed it, and nothing else reports it. */
  ghost predicate BroughtBack(registered: seq<RegisteredKey>, explicit: Mods, e: Engine, source: Source, m: nat) {
    && m in explicit && m !in KeycodeMods(registered) && m !in e.keepMask
    && m in SuppressedBy(e.states) && m !in SuppressedBy(Clear(e.states, source))
  }

  /** Exactly when the end of a fork changes the report, and that it only ever adds modifiers. */
  lemma ReleaseChangesIff(registered: seq<RegisteredKey>, explicit: Mods, e: Engine, source: Source)
    ensures Resolved(registered, explicit, false, AfterRelease(e, source)) != Resolved(registered, explicit, false, e) <==>
            exists m :: BroughtBack(registered, explicit, e, source, m)
    ensures Resolved(registered, explicit, false, e) <= Resolved(registered, explicit, false, AfterRelease(e, source))
  {
    var before, after := Resolved(registered, explicit, false, e), Resolved(registered, explicit, false, AfterRelease(e, source));
    forall m
      ensures m in SuppressedBy(Clear(e.states, source)) ==> m in SuppressedBy(e.states)
    {
      ClearSuppressesLess(e.states, source, m);
    }
    forall m
      ensures BroughtBack(registered, explicit, e, source, m) <==> m in after && m !in before
    {
    }
    assert before <= after;
    if before != after {
      assert !(after <= before);
      var m :| m in after && m !in before;
      assert BroughtBack(registered, explicit, e, source, m);
    }
  }

  lemma ClearSuppressesLess(states: States, source: Source, m: nat)
    ensures m in SuppressedBy(Clear(states, source)) ==> m in SuppressedBy(states)
  {
    ClearAt(states, source);
    SuppressionHasOwner(states, m);
    SuppressionHasOwner(Clear(states, source), m);
  }

  /**
   After a source's release, a held modifier still missing from the report is
   one that another source's fork suppresses.
   */
  lemma ReleasedSuppressesNothing(e: Engine, source: Source, held: Mods, m: nat)
    requires m in held && m !in Reported(held, AfterRelease(e, source))
    ensures exists k :: 0 <= k < |e.states| && e.states[k].Some? && m in e.states[k].value.suppress
                        && e.states[k].value.source != source
  {
    var states := AfterRelease(e, source).states;
    SuppressionHasOwner(states, m);
    ReleaseClears(e, source);
    var k :| 0 <= k < |states| && states[k].Some? && m in states[k].value.suppress;
    assert !Owns(states, source, k) && states[k] == e.states[k];
  }

  /** The chain's suppression is empty when no fork fired. */
  lemma {:induction false} NoForkNoSuppression(forks: seq<Fork>, e: Engine, key: KeyAction, env: Env)
    requires |forks| <= |e.states| && PressChain(forks, e, key, env).path == []
    ensures PressChain(forks, e, key, env) == Chain(key, [], {}, e.keepMask, env.bits)
  {
    var c := Chain(key, [], {}, e.keepMask, env.bits);
    FollowStep(forks, e.states, env.layer, c, NextFork(forks, e.states, Used(c.path), env.layer, env.bits, key, 0));
  }

  /** What a press is told to drop is held before it and no longer reported after it. */
  lemma DroppedLeaveReport(forks: seq<Fork>, e: Engine, source: Source, key: KeyAction, env: Env, held: Mods, m: nat)
    requires |forks| <= |e.states|
    requires var c := PressChain(forks, e, key, env);
      m in held * c.suppress - c.keepMask - Readded(c.replacement)
    ensures m in held && m !in Reported(held, AfterPress(forks, e, source, key, env))
  {
    var c := PressChain(forks, e, key, env);
    if c.path == [] {
      NoForkNoSuppression(forks, e, key, env);
      assert false;
    }
    var states := AfterPress(forks, e, source, key, env).states;
    SuppressionHasOwner(states, m);
    assert states[c.path[0]].Some? && m in states[c.path[0]].value.suppress;
  }
}

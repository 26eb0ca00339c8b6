/**
 Layer resolution with a per-key layer cache: a press searches the active layers
 from the top, remembers the layer it found, and its release resolves there,
 whatever layers were switched in between.
 */
module LayerCache {
  import opened Wrappers
  import opened Arithmetic
  import opened KeyTable
  import opened Forks

  const GESTURES: nat := 3

  /** Encoder directions, as the source numbers them; 2 means no turn. */
  const CLOCKWISE: nat := 0
  const COUNTER_CLOCKWISE: nat := 1

  datatype EncoderAction = EncoderAction(clockwise: KeyAction, counterClockwise: KeyAction)

  /** The keymap itself: dimensions and the flat tables of actions. */
  datatype Grid = Grid(
    rows: nat, cols: nat, numLayers: nat, numEncoders: nat, numTouchpads: nat,
    keys: seq<KeyAction>, encoders: seq<EncoderAction>, touchpads: seq<seq<KeyAction>>, tri: Option<(nat, nat, nat)>)

  predicate ValidGrid(g: Grid) {
    && |g.keys| == g.numLayers * g.rows * g.cols
    && |g.encoders| == g.numLayers * g.numEncoders
    && |g.touchpads| == g.numLayers * g.numTouchpads
    && (forall i :: 0 <= i < |g.touchpads| ==> |g.touchpads[i]| == GESTURES)
    && g.numLayers <= 256
    && (g.tri.Some? ==> g.tri.value.0 < g.numLayers && g.tri.value.1 < g.numLayers && g.tri.value.2 < g.numLayers)
  }

  /** What changes: active layers, the default layer, and the three caches. */
  datatype State = State(active: seq<bool>, default: nat, keyCache: seq<nat>, encoderCache: seq<nat>, touchCache: seq<nat>)

  predicate ValidState(g: Grid, s: State) {
    && |s.active| == g.numLayers && |s.keyCache| == g.rows * g.cols
    && |s.encoderCache| == g.numEncoders * 2 && |s.touchCache| == g.numTouchpads * GESTURES
    && s.default < 256
  }

  datatype KeyEvent = KeyEvent(source: Source, pressed: bool)

  // ----- Actions and cache cells -----

  lemma LayerIndexInRange(g: Grid, layer: nat, row: nat, col: nat, i: int)
    requires ValidGrid(g) && layer < g.numLayers && row < g.rows && col < g.cols
    requires i == layer * g.rows * g.cols + row * g.cols + col
    ensures 0 <= i < |g.keys|
  {
    FlatIndexInRange(row, col, g.rows, g.cols);
    FlatIndexInRange(layer, row * g.cols + col, g.numLayers, g.rows * g.cols);
    MulAssociative(layer, g.rows, g.cols);
    MulAssociative(g.numLayers, g.rows, g.cols);
  }

  function KeyActionAt(g: Grid, row: nat, col: nat, layer: nat): KeyAction
    requires ValidGrid(g)
  {
    if row >= g.rows || col >= g.cols || layer >= g.numLayers then NoAction
    else
      var i := layer * g.rows * g.cols + row * g.cols + col;
      LayerIndexInRange(g, layer, row, col, i);
      g.keys[i]
  }

  function TouchActionAt(g: Grid, id: nat, gesture: nat, layer: nat): KeyAction
    requires ValidGrid(g)
  {
    if id >= g.numTouchpads || layer >= g.numLayers || gesture >= GESTURES then NoAction
    else
      FlatIndexInRange(layer, id, g.numLayers, g.numTouchpads);
      g.touchpads[layer * g.numTouchpads + id][gesture]
  }

  /** The action bound to a source on a layer; `No` when the position does not exist. */
  function ActionAt(g: Grid, source: Source, layer: nat): KeyAction
    requires ValidGrid(g)
  {
    match source
    case Key(row, col) => KeyActionAt(g, row, col, layer)
    case RotaryEncoder(id, direction) =>
      var i := layer * g.numEncoders + id;
      if (direction == CLOCKWISE || direction == COUNTER_CLOCKWISE) && i < |g.encoders| then
        if direction == CLOCKWISE then g.encoders[i].clockwise else g.encoders[i].counterClockwise
      else NoAction
    case Touch(id, gesture) => TouchActionAt(g, id, gesture, layer)
    case _ => NoAction
  }

  datatype Cell = KeyCell(i: nat) | EncoderCell(i: nat) | TouchCell(i: nat) | NoCell

  /** The cache cell of a source. The index is taken without checking row against column. */
  function CellOf(g: Grid, source: Source): Cell {
    match source
    case Key(row, col) =>
      if row * g.cols + col < g.rows * g.cols then KeyCell(row * g.cols + col) else NoCell
    case RotaryEncoder(id, direction) =>
      if (direction == CLOCKWISE || direction == COUNTER_CLOCKWISE) && id * 2 + direction < g.numEncoders * 2
      then EncoderCell(id * 2 + direction) else NoCell
    case Touch(id, gesture) =>
      if id * GESTURES + gesture < g.numTouchpads * GESTURES then TouchCell(id * GESTURES + gesture) else NoCell
    case _ => NoCell
  }

  predicate CellIn(g: Grid, cell: Cell) {
    match cell
    case KeyCell(i) => i < g.rows * g.cols
    case EncoderCell(i) => i < g.numEncoders * 2
    case TouchCell(i) => i < g.numTouchpads * GESTURES
    case NoCell => false
  }

  function Read(g: Grid, s: State, cell: Cell): nat
    requires ValidState(g, s) && CellIn(g, cell)
  {
    match cell
    case KeyCell(i) => s.keyCache[i]
    case EncoderCell(i) => s.encoderCache[i]
    case TouchCell(i) => s.touchCache[i]
  }

  function Write(g: Grid, s: State, cell: Cell, layer: nat): State
    requires ValidState(g, s)
  {
    if !CellIn(g, cell) then s
    else
      match cell
      case KeyCell(i) => s.(keyCache := s.keyCache[i := layer])
      case EncoderCell(i) => s.(encoderCache := s.encoderCache[i := layer])
      case TouchCell(i) => s.(touchCache := s.touchCache[i := layer])
  }

  // ----- Resolution -----

  predicate OnLayer(s: State, layer: nat)
    requires layer < |s.active|
  {
    s.active[layer] || layer == s.default
  }

  /** The topmost layer below `n` that is active or default and not transparent here. */
  function TopLayer(g: Grid, s: State, source: Source, n: nat): Option<nat>
    requires ValidGrid(g) && n <= |s.active|
  {
    if n == 0 then None
    else if OnLayer(s, n - 1) && ActionAt(g, source, n - 1) != Transparent then Some(n - 1)
    else TopLayer(g, s, source, n - 1)
  }

  function Resolve(g: Grid, s: State, ev: KeyEvent): (KeyAction, State)
    requires ValidGrid(g) && ValidState(g, s)
  {
    var cell := CellOf(g, ev.source);
    if !ev.pressed then
      (ActionAt(g, ev.source, if CellIn(g, cell) then Read(g, s, cell) else s.default), Write(g, s, cell, s.default))
    else
      match TopLayer(g, s, ev.source, g.numLayers)
      case Some(layer) => (ActionAt(g, ev.source, layer), Write(g, s, cell, layer))
      case None => (NoAction, Write(g, s, cell, s.default))
  }

  /** The top active-or-default layer, or the default one. */
  function ActivatedLayer(s: State, n: nat): nat
    requires n <= |s.active|
  {
    if n == 0 then s.default
    else if OnLayer(s, n - 1) then n - 1 else ActivatedLayer(s, n - 1)
  }

  function TriState(g: Grid, active: seq<bool>): (r: seq<bool>)
    requires ValidGrid(g) && |active| == g.numLayers
    ensures |r| == |active|
  {
    match g.tri
    case None => active
    case Some((a, b, c)) => active[c := active[a] && active[b]]
  }

  datatype LayerOp = Activate(layer: nat) | Deactivate(layer: nat) | Toggle(layer: nat) | SetDefault(layer: nat) | FnUpdate

  function Switch(g: Grid, s: State, op: LayerOp): State
    requires ValidGrid(g) && ValidState(g, s)
  {
    match op
    case Activate(n) => if n >= g.numLayers then s else s.(active := TriState(g, s.active[n := true]))
    case Deactivate(n) => if n >= g.numLayers then s else s.(active := TriState(g, s.active[n := false]))
    case Toggle(n) => if n >= g.numLayers then s else s.(active := TriState(g, s.active[n := !s.active[n]]))
    case SetDefault(n) => if n >= g.numLayers then s else s.(default := n)
    case FnUpdate => if g.numLayers > 3 then s.(active := s.active[3 := s.active[1] && s.active[2]]) else s
  }

  // ----- The implementation -----

  method Replace(cache: array<nat>, i: nat, layer: nat) returns (was: nat)
    requires i < cache.Length
    modifies cache
    ensures was == old(cache[i]) && cache[..] == old(cache[..])[i := layer]
  {
    was := cache[i];
    cache[i] := layer;
  }

  class KeyMap {
    const g: Grid
    var active: array<bool>
    var default: nat
    var keyCache: array<nat>
    var encoderCache: array<nat>
    var touchCache: array<nat>

    ghost function View(): State
      reads this, active, keyCache, encoderCache, touchCache
    {
      State(active[..], default, keyCache[..], encoderCache[..], touchCache[..])
    }

    ghost predicate Valid()
      reads this, active, keyCache, encoderCache, touchCache
    {
      ValidGrid(g) && ValidState(g, View())
      && keyCache != encoderCache && keyCache != touchCache && encoderCache != touchCache
    }

    constructor (g: Grid, default: nat)
      requires ValidGrid(g) && default < 256
      ensures Valid() && this.g == g && View() == Start(g, default)
    {
      this.g := g;
      this.default := default;
      active := new bool[g.numLayers](_ => false);
      keyCache := new nat[g.rows * g.cols](_ => 0);
      encoderCache := new nat[g.numEncoders * 2](_ => 0);
      touchCache := new nat[g.numTouchpads * GESTURES](_ => 0);
      new;
      assert active[..] == Start(g, default).active && keyCache[..] == Start(g, default).keyCache;
      assert encoderCache[..] == Start(g, default).encoderCache && touchCache[..] == Start(g, default).touchCache;
    }

    /** Put `layer` into the source's cell and hand back what was there, or the default layer. */
    method ReplaceLayerCache(source: Source, layer: nat) returns (was: nat)
      requires Valid()
      modifies keyCache, encoderCache, touchCache
      ensures Valid() && View() == Write(g, old(View()), CellOf(g, source), layer)
      ensures was == if CellIn(g, CellOf(g, source)) then Read(g, old(View()), CellOf(g, source)) else default
    {
      was := default;
      match source {
        case Key(row, col) =>
          var i := row * g.cols + col;
          if i < keyCache.Length {
            was := Replace(keyCache, i, layer);
          }
        case RotaryEncoder(id, direction) =>
          var i := id * 2 + direction;
          if (direction == CLOCKWISE || direction == COUNTER_CLOCKWISE) && i < encoderCache.Length {
            was := Replace(encoderCache, i, layer);
          }
        case Touch(id, gesture) =>
          var i := id * GESTURES + gesture;
          if i < touchCache.Length {
            was := Replace(touchCache, i, layer);
          }
        case _ =>
      }
    }

    /** The search stops early at the default layer, but only where it has already found it. */
    method GetAction(ev: KeyEvent) returns (action: KeyAction)
      requires Valid()
      modifies keyCache, encoderCache, touchCache
      ensures Valid() && (action, View()) == Resolve(g, old(View()), ev)
    {
      if !ev.pressed {
        var layer := ReplaceLayerCache(ev.source, default);
        return ActionAt(g, ev.source, layer);
      }
      var n: nat := g.numLayers;
      while n > 0
        invariant n <= g.numLayers && Valid() && View() == old(View())
        invariant TopLayer(g, View(), ev.source, g.numLayers) == TopLayer(g, View(), ev.source, n)
      {
        n := n - 1;
        if active[n] || n == default {
          action := ActionAt(g, ev.source, n);
          if action == Transparent {
            continue;
          }
          var _ := ReplaceLayerCache(ev.source, n);
          return;
        }
        if n == default {
          break;
        }
      }
      var _ := ReplaceLayerCache(ev.source, default);
      action := NoAction;
    }

    method GetActivatedLayer() returns (layer: nat)
      requires Valid()
      ensures layer == ActivatedLayer(View(), g.numLayers)
    {
      var n: nat := g.numLayers;
      while n > 0
        invariant n <= g.numLayers
        invariant ActivatedLayer(View(), g.numLayers) == ActivatedLayer(View(), n)
      {
        n := n - 1;
        if active[n] || n == default {
          return n;
        }
      }
      layer := default;
    }

    method UpdateTriLayer()
      requires Valid()
      modifies active
      ensures Valid() && View() == old(View()).(active := TriState(g, old(active[..])))
    {
      if g.tri.Some? {
        var (a, b, c) := g.tri.value;
        active[c] := active[a] && active[b];
      }
    }

    method ActivateLayer(n: nat)
      requires Valid()
      modifies active
      ensures Valid() && View() == Switch(g, old(View()), Activate(n))
    {
      if n < g.numLayers {
        active[n] := true;
        UpdateTriLayer();
      }
    }

    method DeactivateLayer(n: nat)
      requires Valid()
      modifies active
      ensures Valid() && View() == Switch(g, old(View()), Deactivate(n))
    {
      if n < g.numLayers {
        active[n] := false;
        UpdateTriLayer();
      }
    }

    method ToggleLayer(n: nat)
      requires Valid()
      modifies active
      ensures Valid() && View() == Switch(g, old(View()), Toggle(n))
    {
      if n < g.numLayers {
        active[n] := !active[n];
        UpdateTriLayer();
      }
    }

    method SetDefaultLayer(n: nat)
      requires Valid()
      modifies this`default
      ensures Valid() && View() == Switch(g, old(View()), SetDefault(n))
    {
      if n < g.numLayers {
        default := n;
      }
    }

    method UpdateFnLayer()
      requires Valid()
      modifies active
      ensures Valid() && View() == Switch(g, old(View()), FnUpdate)
    {
      if g.numLayers > 3 {
        active[3] := active[1] && active[2];
      }
    }
  }

  function Start(g: Grid, default: nat): State {
    State(seq(g.numLayers, _ => false), default, seq(g.rows * g.cols, _ => 0), seq(g.numEncoders * 2, _ => 0),
          seq(g.numTouchpads * GESTURES, _ => 0))
  }

  // ----- What a press finds -----

  /** The search covers every layer: what it returns is the highest candidate, and it misses none. */
  lemma {:induction false} TopLayerExact(g: Grid, s: State, source: Source, n: nat)
    requires ValidGrid(g) && n <= |s.active|
    ensures var r := TopLayer(g, s, source, n);
      match r
      case Some(top) =>
        && top < n && OnLayer(s, top) && ActionAt(g, source, top) != Transparent
        && forall l :: top < l < n && OnLayer(s, l) ==> ActionAt(g, source, l) == Transparent
      case None => forall l :: 0 <= l < n && OnLayer(s, l) ==> ActionAt(g, source, l) == Transparent
  {
    if n > 0 {
      TopLayerExact(g, s, source, n - 1);
    }
  }

  /** The activated layer is the highest one that is active or default, or else the default one. */
  lemma {:induction false} ActivatedExact(s: State, n: nat)
    requires n <= |s.active|
    ensures forall l :: 0 <= l < n && OnLayer(s, l) ==> l <= ActivatedLayer(s, n) < n && OnLayer(s, ActivatedLayer(s, n))
    ensures (forall l :: 0 <= l < n ==> !OnLayer(s, l)) ==> ActivatedLayer(s, n) == s.default
  {
    if n > 0 {
      ActivatedExact(s, n - 1);
    }
  }

  /** The value a layer operation gives to its own layer. */
  predicate TurnsOn(s: State, op: LayerOp)
    requires !op.SetDefault? && !op.FnUpdate? && op.layer < |s.active|
  {
    op.Activate? || (op.Toggle? && !s.active[op.layer])
  }

  /** Switching a layer sets that layer and derives the tri-layer; every other layer and the default one stay. */
  lemma SwitchExact(g: Grid, s: State, op: LayerOp, l: nat)
    requires ValidGrid(g) && ValidState(g, s) && !op.SetDefault? && !op.FnUpdate?
    requires op.layer < g.numLayers && l < g.numLayers
    ensures Switch(g, s, op).default == s.default
    ensures var on := (k: nat) requires k < |s.active| => if k == op.layer then TurnsOn(s, op) else s.active[k];
      Switch(g, s, op).active[l] ==
        if g.tri.Some? && l == g.tri.value.2 then on(g.tri.value.0) && on(g.tri.value.1) else on(l)
  {
  }

  /** A valid default layer replaces the old one; the fn update derives layer 3 from layers 1 and 2; an invalid layer changes nothing. */
  lemma OtherSwitches(g: Grid, s: State, op: LayerOp, l: nat)
    requires ValidGrid(g) && ValidState(g, s) && l < g.numLayers
    ensures !op.FnUpdate? && op.layer >= g.numLayers ==> Switch(g, s, op) == s
    ensures op.SetDefault? && op.layer < g.numLayers ==> Switch(g, s, op) == s.(default := op.layer)
    ensures op.FnUpdate? ==> Switch(g, s, op).default == s.default
    ensures op.FnUpdate? ==> (Switch(g, s, op).active[l] <==> if l == 3 then s.active[1] && s.active[2] else s.active[l])
  {
  }

  // ----- Runs -----

  datatype Step = KeyStep(ev: KeyEvent) | LayerStep(op: LayerOp)

  function Apply(g: Grid, s: State, step: Step): (s': State)
    requires ValidGrid(g) && ValidState(g, s)
    ensures ValidState(g, s')
  {
    match step
    case KeyStep(ev) => Resolve(g, s, ev).1
    case LayerStep(op) => Switch(g, s, op)
  }

  function Run(g: Grid, s: State, steps: seq<Step>): (s': State)
    requires ValidGrid(g) && ValidState(g, s)
    ensures ValidState(g, s')
    decreases steps
  {
    if steps == [] then s else Run(g, Apply(g, s, steps[0]), steps[1..])
  }

  /** The position exists on this keyboard. */
  predicate InRange(g: Grid, source: Source) {
    match source
    case Key(row, col) => row < g.rows && col < g.cols
    case RotaryEncoder(id, direction) => id < g.numEncoders && (direction == CLOCKWISE || direction == COUNTER_CLOCKWISE)
    case Touch(id, gesture) => id < g.numTouchpads && gesture < GESTURES
    case _ => false
  }

  /** Positions that exist have cells of their own. */
  lemma CellsDistinct(g: Grid, a: Source, b: Source)
    requires InRange(g, a) && InRange(g, b)
    ensures CellIn(g, CellOf(g, a))
    ensures CellOf(g, a) == CellOf(g, b) ==> a == b
  {
    match a {
      case Key(row, col) =>
        FlatIndexInRange(row, col, g.rows, g.cols);
        if b.Key? && CellOf(g, a) == CellOf(g, b) {
          FlatIndexInRange(b.row, b.col, g.rows, g.cols);
          FlatIndexInjective(row, col, b.row, b.col, g.cols);
        }
      case _ =>
    }
  }

  /** The step leaves the cell alone: a layer change, or an event of a source with another cell. */
  predicate Leaves(g: Grid, step: Step, cell: Cell) {
    step.LayerStep? || CellOf(g, step.ev.source) != cell
  }

  lemma {:induction false} CellKept(g: Grid, s: State, steps: seq<Step>, cell: Cell)
    requires ValidGrid(g) && ValidState(g, s) && CellIn(g, cell)
    requires forall i :: 0 <= i < |steps| ==> Leaves(g, steps[i], cell)
    ensures Read(g, Run(g, s, steps), cell) == Read(g, s, cell)
    decreases steps
  {
    if steps != [] {
      assert Leaves(g, steps[0], cell);
      CellKept(g, Apply(g, s, steps[0]), steps[1..], cell);
    }
  }

  /** The layer a press remembers. */
  function PressLayer(g: Grid, s: State, source: Source): nat
    requires ValidGrid(g) && ValidState(g, s)
  {
    match TopLayer(g, s, source, g.numLayers)
    case Some(layer) => layer
    case None => s.default
  }

  lemma ReleaseReadsCell(g: Grid, s: State, source: Source, steps: seq<Step>)
    requires ValidGrid(g) && ValidState(g, s) && CellIn(g, CellOf(g, source))
    requires forall i :: 0 <= i < |steps| ==> Leaves(g, steps[i], CellOf(g, source))
    ensures var pressed := Resolve(g, s, KeyEvent(source, true));
      var later := Run(g, pressed.1, steps);
      Resolve(g, later, KeyEvent(source, false)).0 == ActionAt(g, source, PressLayer(g, s, source))
  {
    CellKept(g, Resolve(g, s, KeyEvent(source, true)).1, steps, CellOf(g, source));
  }

  /**
   Whatever layers are switched and whatever other keys do between a press and
   its release, the release resolves on the layer the press used. If the press
   found no layer at all, that is the default layer of the time of the press.
   */
  lemma ReleaseOnPressLayer(g: Grid, s: State, source: Source, steps: seq<Step>)
    requires ValidGrid(g) && ValidState(g, s) && InRange(g, source)
    requires forall i :: 0 <= i < |steps| && steps[i].KeyStep? ==>
               InRange(g, steps[i].ev.source) && steps[i].ev.source != source
    ensures var pressed := Resolve(g, s, KeyEvent(source, true));
      var later := Run(g, pressed.1, steps);
      && Resolve(g, later, KeyEvent(source, false)).0 == ActionAt(g, source, PressLayer(g, s, source))
      && (TopLayer(g, s, source, g.numLayers).Some? ==>
            Resolve(g, later, KeyEvent(source, false)).0 == pressed.0)
      && (TopLayer(g, s, source, g.numLayers) == None ==>
            pressed.0 == NoAction && PressLayer(g, s, source) == s.default)
  {
    CellsDistinct(g, source, source);
    forall i | 0 <= i < |steps|
      ensures Leaves(g, steps[i], CellOf(g, source))
    {
      if steps[i].KeyStep? {
        CellsDistinct(g, steps[i].ev.source, source);
      }
    }
    ReleaseReadsCell(g, s, source, steps);
  }

  // ----- Shared cells -----

  lemma {:induction false} RunSplit(g: Grid, s: State, steps: seq<Step>, i: nat)
    requires ValidGrid(g) && ValidState(g, s) && i <= |steps|
    ensures Run(g, s, steps) == Run(g, Run(g, s, steps[..i]), steps[i..])
    decreases i
  {
    if i == 0 {
      assert steps[..0] == [] && steps[0..] == steps;
    } else {
      RunSplit(g, Apply(g, s, steps[0]), steps[1..], i - 1);
      assert steps[..i][1..] == steps[1..][..i - 1] && steps[1..][i - 1..] == steps[i..];
    }
  }

  /** The last step that is an event with this cell. */
  function LastSharer(g: Grid, steps: seq<Step>, cell: Cell): (r: Option<nat>)
    ensures r.None? ==> forall i :: 0 <= i < |steps| ==> Leaves(g, steps[i], cell)
    ensures r.Some? ==> r.value < |steps| && !Leaves(g, steps[r.value], cell)
    ensures r.Some? ==> forall i :: r.value < i < |steps| ==> Leaves(g, steps[i], cell)
  {
    if steps == [] then None
    else if !Leaves(g, steps[|steps| - 1], cell) then Some(|steps| - 1)
    else LastSharer(g, steps[..|steps| - 1], cell)
  }

  /** What an event leaves in its cell: a press the layer it found, a release the default layer. */
  function LayerLeft(g: Grid, s: State, ev: KeyEvent): nat
    requires ValidGrid(g) && ValidState(g, s)
  {
    if ev.pressed then PressLayer(g, s, ev.source) else s.default
  }

  lemma EventWrites(g: Grid, s: State, ev: KeyEvent)
    requires ValidGrid(g) && ValidState(g, s) && CellIn(g, CellOf(g, ev.source))
    ensures Read(g, Resolve(g, s, ev).1, CellOf(g, ev.source)) == LayerLeft(g, s, ev)
  {
  }

  /**
   The layer of a release, exactly, for every run after a state: the one left
   by the last event with the same cell, or what the cell held if there was none.
   */
  lemma CellAfterRun(g: Grid, s: State, steps: seq<Step>, cell: Cell)
    requires ValidGrid(g) && ValidState(g, s) && CellIn(g, cell)
    ensures Read(g, Run(g, s, steps), cell) ==
            match LastSharer(g, steps, cell)
            case None => Read(g, s, cell)
            case Some(i) => LayerLeft(g, Run(g, s, steps[..i]), steps[i].ev)
  {
    match LastSharer(g, steps, cell) {
      case None => CellKept(g, s, steps, cell);
      case Some(i) =>
        var before := Run(g, s, steps[..i]);
        RunSplit(g, s, steps, i);
        assert steps[i..][0] == steps[i] && steps[i..][1..] == steps[i + 1..];
        EventWrites(g, before, steps[i].ev);
        CellKept(g, Apply(g, before, steps[i]), steps[i + 1..], cell);
    }
  }

  /**
   The release after a press and any run: on the press's layer if no event
   shared the cell, and otherwise on the layer the last of them left there.
   */
  lemma ReleaseLayerExact(g: Grid, s: State, source: Source, steps: seq<Step>)
    requires ValidGrid(g) && ValidState(g, s) && CellIn(g, CellOf(g, source))
    ensures var pressed, sharer := Resolve(g, s, KeyEvent(source, true)).1, LastSharer(g, steps, CellOf(g, source));
      Resolve(g, Run(g, pressed, steps), KeyEvent(source, false)).0 ==
        ActionAt(g, source,
          match sharer
          case None => PressLayer(g, s, source)
          case Some(i) => LayerLeft(g, Run(g, pressed, steps[..i]), steps[i].ev))
  {
    EventWrites(g, s, KeyEvent(source, true));
    CellAfterRun(g, Resolve(g, s, KeyEvent(source, true)).1, steps, CellOf(g, source));
  }

  lemma KeyIndexSame(row: nat, col: nat, r: nat, c: nat, cols: nat)
    requires c < cols
    ensures row * cols + col == r * cols + c <==> row + col / cols == r && col % cols == c
  {
    Quotient(col, cols);
    MulDistributes(row, col / cols, cols);
    if row * cols + col == r * cols + c {
      FlatIndexInjective(row + col / cols, col % cols, r, c, cols);
    }
  }

  /** Which events share the cell of an existing key: those past the last column that wrap onto it. */
  lemma SharesCellIff(g: Grid, row: nat, col: nat, other: Source)
    requires InRange(g, Key(row, col)) && other != Key(row, col)
    ensures CellOf(g, other) == CellOf(g, Key(row, col)) <==>
            other.Key? && other.col >= g.cols && other.row + other.col / g.cols == row && other.col % g.cols == col
  {
    FlatIndexInRange(row, col, g.rows, g.cols);
    if other.Key? {
      KeyIndexSame(other.row, other.col, row, col, g.cols);
      if other.col < g.cols {
        FlatIndexInjective(0, other.col, other.col / g.cols, other.col % g.cols, g.cols);
      }
    }
  }

  /**
   In-range positions are needed: the cell index of a column past the last one
   wraps into the next row, so a stray event there redirects another key's release.
   */
  lemma OutOfRangeEventRedirects()
    ensures exists g, s ::
              && ValidGrid(g) && ValidState(g, s) && InRange(g, Key(1, 0)) && !InRange(g, Key(0, 1))
              && var pressed := Resolve(g, s, KeyEvent(Key(1, 0), true));
                 var stray := Resolve(g, Switch(g, pressed.1, Activate(1)), KeyEvent(Key(0, 1), true));
                 Resolve(g, stray.1, KeyEvent(Key(1, 0), false)).0 != pressed.0
  {
    var a, b := Single(Basic(1)), Single(Basic(2));
    var g := Grid(2, 1, 2, 0, 0, [a, a, b, b], [], [], None);
    var s := State([false, false], 0, [0, 0], [], []);
    assert ValidGrid(g) && ValidState(g, s);
    assert !OnLayer(s, 1) && TopLayer(g, s, Key(1, 0), 2) == TopLayer(g, s, Key(1, 0), 1) == Some(0);
    var pressed := Resolve(g, s, KeyEvent(Key(1, 0), true));
    assert ActionAt(g, Key(1, 0), 0) == g.keys[1] == a;
    assert CellOf(g, Key(1, 0)) == KeyCell(1);
    assert [0, 0][1 := 0] == [0, 0];
    assert pressed == (a, s);
    var s1 := Switch(g, s, Activate(1));
    assert s1 == s.(active := [false, true]);
    assert CellOf(g, Key(0, 1)) == KeyCell(1);
    assert TopLayer(g, s1, Key(0, 1), 2) == Some(1);
    var s2 := Resolve(g, s1, KeyEvent(Key(0, 1), true)).1;
    assert s2 == s1.(keyCache := [0, 1]);
    assert Resolve(g, s2, KeyEvent(Key(1, 0), false)).0 == b;
  }

  // ----- Tri-layer -----

  /** The third layer is on exactly when the first two are. */
  predicate TriCoherent(g: Grid, s: State)
    requires ValidGrid(g) && ValidState(g, s)
  {
    g.tri.Some? ==> s.active[g.tri.value.2] == (s.active[g.tri.value.0] && s.active[g.tri.value.1])
  }

  lemma KeysKeepLayers(g: Grid, s: State, ev: KeyEvent)
    requires ValidGrid(g) && ValidState(g, s)
    ensures Resolve(g, s, ev).1.active == s.active
  {
  }

  lemma SwitchTri(g: Grid, s: State, op: LayerOp)
    requires ValidGrid(g) && ValidState(g, s) && TriCoherent(g, s) && op != FnUpdate
    ensures TriCoherent(g, Switch(g, s, op))
  {
  }

  lemma TriStep(g: Grid, s: State, step: Step)
    requires ValidGrid(g) && ValidState(g, s) && TriCoherent(g, s) && step != LayerStep(FnUpdate)
    ensures TriCoherent(g, Apply(g, s, step))
  {
    match step {
      case KeyStep(ev) => KeysKeepLayers(g, s, ev);
      case LayerStep(op) => SwitchTri(g, s, op);
    }
  }

  /** The tri-layer relation survives every run, whichever layers the three are. */
  lemma {:induction false} TriHolds(g: Grid, s: State, steps: seq<Step>)
    requires ValidGrid(g) && ValidState(g, s) && TriCoherent(g, s)
    requires forall i :: 0 <= i < |steps| ==> steps[i] != LayerStep(FnUpdate)
    ensures TriCoherent(g, Run(g, s, steps))
    decreases steps
  {
    if steps != [] {
      assert steps[0] != LayerStep(FnUpdate);
      TriStep(g, s, steps[0]);
      TriHolds(g, Apply(g, s, steps[0]), steps[1..]);
    }
  }
}

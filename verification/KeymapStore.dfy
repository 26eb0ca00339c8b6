/**
 The keymap as it is edited: which entry a key or an encoder turn reads, what
 storing an action changes, and what each key gives after a whole keymap has
 been written.
 */
module KeymapStore {
  import opened Wrappers
  import opened Arithmetic
  import opened KeyTable
  import opened Forks
  import LayerCache
  import BulkWrite

  function PositionOf(layer: nat, row: nat, col: nat): BulkWrite.Position {
    BulkWrite.Position(layer, row, col)
  }

  /** The index of an existing key's action. */
  function IndexOf(g: LayerCache.Grid, layer: nat, row: nat, col: nat): nat {
    BulkWrite.FlatIndex(PositionOf(layer, row, col), g.rows, g.cols)
  }

  predicate KeyExists(g: LayerCache.Grid, layer: nat, row: nat, col: nat) {
    layer < g.numLayers && row < g.rows && col < g.cols
  }

  // ----- The order of the keymap -----

  /** The position after this one: along the row, then down the rows, then up the layers. */
  function Following(p: BulkWrite.Position, rows: nat, cols: nat): BulkWrite.Position {
    if p.col + 1 < cols then p.(col := p.col + 1)
    else if p.row + 1 < rows then p.(row := p.row + 1, col := 0)
    else BulkWrite.Position(p.layer + 1, 0, 0)
  }

  /** Flat indices count the positions in this order, from the first one on. */
  lemma FlatIndexCounts(p: BulkWrite.Position, rows: nat, cols: nat)
    requires p.row < rows && p.col < cols
    ensures BulkWrite.FlatIndex(BulkWrite.Position(0, 0, 0), rows, cols) == 0
    ensures BulkWrite.FlatIndex(Following(p, rows, cols), rows, cols) == BulkWrite.FlatIndex(p, rows, cols) + 1
  {
    assert 0 * rows == 0 && 0 * cols == 0;
    BulkWrite.FlatIndexOf(p, rows, cols);
    BulkWrite.FlatIndexOf(Following(p, rows, cols), rows, cols);
    if p.col + 1 == cols {
      MulDistributes(p.row, 1, cols);
      if p.row + 1 == rows {
        MulDistributes(p.layer, 1, rows * cols);
      }
    }
  }

  // ----- Reading -----

  /** A key reads the entry at its own flat index. */
  lemma KeyReads(g: LayerCache.Grid, layer: nat, row: nat, col: nat)
    requires LayerCache.ValidGrid(g) && KeyExists(g, layer, row, col)
    ensures IndexOf(g, layer, row, col) < |g.keys|
    ensures LayerCache.ActionAt(g, Key(row, col), layer) == g.keys[IndexOf(g, layer, row, col)]
  {
    LayerCache.LayerIndexInRange(g, layer, row, col, IndexOf(g, layer, row, col));
  }

  /** No two existing keys read the same entry. */
  lemma KeysDistinct(g: LayerCache.Grid, layer: nat, row: nat, col: nat, layer': nat, row': nat, col': nat)
    requires KeyExists(g, layer, row, col) && KeyExists(g, layer', row', col')
    requires IndexOf(g, layer, row, col) == IndexOf(g, layer', row', col')
    ensures layer == layer' && row == row' && col == col'
  {
    BulkWrite.FlatIndexOf(PositionOf(layer, row, col), g.rows, g.cols);
    BulkWrite.FlatIndexOf(PositionOf(layer', row', col'), g.rows, g.cols);
    ThreePartsInjective(layer, row, col, layer', row', col', g.rows, g.cols);
  }

  // ----- Storing -----

  /** Which turns an encoder has. */
  predicate Turns(direction: nat) {
    direction == LayerCache.CLOCKWISE || direction == LayerCache.COUNTER_CLOCKWISE
  }

  function SetHalf(e: LayerCache.EncoderAction, direction: nat, action: KeyAction): LayerCache.EncoderAction {
    if direction == LayerCache.CLOCKWISE then e.(clockwise := action)
    else if direction == LayerCache.COUNTER_CLOCKWISE then e.(counterClockwise := action)
    else e
  }

  /** Store an action; a position that does not exist changes nothing, and touch gestures are not stored so. */
  function SetAction(g: LayerCache.Grid, source: Source, layer: nat, action: KeyAction): LayerCache.Grid
    requires LayerCache.ValidGrid(g)
  {
    match source
    case Key(row, col) =>
      if !KeyExists(g, layer, row, col) then g
      else
        KeyReads(g, layer, row, col);
        g.(keys := g.keys[IndexOf(g, layer, row, col) := action])
    case RotaryEncoder(id, direction) =>
      var i := layer * g.numEncoders + id;
      if i >= |g.encoders| then g else g.(encoders := g.encoders[i := SetHalf(g.encoders[i], direction, action)])
    case _ => g
  }

  lemma SetKeyReads(g: LayerCache.Grid, row: nat, col: nat, layer: nat, action: KeyAction, other: Source, l: nat)
    requires LayerCache.ValidGrid(g) && KeyExists(g, layer, row, col)
    ensures LayerCache.ValidGrid(SetAction(g, Key(row, col), layer, action))
    ensures LayerCache.ActionAt(SetAction(g, Key(row, col), layer, action), other, l) ==
            if other == Key(row, col) && l == layer then action else LayerCache.ActionAt(g, other, l)
  {
    var g' := SetAction(g, Key(row, col), layer, action);
    KeyReads(g, layer, row, col);
    if other.Key? && KeyExists(g, l, other.row, other.col) {
      KeyReads(g, l, other.row, other.col);
      KeyReads(g', l, other.row, other.col);
      if IndexOf(g, l, other.row, other.col) == IndexOf(g, layer, row, col) {
        KeysDistinct(g, l, other.row, other.col, layer, row, col);
      }
    }
  }

  /** An encoder's turn reads its half of one entry. */
  lemma TurnReads(g: LayerCache.Grid, id: nat, direction: nat, l: nat, i: nat)
    requires LayerCache.ValidGrid(g) && i == l * g.numEncoders + id
    ensures LayerCache.ActionAt(g, RotaryEncoder(id, direction), l) ==
            if i < |g.encoders| && direction == 0 then g.encoders[i].clockwise
            else if i < |g.encoders| && direction == 1 then g.encoders[i].counterClockwise
            else NoAction
  {
  }

  /** Storing for the clockwise turn changes the clockwise half, for the other turn the other half. */
  lemma SetEncoderReads(g: LayerCache.Grid, id: nat, direction: nat, layer: nat, action: KeyAction, other: Source, l: nat)
    requires LayerCache.ValidGrid(g) && layer < g.numLayers && id < g.numEncoders && Turns(direction)
    requires other.RotaryEncoder? ==> other.id < g.numEncoders
    ensures LayerCache.ValidGrid(SetAction(g, RotaryEncoder(id, direction), layer, action))
    ensures LayerCache.ActionAt(SetAction(g, RotaryEncoder(id, direction), layer, action), other, l) ==
            if other == RotaryEncoder(id, direction) && l == layer then action else LayerCache.ActionAt(g, other, l)
  {
    var g' := SetAction(g, RotaryEncoder(id, direction), layer, action);
    var i := layer * g.numEncoders + id;
    FlatIndexInRange(layer, id, g.numLayers, g.numEncoders);
    SetHalfGrid(g, i, direction, action, g');
    if other.RotaryEncoder? {
      var j := l * g.numEncoders + other.id;
      TurnReads(g, other.id, other.direction, l, j);
      TurnReads(g', other.id, other.direction, l, j);
      if j == i {
        FlatIndexInjective(l, other.id, layer, id, g.numEncoders);
      }
    } else {
      OthersReadSame(g, g', other, l);
    }
  }

  lemma SetHalfGrid(g: LayerCache.Grid, i: nat, direction: nat, action: KeyAction, g': LayerCache.Grid)
    requires LayerCache.ValidGrid(g) && i < |g.encoders| && g' == g.(encoders := g'.encoders)
    requires g'.encoders == g.encoders[i := SetHalf(g.encoders[i], direction, action)]
    ensures LayerCache.ValidGrid(g')
    ensures forall j :: 0 <= j < |g.encoders| ==>
              g'.encoders[j] == if j == i then SetHalf(g.encoders[i], direction, action) else g.encoders[j]
  {
  }

  lemma OthersReadSame(g: LayerCache.Grid, g': LayerCache.Grid, other: Source, l: nat)
    requires LayerCache.ValidGrid(g) && LayerCache.ValidGrid(g') && g' == g.(encoders := g'.encoders)
    requires !other.RotaryEncoder?
    ensures LayerCache.ActionAt(g', other, l) == LayerCache.ActionAt(g, other, l)
  {
  }

  lemma EncoderReads(g: LayerCache.Grid, id: nat, layer: nat)
    requires LayerCache.ValidGrid(g) && layer < g.numLayers && id < g.numEncoders
    ensures layer * g.numEncoders + id < |g.encoders|
    ensures LayerCache.ActionAt(g, RotaryEncoder(id, 0), layer) == g.encoders[layer * g.numEncoders + id].clockwise
    ensures LayerCache.ActionAt(g, RotaryEncoder(id, 1), layer) == g.encoders[layer * g.numEncoders + id].counterClockwise
  {
    FlatIndexInRange(layer, id, g.numLayers, g.numEncoders);
  }

  lemma TouchReads(g: LayerCache.Grid, id: nat, gesture: nat, layer: nat)
    requires LayerCache.ValidGrid(g) && layer < g.numLayers && id < g.numTouchpads && gesture < 3
    ensures layer * g.numTouchpads + id < |g.touchpads|
    ensures |g.touchpads[layer * g.numTouchpads + id]| == 3
    ensures LayerCache.ActionAt(g, Touch(id, gesture), layer) == g.touchpads[layer * g.numTouchpads + id][gesture]
  {
    FlatIndexInRange(layer, id, g.numLayers, g.numTouchpads);
  }

  /** A press that resolves on the layer just edited gives the stored action. */
  lemma PressGivesStored(g: LayerCache.Grid, s: LayerCache.State, row: nat, col: nat, layer: nat, action: KeyAction)
    requires LayerCache.ValidGrid(g) && LayerCache.ValidState(g, s) && KeyExists(g, layer, row, col)
    requires action != Transparent && LayerCache.OnLayer(s, layer)
    requires forall l :: layer < l < g.numLayers && LayerCache.OnLayer(s, l) ==>
               LayerCache.ActionAt(g, Key(row, col), l) == Transparent
    ensures LayerCache.ValidGrid(SetAction(g, Key(row, col), layer, action))
    ensures LayerCache.Resolve(SetAction(g, Key(row, col), layer, action), s,
                               LayerCache.KeyEvent(Key(row, col), true)).0 == action
  {
    var source, g' := Key(row, col), SetAction(g, Key(row, col), layer, action);
    SetKeyReads(g, row, col, layer, action, source, layer);
    forall l | layer < l < g.numLayers && LayerCache.OnLayer(s, l)
      ensures LayerCache.ActionAt(g', source, l) == Transparent
    {
      SetKeyReads(g, row, col, layer, action, source, l);
    }
    TopIs(g', s, source, layer);
  }

  lemma TopIs(g: LayerCache.Grid, s: LayerCache.State, source: Source, layer: nat)
    requires LayerCache.ValidGrid(g) && LayerCache.ValidState(g, s) && layer < g.numLayers
    requires LayerCache.OnLayer(s, layer) && LayerCache.ActionAt(g, source, layer) != Transparent
    requires forall l :: layer < l < g.numLayers && LayerCache.OnLayer(s, l) ==>
               LayerCache.ActionAt(g, source, l) == Transparent
    ensures LayerCache.TopLayer(g, s, source, g.numLayers) == Some(layer)
  {
    LayerCache.TopLayerExact(g, s, source, g.numLayers);
  }

  // ----- A whole keymap -----

  /** After every page of a keymap has been stored, in any order, each key reads its own item. */
  lemma WrittenKeysRead(
    g: LayerCache.Grid, items: seq<KeyAction>, pages: seq<BulkWrite.Page<KeyAction>>, order: seq<nat>,
    fits: seq<KeyAction> -> bool, layer: nat, row: nat, col: nat)
    requires LayerCache.ValidGrid(g) && KeyExists(g, layer, row, col) && |items| == |g.keys|
    requires 0 < g.rows < 256 && 0 < g.cols < 256 && g.numLayers < 256
    requires BulkWrite.Flatten(BulkWrite.Bodies(pages)) == items && BulkWrite.GoodPages(pages, fits)
    requires BulkWrite.StartsNamed(pages) && BulkWrite.Names(order, |pages|) && forall k :: 0 <= k < |pages| ==> k in order
    ensures IndexOf(g, layer, row, col) < |items|
    ensures var g' := g.(keys := BulkWrite.StoreAll(g.keys, pages, order, g.rows, g.cols));
      LayerCache.ValidGrid(g') && LayerCache.ActionAt(g', Key(row, col), layer) == items[IndexOf(g, layer, row, col)]
  {
    BulkWrite.WholeKeymapWritten(items, g.keys, pages, order, g.numLayers, g.rows, g.cols, fits);
    KeyReads(g, layer, row, col);
    KeyReads(g.(keys := items), layer, row, col);
  }
}

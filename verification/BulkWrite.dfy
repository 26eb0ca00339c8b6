/**
 Bulk writes of the Rynk client: greedy packing of items into pages under a byte
 budget, the static split of the pages over lanes, and the addressing that makes
 the pages of a whole keymap land on every key exactly once.
 */
module BulkWrite {
  import opened Wrappers
  import opened Arithmetic
  import opened Varint

  /** A page of items and the wire form of its first item's index, a 16-bit number. */
  datatype Page<T> = Page(start: nat, items: seq<T>)

  datatype Result<T> = Ok(pages: seq<Page<T>>) | EncodeError

  const U16: nat := 0x1_0000

  // ----- Sizes -----

  /** Encoded bytes of a run of items; an item that does not encode weighs nothing here. */
  function Total<T>(items: seq<T>, size: T -> Option<nat>): nat {
    if items == [] then 0
    else
      Total(items[..|items| - 1], size) +
      (match size(items[|items| - 1]) case Some(n) => n case None => 0)
  }

  lemma {:induction false} TotalConcat<T>(a: seq<T>, b: seq<T>, size: T -> Option<nat>)
    ensures Total(a + b, size) == Total(a, size) + Total(b, size)
    decreases b
  {
    if b == [] {
      assert a + b == a;
    } else {
      assert (a + b)[..|a + b| - 1] == a + b[..|b| - 1];
      TotalConcat(a, b[..|b| - 1], size);
    }
  }

  /** The request with these items, count and fixed prefix stays within the budget. */
  predicate Fits<T>(fixed: nat, budget: nat, items: seq<T>, size: T -> Option<nat>) {
    fixed + VarintSize(|items|) + Total(items, size) <= budget
  }

  function Fitting<T>(fixed: nat, budget: nat, size: T -> Option<nat>): seq<T> -> bool {
    run => Fits(fixed, budget, run, size)
  }

  predicate FitsAlone<T>(fixed: nat, budget: nat, item: T, size: T -> Option<nat>) {
    size(item).Some? && fixed + 1 + size(item).value <= budget
  }

  /** Any contiguous part of a fitting run fits. */
  lemma PartFits<T>(fixed: nat, budget: nat, a: seq<T>, b: seq<T>, c: seq<T>, size: T -> Option<nat>)
    requires Fits(fixed, budget, a + b + c, size)
    ensures Fits(fixed, budget, b, size)
  {
    TotalConcat(a + b, c, size);
    TotalConcat(a, b, size);
    VarintMonotone(|b|, |a + b + c|);
  }

  /** Each of the first `n` items can be sent alone. */
  ghost predicate EachFits<T>(fixed: nat, budget: nat, items: seq<T>, n: nat, size: T -> Option<nat>) {
    n <= |items| && forall k :: 0 <= k < n ==> FitsAlone(fixed, budget, items[k], size)
  }

  lemma EachFitsSnoc<T>(fixed: nat, budget: nat, items: seq<T>, n: nat, size: T -> Option<nat>)
    requires EachFits(fixed, budget, items, n, size) && n < |items| && FitsAlone(fixed, budget, items[n], size)
    ensures EachFits(fixed, budget, items, n + 1, size)
  {
  }

  // ----- Splitting a sequence into runs -----

  function Flatten<T>(runs: seq<seq<T>>): seq<T> {
    if runs == [] then [] else Flatten(runs[..|runs| - 1]) + runs[|runs| - 1]
  }

  lemma FlattenSnoc<T>(runs: seq<seq<T>>, run: seq<T>)
    ensures Flatten(runs + [run]) == Flatten(runs) + run
  {
    assert (runs + [run])[..|runs|] == runs;
  }

  function Bodies<T>(pages: seq<Page<T>>): (runs: seq<seq<T>>)
    ensures |runs| == |pages|
  {
    seq(|pages|, i requires 0 <= i < |pages| => pages[i].items)
  }

  lemma {:induction false} FlattenPrefix<T>(runs: seq<seq<T>>, k: nat)
    requires k < |runs|
    ensures Flatten(runs[..k]) + runs[k] == Flatten(runs[..k + 1]) <= Flatten(runs)
    decreases |runs|
  {
    assert runs[..k + 1][..k] == runs[..k];
    if k + 1 == |runs| {
      assert runs[..k + 1] == runs;
    } else {
      var front := runs[..|runs| - 1];
      FlattenPrefix(front, k);
      assert front[..k] == runs[..k] && front[..k + 1] == runs[..k + 1];
    }
  }

  /** `items` cut at `j <= k`, as prefixes: what lies between them. */
  lemma RunIsSlice<T>(items: seq<T>, runs: seq<seq<T>>, k: nat)
    requires Flatten(runs) == items && k < |runs|
    ensures |Flatten(runs[..k])| + |runs[k]| == |Flatten(runs[..k + 1])| <= |items|
    ensures runs[k] == items[|Flatten(runs[..k])|..|Flatten(runs[..k + 1])|]
  {
    FlattenPrefix(runs, k);
    var p, q := Flatten(runs[..k]), Flatten(runs[..k + 1]);
    assert q == items[..|q|];
    assert runs[k] == q[|p|..];
  }

  // ----- Greedy packing, for any notion of what fits -----

  /** A full run: the item after it, which is `items[end]`, would not have fitted as well. */
  ghost predicate Full<T>(fits: seq<T> -> bool, items: seq<T>, run: seq<T>, end: nat) {
    end < |items| ==> !fits(run + [items[end]])
  }

  ghost predicate Greedy<T>(fits: seq<T> -> bool, items: seq<T>, runs: seq<seq<T>>) {
    forall k {:trigger runs[k]} :: 0 <= k < |runs| ==> Full(fits, items, runs[k], |Flatten(runs[..k + 1])|)
  }

  ghost predicate PartsFit<T(!new)>(fits: seq<T> -> bool) {
    forall a, b, c :: fits(a + b + c) ==> fits(b)
  }

  lemma GreedySnoc<T>(fits: seq<T> -> bool, items: seq<T>, runs: seq<seq<T>>, run: seq<T>)
    requires Greedy(fits, items, runs) && Full(fits, items, run, |Flatten(runs) + run|)
    ensures Greedy(fits, items, runs + [run])
  {
    var longer := runs + [run];
    FlattenSnoc(runs, run);
    forall k | 0 <= k < |longer|
      ensures Full(fits, items, longer[k], |Flatten(longer[..k + 1])|)
    {
      if k < |runs| {
        assert longer[..k + 1] == runs[..k + 1] && longer[k] == runs[k];
        assert Full(fits, items, runs[k], |Flatten(runs[..k + 1])|);
      } else {
        assert longer[..k + 1] == longer;
      }
    }
  }

  /** A fitting run that contains another run and the item after it: that run was not full. */
  lemma CoveredIsNotFull<T(!new)>(fits: seq<T> -> bool, items: seq<T>, g0: nat, g1: nat, q0: nat, q1: nat)
    requires PartsFit(fits) && q0 <= g0 <= g1 < q1 <= |items| && fits(items[q0..q1])
    ensures !Full(fits, items, items[g0..g1], g1)
  {
    assert items[q0..q1] == items[q0..g0] + items[g0..g1 + 1] + items[g1 + 1..q1];
    assert items[g0..g1 + 1] == items[g0..g1] + [items[g1]];
  }

  /** Greedy runs stay ahead of any other split into fitting runs. */
  lemma {:induction false} GreedyAhead<T(!new)>(
    fits: seq<T> -> bool, items: seq<T>, greedy: seq<seq<T>>, other: seq<seq<T>>, k: nat)
    requires PartsFit(fits) && Flatten(greedy) == items && Greedy(fits, items, greedy)
    requires Flatten(other) == items && forall i :: 0 <= i < |other| ==> fits(other[i])
    requires k <= |greedy| && k <= |other|
    ensures |Flatten(other[..k])| <= |Flatten(greedy[..k])|
    decreases k
  {
    if k > 0 {
      GreedyAhead(fits, items, greedy, other, k - 1);
      RunIsSlice(items, greedy, k - 1);
      RunIsSlice(items, other, k - 1);
      assert Full(fits, items, greedy[k - 1], |Flatten(greedy[..k])|) && fits(other[k - 1]);
      if |Flatten(other[..k])| > |Flatten(greedy[..k])| {
        CoveredIsNotFull(fits, items, |Flatten(greedy[..k - 1])|, |Flatten(greedy[..k])|,
                         |Flatten(other[..k - 1])|, |Flatten(other[..k])|);
      }
    }
  }

  /** No contiguous split into fitting runs is shorter than a greedy one. */
  lemma GreedyOptimal<T(!new)>(fits: seq<T> -> bool, items: seq<T>, greedy: seq<seq<T>>, other: seq<seq<T>>)
    requires PartsFit(fits) && Flatten(greedy) == items && Greedy(fits, items, greedy)
    requires forall i :: 0 <= i < |greedy| ==> greedy[i] != []
    requires Flatten(other) == items && forall i :: 0 <= i < |other| ==> fits(other[i])
    ensures |greedy| <= |other|
  {
    if |other| < |greedy| {
      GreedyAhead(fits, items, greedy, other, |other|);
      assert other[..|other|] == other;
      assert greedy[|other|] != [];
      RunIsSlice(items, greedy, |other|);
      assert false;
    }
  }

  // ----- Pages -----

  ghost predicate GoodPages<T>(pages: seq<Page<T>>, fits: seq<T> -> bool) {
    forall k {:trigger pages[k]} :: 0 <= k < |pages| ==>
      && pages[k].items != []
      && pages[k].start == |Flatten(Bodies(pages[..k]))| % U16
      && fits(pages[k].items)
  }

  lemma BodiesSnoc<T>(pages: seq<Page<T>>, page: Page<T>)
    ensures Bodies(pages + [page]) == Bodies(pages) + [page.items]
    ensures Flatten(Bodies(pages + [page])) == Flatten(Bodies(pages)) + page.items
  {
    var runs := Bodies(pages) + [page.items];
    assert Bodies(pages + [page]) == runs;
    assert runs[..|runs| - 1] == Bodies(pages);
  }

  lemma GoodPagesSnoc<T>(pages: seq<Page<T>>, page: Page<T>, fits: seq<T> -> bool)
    requires GoodPages(pages, fits)
    requires page.items != [] && fits(page.items)
    requires page.start == |Flatten(Bodies(pages))| % U16
    ensures GoodPages(pages + [page], fits)
  {
    var longer := pages + [page];
    forall k | 0 <= k < |longer|
      ensures longer[k].start == |Flatten(Bodies(longer[..k]))| % U16
    {
      assert longer[..k] == if k < |pages| then pages[..k] else pages;
      if k < |pages| {
        assert longer[k] == pages[k];
      }
    }
  }

  /** The state of the packing loop after `i` items. */
  ghost predicate Packed<T>(
    fits: seq<T> -> bool, items: seq<T>, i: nat, pages: seq<Page<T>>, start: nat, page: seq<T>)
  {
    && i <= |items|
    && Flatten(Bodies(pages)) + page == items[..i]
    && start == |Flatten(Bodies(pages))|
    && (i > 0 ==> page != []) && (page != [] ==> fits(page))
    && GoodPages(pages, fits) && Greedy(fits, items, Bodies(pages))
  }

  lemma ClosePage<T>(fits: seq<T> -> bool, items: seq<T>, i: nat, pages: seq<Page<T>>, start: nat, page: seq<T>)
    requires Packed(fits, items, i, pages, start, page) && page != [] && Full(fits, items, page, i)
    ensures var pages' := pages + [Page(start % U16, page)];
      GoodPages(pages', fits) && Greedy(fits, items, Bodies(pages')) && Flatten(Bodies(pages')) == items[..i]
  {
    GoodPagesSnoc(pages, Page(start % U16, page), fits);
    GreedySnoc(fits, items, Bodies(pages), page);
    BodiesSnoc(pages, Page(start % U16, page));
  }

  lemma AddToPage<T>(fits: seq<T> -> bool, items: seq<T>, i: nat, pages: seq<Page<T>>, start: nat, page: seq<T>)
    requires Packed(fits, items, i, pages, start, page) && i < |items| && fits(page + [items[i]])
    ensures Packed(fits, items, i + 1, pages, start, page + [items[i]])
  {
    assert items[..i + 1] == items[..i] + [items[i]];
  }

  lemma OpenPage<T>(fits: seq<T> -> bool, items: seq<T>, i: nat, pages: seq<Page<T>>, start: nat, page: seq<T>)
    requires Packed(fits, items, i, pages, start, page) && i < |items| && fits([items[i]])
    requires page != [] && !fits(page + [items[i]])
    ensures Packed(fits, items, i + 1, pages + [Page(start % U16, page)], i, [items[i]])
  {
    ClosePage(fits, items, i, pages, start, page);
    assert items[..i + 1] == items[..i] + [items[i]];
  }

  lemma FitsAfter<T>(fixed: nat, budget: nat, page: seq<T>, item: T, size: T -> Option<nat>)
    requires size(item).Some?
    ensures Total(page + [item], size) == Total(page, size) + size(item).value
    ensures Fits(fixed, budget, page + [item], size) <==>
            fixed + VarintSize(|page| + 1) + Total(page, size) + size(item).value <= budget
  {
    assert (page + [item])[..|page|] == page;
  }

  lemma AllPartsFit<T(!new)>(fixed: nat, budget: nat, size: T -> Option<nat>)
    ensures PartsFit(Fitting(fixed, budget, size))
  {
    forall a: seq<T>, b: seq<T>, c: seq<T> | Fits(fixed, budget, a + b + c, size)
      ensures Fits(fixed, budget, b, size)
    {
      PartFits(fixed, budget, a, b, c, size);
    }
  }

  /** No split of `items` into fitting runs is shorter than `n`. */
  ghost predicate Shortest<T(!new)>(fixed: nat, budget: nat, items: seq<T>, n: nat, size: T -> Option<nat>) {
    forall other: seq<seq<T>> ::
      Flatten(other) == items && (forall i :: 0 <= i < |other| ==> Fits(fixed, budget, other[i], size)) ==> n <= |other|
  }

  lemma ShortestSplit<T(!new)>(fixed: nat, budget: nat, items: seq<T>, pages: seq<Page<T>>, size: T -> Option<nat>)
    requires var fits := Fitting(fixed, budget, size);
      GoodPages(pages, fits) && Greedy(fits, items, Bodies(pages)) && Flatten(Bodies(pages)) == items
    ensures Shortest(fixed, budget, items, |pages|, size)
  {
    var fits := Fitting(fixed, budget, size);
    AllPartsFit(fixed, budget, size);
    forall other: seq<seq<T>> |
        Flatten(other) == items && forall i :: 0 <= i < |other| ==> Fits(fixed, budget, other[i], size)
      ensures |pages| <= |other|
    {
      GreedyOptimal(fits, items, Bodies(pages), other);
    }
  }

  /** One item more: it goes on a new page exactly when the current one would pass the budget. */
  lemma PackItem<T>(
    fixed: nat, budget: nat, size: T -> Option<nat>, items: seq<T>, i: nat, pages: seq<Page<T>>, start: nat, page: seq<T>)
    requires Packed(Fitting(fixed, budget, size), items, i, pages, start, page) && i < |items|
    requires FitsAlone(fixed, budget, items[i], size)
    ensures Total([items[i]], size) == size(items[i]).value
    ensures Total(page + [items[i]], size) == Total(page, size) + size(items[i]).value
    ensures var over := fixed + VarintSize(|page| + 1) + Total(page, size) + size(items[i]).value > budget;
      if over
      then Packed(Fitting(fixed, budget, size), items, i + 1, pages + [Page(start % U16, page)], i, [] + [items[i]])
      else Packed(Fitting(fixed, budget, size), items, i + 1, pages, start, page + [items[i]])
  {
    var fits, item := Fitting(fixed, budget, size), items[i];
    assert [] + [item] == [item];
    FitsAfter(fixed, budget, [], item, size);
    FitsAfter(fixed, budget, page, item, size);
    if fits(page + [item]) {
      AddToPage(fits, items, i, pages, start, page);
    } else {
      OpenPage(fits, items, i, pages, start, page);
    }
  }

  /** Put the next item on the current page, or on a new one. */
  method PackNext<T>(
    fixed: nat, budget: nat, items: seq<T>, size: T -> Option<nat>, i: nat, bytes: nat,
    pages: seq<Page<T>>, start: nat, used: nat, page: seq<T>)
    returns (pages': seq<Page<T>>, start': nat, used': nat, page': seq<T>)
    requires Packed(Fitting(fixed, budget, size), items, i, pages, start, page) && i < |items|
    requires FitsAlone(fixed, budget, items[i], size) && size(items[i]) == Some(bytes) && used == Total(page, size)
    ensures Packed(Fitting(fixed, budget, size), items, i + 1, pages', start', page') && used' == Total(page', size)
  {
    PackItem(fixed, budget, size, items, i, pages, start, page);
    assert [] + [items[i]] == [items[i]];
    pages', start', used', page' := pages, start, used, page;
    var countBytes := VarintSize(|page| + 1);
    if fixed + countBytes + used + bytes > budget {
      pages' := pages + [Page(start % U16, page)];
      page' := [];
      start', used' := i, 0;
    }
    used' := used' + bytes;
    page' := page' + [items[i]];
  }

  lemma AllPacked<T(!new)>(
    fixed: nat, budget: nat, size: T -> Option<nat>, items: seq<T>, pages: seq<Page<T>>, start: nat, page: seq<T>)
    requires Packed(Fitting(fixed, budget, size), items, |items|, pages, start, page)
    ensures var all := if page == [] then pages else pages + [Page(start % U16, page)];
      && Flatten(Bodies(all)) == items && GoodPages(all, Fitting(fixed, budget, size))
      && Shortest(fixed, budget, items, |all|, size)
  {
    assert items[..|items|] == items;
    if page == [] {
      ShortestSplit(fixed, budget, items, pages, size);
    } else {
      ClosePage(Fitting(fixed, budget, size), items, |items|, pages, start, page);
      ShortestSplit(fixed, budget, items, pages + [Page(start % U16, page)], size);
    }
  }

  /**
   Split `items` into pages. The call fails exactly when some item cannot be
   sent even alone; otherwise the pages are the items in order, none empty,
   each within budget, and no other split into fitting pages is shorter.
   */
  method SplitPages<T(!new)>(fixed: nat, budget: nat, items: seq<T>, size: T -> Option<nat>) returns (r: Result<T>)
    ensures r.EncodeError? <==> exists k :: 0 <= k < |items| && !FitsAlone(fixed, budget, items[k], size)
    ensures r.Ok? ==>
              Flatten(Bodies(r.pages)) == items && GoodPages(r.pages, Fitting(fixed, budget, size))
    ensures r.Ok? ==> Shortest(fixed, budget, items, |r.pages|, size)
  {
    var pages: seq<Page<T>> := [];
    var page: seq<T> := [];
    var start: nat, used: nat := 0, 0;
    var i := 0;
    while i < |items|
      invariant Packed(Fitting(fixed, budget, size), items, i, pages, start, page)
      invariant EachFits(fixed, budget, items, i, size)
      invariant used == Total(page, size)
    {
      var item := items[i];
      if size(item).None? {
        assert !FitsAlone(fixed, budget, items[i], size);
        return EncodeError;
      }
      var bytes := size(item).value;
      if fixed + 1 + bytes > budget {
        assert !FitsAlone(fixed, budget, items[i], size);
        return EncodeError;
      }
      EachFitsSnoc(fixed, budget, items, i, size);
      pages, start, used, page := PackNext(fixed, budget, items, size, i, bytes, pages, start, used, page);
      i := i + 1;
    }
    AllPacked(fixed, budget, size, items, pages, start, page);
    if page != [] {
      pages := pages + [Page(start % U16, page)];
    }
    return Ok(pages);
  }

  // ----- Lanes -----

  lemma EnoughChunks(len: nat, lanes: nat, chunk: nat)
    requires lanes > 0 && chunk == (len + lanes - 1) / lanes
    ensures lanes * chunk >= len
  {
    Quotient(len + lanes - 1, lanes);
  }

  lemma OneMoreChunk(n: nat, chunk: nat)
    ensures (n + 1) * chunk == n * chunk + chunk
  {
  }

  /** Hand out `chunk` pages to each lane while they last. */
  method DrainChunks<T>(pages: seq<T>, lanes: nat, chunk: nat) returns (out: seq<seq<T>>)
    requires lanes * chunk >= |pages|
    ensures |out| == lanes && Flatten(out) == pages
    ensures forall j :: 0 <= j < lanes ==> |out[j]| <= chunk
  {
    var rest := pages;
    out := [];
    while |out| < lanes
      invariant |out| <= lanes && Flatten(out) + rest == pages
      invariant rest != [] ==> |pages| - |rest| == |out| * chunk
      invariant forall j :: 0 <= j < |out| ==> |out[j]| <= chunk
    {
      var n := if chunk < |rest| then chunk else |rest|;
      OneMoreChunk(|out|, chunk);
      FlattenSnoc(out, rest[..n]);
      assert Flatten(out) + rest == (Flatten(out) + rest[..n]) + rest[n..];
      out := out + [rest[..n]];
      rest := rest[n..];
    }
  }

  /** Split the pages over the lanes: all of them, in order, no lane above the even share. */
  method SplitLanes<T>(pages: seq<T>, lanes: nat) returns (out: seq<seq<T>>)
    requires lanes > 0
    ensures |out| == lanes && Flatten(out) == pages
    ensures forall j :: 0 <= j < lanes ==> |out[j]| <= (|pages| + lanes - 1) / lanes
  {
    var chunk := (|pages| + lanes - 1) / lanes;
    EnoughChunks(|pages|, lanes, chunk);
    out := DrainChunks(pages, lanes, chunk);
  }

  // ----- Key addresses -----

  datatype Position = Position(layer: nat, row: nat, col: nat)

  /** The address of a flat key index, each part cut to a byte. */
  function KeymapPos(cursor: nat, rows: nat, cols: nat): Position
    requires rows > 0 && cols > 0
  {
    MulPositive(rows, cols);
    Position(cursor / (rows * cols) % 256, cursor / cols % rows % 256, cursor % cols % 256)
  }

  /** The firmware's flat index of an address. */
  function FlatIndex(p: Position, rows: nat, cols: nat): nat {
    p.layer * rows * cols + p.row * cols + p.col
  }

  predicate InGrid(p: Position, layers: nat, rows: nat, cols: nat) {
    p.layer < layers && p.row < rows && p.col < cols
  }

  /** On a keyboard of byte-sized dimensions no part of an address is cut. */
  lemma AddressParts(cursor: nat, layers: nat, rows: nat, cols: nat, layer: nat, row: nat, col: nat)
    requires 0 < rows < 256 && 0 < cols < 256 && layers < 256 && cursor < layers * rows * cols
    requires layer == cursor / cols / rows && row == cursor / cols % rows && col == cursor % cols
    ensures layer < layers && row < rows && col < cols
    ensures KeymapPos(cursor, rows, cols) == Position(layer, row, col)
  {
    DivideInTwo(cursor, rows, cols);
    MulAssociative(layers, rows, cols);
    QuotientBelow(cursor, rows * cols, layers);
    Quotient(cursor / cols, rows);
    Quotient(cursor, cols);
    BytesKept(layer, row, col);
  }

  lemma FlatIndexOf(p: Position, rows: nat, cols: nat)
    ensures FlatIndex(p, rows, cols) == p.layer * (rows * cols) + p.row * cols + p.col
  {
    MulAssociative(p.layer, rows, cols);
  }

  /** On a keyboard of byte-sized dimensions the address of an index leads back to it. */
  lemma KeymapPosExact(cursor: nat, layers: nat, rows: nat, cols: nat)
    requires 0 < rows < 256 && 0 < cols < 256 && layers < 256
    requires cursor < layers * rows * cols
    ensures InGrid(KeymapPos(cursor, rows, cols), layers, rows, cols)
    ensures FlatIndex(KeymapPos(cursor, rows, cols), rows, cols) == cursor
  {
    Quotient(cursor, cols);
    Quotient(cursor / cols, rows);
    AddressParts(cursor, layers, rows, cols, cursor / cols / rows, cursor / cols % rows, cursor % cols);
    FlatIndexOf(KeymapPos(cursor, rows, cols), rows, cols);
    Recompose(cursor, rows, cols);
  }

  lemma BytesKept(layer: nat, row: nat, col: nat)
    requires layer < 256 && row < 256 && col < 256
    ensures layer % 256 == layer && row % 256 == row && col % 256 == col
  {
  }

  /** A 16-bit start is enough exactly for the first 65536 keys. */
  lemma StartReachesKeyIff(start: nat, layers: nat, rows: nat, cols: nat)
    requires 0 < rows < 256 && 0 < cols < 256 && layers < 256
    requires start < layers * rows * cols
    ensures FlatIndex(KeymapPos(start % U16, rows, cols), rows, cols) == start <==> start < U16
  {
    KeymapPosExact(start % U16, layers, rows, cols);
  }

  // ----- Writing a whole keymap -----

  function Offset<T>(pages: seq<Page<T>>, k: nat): nat
    requires k <= |pages|
  {
    |Flatten(Bodies(pages[..k]))|
  }

  ghost predicate Covers<T>(pages: seq<Page<T>>, k: nat, i: nat) {
    k < |pages| && Offset(pages, k) <= i < Offset(pages, k) + |pages[k].items|
  }

  lemma PageIsSlice<T>(items: seq<T>, pages: seq<Page<T>>, k: nat)
    requires Flatten(Bodies(pages)) == items && k < |pages|
    ensures Offset(pages, k + 1) == Offset(pages, k) + |pages[k].items| <= |items|
    ensures pages[k].items == items[Offset(pages, k)..Offset(pages, k + 1)]
  {
    assert Bodies(pages[..k]) == Bodies(pages)[..k] && Bodies(pages[..k + 1]) == Bodies(pages)[..k + 1];
    RunIsSlice(items, Bodies(pages), k);
  }

  lemma {:induction false} OffsetsGrow<T>(items: seq<T>, pages: seq<Page<T>>, j: nat, k: nat)
    requires Flatten(Bodies(pages)) == items && j <= k <= |pages|
    ensures Offset(pages, j) <= Offset(pages, k)
    decreases k - j
  {
    if j < k {
      PageIsSlice(items, pages, j);
      OffsetsGrow(items, pages, j + 1, k);
    }
  }

  lemma {:induction false} FindPage<T>(items: seq<T>, pages: seq<Page<T>>, k: nat, i: nat) returns (found: nat)
    requires Flatten(Bodies(pages)) == items && k <= |pages| && i < Offset(pages, k)
    ensures Covers(pages, found, i)
    decreases k
  {
    PageIsSlice(items, pages, k - 1);
    if Offset(pages, k - 1) <= i {
      found := k - 1;
    } else {
      found := FindPage(items, pages, k - 1, i);
    }
  }

  /** The pages tile the items: every index lies in exactly one of them. */
  lemma PagesTile<T>(items: seq<T>, pages: seq<Page<T>>, i: nat) returns (k: nat)
    requires Flatten(Bodies(pages)) == items && i < |items|
    ensures Covers(pages, k, i) && forall j: nat :: Covers(pages, j, i) ==> j == k
  {
    assert pages[..|pages|] == pages;
    k := FindPage(items, pages, |pages|, i);
    forall j: nat | Covers(pages, j, i)
      ensures j == k
    {
      PageIsSlice(items, pages, j);
      PageIsSlice(items, pages, k);
      if j < k {
        OffsetsGrow(items, pages, j + 1, k);
      } else if k < j {
        OffsetsGrow(items, pages, k + 1, j);
      }
    }
  }

  /** The firmware stores a run of actions from a flat index on, or rejects it whole. */
  function Store<T>(keys: seq<T>, at: nat, page: seq<T>): (r: seq<T>)
    ensures |r| == |keys|
  {
    if at + |page| <= |keys| then keys[..at] + page + keys[at + |page|..] else keys
  }

  predicate Names(order: seq<nat>, n: nat) {
    forall m :: 0 <= m < |order| ==> order[m] < n
  }

  ghost predicate Stored<T>(pages: seq<Page<T>>, order: seq<nat>, i: nat) {
    exists m :: 0 <= m < |order| && Covers(pages, order[m], i)
  }

  /** Store the pages named by `order`, each at the address computed from its start. */
  function StoreAll<T>(keys: seq<T>, pages: seq<Page<T>>, order: seq<nat>, rows: nat, cols: nat): (r: seq<T>)
    requires rows > 0 && cols > 0 && Names(order, |pages|)
    ensures |r| == |keys|
    decreases order
  {
    if order == [] then keys
    else
      var page := pages[order[0]];
      StoreAll(Store(keys, FlatIndex(KeymapPos(page.start, rows, cols), rows, cols), page.items),
               pages, order[1..], rows, cols)
  }

  lemma StoreAt<T>(keys: seq<T>, at: nat, page: seq<T>, i: nat)
    requires at + |page| <= |keys| && i < |keys|
    ensures Store(keys, at, page)[i] == if at <= i < at + |page| then page[i - at] else keys[i]
  {
  }

  /** Every page starts at a key that 16 bits can name. */
  ghost predicate StartsNamed<T>(pages: seq<Page<T>>) {
    forall k :: 0 <= k < |pages| ==> Offset(pages, k) < U16
  }

  /** The pages are addressed to their own keys exactly when every start fits 16 bits. */
  lemma AddressedIff<T>(items: seq<T>, pages: seq<Page<T>>, fits: seq<T> -> bool, layers: nat, rows: nat, cols: nat)
    requires 0 < rows < 256 && 0 < cols < 256 && layers < 256 && |items| == layers * rows * cols
    requires Flatten(Bodies(pages)) == items && GoodPages(pages, fits)
    ensures StartsNamed(pages) <==>
            forall k :: 0 <= k < |pages| ==> FlatIndex(KeymapPos(pages[k].start, rows, cols), rows, cols) == Offset(pages, k)
  {
    forall k | 0 <= k < |pages|
      ensures FlatIndex(KeymapPos(pages[k].start, rows, cols), rows, cols) == Offset(pages, k) <==> Offset(pages, k) < U16
    {
      PageIsSlice(items, pages, k);
      StartReachesKeyIff(Offset(pages, k), layers, rows, cols);
    }
  }

  /** In particular when the keymap has at most 65536 keys. */
  lemma SmallKeymapNamed<T>(items: seq<T>, pages: seq<Page<T>>, fits: seq<T> -> bool)
    requires Flatten(Bodies(pages)) == items && GoodPages(pages, fits) && |items| <= U16
    ensures StartsNamed(pages)
  {
    forall k | 0 <= k < |pages|
      ensures Offset(pages, k) < U16
    {
      PageIsSlice(items, pages, k);
    }
  }

  /** One page of the whole keymap lands on its own keys and nowhere else. */
  lemma PageLands<T>(
    items: seq<T>, keys: seq<T>, pages: seq<Page<T>>, k: nat, i: nat, layers: nat, rows: nat, cols: nat)
    requires 0 < rows < 256 && 0 < cols < 256 && layers < 256
    requires |items| == |keys| == layers * rows * cols
    requires Flatten(Bodies(pages)) == items && k < |pages| && i < |items| && Offset(pages, k) < U16
    requires pages[k].items != [] && pages[k].start == Offset(pages, k) % U16
    ensures Store(keys, FlatIndex(KeymapPos(pages[k].start, rows, cols), rows, cols), pages[k].items)[i] ==
            if Covers(pages, k, i) then items[i] else keys[i]
  {
    PageIsSlice(items, pages, k);
    StartReachesKeyIff(Offset(pages, k), layers, rows, cols);
    StoreAt(keys, Offset(pages, k), pages[k].items, i);
  }

  lemma StoredFirst<T>(pages: seq<Page<T>>, order: seq<nat>, i: nat)
    requires order != []
    ensures Stored(pages, order, i) <==> Covers(pages, order[0], i) || Stored(pages, order[1..], i)
  {
    if Stored(pages, order[1..], i) {
      var m :| 0 <= m < |order| - 1 && Covers(pages, order[1..][m], i);
      assert order[m + 1] == order[1..][m];
    }
    if Stored(pages, order, i) && !Covers(pages, order[0], i) {
      var m :| 0 <= m < |order| && Covers(pages, order[m], i);
      assert order[1..][m - 1] == order[m];
    }
  }

  /**
   Whatever pages have been stored, and in whatever order, a key holds its new
   action if its page was among them and its old action otherwise.
   */
  lemma {:induction false} StoreAllAt<T>(
    items: seq<T>, keys: seq<T>, pages: seq<Page<T>>, order: seq<nat>, i: nat,
    layers: nat, rows: nat, cols: nat, fits: seq<T> -> bool)
    requires 0 < rows < 256 && 0 < cols < 256 && layers < 256
    requires |items| == |keys| == layers * rows * cols && i < |items|
    requires Flatten(Bodies(pages)) == items && GoodPages(pages, fits) && StartsNamed(pages) && Names(order, |pages|)
    ensures StoreAll(keys, pages, order, rows, cols)[i] ==
            if Stored(pages, order, i) then items[i] else keys[i]
    decreases order
  {
    if order != [] {
      var page := pages[order[0]];
      var keys' := Store(keys, FlatIndex(KeymapPos(page.start, rows, cols), rows, cols), page.items);
      PageLands(items, keys, pages, order[0], i, layers, rows, cols);
      StoreAllAt(items, keys', pages, order[1..], i, layers, rows, cols, fits);
      StoredFirst(pages, order, i);
    }
  }

  /** Once every page is stored, in any order of the lanes, the keymap is the new one. */
  lemma WholeKeymapWritten<T>(
    items: seq<T>, keys: seq<T>, pages: seq<Page<T>>, order: seq<nat>,
    layers: nat, rows: nat, cols: nat, fits: seq<T> -> bool)
    requires 0 < rows < 256 && 0 < cols < 256 && layers < 256
    requires |items| == |keys| == layers * rows * cols
    requires Flatten(Bodies(pages)) == items && GoodPages(pages, fits) && StartsNamed(pages)
    requires Names(order, |pages|) && forall k :: 0 <= k < |pages| ==> k in order
    ensures StoreAll(keys, pages, order, rows, cols) == items
  {
    forall i | 0 <= i < |items|
      ensures StoreAll(keys, pages, order, rows, cols)[i] == items[i]
    {
      var k := PagesTile(items, pages, i);
      assert k in order && Stored(pages, order, i);
      StoreAllAt(items, keys, pages, order, i, layers, rows, cols, fits);
    }
  }

  // ----- Exactly which keymaps are written -----

  /** Each page stored once, in any order of the lanes, over any old keymap, gives the new one. */
  ghost predicate AlwaysWritten<T(!new)>(items: seq<T>, pages: seq<Page<T>>, rows: nat, cols: nat)
    requires rows > 0 && cols > 0
  {
    forall keys: seq<T>, order: seq<nat> ::
      |keys| == |items| && EachOnce(order, |pages|) && Names(order, |pages|) ==>
        StoreAll(keys, pages, order, rows, cols) == items
  }

  ghost predicate EachOnce(order: seq<nat>, n: nat) {
    |order| == n && forall k :: 0 <= k < n ==> k in order
  }

  /** The pages in turn, but page `k` last. */
  function LastOf(n: nat, k: nat): (order: seq<nat>)
    requires k < n
    ensures Names(order, n) && |order| == n
  {
    seq(n, m requires 0 <= m < n => if m < k then m else if m + 1 < n then m + 1 else k)
  }

  lemma LastOfEachOnce(n: nat, k: nat)
    requires k < n
    ensures EachOnce(LastOf(n, k), n)
  {
    forall p | 0 <= p < n
      ensures p in LastOf(n, k)
    {
      assert LastOf(n, k)[if p < k then p else if p > k then p - 1 else n - 1] == p;
    }
  }

  lemma {:induction false} StoreAllSnoc<T>(
    keys: seq<T>, pages: seq<Page<T>>, order: seq<nat>, k: nat, rows: nat, cols: nat)
    requires rows > 0 && cols > 0 && Names(order, |pages|) && k < |pages|
    ensures StoreAll(keys, pages, order + [k], rows, cols) ==
            Store(StoreAll(keys, pages, order, rows, cols), FlatIndex(KeymapPos(pages[k].start, rows, cols), rows, cols),
                  pages[k].items)
    decreases order
  {
    if order == [] {
      assert [] + [k] == [k] && [k][1..] == [];
    } else {
      var page := pages[order[0]];
      var keys' := Store(keys, FlatIndex(KeymapPos(page.start, rows, cols), rows, cols), page.items);
      assert (order + [k])[1..] == order[1..] + [k];
      StoreAllSnoc(keys', pages, order[1..], k, rows, cols);
    }
  }

  /** A page that starts past key 65535, stored last, leaves a key of its own at a wrong place. */
  lemma LatePageMisplaced<T>(
    items: seq<T>, keys: seq<T>, pages: seq<Page<T>>, k: nat, order: seq<nat>, layers: nat, rows: nat, cols: nat,
    fits: seq<T> -> bool)
    requires 0 < rows < 256 && 0 < cols < 256 && layers < 256 && |items| == |keys| == layers * rows * cols
    requires Flatten(Bodies(pages)) == items && GoodPages(pages, fits) && Names(order, |pages|)
    requires k < |pages| && Offset(pages, k) >= U16
    ensures Offset(pages, k) < |items|
    ensures StoreAll(keys, pages, order + [k], rows, cols)[Offset(pages, k) % U16] == items[Offset(pages, k)]
  {
    var start, page := Offset(pages, k), pages[k].items;
    PageIsSlice(items, pages, k);
    KeymapPosExact(start % U16, layers, rows, cols);
    StoreAllSnoc(keys, pages, order, k, rows, cols);
    StoreAt(StoreAll(keys, pages, order, rows, cols), start % U16, page, start % U16);
  }

  /** A keymap of distinct actions is always written as a whole exactly when every page starts below 65536. */
  lemma WriteExact<T(!new)>(
    items: seq<T>, pages: seq<Page<T>>, layers: nat, rows: nat, cols: nat, fits: seq<T> -> bool)
    requires 0 < rows < 256 && 0 < cols < 256 && layers < 256 && |items| == layers * rows * cols
    requires Flatten(Bodies(pages)) == items && GoodPages(pages, fits)
    requires forall i, j :: 0 <= i < j < |items| ==> items[i] != items[j]
    ensures AlwaysWritten(items, pages, rows, cols) <==> StartsNamed(pages)
  {
    if StartsNamed(pages) {
      forall keys: seq<T>, order: seq<nat> | |keys| == |items| && EachOnce(order, |pages|) && Names(order, |pages|)
        ensures StoreAll(keys, pages, order, rows, cols) == items
      {
        WholeKeymapWritten(items, keys, pages, order, layers, rows, cols, fits);
      }
    } else {
      var k :| 0 <= k < |pages| && Offset(pages, k) >= U16;
      var order := LastOf(|pages|, k);
      LastOfEachOnce(|pages|, k);
      var front := order[..|pages| - 1];
      assert order == front + [k];
      LatePageMisplaced(items, items, pages, k, front, layers, rows, cols, fits);
      assert items[Offset(pages, k) % U16] != items[Offset(pages, k)];
    }
  }
}

/**
 The last steps from a keymap text to its grid: layer names are replaced by
 their numbers in place, and the keys are scattered onto the matrix.
 */
module KeymapText {

  /** A layer name found in a key's text and the number to put there. */
  datatype Span = Span(start: nat, end: nat, number: string)

  /** The spans lie in the text, in order, without overlap. */
  predicate InOrder(text: string, spans: seq<Span>, from: nat) {
    && (forall i :: 0 <= i < |spans| ==> from <= spans[i].start <= spans[i].end <= |text|)
    && (forall i, j :: 0 <= i < j < |spans| ==> spans[i].end <= spans[j].start)
  }

  /** The text from `from` on with every span replaced, read left to right. */
  function Substituted(text: string, spans: seq<Span>, from: nat): string
    requires from <= |text| && InOrder(text, spans, from)
    decreases spans
  {
    if spans == [] then text[from..]
    else text[from..spans[0].start] + spans[0].number + Substituted(text, spans[1..], spans[0].end)
  }

  /** Where the text before span `i` that is still original ends. */
  function Cut(spans: seq<Span>, i: nat): nat
    requires i <= |spans|
  {
    if i == 0 then 0 else spans[i - 1].end
  }

  /** The text once the spans from `i` on have been replaced. */
  ghost predicate ReplacedFrom(text: string, spans: seq<Span>, i: nat, result: string)
    requires i <= |spans|
  {
    && Cut(spans, i) <= |text| && InOrder(text, spans[i..], Cut(spans, i))
    && result == text[..Cut(spans, i)] + Substituted(text, spans[i..], Cut(spans, i))
  }

  lemma ReplaceOne(text: string, spans: seq<Span>, i: nat, result: string)
    requires InOrder(text, spans, 0) && 0 < i <= |spans| && ReplacedFrom(text, spans, i, result)
    ensures var s := spans[i - 1];
      s.end <= |result| && ReplacedFrom(text, spans, i - 1, result[..s.start] + s.number + result[s.end..])
  {
    var s, cut := spans[i - 1], Cut(spans, i - 1);
    var tail := Substituted(text, spans[i..], s.end);
    assert result[..s.start] == text[..s.start] && result[s.end..] == tail;
    assert spans[i - 1..][0] == s && spans[i - 1..][1..] == spans[i..];
    assert text[..s.start] == text[..cut] + text[cut..s.start];
  }

  /** Two spans do not overlap. */
  predicate Apart(a: Span, b: Span) {
    a.end <= b.start || b.end <= a.start
  }

  /** Non-empty spans of the text, none twice and no two overlapping, in any order. */
  ghost predicate Disjoint(text: string, spans: seq<Span>) {
    && (forall s :: s in spans ==> s.start < s.end <= |text| && multiset(spans)[s] == 1)
    && (forall a, b :: a in spans && b in spans && a != b ==> Apart(a, b))
  }

  function InsertSpan(sorted: seq<Span>, s: Span): seq<Span> {
    if sorted == [] || sorted[|sorted| - 1].start <= s.start then sorted + [s]
    else InsertSpan(sorted[..|sorted| - 1], s) + [sorted[|sorted| - 1]]
  }

  /** The spans by start. */
  function SortSpans(spans: seq<Span>): seq<Span> {
    if spans == [] then [] else InsertSpan(SortSpans(spans[..|spans| - 1]), spans[|spans| - 1])
  }

  predicate ByStart(spans: seq<Span>) {
    forall i, j :: 0 <= i < j < |spans| ==> spans[i].start <= spans[j].start
  }

  lemma {:induction false} InsertKeeps(sorted: seq<Span>, s: Span)
    ensures multiset(InsertSpan(sorted, s)) == multiset(sorted) + multiset{s}
  {
    if sorted != [] {
      assert sorted == sorted[..|sorted| - 1] + [sorted[|sorted| - 1]];
      InsertKeeps(sorted[..|sorted| - 1], s);
    }
  }

  lemma BelowAll(front: seq<Span>, rest: seq<Span>, s: Span, last: Span)
    requires multiset(front) == multiset(rest) + multiset{s}
    requires s.start <= last.start && forall x :: x in rest ==> x.start <= last.start
    ensures forall i :: 0 <= i < |front| ==> front[i].start <= last.start
  {
    forall i | 0 <= i < |front|
      ensures front[i].start <= last.start
    {
      assert front[i] in multiset(front);
    }
  }

  lemma {:induction false} InsertSorts(sorted: seq<Span>, s: Span)
    requires ByStart(sorted)
    ensures ByStart(InsertSpan(sorted, s))
  {
    if sorted != [] && sorted[|sorted| - 1].start > s.start {
      var rest, last := sorted[..|sorted| - 1], sorted[|sorted| - 1];
      InsertSorts(rest, s);
      InsertKeeps(rest, s);
      BelowAll(InsertSpan(rest, s), rest, s, last);
    }
  }

  lemma {:induction false} SortKeeps(spans: seq<Span>)
    ensures multiset(SortSpans(spans)) == multiset(spans) && ByStart(SortSpans(spans))
  {
    if spans != [] {
      var front, last := spans[..|spans| - 1], spans[|spans| - 1];
      assert spans == front + [last];
      SortKeeps(front);
      InsertKeeps(SortSpans(front), last);
      InsertSorts(SortSpans(front), last);
    }
  }

  lemma TwiceCounts(s: seq<Span>, i: nat, j: nat)
    requires i < j < |s| && s[i] == s[j]
    ensures multiset(s)[s[i]] >= 2
  {
    assert s == s[..j] + s[j..];
    assert s[i] in s[..j] && s[i] in s[j..];
    assert multiset(s) == multiset(s[..j]) + multiset(s[j..]);
  }

  /** Sorted, disjoint spans follow one another. */
  lemma SortedInOrder(text: string, spans: seq<Span>)
    requires Disjoint(text, spans)
    ensures InOrder(text, SortSpans(spans), 0)
  {
    var sorted := SortSpans(spans);
    SortKeeps(spans);
    forall i | 0 <= i < |sorted|
      ensures sorted[i] in spans
    {
      assert sorted[i] in multiset(sorted);
    }
    forall i, j | 0 <= i < j < |sorted|
      ensures sorted[i].end <= sorted[j].start
    {
      if sorted[i] == sorted[j] {
        TwiceCounts(sorted, i, j);
      }
      assert Apart(sorted[i], sorted[j]);
    }
  }

  lemma IndexIn(a: seq<Span>, b: seq<Span>) returns (i: nat)
    requires a != [] && multiset(a) == multiset(b)
    ensures i < |b| && b[i] == a[0]
  {
    assert a[0] in multiset(b);
    i :| 0 <= i < |b| && b[i] == a[0];
  }

  lemma SameFirst(text: string, a: seq<Span>, b: seq<Span>, from: nat)
    requires InOrder(text, a, from) && InOrder(text, b, from) && a != [] && b != [] && multiset(a) == multiset(b)
    requires a[0].start < a[0].end && b[0].start < b[0].end
    ensures a[0] == b[0]
  {
    var i := IndexIn(a, b);
    var j := IndexIn(b, a);
  }

  lemma OrderTail(text: string, a: seq<Span>, from: nat)
    requires InOrder(text, a, from) && a != []
    ensures InOrder(text, a[1..], a[0].end)
  {
  }

  lemma SameRest(a: seq<Span>, b: seq<Span>)
    requires a != [] && b != [] && a[0] == b[0] && multiset(a) == multiset(b)
    ensures multiset(a[1..]) == multiset(b[1..])
  {
    assert a == [a[0]] + a[1..] && b == [b[0]] + b[1..];
    assert multiset(a[1..]) == multiset(a) - multiset{a[0]};
    assert multiset(b[1..]) == multiset(b) - multiset{b[0]};
  }

  lemma SameWhole(a: seq<Span>, b: seq<Span>)
    requires a != [] && b != [] && a[0] == b[0] && a[1..] == b[1..]
    ensures a == b
  {
    assert a == [a[0]] + a[1..] && b == [b[0]] + b[1..];
  }

  /** In order of the text there is only one way to list them, so any sort gives this one. */
  lemma {:induction false} OneOrder(text: string, a: seq<Span>, b: seq<Span>, from: nat)
    requires InOrder(text, a, from) && InOrder(text, b, from) && multiset(a) == multiset(b)
    requires forall s :: s in a ==> s.start < s.end
    ensures a == b
    decreases a
  {
    assert |a| == |multiset(a)| == |multiset(b)| == |b|;
    if a != [] {
      assert b[0] in multiset(a);
      SameFirst(text, a, b, from);
      SameRest(a, b);
      OrderTail(text, a, from);
      OrderTail(text, b, from);
      OneOrder(text, a[1..], b[1..], a[0].end);
      SameWhole(a, b);
    }
  }

  /** Replace sorted spans from the last to the first, so that the offsets still to come stay valid. */
  method ReplaceSorted(text: string, sorted: seq<Span>) returns (result: string)
    requires InOrder(text, sorted, 0)
    ensures result == Substituted(text, sorted, 0)
  {
    result := text;
    var i: nat := |sorted|;
    while i > 0
      invariant i <= |sorted| && ReplacedFrom(text, sorted, i, result)
    {
      var s := sorted[i - 1];
      ReplaceOne(text, sorted, i, result);
      result := result[..s.start] + s.number + result[s.end..];
      i := i - 1;
    }
    assert sorted[0..] == sorted;
  }

  /**
   Replace the spans, collected in any order: the result is the left-to-right
   substitution, in the one order the spans have in the text.
   */
  method ReplaceSpans(text: string, spans: seq<Span>) returns (result: string)
    requires Disjoint(text, spans)
    ensures InOrder(text, SortSpans(spans), 0) && result == Substituted(text, SortSpans(spans), 0)
    ensures forall order {:trigger InOrder(text, order, 0)} ::
              multiset(order) == multiset(spans) && InOrder(text, order, 0) ==> result == Substituted(text, order, 0)
  {
    SortedInOrder(text, spans);
    result := ReplaceSorted(text, SortSpans(spans));
    AnyOrder(text, spans);
  }

  lemma AnyOrder(text: string, spans: seq<Span>)
    requires Disjoint(text, spans)
    ensures forall order {:trigger InOrder(text, order, 0)} ::
              multiset(order) == multiset(spans) && InOrder(text, order, 0) ==> order == SortSpans(spans)
  {
    SortKeeps(spans);
    SortedInOrder(text, spans);
    forall order | multiset(order) == multiset(spans) && InOrder(text, order, 0)
      ensures order == SortSpans(spans)
    {
      forall s | s in order
        ensures s.start < s.end
      {
        assert s in multiset(order) && s in spans;
      }
      OneOrder(text, order, SortSpans(spans), 0);
    }
  }

  datatype Position = Position(row: nat, col: nat)

  /**
   Scatter a layer's keys onto the grid in the order of the map. The counts
   must agree; then each mapped position holds its own key and every other
   position no action.
   */
  method BuildLayerGrid(order: seq<Position>, keys: seq<string>, rows: nat, cols: nat)
    returns (ok: bool, grid: array2<string>)
    requires forall i :: 0 <= i < |order| ==> order[i].row < rows && order[i].col < cols
    requires forall i, j :: 0 <= i < j < |order| ==> order[i] != order[j]
    ensures ok <==> |keys| == |order|
    ensures grid.Length0 == rows && grid.Length1 == cols
    ensures ok ==> forall i :: 0 <= i < |order| ==> grid[order[i].row, order[i].col] == keys[i]
    ensures ok ==> forall r, c :: 0 <= r < rows && 0 <= c < cols && Position(r, c) !in order ==> grid[r, c] == "No"
  {
    grid := new string[rows, cols]((_, _) => "No");
    ok := |keys| == |order|;
    if !ok {
      return;
    }
    var i := 0;
    while i < |order|
      invariant 0 <= i <= |order|
      invariant forall k :: 0 <= k < i ==> grid[order[k].row, order[k].col] == keys[k]
      invariant forall r, c :: 0 <= r < rows && 0 <= c < cols && Position(r, c) !in order ==> grid[r, c] == "No"
    {
      var p := order[i];
      forall k | 0 <= k < i
        ensures order[k].row != p.row || order[k].col != p.col
      {
        assert order[k] != order[i];
      }
      grid[p.row, p.col] := keys[i];
      i := i + 1;
    }
  }
}

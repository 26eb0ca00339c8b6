/**
 Tap/hold patterns packed into 16 bits, and the prediction of a morse key's
 action from the patterns it is configured with.
 */
module Morse {
  import opened Wrappers
  import opened Arithmetic

  const U16: nat := 0x1_0000

  const TOP_BIT: nat := 0x8000

  /** A non-zero 16-bit number: a leading 1, then a bit per step. */
  type Pattern = p: nat | 1 <= p < U16 witness 1

  /** The steps of a tap/hold sequence; a hold is `true`. */
  type Steps = seq<bool>

  // ----- What a pattern means -----

  function Decode(p: nat): Steps
    requires p >= 1
  {
    if p == 1 then [] else Decode(p / 2) + [p % 2 == 1]
  }

  function Encode(s: Steps): (p: nat)
    ensures p >= 1
  {
    if s == [] then 1 else 2 * Encode(s[..|s| - 1]) + if s[|s| - 1] then 1 else 0
  }

  lemma {:induction false} EncodeDecode(p: nat)
    requires p >= 1
    ensures Encode(Decode(p)) == p
  {
    if p > 1 {
      EncodeDecode(p / 2);
      assert Decode(p)[..|Decode(p)| - 1] == Decode(p / 2);
    }
  }

  lemma {:induction false} DecodeEncode(s: Steps)
    ensures Decode(Encode(s)) == s
  {
    if s != [] {
      DecodeEncode(s[..|s| - 1]);
      assert s == s[..|s| - 1] + [s[|s| - 1]];
    }
  }

  /** The numbers that decode to `n` steps. */
  lemma {:induction false} LengthRange(p: nat)
    requires p >= 1
    ensures Pow2(|Decode(p)|) <= p < 2 * Pow2(|Decode(p)|)
  {
    if p > 1 {
      LengthRange(p / 2);
    }
  }

  /** Takes 15 as a parameter, so that the solver does not unroll `Pow2(15)` wherever it is mentioned. */
  lemma Pow2Fifteen(n: nat)
    requires n == 15
    ensures Pow2(n) == TOP_BIT
  {
    assert Pow2(5) == 32 && Pow2(10) == 1024;
  }

  /** Patterns are exactly the sequences of at most 15 steps. */
  lemma PatternIffFifteenSteps(p: nat)
    requires p >= 1
    ensures p < 0x1_0000 <==> |Decode(p)| <= 15
    ensures p < 0x8000 <==> |Decode(p)| < 15
  {
    var n, fifteen := |Decode(p)|, 15;
    LengthRange(p);
    Pow2Fifteen(fifteen);
    if n < fifteen {
      Pow2Grows(n, fifteen);
    } else if n > fifteen {
      Pow2Grows(fifteen, n);
    }
  }

  // ----- The 16-bit operations -----

  function LeadingZeros(v: nat): nat
    requires v < U16
  {
    if BitLength(v) <= 16 then 16 - BitLength(v) else 0
  }

  function BitAnd(a: nat, b: nat): nat {
    if a == 0 || b == 0 then 0 else 2 * BitAnd(a / 2, b / 2) + (a % 2) * (b % 2)
  }

  function ShiftRight(v: nat, n: nat): nat {
    if n == 0 then v else ShiftRight(v / 2, n - 1)
  }

  predicate IsEmpty(p: Pattern) {
    p == 1
  }

  predicate IsFull(p: Pattern) {
    BitAnd(p, TOP_BIT) != 0
  }

  function PatternLength(p: Pattern): nat {
    if LeadingZeros(p) <= 15 then 15 - LeadingZeros(p) else 0
  }

  predicate StartsWith(p: Pattern, start: Pattern) {
    var n, m := LeadingZeros(start), LeadingZeros(p);
    m <= n && ShiftRight(p, n - m) == start
  }

  predicate LastIsHold(p: Pattern) {
    !IsEmpty(p) && BitAnd(p, 1) == 1
  }

  function FollowedByTap(p: Pattern): nat {
    2 * p % U16
  }

  function FollowedByHold(p: Pattern): nat {
    2 * p % U16 + 1
  }

  predicate IsAllTaps(p: Pattern) {
    p > 1 && BitAnd(p, p - 1) == 0
  }

  // ----- They agree with the meaning -----

  lemma {:induction false} BitLengthIsSteps(p: nat)
    requires p >= 1
    ensures BitLength(p) == |Decode(p)| + 1
  {
    if p > 1 {
      BitLengthIsSteps(p / 2);
    }
  }

  lemma LeadingZerosIsSteps(p: Pattern)
    ensures LeadingZeros(p) == 15 - |Decode(p)|
  {
    BitLengthIsSteps(p);
    PatternIffFifteenSteps(p);
  }

  lemma LengthExact(p: Pattern)
    ensures PatternLength(p) == |Decode(p)| <= 15
  {
    LeadingZerosIsSteps(p);
    PatternIffFifteenSteps(p);
  }

  lemma {:induction false} BitAndPow2(v: nat, n: nat)
    ensures BitAnd(v, Pow2(n)) == (v / Pow2(n)) % 2 * Pow2(n)
    decreases n
  {
    if v == 0 {
    } else if n == 0 {
      assert BitAnd(v / 2, 0) == 0;
    } else {
      BitAndPow2(v / 2, n - 1);
      DivideTwice(v, Pow2(n - 1));
      assert Pow2(n) / 2 == Pow2(n - 1) && Pow2(n) % 2 == 0;
      MoveTwo((v / Pow2(n)) % 2, Pow2(n - 1));
    }
  }

  lemma MoveTwo(a: nat, b: nat)
    ensures 2 * (a * b) == a * (2 * b)
  {
  }

  lemma FullExact(p: Pattern)
    ensures IsFull(p) <==> |Decode(p)| == 15
  {
    var fifteen := 15;
    Pow2Fifteen(fifteen);
    BitAndPow2(p, fifteen);
    PatternIffFifteenSteps(p);
    assert p < TOP_BIT ==> p / TOP_BIT == 0;
    assert p >= TOP_BIT ==> p / TOP_BIT == 1;
  }

  lemma DecodeAppend(p: nat, bit: nat)
    requires p >= 1 && bit < 2
    ensures Decode(2 * p + bit) == Decode(p) + [bit == 1]
  {
    assert (2 * p + bit) / 2 == p && (2 * p + bit) % 2 == bit;
  }

  /** The named patterns: a tap, a hold, two taps, a tap and a hold. */
  lemma NamedPatterns()
    ensures Decode(2) == [false] && Decode(3) == [true] && Decode(4) == [false, false] && Decode(5) == [false, true]
  {
    assert Decode(1) == [];
    DecodeAppend(1, 0);
    DecodeAppend(1, 1);
    DecodeAppend(2, 0);
    DecodeAppend(2, 1);
  }

  /** What a step leaves when there is no room for it: the marker is shifted out. */
  lemma FullLosesMarker(p: Pattern, q: nat, bit: nat)
    requires p >= TOP_BIT && bit < 2 && q == 2 * p % U16 + bit
    ensures q < U16 && (q >= 1 ==> |Decode(q)| <= |Decode(p)|)
  {
    assert 2 * p == U16 + (2 * p - U16) && 0 <= 2 * p - U16 < U16 - 1;
    PatternIffFifteenSteps(p);
    if q >= 1 {
      PatternIffFifteenSteps(q);
    }
  }

  predicate Appends(p: Pattern, q: nat, step: bool) {
    1 <= q < U16 && Decode(q) == Decode(p) + [step]
  }

  /** Appending a step adds it to the sequence exactly when the pattern is not full. */
  lemma AppendExact(p: Pattern)
    ensures Appends(p, FollowedByTap(p), false) <==> !IsFull(p)
    ensures Appends(p, FollowedByHold(p), true) <==> !IsFull(p)
  {
    FullExact(p);
    PatternIffFifteenSteps(p);
    if p < TOP_BIT {
      DecodeAppend(p, 0);
      DecodeAppend(p, 1);
    } else {
      FullLosesMarker(p, FollowedByTap(p), 0);
      FullLosesMarker(p, FollowedByHold(p), 1);
    }
  }

  lemma {:induction false} ShiftDropsSteps(p: nat, n: nat)
    requires p >= 1 && n <= |Decode(p)|
    ensures ShiftRight(p, n) >= 1 && Decode(ShiftRight(p, n)) == Decode(p)[..|Decode(p)| - n]
    decreases n
  {
    if n > 0 {
      ShiftDropsSteps(p / 2, n - 1);
    }
  }

  lemma ShiftIsPrefix(p: nat, start: nat, n: nat)
    requires p >= 1 && start >= 1 && n + |Decode(start)| == |Decode(p)|
    ensures ShiftRight(p, n) == start <==> Decode(start) <= Decode(p)
  {
    ShiftDropsSteps(p, n);
    EncodeDecode(start);
    EncodeDecode(ShiftRight(p, n));
    var s, t := Decode(p), Decode(start);
    assert t <= s <==> t == s[..|s| - n];
  }

  /** The shift comparison is the prefix relation on sequences. */
  lemma StartsWithExact(p: Pattern, start: Pattern)
    ensures StartsWith(p, start) <==> Decode(start) <= Decode(p)
  {
    LeadingZerosIsSteps(p);
    LeadingZerosIsSteps(start);
    if LeadingZeros(p) <= LeadingZeros(start) {
      ShiftIsPrefix(p, start, LeadingZeros(start) - LeadingZeros(p));
    }
  }

  lemma BitSquare(b: nat)
    requires b < 2
    ensures b * b == b
  {
    assert b == 0 || b == 1;
  }

  lemma {:induction false} BitAndSelf(v: nat)
    ensures BitAnd(v, v) == v
  {
    if v > 0 {
      BitAndSelf(v / 2);
      BitSquare(v % 2);
    }
  }

  lemma {:induction false} ClearLowestBit(p: nat)
    requires p >= 1
    ensures BitAnd(p, p - 1) == 0 <==> forall i :: 0 <= i < |Decode(p)| ==> !Decode(p)[i]
  {
    if p > 1 {
      var q := p / 2;
      ClearLowestBit(q);
      var s := Decode(p);
      assert s == Decode(q) + [p % 2 == 1];
      if p % 2 == 1 {
        BitAndSelf(q);
        assert (p - 1) / 2 == q && (p - 1) % 2 == 0;
        assert s[|s| - 1];
      } else {
        assert (p - 1) / 2 == q - 1;
        assert forall i :: 0 <= i < |Decode(q)| ==> s[i] == Decode(q)[i];
      }
    }
  }

  lemma AllTapsExact(p: Pattern)
    ensures IsAllTaps(p) <==> Decode(p) != [] && forall i :: 0 <= i < |Decode(p)| ==> !Decode(p)[i]
  {
    ClearLowestBit(p);
    EncodeDecode(p);
  }

  lemma LastIsHoldExact(p: Pattern)
    ensures LastIsHold(p) <==> Decode(p) != [] && Decode(p)[|Decode(p)| - 1]
  {
    assert BitAnd(p, 1) == p % 2 by {
      assert BitAnd(p / 2, 0) == 0;
    }
  }

  // ----- The configured actions -----

  datatype Entry<+A> = Entry(pattern: Pattern, action: A)

  ghost predicate Distinct<A>(entries: seq<Entry<A>>) {
    forall i, j :: 0 <= i < j < |entries| ==> entries[i].pattern != entries[j].pattern
  }

  function Find<A>(entries: seq<Entry<A>>, p: Pattern): (i: nat)
    ensures i <= |entries|
    ensures i < |entries| ==> entries[i].pattern == p
    ensures forall k :: 0 <= k < i ==> entries[k].pattern != p
  {
    if entries == [] || entries[0].pattern == p then 0 else 1 + Find(entries[1..], p)
  }

  function Get<A>(entries: seq<Entry<A>>, p: Pattern): Option<A> {
    var i := Find(entries, p);
    if i < |entries| then Some(entries[i].action) else None
  }

  lemma GetIs<A>(entries: seq<Entry<A>>, i: nat)
    requires Distinct(entries) && i < |entries|
    ensures Get(entries, entries[i].pattern) == Some(entries[i].action)
  {
  }

  /** A morse key: its configured patterns, at most `capacity` of them. */
  class MorseKey<A(==)> {
    const capacity: nat
    const noAction: A
    var entries: seq<Entry<A>>

    ghost predicate Valid()
      reads this
    {
      Distinct(entries) && |entries| <= capacity
    }

    constructor (capacity: nat, noAction: A)
      ensures Valid() && entries == [] && this.capacity == capacity && this.noAction == noAction
    {
      this.capacity, this.noAction, entries := capacity, noAction, [];
    }

    /** Set a pattern's action; no action removes it. Fails only when a new pattern finds the map full. */
    method Put(p: Pattern, action: A) returns (ok: bool)
      requires Valid()
      modifies this`entries
      ensures Valid()
      ensures ok <==> action == noAction || Get(old(entries), p).Some? || |old(entries)| < capacity
      ensures !ok ==> entries == old(entries)
      ensures ok ==> forall q: Pattern ::
                Get(entries, q) == if q != p then Get(old(entries), q) else if action == noAction then None else Some(action)
    {
      var i := Find(entries, p);
      ok := true;
      ghost var before := entries;
      if action != noAction {
        if i < |entries| {
          entries := entries[i := Entry(p, action)];
        } else if |entries| < capacity {
          entries := entries + [Entry(p, action)];
        } else {
          ok := false;
        }
      } else if i < |entries| {
        var last := |entries| - 1;
        entries := entries[i := entries[last]][..last];
      }
      if ok {
        forall q: Pattern
          ensures Get(entries, q) == if q != p then Get(before, q) else if action == noAction then None else Some(action)
        {
          PutGets(before, entries, p, action, noAction, q);
        }
      }
    }

    /** The action of `start` if it is configured and no configured pattern goes on from it. */
    method TryPredictFinalAction(start: Pattern) returns (r: Option<A>)
      requires Valid()
      ensures r == Predict(entries, start)
      ensures r.Some? <==> Get(entries, start).Some? && forall q: Pattern ::
                q != start && Decode(start) <= Decode(q) ==> Get(entries, q) == None
      ensures r.Some? ==> r == Get(entries, start)
    {
      PredictExact(entries, start);
      var at := Find(entries, start);
      if at == |entries| {
        return None;
      }
      var i := 0;
      while i < |entries|
        invariant 0 <= i <= |entries|
        invariant forall k :: 0 <= k < i ==> !GoesOn(entries[k].pattern, start)
      {
        if entries[i].pattern != start && StartsWith(entries[i].pattern, start) {
          return None;
        }
        i := i + 1;
      }
      r := Some(entries[at].action);
    }

    method HasPatternOrContinuation(start: Pattern) returns (r: bool)
      requires Valid()
      ensures r <==> CanGoOn(entries, start)
    {
      var i := 0;
      while i < |entries|
        invariant 0 <= i <= |entries|
        invariant forall k :: 0 <= k < i ==> !(Decode(start) <= Decode(entries[k].pattern))
      {
        StartsWithExact(entries[i].pattern, start);
        if StartsWith(entries[i].pattern, start) {
          GetIs(entries, i);
          return true;
        }
        i := i + 1;
      }
      r := false;
    }
  }

  lemma PutGets<A>(before: seq<Entry<A>>, after: seq<Entry<A>>, p: Pattern, action: A, noAction: A, q: Pattern)
    requires Distinct(before) && Distinct(after)
    requires var i := Find(before, p);
      if action != noAction then after == (if i < |before| then before[i := Entry(p, action)] else before + [Entry(p, action)])
      else if i < |before| then after == before[i := before[|before| - 1]][..|before| - 1] else after == before
    ensures Get(after, q) == if q != p then Get(before, q) else if action == noAction then None else Some(action)
  {
    var i := Find(before, p);
    var b := Find(before, q);
    if q != p && b < |before| {
      if action == noAction && i < |before| && b == |before| - 1 {
        GetIs(after, i);
      } else {
        assert after[b] == before[b];
        GetIs(after, b);
      }
    } else if q == p && action != noAction {
      GetIs(after, if i < |before| then i else |before|);
    }
  }

  // ----- Prediction -----

  /** Some configured pattern is `start` or goes on from it. */
  ghost predicate CanGoOn<A>(entries: seq<Entry<A>>, start: Pattern) {
    exists q: Pattern :: Decode(start) <= Decode(q) && Get(entries, q).Some?
  }

  /** Every pattern a key can still reach from `start` by further steps. */
  ghost predicate Reachable(start: Pattern, q: Pattern, more: Steps) {
    Decode(q) == Decode(start) + more
  }

  /** Another pattern, with `start` at its beginning. */
  predicate GoesOn(p: Pattern, start: Pattern) {
    p != start && StartsWith(p, start)
  }

  /** The action of `start` if it is configured and no configured pattern goes on from it. */
  function Predict<A>(entries: seq<Entry<A>>, start: Pattern): Option<A> {
    if forall i :: 0 <= i < |entries| ==> !GoesOn(entries[i].pattern, start) then Get(entries, start) else None
  }

  /** In terms of steps: exactly when no longer sequence is configured. */
  lemma PredictExact<A>(entries: seq<Entry<A>>, start: Pattern)
    requires Distinct(entries)
    ensures Predict(entries, start).Some? <==> Get(entries, start).Some? && forall q: Pattern ::
              q != start && Decode(start) <= Decode(q) ==> Get(entries, q) == None
  {
    forall q: Pattern
      ensures GoesOn(q, start) <==> q != start && Decode(start) <= Decode(q)
    {
      StartsWithExact(q, start);
    }
    forall i | 0 <= i < |entries|
      ensures Get(entries, entries[i].pattern).Some?
    {
      GetIs(entries, i);
    }
  }

  /**
   What prediction promises: the predicted action is the one configured here,
   and whatever steps follow, they never select any action.
   */
  lemma PredictionFinal<A>(entries: seq<Entry<A>>, start: Pattern, action: A, q: Pattern, more: Steps)
    requires Distinct(entries) && Predict(entries, start) == Some(action) && Reachable(start, q, more)
    ensures Get(entries, q) == (if more == [] then Some(action) else None)
  {
    PredictExact(entries, start);
    if more == [] {
      assert Decode(q) == Decode(start);
      EncodeDecode(start);
      EncodeDecode(q);
    } else {
      assert |Decode(q)| > |Decode(start)| && Decode(start) <= Decode(q);
    }
  }

  /** Once no pattern or continuation is configured, further steps never find one. */
  lemma DeadEndStays<A>(entries: seq<Entry<A>>, start: Pattern, q: Pattern, more: Steps)
    requires !CanGoOn(entries, start) && Reachable(start, q, more)
    ensures !CanGoOn(entries, q) && Get(entries, q) == None
  {
    if CanGoOn(entries, q) {
      var r: Pattern :| Decode(q) <= Decode(r) && Get(entries, r).Some?;
      assert Decode(start) <= Decode(r);
    }
  }
}

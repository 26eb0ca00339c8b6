/**
 Keyboard macros: operations encoded back to back in the postcard wire format,
 and the bound that decides whether a table of default macros fits the buffer.

 The encoding of a key action is a parameter: any codec whose encodings can be
 decoded with something else behind them.
 */
module Macros {
  import opened Wrappers
  import opened Varint

  // ----- Actions and operations -----

  /** How actions travel: an encoder, a decoder of prefixes, and the declared maximum size. */
  datatype Codec<!A> = Codec(encode: A -> Bytes, decode: Bytes -> Option<(A, Bytes)>, max: nat)

  /** The decoder reads a prefix, undoes the encoder, and the encoder is never longer than what it read. */
  ghost predicate ValidCodec<A(!new)>(c: Codec<A>) {
    && (forall a :: 1 <= |c.encode(a)| <= c.max && c.decode(c.encode(a)) == Some((a, [])))
    && (forall b: Bytes {:trigger DecodedPrefix(c, b)} :: c.decode(b).Some? ==> DecodedPrefix(c, b))
    && (forall b: Bytes, more: Bytes {:trigger IgnoresTail(c, b, more)} :: c.decode(b).Some? ==> IgnoresTail(c, b, more))
  }

  ghost predicate IgnoresTail<A(!new)>(c: Codec<A>, b: Bytes, more: Bytes)
    requires c.decode(b).Some?
  {
    c.decode(b + more) == Some((c.decode(b).value.0, c.decode(b).value.1 + more))
  }

  ghost predicate DecodedPrefix<A(!new)>(c: Codec<A>, b: Bytes)
    requires c.decode(b).Some?
  {
    var (a, rest) := c.decode(b).value;
    && |rest| < |b| && rest == b[|b| - |rest|..] && |c.encode(a)| <= |b| - |rest|
    && c.decode(b[..|b| - |rest|]) == Some((a, []))
  }

  datatype MacroOp<+A> =
    | Tap(action: A)
    | Press(action: A)
    | Release(action: A)
    | Delay(ms: nat)
    | Char(c: Byte)
    | PauseForRelease

  /** A delay is a 16-bit number. */
  predicate ValidOp<A>(op: MacroOp<A>) {
    op.Delay? ==> op.ms < 0x1_0000
  }

  predicate ValidOps<A>(ops: seq<MacroOp<A>>) {
    forall i :: 0 <= i < |ops| ==> ValidOp(ops[i])
  }

  function Tag<A>(op: MacroOp<A>): Byte {
    match op
    case Tap(_) => 0
    case Press(_) => 1
    case Release(_) => 2
    case Delay(_) => 3
    case Char(_) => 4
    case PauseForRelease => 5
  }

  function Payload<A>(c: Codec<A>, op: MacroOp<A>): Bytes {
    match op
    case Tap(a) => c.encode(a)
    case Press(a) => c.encode(a)
    case Release(a) => c.encode(a)
    case Delay(ms) => EncodeVarint(ms)
    case Char(ch) => [ch]
    case PauseForRelease => []
  }

  function EncodeOp<A>(c: Codec<A>, op: MacroOp<A>): Bytes {
    [Tag(op)] + Payload(c, op)
  }

  function DecodePayload<A>(c: Codec<A>, tag: nat, b: Bytes): Option<(MacroOp<A>, Bytes)> {
    if tag <= 2 then
      match c.decode(b)
      case None => None
      case Some((a, rest)) => Some((if tag == 0 then Tap(a) else if tag == 1 then Press(a) else Release(a), rest))
    else if tag == 3 then
      match DecodeVarint(b, 3, 3)
      case None => None
      case Some((ms, rest)) => Some((Delay(ms), rest))
    else if tag == 4 then (if b == [] then None else Some((Char(b[0]), b[1..])))
    else if tag == 5 then Some((PauseForRelease, b))
    else None
  }

  /** The tag is a 32-bit varint, the payload depends on it. */
  function DecodeOp<A>(c: Codec<A>, b: Bytes): Option<(MacroOp<A>, Bytes)> {
    match DecodeVarint(b, 5, 15)
    case None => None
    case Some((tag, rest)) => DecodePayload(c, tag, rest)
  }

  lemma Ranges()
    ensures VarintRange(3, 3) == 0x1_0000 && VarintRange(5, 15) == 0x1_0000_0000
  {
  }

  lemma PayloadRoundTrip<A(!new)>(c: Codec<A>, op: MacroOp<A>, rest: Bytes)
    requires ValidCodec(c) && ValidOp(op)
    ensures DecodePayload(c, Tag(op), Payload(c, op) + rest) == Some((op, rest))
  {
    match op {
      case Delay(ms) =>
        Ranges();
        VarintRoundTrip(ms, rest, 3, 3);
      case Char(ch) => assert ([ch] + rest)[1..] == rest;
      case PauseForRelease => assert [] + rest == rest;
      case Tap(a) => assert IgnoresTail(c, c.encode(a), rest) && [] + rest == rest;
      case Press(a) => assert IgnoresTail(c, c.encode(a), rest) && [] + rest == rest;
      case Release(a) => assert IgnoresTail(c, c.encode(a), rest) && [] + rest == rest;
    }
  }

  lemma OpRoundTrip<A(!new)>(c: Codec<A>, op: MacroOp<A>, rest: Bytes)
    requires ValidCodec(c) && ValidOp(op)
    ensures DecodeOp(c, EncodeOp(c, op) + rest) == Some((op, rest))
  {
    var b := EncodeOp(c, op) + rest;
    assert b[1..] == Payload(c, op) + rest;
    assert DecodeVarint(b, 5, 15) == Some((Tag(op), b[1..]));
    PayloadRoundTrip(c, op, rest);
  }

  /** Decoding a payload reads a prefix, and what follows does not matter. */
  lemma PayloadExtends<A(!new)>(c: Codec<A>, tag: nat, b: Bytes, more: Bytes)
    requires ValidCodec(c) && DecodePayload(c, tag, b).Some?
    ensures var (op, rest) := DecodePayload(c, tag, b).value;
      && |rest| <= |b| && rest == b[|b| - |rest|..]
      && DecodePayload(c, tag, b + more) == Some((op, rest + more))
  {
    if tag <= 2 {
      assert DecodedPrefix(c, b) && IgnoresTail(c, b, more);
    } else if tag == 3 {
      VarintExtends(b, more, 3, 3);
    } else if tag == 4 {
      assert (b + more)[1..] == b[1..] + more;
    }
  }

  lemma NumberRestricts(b: Bytes, left: nat, lastMax: nat)
    requires DecodeVarint(b, left, lastMax).Some? && lastMax < 128
    ensures var (v, rest) := DecodeVarint(b, left, lastMax).value;
      && v < VarintRange(left, lastMax) && |EncodeVarint(v)| <= |b| - |rest|
      && DecodeVarint(b[..|b| - |rest|], left, lastMax) == Some((v, []))
  {
    VarintMinimal(b, left, lastMax);
    VarintRestricts(b, left, lastMax);
  }

  lemma DelayPayload<A>(c: Codec<A>, b: Bytes, left: nat, lastMax: nat)
    requires left == 3 && lastMax == 3
    ensures DecodePayload(c, 3, b) ==
            match DecodeVarint(b, left, lastMax)
            case None => None
            case Some((ms, rest)) => Some((Delay(ms), rest))
  {
  }

  lemma DelayRestricts<A>(c: Codec<A>, b: Bytes, left: nat, lastMax: nat)
    requires left == 3 && lastMax == 3 && DecodePayload(c, 3, b).Some?
    ensures var (op, rest) := DecodePayload(c, 3, b).value;
      && |rest| <= |b| && ValidOp(op) && |Payload(c, op)| <= |b| - |rest|
      && DecodePayload(c, 3, b[..|b| - |rest|]) == Some((op, []))
  {
    DelayPayload(c, b, left, lastMax);
    var (ms, rest) := DecodeVarint(b, left, lastMax).value;
    NumberRestricts(b, left, lastMax);
    DelayPayload(c, b[..|b| - |rest|], left, lastMax);
    Ranges();
  }

  /** What a payload's decoding read decodes by itself, and the encoding is no longer. */
  lemma PayloadRestricts<A(!new)>(c: Codec<A>, tag: nat, b: Bytes)
    requires ValidCodec(c) && DecodePayload(c, tag, b).Some?
    ensures var (op, rest) := DecodePayload(c, tag, b).value;
      && |rest| <= |b| && ValidOp(op) && |Payload(c, op)| <= |b| - |rest|
      && DecodePayload(c, tag, b[..|b| - |rest|]) == Some((op, []))
  {
    if tag <= 2 {
      assert DecodedPrefix(c, b);
    } else if tag == 3 {
      DelayRestricts(c, b, 3, 3);
    }
  }

  lemma OpExtends<A(!new)>(c: Codec<A>, b: Bytes, more: Bytes)
    requires ValidCodec(c) && DecodeOp(c, b).Some?
    ensures var (op, rest) := DecodeOp(c, b).value;
      && |rest| < |b| && rest == b[|b| - |rest|..]
      && DecodeOp(c, b + more) == Some((op, rest + more))
  {
    var (tag, after) := DecodeVarint(b, 5, 15).value;
    VarintExtends(b, more, 5, 15);
    PayloadExtends(c, tag, after, more);
  }

  /** One decoded operation: its bytes decode by themselves, and its encoding is no longer. */
  lemma OpRestricts<A(!new)>(c: Codec<A>, b: Bytes)
    requires ValidCodec(c) && DecodeOp(c, b).Some?
    ensures var (op, rest) := DecodeOp(c, b).value;
      && |rest| < |b| && ValidOp(op) && |EncodeOp(c, op)| <= |b| - |rest|
      && DecodeOp(c, b[..|b| - |rest|]) == Some((op, []))
  {
    var (tag, after) := DecodeVarint(b, 5, 15).value;
    var (op, rest) := DecodeOp(c, b).value;
    PayloadRestricts(c, tag, after);
    var read, body := b[..|b| - |rest|], after[..|after| - |rest|];
    VarintInPrefix(b, 5, 15, after, rest, read, body);
    DecodeFrom(c, read, tag, body);
  }

  lemma DecodeFrom<A>(c: Codec<A>, b: Bytes, tag: nat, body: Bytes)
    requires DecodeVarint(b, 5, 15) == Some((tag, body))
    ensures DecodeOp(c, b) == DecodePayload(c, tag, body)
  {
  }

  /** The wire form of each kind of operation, with a delay of 300 ms for a number of two bytes. */
  lemma OpBytes<A>(c: Codec<A>, a: A, ch: Byte)
    ensures EncodeOp(c, Tap(a)) == [0] + c.encode(a)
    ensures EncodeOp(c, Press(a)) == [1] + c.encode(a)
    ensures EncodeOp(c, Release(a)) == [2] + c.encode(a)
    ensures EncodeOp(c, Delay(300)) == [3, 0xAC, 2]
    ensures EncodeOp(c, Char(ch)) == [4, ch]
    ensures EncodeOp(c, PauseForRelease) == [5]
  {
    assert EncodeVarint(2) == [2];
    assert EncodeVarint(300) == [0xAC] + EncodeVarint(2);
    assert [5] + [] == [5];
  }

  // ----- Operations back to back -----

  function EncodeAll<A>(c: Codec<A>, ops: seq<MacroOp<A>>): Bytes {
    if ops == [] then [] else EncodeOp(c, ops[0]) + EncodeAll(c, ops[1..])
  }

  /** The operations up to the first byte that starts none. */
  function DecodeAll<A(!new)>(c: Codec<A>, b: Bytes): seq<MacroOp<A>>
    requires ValidCodec(c)
    decreases |b|
  {
    match DecodeOp(c, b)
    case None => []
    case Some((op, rest)) => OpExtends(c, b, []); [op] + DecodeAll(c, rest)
  }

  /** Taking operations off the front comes to the end. */
  predicate Whole<A(!new)>(c: Codec<A>, b: Bytes)
    requires ValidCodec(c)
    decreases |b|
  {
    b == [] ||
    match DecodeOp(c, b)
    case None => false
    case Some((_, rest)) => OpExtends(c, b, []); Whole(c, rest)
  }

  lemma {:induction false} EncodeSnoc<A>(c: Codec<A>, ops: seq<MacroOp<A>>, op: MacroOp<A>)
    ensures EncodeAll(c, ops + [op]) == EncodeAll(c, ops) + EncodeOp(c, op)
    decreases ops
  {
    if ops == [] {
      assert (ops + [op])[1..] == [] && EncodeOp(c, op) + [] == EncodeOp(c, op);
    } else {
      assert (ops + [op])[1..] == ops[1..] + [op];
      EncodeSnoc(c, ops[1..], op);
    }
  }

  /** Decoding what was encoded gives the operations back, and reads every byte. */
  lemma {:induction false} AllRoundTrip<A(!new)>(c: Codec<A>, ops: seq<MacroOp<A>>)
    requires ValidCodec(c) && ValidOps(ops)
    ensures DecodeAll(c, EncodeAll(c, ops)) == ops && Whole(c, EncodeAll(c, ops))
    decreases ops
  {
    if ops != [] {
      OpRoundTrip(c, ops[0], EncodeAll(c, ops[1..]));
      AllRoundTrip(c, ops[1..]);
    }
  }

  /** Each operation takes a byte at least, and no more when encoded again. */
  lemma {:induction false} ReencodedFits<A(!new)>(c: Codec<A>, b: Bytes)
    requires ValidCodec(c)
    ensures |DecodeAll(c, b)| <= |b| && |EncodeAll(c, DecodeAll(c, b))| <= |b| && ValidOps(DecodeAll(c, b))
    decreases |b|
  {
    if DecodeOp(c, b).Some? {
      var (op, rest) := DecodeOp(c, b).value;
      OpExtends(c, b, []);
      OpRestricts(c, b);
      ReencodedFits(c, rest);
    }
  }

  // ----- Whole operations, stated without decoding in turn -----

  function Concat(chunks: seq<Bytes>): Bytes {
    if chunks == [] then [] else chunks[0] + Concat(chunks[1..])
  }

  /** The bytes of exactly one operation. */
  predicate OneOp<A>(c: Codec<A>, chunk: Bytes) {
    DecodeOp(c, chunk).Some? && DecodeOp(c, chunk).value.1 == []
  }

  ghost predicate MadeOfOps<A>(c: Codec<A>, b: Bytes) {
    exists chunks :: Concat(chunks) == b && forall i :: 0 <= i < |chunks| ==> OneOp(c, chunks[i])
  }

  lemma {:induction false} WholeSplits<A(!new)>(c: Codec<A>, b: Bytes) returns (chunks: seq<Bytes>)
    requires ValidCodec(c) && Whole(c, b)
    ensures Concat(chunks) == b && forall i :: 0 <= i < |chunks| ==> OneOp(c, chunks[i])
    decreases |b|
  {
    if b == [] {
      chunks := [];
    } else {
      var rest := DecodeOp(c, b).value.1;
      FirstOp(c, b);
      var others := WholeSplits(c, rest);
      chunks := [b[..|b| - |rest|]] + others;
      assert chunks[1..] == others;
    }
  }

  lemma FirstOp<A(!new)>(c: Codec<A>, b: Bytes)
    requires ValidCodec(c) && DecodeOp(c, b).Some?
    ensures var rest := DecodeOp(c, b).value.1;
      |rest| < |b| && OneOp(c, b[..|b| - |rest|]) && b == b[..|b| - |rest|] + rest
  {
    OpExtends(c, b, []);
    OpRestricts(c, b);
  }

  lemma {:induction false} ConcatWhole<A(!new)>(c: Codec<A>, chunks: seq<Bytes>)
    requires ValidCodec(c) && forall i :: 0 <= i < |chunks| ==> OneOp(c, chunks[i])
    ensures Whole(c, Concat(chunks))
    decreases chunks
  {
    if chunks != [] {
      var rest := Concat(chunks[1..]);
      OpExtends(c, chunks[0], rest);
      assert [] + rest == rest;
      ConcatWhole(c, chunks[1..]);
    }
  }

  /** A byte string is whole exactly when it is some operations' bytes put together. */
  lemma WholeIff<A(!new)>(c: Codec<A>, b: Bytes)
    requires ValidCodec(c)
    ensures Whole(c, b) <==> MadeOfOps(c, b)
  {
    if Whole(c, b) {
      var chunks := WholeSplits(c, b);
    }
    if MadeOfOps(c, b) {
      var chunks :| Concat(chunks) == b && forall i :: 0 <= i < |chunks| ==> OneOp(c, chunks[i]);
      ConcatWhole(c, chunks);
    }
  }

  // ----- The macro object -----

  class Macro<A(!new)> {
    const c: Codec<A>
    const space: nat
    var bytes: Bytes

    ghost predicate Valid()
      reads this
    {
      ValidCodec(c) && |bytes| <= space
    }

    constructor (c: Codec<A>, space: nat)
      requires ValidCodec(c)
      ensures Valid() && bytes == [] && this.c == c && this.space == space
    {
      this.c, this.space, bytes := c, space, [];
    }

    /** Append `op`, or change nothing when it does not fit. */
    method Push(op: MacroOp<A>) returns (ok: bool)
      requires Valid()
      modifies this`bytes
      ensures Valid()
      ensures ok <==> |old(bytes)| + |EncodeOp(c, op)| <= space
      ensures bytes == if ok then old(bytes) + EncodeOp(c, op) else old(bytes)
    {
      var encoded := EncodeOp(c, op);
      ok := |bytes| + |encoded| <= space;
      if ok {
        bytes := bytes + encoded;
      }
    }

    /** Push the operations one by one until one does not fit. */
    method PushAll(ops: seq<MacroOp<A>>) returns (ok: bool)
      requires Valid() && bytes == []
      modifies this`bytes
      ensures Valid()
      ensures ok <==> |EncodeAll(c, ops)| <= space
      ensures ok ==> bytes == EncodeAll(c, ops)
    {
      var i := 0;
      while i < |ops|
        invariant 0 <= i <= |ops| && Valid() && bytes == EncodeAll(c, ops[..i])
      {
        EncodeSnoc(c, ops[..i], ops[i]);
        assert ops[..i + 1] == ops[..i] + [ops[i]];
        ok := Push(ops[i]);
        if !ok {
          PrefixNoLonger(c, ops, i + 1);
          return;
        }
        i := i + 1;
      }
      assert ops[..i] == ops;
      ok := true;
    }

    /** The operations, one after the other off the front of the bytes. */
    method Ops() returns (ops: seq<MacroOp<A>>)
      requires Valid()
      ensures ops == DecodeAll(c, bytes)
    {
      ops := [];
      var rest := bytes;
      while DecodeOp(c, rest).Some?
        invariant ops + DecodeAll(c, rest) == DecodeAll(c, bytes)
        decreases |rest|
      {
        var (op, tail) := DecodeOp(c, rest).value;
        OpExtends(c, rest, []);
        ops := ops + [op];
        rest := tail;
      }
    }

    /** Take over `input` if it is made of whole operations that fit. */
    method FromBytes(input: Bytes) returns (ok: bool)
      requires Valid()
      modifies this`bytes
      ensures Valid()
      ensures ok <==> MadeOfOps(c, input) && |input| <= space
      ensures bytes == if ok then input else old(bytes)
    {
      WholeIff(c, input);
      var rest := input;
      while rest != []
        invariant Valid() && bytes == old(bytes) && Whole(c, input) == Whole(c, rest)
        decreases |rest|
      {
        var decoded := DecodeOp(c, rest);
        if decoded.None? {
          return false;
        }
        OpExtends(c, rest, []);
        rest := decoded.value.1;
      }
      ok := |input| <= space;
      if ok {
        bytes := input;
      }
    }
  }

  lemma {:induction false} PrefixNoLonger<A>(c: Codec<A>, ops: seq<MacroOp<A>>, n: nat)
    requires n <= |ops|
    ensures |EncodeAll(c, ops[..n])| <= |EncodeAll(c, ops)|
    decreases ops
  {
    if n > 0 {
      assert ops[..n][1..] == ops[1..][..n - 1];
      PrefixNoLonger(c, ops[1..], n - 1);
    }
  }

  // ----- Serialization -----

  /** A macro travels as the list of its operations: their count, then each of them. */
  function Serialize<A(!new)>(c: Codec<A>, b: Bytes): Bytes
    requires ValidCodec(c)
  {
    EncodeVarint(|DecodeAll(c, b)|) + EncodeAll(c, DecodeAll(c, b))
  }

  /** Decode `count` operations and push each. */
  function DeserializeOps<A(!new)>(c: Codec<A>, space: nat, count: nat, b: Bytes, acc: Bytes): Option<(Bytes, Bytes)>
    decreases count
  {
    if count == 0 then Some((acc, b))
    else
      match DecodeOp(c, b)
      case None => None
      case Some((op, rest)) =>
        if |acc| + |EncodeOp(c, op)| > space then None
        else DeserializeOps(c, space, count - 1, rest, acc + EncodeOp(c, op))
  }

  function Deserialize<A(!new)>(c: Codec<A>, space: nat, b: Bytes): Option<(Bytes, Bytes)> {
    match DecodeVarint(b, 10, 1)
    case None => None
    case Some((count, rest)) => DeserializeOps(c, space, count, rest, [])
  }

  /** The serialized list of a macro built by pushing is its stored bytes behind their count. */
  lemma SerializedIsStored<A(!new)>(c: Codec<A>, ops: seq<MacroOp<A>>)
    requires ValidCodec(c) && ValidOps(ops)
    ensures Serialize(c, EncodeAll(c, ops)) == EncodeVarint(|ops|) + EncodeAll(c, ops)
  {
    AllRoundTrip(c, ops);
  }

  /** No macro serializes to more than the declared maximum, however its bytes came about. */
  lemma SerializedBound<A(!new)>(c: Codec<A>, space: nat, b: Bytes)
    requires ValidCodec(c) && |b| <= space
    ensures |Serialize(c, b)| <= VarintMaxSize(space) + space
  {
    ReencodedFits(c, b);
    VarintMonotone(|DecodeAll(c, b)|, space);
    VarintMaxSizeExact(space);
  }

  lemma {:induction false} OpsDeserialize<A(!new)>(
    c: Codec<A>, space: nat, ops: seq<MacroOp<A>>, acc: Bytes, b: Bytes, more: Bytes, result: Bytes)
    requires ValidCodec(c) && ValidOps(ops) && |result| <= space
    requires b == EncodeAll(c, ops) + more && result == acc + EncodeAll(c, ops)
    ensures DeserializeOps(c, space, |ops|, b, acc) == Some((result, more))
    decreases ops
  {
    if ops == [] {
      assert b == more && result == acc;
    } else {
      var e, tail := EncodeOp(c, ops[0]), EncodeAll(c, ops[1..]);
      Regroup(e, tail, more);
      Regroup(acc, e, tail);
      OpRoundTrip(c, ops[0], tail + more);
      DeserializeOne(c, space, |ops|, b, acc, ops[0], tail + more);
      OpsDeserialize(c, space, ops[1..], acc + e, tail + more, more, result);
    }
  }

  lemma Regroup(x: Bytes, y: Bytes, z: Bytes)
    ensures (x + y) + z == x + (y + z)
  {
  }

  lemma DeserializeOne<A(!new)>(
    c: Codec<A>, space: nat, count: nat, b: Bytes, acc: Bytes, op: MacroOp<A>, rest: Bytes)
    requires count > 0 && DecodeOp(c, b) == Some((op, rest)) && |acc| + |EncodeOp(c, op)| <= space
    ensures DeserializeOps(c, space, count, b, acc) == DeserializeOps(c, space, count - 1, rest, acc + EncodeOp(c, op))
  {
  }

  /** A list that does not fit is refused as a whole. */
  lemma {:induction false} OpsRefused<A(!new)>(
    c: Codec<A>, space: nat, ops: seq<MacroOp<A>>, acc: Bytes, b: Bytes, more: Bytes)
    requires ValidCodec(c) && ValidOps(ops) && |acc| <= space < |acc| + |EncodeAll(c, ops)|
    requires b == EncodeAll(c, ops) + more
    ensures DeserializeOps(c, space, |ops|, b, acc) == None
    decreases ops
  {
    var e, tail := EncodeOp(c, ops[0]), EncodeAll(c, ops[1..]);
    Regroup(e, tail, more);
    OpRoundTrip(c, ops[0], tail + more);
    if |acc| + |e| <= space {
      DeserializeOne(c, space, |ops|, b, acc, ops[0], tail + more);
      OpsRefused(c, space, ops[1..], acc + e, tail + more, more);
    }
  }

  lemma DeserializeCounted<A(!new)>(c: Codec<A>, space: nat, b: Bytes, count: nat, rest: Bytes)
    requires DecodeVarint(b, 10, 1) == Some((count, rest))
    ensures Deserialize(c, space, b) == DeserializeOps(c, space, count, rest, [])
  {
  }

  lemma CountRange()
    ensures VarintRange(10, 1) == 0x1_0000_0000_0000_0000
  {
  }

  lemma ListDeserializes<A(!new)>(
    c: Codec<A>, space: nat, ops: seq<MacroOp<A>>, all: Bytes, encoded: Bytes, more: Bytes)
    requires ValidCodec(c) && ValidOps(ops) && |ops| < 0x1_0000_0000_0000_0000 && |encoded| <= space
    requires encoded == EncodeAll(c, ops) && all == EncodeVarint(|ops|) + (encoded + more)
    ensures Deserialize(c, space, all) == Some((encoded, more))
  {
    CountRange();
    VarintRoundTrip(|ops|, encoded + more, 10, 1);
    DeserializeCounted(c, space, all, |ops|, encoded + more);
    assert [] + encoded == encoded;
    OpsDeserialize(c, space, ops, [], encoded + more, more, encoded);
  }

  lemma LongListRefused<A(!new)>(
    c: Codec<A>, space: nat, ops: seq<MacroOp<A>>, all: Bytes, encoded: Bytes, more: Bytes)
    requires ValidCodec(c) && ValidOps(ops) && |ops| < 0x1_0000_0000_0000_0000 && |encoded| > space
    requires encoded == EncodeAll(c, ops) && all == EncodeVarint(|ops|) + (encoded + more)
    ensures Deserialize(c, space, all) == None
  {
    CountRange();
    VarintRoundTrip(|ops|, encoded + more, 10, 1);
    DeserializeCounted(c, space, all, |ops|, encoded + more);
    OpsRefused(c, space, ops, [], encoded + more, more);
  }

  /** A macro's operations stay the same when they are encoded again. */
  lemma ReencodedSame<A(!new)>(c: Codec<A>, b: Bytes)
    requires ValidCodec(c)
    ensures DecodeAll(c, EncodeAll(c, DecodeAll(c, b))) == DecodeAll(c, b)
  {
    ReencodedFits(c, b);
    AllRoundTrip(c, DecodeAll(c, b));
  }

  /** What was serialized is read back as the macro's operations, minimally encoded. */
  lemma DeserializeSerialized<A(!new)>(c: Codec<A>, space: nat, b: Bytes, ops: seq<MacroOp<A>>, more: Bytes)
    requires ValidCodec(c) && |b| <= space < 0x1_0000_0000_0000_0000 && ops == DecodeAll(c, b)
    ensures Deserialize(c, space, Serialize(c, b) + more) == Some((EncodeAll(c, ops), more))
  {
    ReencodedFits(c, b);
    var count, encoded := EncodeVarint(|ops|), EncodeAll(c, ops);
    assert (count + encoded) + more == count + (encoded + more);
    ListDeserializes(c, space, ops, (count + encoded) + more, encoded, more);
  }

  // ----- Default macros -----

  function OpBound<A>(c: Codec<A>, op: MacroOp<A>): nat {
    1 + match op
        case Char(_) => 1
        case PauseForRelease => 0
        case Delay(ms) => VarintMaxSize(ms)
        case _ => c.max
  }

  function OpsBound<A>(c: Codec<A>, ops: seq<MacroOp<A>>): nat {
    if ops == [] then 0 else OpsBound(c, ops[..|ops| - 1]) + OpBound(c, ops[|ops| - 1])
  }

  /** The size the check counts for one macro: the bound on its operations behind their length. */
  function MacroBound<A>(c: Codec<A>, ops: seq<MacroOp<A>>): nat {
    OpsBound(c, ops) + VarintMaxSize(OpsBound(c, ops))
  }

  /** The size the firmware really needs for it. */
  function StoredSize<A>(c: Codec<A>, ops: seq<MacroOp<A>>): nat {
    |EncodeVarint(|EncodeAll(c, ops)|)| + |EncodeAll(c, ops)|
  }

  function TableBound<A>(c: Codec<A>, macros: seq<seq<MacroOp<A>>>): nat {
    if macros == [] then 0 else TableBound(c, macros[..|macros| - 1]) + MacroBound(c, macros[|macros| - 1])
  }

  function TableSize<A>(c: Codec<A>, macros: seq<seq<MacroOp<A>>>): nat {
    if macros == [] then 0 else TableSize(c, macros[..|macros| - 1]) + StoredSize(c, macros[|macros| - 1])
  }

  predicate Playable<A>(ops: seq<MacroOp<A>>) {
    && (forall i :: 0 <= i < |ops| && ops[i].Char? ==> ops[i].c < 128)
    && (forall i, j :: 0 <= i < j < |ops| && ops[i].PauseForRelease? ==> !ops[j].PauseForRelease?)
  }

  method MacroSize<A>(c: Codec<A>, ops: seq<MacroOp<A>>) returns (size: nat)
    ensures size == MacroBound(c, ops)
  {
    var len := 0;
    for i := 0 to |ops|
      invariant len == OpsBound(c, ops[..i])
    {
      assert ops[..i + 1][..i] == ops[..i];
      len := len + 1 + match ops[i]
                       case Char(_) => 1
                       case PauseForRelease => 0
                       case Delay(ms) => VarintMaxSize(ms)
                       case _ => c.max;
    }
    assert ops[..|ops|] == ops;
    size := len + VarintMaxSize(len);
  }

  method CheckPlayable<A>(ops: seq<MacroOp<A>>) returns (ok: bool)
    ensures ok <==> Playable(ops)
  {
    var paused := false;
    var i := 0;
    while i < |ops|
      invariant 0 <= i <= |ops| && Playable(ops[..i])
      invariant paused <==> exists k :: 0 <= k < i && ops[k].PauseForRelease?
    {
      match ops[i] {
        case Char(ch) =>
          if ch >= 128 {
            return false;
          }
        case PauseForRelease =>
          if paused {
            return false;
          }
          paused := true;
        case _ =>
      }
      i := i + 1;
    }
    assert ops[..i] == ops;
    ok := true;
  }

  /** The build-time check: enough slots, every macro playable, and the sum of the bounds within the space. */
  method ValidateDefaultMacros<A>(c: Codec<A>, macros: seq<seq<MacroOp<A>>>, maxNum: nat, space: nat) returns (ok: bool)
    ensures ok <==>
      && |macros| <= maxNum && (forall i :: 0 <= i < |macros| ==> Playable(macros[i]))
      && (maxNum - |macros|) * MacroBound(c, []) + TableBound(c, macros) <= space
  {
    if |macros| > maxNum {
      return false;
    }
    var empty := MacroSize(c, []);
    ghost var unused := (maxNum - |macros|) * MacroBound(c, []);
    var total := (maxNum - |macros|) * empty;
    var m := 0;
    while m < |macros|
      invariant 0 <= m <= |macros| && total == unused + TableBound(c, macros[..m])
      invariant forall i :: 0 <= i < m ==> Playable(macros[i])
    {
      var playable := CheckPlayable(macros[m]);
      if !playable {
        return false;
      }
      var size := MacroSize(c, macros[m]);
      assert macros[..m + 1][..m] == macros[..m];
      total := total + size;
      m := m + 1;
    }
    assert macros[..m] == macros;
    ok := total <= space;
  }

  lemma {:induction false} OpsBoundHolds<A(!new)>(c: Codec<A>, ops: seq<MacroOp<A>>)
    requires ValidCodec(c)
    ensures |EncodeAll(c, ops)| <= OpsBound(c, ops)
  {
    if ops != [] {
      var front, op := ops[..|ops| - 1], ops[|ops| - 1];
      OpsBoundHolds(c, front);
      EncodeSnoc(c, front, op);
      assert ops == front + [op];
      if op.Delay? {
        VarintMaxSizeExact(op.ms);
      }
    }
  }

  lemma StoredWithinBound<A(!new)>(c: Codec<A>, ops: seq<MacroOp<A>>)
    requires ValidCodec(c)
    ensures StoredSize(c, ops) <= MacroBound(c, ops)
  {
    OpsBoundHolds(c, ops);
    VarintMonotone(|EncodeAll(c, ops)|, OpsBound(c, ops));
    VarintMaxSizeExact(OpsBound(c, ops));
  }

  lemma {:induction false} TableWithinBound<A(!new)>(c: Codec<A>, macros: seq<seq<MacroOp<A>>>)
    requires ValidCodec(c)
    ensures TableSize(c, macros) <= TableBound(c, macros)
    decreases macros
  {
    if macros != [] {
      TableWithinBound(c, macros[..|macros| - 1]);
      StoredWithinBound(c, macros[|macros| - 1]);
    }
  }

  lemma {:induction false} PartOfTable<A(!new)>(c: Codec<A>, macros: seq<seq<MacroOp<A>>>, i: nat)
    requires i < |macros|
    ensures StoredSize(c, macros[i]) <= TableSize(c, macros)
    decreases macros
  {
    if i < |macros| - 1 {
      PartOfTable(c, macros[..|macros| - 1], i);
    }
  }

  lemma EmptySlot<A>(c: Codec<A>)
    ensures MacroBound(c, []) == 1 == StoredSize(c, [])
  {
  }

  lemma ByOne(n: nat, one: nat)
    requires one == 1
    ensures n * one == n
  {
  }

  /**
   A table the check accepts really fits: the length-prefixed encodings of all
   its macros and a length byte for every unused slot, and each macro by itself.
   */
  lemma AcceptedTableFits<A(!new)>(c: Codec<A>, macros: seq<seq<MacroOp<A>>>, maxNum: nat, space: nat)
    requires ValidCodec(c) && |macros| <= maxNum
    requires (maxNum - |macros|) * MacroBound(c, []) + TableBound(c, macros) <= space
    ensures (maxNum - |macros|) * StoredSize(c, []) + TableSize(c, macros) <= space
    ensures forall i :: 0 <= i < |macros| ==> |EncodeAll(c, macros[i])| <= space
  {
    TableWithinBound(c, macros);
    EmptySlot(c);
    ByOne(maxNum - |macros|, MacroBound(c, []));
    ByOne(maxNum - |macros|, StoredSize(c, []));
    forall i | 0 <= i < |macros|
      ensures |EncodeAll(c, macros[i])| <= space
    {
      PartOfTable(c, macros, i);
    }
  }

  // ----- How tight the bound is -----

  predicate HasAction<A>(op: MacroOp<A>) {
    op.Tap? || op.Press? || op.Release?
  }

  /** The bound is the exact size of an operation without an action; an action counts as its maximum. */
  lemma OpBoundExact<A(!new)>(c: Codec<A>, op: MacroOp<A>)
    ensures if HasAction(op) then OpBound(c, op) == 1 + c.max else OpBound(c, op) == |EncodeOp(c, op)|
  {
    if op.Delay? {
      VarintMaxSizeExact(op.ms);
    }
  }

  lemma {:induction false} OpsBoundExact<A(!new)>(c: Codec<A>, ops: seq<MacroOp<A>>)
    requires forall i :: 0 <= i < |ops| ==> !HasAction(ops[i])
    ensures OpsBound(c, ops) == |EncodeAll(c, ops)|
    decreases ops
  {
    if ops != [] {
      var front, op := ops[..|ops| - 1], ops[|ops| - 1];
      OpsBoundExact(c, front);
      OpBoundExact(c, op);
      EncodeSnoc(c, front, op);
      assert ops == front + [op];
    }
  }

  lemma {:induction false} TableBoundExact<A(!new)>(c: Codec<A>, macros: seq<seq<MacroOp<A>>>)
    requires forall m, i :: 0 <= m < |macros| && 0 <= i < |macros[m]| ==> !HasAction(macros[m][i])
    ensures TableBound(c, macros) == TableSize(c, macros)
    decreases macros
  {
    if macros != [] {
      var last := macros[|macros| - 1];
      TableBoundExact(c, macros[..|macros| - 1]);
      OpsBoundExact(c, last);
      VarintMaxSizeExact(OpsBound(c, last));
    }
  }

  /** So a table of text, delays and pauses is refused only if it really does not fit. */
  lemma TextTableFitsIff<A(!new)>(c: Codec<A>, macros: seq<seq<MacroOp<A>>>, maxNum: nat, space: nat)
    requires |macros| <= maxNum
    requires forall m, i :: 0 <= m < |macros| && 0 <= i < |macros[m]| ==> !HasAction(macros[m][i])
    ensures (maxNum - |macros|) * MacroBound(c, []) + TableBound(c, macros) <= space <==>
            (maxNum - |macros|) + TableSize(c, macros) <= space
  {
    TableBoundExact(c, macros);
    EmptySlot(c);
    ByOne(maxNum - |macros|, MacroBound(c, []));
  }
}

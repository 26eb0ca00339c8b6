/**
 Unsigned numbers in the postcard wire format: seven bits a byte, low bits
 first, every byte but the last with its top bit set.
 */
module Varint {
  import opened Wrappers
  import opened Arithmetic

  type Byte = x: nat | x < 256

  type Bytes = seq<Byte>

  function EncodeVarint(n: nat): (r: Bytes)
    ensures |r| >= 1
  {
    if n < 128 then [n] else [n % 128 + 128] + EncodeVarint(n / 128)
  }

  /** The bytes a number takes. */
  function VarintSize(n: nat): nat {
    |EncodeVarint(n)|
  }

  /** At most `left` bytes, the last of which may be at most `lastMax`. */
  function DecodeVarint(bytes: Bytes, left: nat, lastMax: nat): (r: Option<(nat, Bytes)>)
    ensures r.Some? ==> |r.value.1| < |bytes| && r.value.1 == bytes[|bytes| - |r.value.1|..]
    decreases bytes
  {
    if bytes == [] || left == 0 then None
    else if bytes[0] < 128 then (if left == 1 && bytes[0] > lastMax then None else Some((bytes[0], bytes[1..])))
    else
      match DecodeVarint(bytes[1..], left - 1, lastMax)
      case None => None
      case Some((v, rest)) => Some((bytes[0] - 128 + 128 * v, rest))
  }

  /** One more than the largest number that fits. */
  function VarintRange(left: nat, lastMax: nat): nat
    decreases left
  {
    if left <= 1 then lastMax + 1 else 128 * VarintRange(left - 1, lastMax)
  }

  lemma SplitBelow(n: nat, range: nat)
    ensures n < 128 * range ==> n / 128 < range
    ensures n % 128 + 128 * (n / 128) == n
  {
  }

  lemma DecodeCarry(bytes: Bytes, left: nat, lastMax: nat, v: nat, rest: Bytes)
    requires left >= 1 && bytes != [] && bytes[0] >= 128
    requires DecodeVarint(bytes[1..], left - 1, lastMax) == Some((v, rest))
    ensures DecodeVarint(bytes, left, lastMax) == Some((bytes[0] - 128 + 128 * v, rest))
  {
  }

  lemma ShortRoundTrip(n: nat, rest: Bytes, left: nat, lastMax: nat)
    requires n < 128 && left >= 1 && (left == 1 ==> n <= lastMax)
    ensures DecodeVarint([n] + rest, left, lastMax) == Some((n, rest))
  {
    var bytes: Bytes := [n] + rest;
    assert bytes[0] == n && bytes[1..] == rest;
  }

  lemma EncodeStep(n: nat)
    requires n >= 128
    ensures EncodeVarint(n) == [n % 128 + 128] + EncodeVarint(n / 128)
  {
  }

  lemma HeadAndTail(low: Byte, high: Bytes, rest: Bytes, bytes: Bytes)
    requires bytes == ([low] + high) + rest
    ensures bytes != [] && bytes[0] == low && bytes[1..] == high + rest
  {
  }

  lemma CarryRoundTrip(n: nat, rest: Bytes, left: nat, lastMax: nat, tail: Bytes)
    requires n >= 128 && left >= 1 && tail == EncodeVarint(n / 128) + rest
    requires DecodeVarint(tail, left - 1, lastMax) == Some((n / 128, rest))
    ensures DecodeVarint(EncodeVarint(n) + rest, left, lastMax) == Some((n, rest))
  {
    var bytes: Bytes := EncodeVarint(n) + rest;
    EncodeStep(n);
    HeadAndTail(n % 128 + 128, EncodeVarint(n / 128), rest, bytes);
    DecodeCarry(bytes, left, lastMax, n / 128, rest);
  }

  lemma {:induction false} VarintRoundTrip(n: nat, rest: Bytes, left: nat, lastMax: nat)
    requires left >= 1 && lastMax < 128 && n < VarintRange(left, lastMax)
    ensures DecodeVarint(EncodeVarint(n) + rest, left, lastMax) == Some((n, rest))
    decreases left
  {
    if n < 128 {
      ShortRoundTrip(n, rest, left, lastMax);
    } else {
      SplitBelow(n, VarintRange(left - 1, lastMax));
      VarintRoundTrip(n / 128, rest, left - 1, lastMax);
      CarryRoundTrip(n, rest, left, lastMax, EncodeVarint(n / 128) + rest);
    }
  }

  /** Decoding reads a prefix: what follows does not matter. */
  lemma {:induction false} VarintExtends(bytes: Bytes, more: Bytes, left: nat, lastMax: nat)
    requires DecodeVarint(bytes, left, lastMax).Some?
    ensures var (v, rest) := DecodeVarint(bytes, left, lastMax).value;
      DecodeVarint(bytes + more, left, lastMax) == Some((v, rest + more))
    decreases left
  {
    assert (bytes + more)[1..] == bytes[1..] + more;
    if bytes[0] >= 128 {
      VarintExtends(bytes[1..], more, left - 1, lastMax);
    }
  }

  /** The encoder never spends more bytes than the decoder read. */
  lemma {:induction false} VarintMinimal(bytes: Bytes, left: nat, lastMax: nat)
    requires DecodeVarint(bytes, left, lastMax).Some?
    ensures var (v, rest) := DecodeVarint(bytes, left, lastMax).value;
      |EncodeVarint(v)| <= |bytes| - |rest|
    decreases left
  {
    if bytes[0] >= 128 {
      VarintMinimal(bytes[1..], left - 1, lastMax);
      var (v, rest) := DecodeVarint(bytes[1..], left - 1, lastMax).value;
      assert (bytes[0] - 128 + 128 * v) / 128 == v;
    }
  }

  /** The length computed from the position of the highest set bit. */
  function VarintMaxSize(n: nat): nat {
    if n == 0 then 1 else (BitLength(n) + 6) / 7
  }

  /** It is the exact length of the encoding. */
  lemma {:induction false} VarintMaxSizeExact(n: nat)
    ensures VarintMaxSize(n) == |EncodeVarint(n)|
    decreases n
  {
    if n < 128 {
      ShortBitLength(n);
    } else {
      VarintMaxSizeExact(n / 128);
      SevenBits(n);
    }
  }

  lemma ShortBitLength(n: nat)
    requires n < 128
    ensures BitLength(n) <= 7 && (n > 0 ==> BitLength(n) >= 1)
  {
    assert BitLength(n / 2 / 2 / 2 / 2 / 2 / 2 / 2) == 0;
    assert BitLength(n / 2 / 2 / 2 / 2 / 2 / 2) <= 1;
    assert BitLength(n / 2 / 2 / 2 / 2 / 2) <= 2;
    assert BitLength(n / 2 / 2 / 2 / 2) <= 3;
    assert BitLength(n / 2 / 2 / 2) <= 4;
    assert BitLength(n / 2 / 2) <= 5;
    assert BitLength(n / 2) <= 6;
  }

  lemma SevenBits(n: nat)
    requires n >= 128
    ensures BitLength(n) == 7 + BitLength(n / 128)
  {
    assert n / 2 / 2 / 2 / 2 / 2 / 2 / 2 == n / 128;
    assert BitLength(n / 2 / 2 / 2 / 2 / 2 / 2) == 1 + BitLength(n / 128);
    assert BitLength(n / 2 / 2 / 2 / 2 / 2) == 2 + BitLength(n / 128);
    assert BitLength(n / 2 / 2 / 2 / 2) == 3 + BitLength(n / 128);
    assert BitLength(n / 2 / 2 / 2) == 4 + BitLength(n / 128);
    assert BitLength(n / 2 / 2) == 5 + BitLength(n / 128);
    assert BitLength(n / 2) == 6 + BitLength(n / 128);
  }

  lemma {:induction false} VarintMonotone(m: nat, n: nat)
    requires m <= n
    ensures |EncodeVarint(m)| <= |EncodeVarint(n)|
    decreases n
  {
    if m >= 128 {
      VarintMonotone(m / 128, n / 128);
    }
  }

  lemma {:induction false} VarintRestricts(bytes: Bytes, left: nat, lastMax: nat)
    requires DecodeVarint(bytes, left, lastMax).Some?
    ensures var (v, rest) := DecodeVarint(bytes, left, lastMax).value;
      && DecodeVarint(bytes[..|bytes| - |rest|], left, lastMax) == Some((v, []))
      && (lastMax < 128 ==> v < VarintRange(left, lastMax))
    decreases left
  {
    var (v, rest) := DecodeVarint(bytes, left, lastMax).value;
    var read := bytes[..|bytes| - |rest|];
    assert read[1..] == bytes[1..][..|bytes| - 1 - |rest|];
    if bytes[0] >= 128 {
      VarintRestricts(bytes[1..], left - 1, lastMax);
    } else if left > 1 {
      RangeAtLeast(left, lastMax);
    }
  }

  lemma {:induction false} RangeAtLeast(left: nat, lastMax: nat)
    requires left > 1
    ensures VarintRange(left, lastMax) >= 128
    decreases left
  {
    if left > 2 {
      RangeAtLeast(left - 1, lastMax);
    }
  }

  /** A number's own bytes, followed by anything, decode to the number and the rest. */
  lemma VarintThen(bytes: Bytes, body: Bytes, left: nat, lastMax: nat)
    requires DecodeVarint(bytes, left, lastMax).Some?
    ensures var (v, rest) := DecodeVarint(bytes, left, lastMax).value;
      DecodeVarint(bytes[..|bytes| - |rest|] + body, left, lastMax) == Some((v, body))
  {
    var (v, rest) := DecodeVarint(bytes, left, lastMax).value;
    VarintRestricts(bytes, left, lastMax);
    VarintExtends(bytes[..|bytes| - |rest|], body, left, lastMax);
    assert [] + body == body;
  }

  lemma SliceOfSlice(b: Bytes, after: Bytes, rest: Bytes)
    requires |rest| <= |after| <= |b| && after == b[|b| - |after|..]
    ensures b[..|b| - |rest|] == b[..|b| - |after|] + after[..|after| - |rest|]
  {
  }

  lemma VarintInPrefix(b: Bytes, left: nat, lastMax: nat, after: Bytes, rest: Bytes, read: Bytes, body: Bytes)
    requires DecodeVarint(b, left, lastMax).Some? && DecodeVarint(b, left, lastMax).value.1 == after && |rest| <= |after|
    requires read == b[..|b| - |rest|] && body == after[..|after| - |rest|]
    ensures DecodeVarint(read, left, lastMax) == Some((DecodeVarint(b, left, lastMax).value.0, body))
  {
    VarintThen(b, body, left, lastMax);
    SliceOfSlice(b, after, rest);
  }

  // ----- What the bytes are -----

  function Pow128(k: nat): (p: nat)
    ensures p > 0
  {
    if k == 0 then 1 else 128 * Pow128(k - 1)
  }

  lemma DigitStep(n: nat, k: nat)
    ensures n / 128 / Pow128(k) == n / Pow128(k + 1)
  {
    DivideInTwo(n, Pow128(k), 128);
  }

  /**
   Byte `k` holds bits `7 * k` to `7 * k + 6` of the number, and its top bit says
   whether more bytes follow; there are as many as the number needs.
   */
  lemma {:induction false} VarintDigits(n: nat, k: nat)
    requires k < |EncodeVarint(n)|
    ensures EncodeVarint(n)[k] % 128 == n / Pow128(k) % 128
    ensures EncodeVarint(n)[k] >= 128 <==> k + 1 < |EncodeVarint(n)|
    ensures k + 1 < |EncodeVarint(n)| <==> n / Pow128(k) >= 128
    decreases k
  {
    if k > 0 {
      VarintDigits(n / 128, k - 1);
      DigitStep(n, k - 1);
      assert EncodeVarint(n)[k] == EncodeVarint(n / 128)[k - 1];
    }
  }
}
